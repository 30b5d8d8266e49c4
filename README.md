# Sparse integer matrices in Dafny

A model of a small sparse-matrix library. A matrix has a number of rows, a number of columns and a
dictionary of keys mapping `(row, col)` to the nonzero values. Absent keys read as 0. Matrices are
read from a coordinate-list text file: a `rows=<n>` line, a `cols=<n>` line, then one
`(<row>, <col>, <value>)` line per entry, with blank lines allowed. They are added, subtracted and
multiplied through the same element accessors.

Files:

- `wrappers.dfy`: `Option` and `Result`.
- `text.dfy`: the string and integer handling the file format relies on. This is `str.strip()`,
  `str.split(sep)`, `int(s)` on a stripped decimal literal and `str(n)`, with the round trip
  `int(str(n)) == n`.
- `entry_format.dfy`: the entry-line parser `_parse_entry`, characterised in both directions. It
  also has the header-line parser and the `(r, c, v)` rendering of an entry, which reads back
  unchanged.
- `sparse_matrix.dfy`: the `SparseMatrix` class (`numRows`, `numCols`, `elements`) with
  `GetElement` and `SetElement`, the loader `LoadLines`, and `FromLines`, the constructor that
  loads from lines. The specification functions are `At`, `Put`, `ApplyEntries` and `Load`. It
  ends with the round trip "write a matrix as a file, load it back, get the same matrix".
- `arithmetic.dfy`: `AddMatrices`, `SubtractMatrices` and `MultiplyMatrices`, each proved against
  a specification. The specifications are the cell-wise `Sum` and `Difference`, and `RowProduct`,
  the sum over stored entries of `a` that defines a product cell. When every stored column of `a`
  lies in `[0, n)`, `RowProduct` is also shown equal to the dense row-by-column product over
  `k < n`. Coordinates are never checked against the dimensions, so an entry stored outside them
  still counts in `RowProduct`.

The storage invariant is `Valid()`: no stored value is 0. `SetElement` keeps it, the loader keeps
it, and the arithmetic results have it. Under it, a matrix is determined by the values of its
cells (`SameCells`). Dictionary and set iteration order is modelled as an arbitrary choice of the
next key, so every loop is proved for any visiting order.

The key before the first `=` of a header line is not checked: `lines[0].split('=')[1]` ignores
it, and so does `ParseHeader`.

## Model

| member | source | states |
|---|---|---|
| Text.IsSpace | dsa/sparse_matrix/sample_inputs/sparse_matrix.py:25 | the whitespace `strip` removes; no whitespace character is a digit or one of `(` `)` `,` `=` `+` `-`, so stripping never eats part of an entry |
| Text.TrimLeft | dsa/sparse_matrix/sample_inputs/sparse_matrix.py:25 | the left half of `strip`: the result is never longer than the input |
| Text.TrimLeftFacts | dsa/sparse_matrix/sample_inputs/sparse_matrix.py:25 | `TrimLeft` keeps a suffix, that suffix starts with a non-space, and everything it dropped is whitespace |
| Text.TrimRight | dsa/sparse_matrix/sample_inputs/sparse_matrix.py:25 | the right half of `strip`: the result is never longer than the input |
| Text.TrimRightFacts | dsa/sparse_matrix/sample_inputs/sparse_matrix.py:25 | `TrimRight` keeps a prefix, that prefix ends with a non-space, and everything it dropped is whitespace |
| Text.Strip | dsa/sparse_matrix/sample_inputs/sparse_matrix.py:17 | `line.strip()` is empty exactly when the line is all whitespace (the blank-line test); otherwise both its ends are non-space |
| Text.StripInfix | dsa/sparse_matrix/sample_inputs/sparse_matrix.py:25 | `strip` keeps one contiguous piece of the line and removes only whitespace on both sides of it |
| Text.TrimmedSuffix | dsa/sparse_matrix/sample_inputs/sparse_matrix.py:25 | a prefix of a suffix is an infix, and whitespace dropped from the suffix is whitespace of the whole |
| Text.StripTrimmed | dsa/sparse_matrix/sample_inputs/sparse_matrix.py:25 | `strip` leaves alone a string whose ends are not whitespace |
| Text.StripLineEnd | dsa/sparse_matrix/sample_inputs/sparse_matrix.py:13-17 | a line as `readlines` returns it, text followed by `\n`, strips to the text when the text's ends are not whitespace |
| Text.TrimLeftSpacePrefix | dsa/sparse_matrix/sample_inputs/sparse_matrix.py:31-33 | `lstrip` removes any all-whitespace prefix completely |
| Text.StripSpacePrefix | dsa/sparse_matrix/sample_inputs/sparse_matrix.py:31-33 | leading blanks in a field (`(1, 2, 3)`) make no difference once the field is stripped |
| Text.Split | dsa/sparse_matrix/sample_inputs/sparse_matrix.py:28 | `split(',')` always returns at least one piece |
| Text.SplitPieces | dsa/sparse_matrix/sample_inputs/sparse_matrix.py:28 | no piece contains the separator, and joining the pieces with it gives back the string |
| Text.SplitPlain | dsa/sparse_matrix/sample_inputs/sparse_matrix.py:28 | a string without the separator splits into itself alone |
| Text.SplitFirst | dsa/sparse_matrix/sample_inputs/sparse_matrix.py:28 | the pieces of `p + sep + t`, for `p` without `sep`, are `p` followed by the pieces of `t` |
| Text.SplitJoin | dsa/sparse_matrix/sample_inputs/sparse_matrix.py:28 | splitting the join of separator-free pieces gives those pieces back (the inverse of `SplitPieces`) |
| Text.DigitsValue | dsa/sparse_matrix/sample_inputs/sparse_matrix.py:31-33 | the value `int` gives a run of decimal digits; it is 0 exactly when every digit is `0` |
| Text.NatToString | dsa/sparse_matrix/sample_inputs/sparse_matrix.py:46 | `str(n)` of a natural number is a nonempty run of decimal digits with no leading zero except for 0 |
| Text.IntToString | dsa/sparse_matrix/sample_inputs/sparse_matrix.py:46 | `str(i)` is nonempty, has non-space ends, and contains none of `,` `=` `(` `)` |
| Text.ParseInt | dsa/sparse_matrix/sample_inputs/sparse_matrix.py:31-33 | `int(field.strip())` accepts an optional sign and decimal digits; a successful read is nonempty, and a negative one starts with `-` |
| Text.DigitsValueOfNatToString | dsa/sparse_matrix/sample_inputs/sparse_matrix.py:31-33 | the digits `str(n)` writes have the value `n` |
| Text.ParseIntToString | dsa/sparse_matrix/sample_inputs/sparse_matrix.py:31-33 | `int(str(i)) == i` for every integer `i` |
| EntryFormat.ParseEntry | dsa/sparse_matrix/sample_inputs/sparse_matrix.py:24-34 | `_parse_entry`: a successful parse had a stripped line starting with `(` and ending with `)` (full characterisation in `ParseEntrySound`/`ParseEntryComplete`) |
| EntryFormat.ParseBracketed | dsa/sparse_matrix/sample_inputs/sparse_matrix.py:26-28 | the parenthesis test: a successful parse had a bracketed text of length at least 2 |
| EntryFormat.ParseFields | dsa/sparse_matrix/sample_inputs/sparse_matrix.py:29-34 | the field count test: a successful parse had exactly three fields |
| EntryFormat.ParseEntryParts | dsa/sparse_matrix/sample_inputs/sparse_matrix.py:24-34 | a successful parse had the parentheses and three fields, and the three results are `int` of the stripped fields, in order |
| EntryFormat.EntryTextOfParts | dsa/sparse_matrix/sample_inputs/sparse_matrix.py:28 | a bracketed text whose inside splits into three fields is `(` f0 `,` f1 `,` f2 `)` with comma-free fields |
| EntryFormat.Bracketed | dsa/sparse_matrix/sample_inputs/sparse_matrix.py:26-28 | a text in parentheses whose inside is `f0,f1,f2` is `(f0,f1,f2)` |
| EntryFormat.ParseEntrySound | dsa/sparse_matrix/sample_inputs/sparse_matrix.py:24-34 | every accepted line is, once stripped, `(f0,f1,f2)` with comma-free fields whose stripped forms are the returned row, column and value |
| EntryFormat.JoinThree | dsa/sparse_matrix/sample_inputs/sparse_matrix.py:28 | joining three pieces puts one separator between each pair |
| EntryFormat.EntryTextInner | dsa/sparse_matrix/sample_inputs/sparse_matrix.py:28 | `line[1:-1]` of `(f0,f1,f2)` is `f0,f1,f2` |
| EntryFormat.SplitThree | dsa/sparse_matrix/sample_inputs/sparse_matrix.py:28-29 | three comma-free fields joined by commas split back into exactly those three |
| EntryFormat.ParseEntryOfFields | dsa/sparse_matrix/sample_inputs/sparse_matrix.py:24-34 | a bracketed line that splits into three integer fields parses to those three integers |
| EntryFormat.ParseEntryComplete | dsa/sparse_matrix/sample_inputs/sparse_matrix.py:24-34 | conversely, every line that strips to `(f0,f1,f2)` with comma-free integer fields is accepted with exactly those integers, so a line is rejected iff it lacks that shape |
| EntryFormat.FormatEntry | dsa/sparse_matrix/sample_inputs/sparse_matrix.py:46 | the `(r, c, v)` rendering of one entry starts with `(` and ends with `)`, as the entry parser requires |
| EntryFormat.ParseFormatEntry | dsa/sparse_matrix/sample_inputs/sparse_matrix.py:24-34 | an entry written as `(r, c, v)`, the way `__str__` writes it, is nonblank, already stripped, and parses back to the same entry |
| EntryFormat.ReadPadded | dsa/sparse_matrix/sample_inputs/sparse_matrix.py:31-33 | a field ` <str(n)>` has no comma and reads back as `n` |
| EntryFormat.ReadField | dsa/sparse_matrix/sample_inputs/sparse_matrix.py:31-33 | a field of blanks followed by `str(n)` has no comma and reads back as `n` |
| EntryFormat.NoCommaAfterBlanks | dsa/sparse_matrix/sample_inputs/sparse_matrix.py:28 | blanks followed by a comma-free text contain no comma |
| EntryFormat.ParseHeader | dsa/sparse_matrix/sample_inputs/sparse_matrix.py:14-15 | `int(line.split('=')[1].strip())`: fails with the missing-value error exactly when the line has no `=`, and otherwise can only fail because the text is not an integer (which integer it reads is stated by `ParseHeaderSound`) |
| EntryFormat.ParseHeaderSound | dsa/sparse_matrix/sample_inputs/sparse_matrix.py:14-15 | every header line with an `=` is an `=`-free key, `=`, an `=`-free value text and a rest that is empty or starts with `=`; it reads as `int` of the stripped value text, and fails as not an integer exactly when that text is not one |
| EntryFormat.ParseHeaderComplete | dsa/sparse_matrix/sample_inputs/sparse_matrix.py:14-15 | conversely, every line of that shape reads as `int` of its stripped value text, whatever the key and whatever follows a second `=` |
| EntryFormat.ParseHeaderText | dsa/sparse_matrix/sample_inputs/sparse_matrix.py:14-15 | a header line `key=str(n)` with its `\n`, for any `=`-free key, reads back as `n` |
| SparseMatrices.At | dsa/sparse_matrix/sample_inputs/sparse_matrix.py:37 | `elements.get((row, col), 0)`: under the no-zero invariant a cell reads nonzero exactly when its key is stored |
| SparseMatrices.SameCells | dsa/sparse_matrix/sample_inputs/sparse_matrix.py:36-43 | two dictionaries that keep the no-zero invariant and agree on every cell are equal |
| SparseMatrices.Put | dsa/sparse_matrix/sample_inputs/sparse_matrix.py:39-43 | after `set_element(r, c, v)` the cell reads `v`, every other cell is unchanged, the no-zero invariant is kept, and writing 0 to an absent key changes nothing |
| SparseMatrices.SparseMatrix.constructor | dsa/sparse_matrix/sample_inputs/sparse_matrix.py:4-7 | a new matrix has the given dimensions and no elements |
| SparseMatrices.SparseMatrix.GetElement | dsa/sparse_matrix/sample_inputs/sparse_matrix.py:36-37 | the stored value for a present key, 0 for an absent one, any coordinates; under the invariant nonzero iff stored |
| SparseMatrices.SparseMatrix.SetElement | dsa/sparse_matrix/sample_inputs/sparse_matrix.py:39-43 | the new dictionary is `Put` of the old one, the dimensions are unchanged, and the invariant is kept |
| SparseMatrices.SparseMatrix.LoadLines | dsa/sparse_matrix/sample_inputs/sparse_matrix.py:11-22 | the loop over the lines reports an error exactly when `Load` does, and that same error; on success the object holds `Load`'s dimensions and elements |
| SparseMatrices.ApplyLine | dsa/sparse_matrix/sample_inputs/sparse_matrix.py:17-22 | one loaded line keeps the no-zero invariant |
| SparseMatrices.ApplyEntries | dsa/sparse_matrix/sample_inputs/sparse_matrix.py:16-22 | the whole entry loop keeps the no-zero invariant |
| SparseMatrices.ApplyLineFails | dsa/sparse_matrix/sample_inputs/sparse_matrix.py:17-22 | a line is rejected exactly when it is neither blank nor a well-formed entry |
| SparseMatrices.ApplyEntriesIsFold | dsa/sparse_matrix/sample_inputs/sparse_matrix.py:16-22 | the entry loop is the generic line fold with `ApplyLine` as its step |
| SparseMatrices.FoldFailingLine | dsa/sparse_matrix/sample_inputs/sparse_matrix.py:16-22 | a failed fold names a line the step rejects |
| SparseMatrices.FoldFailsAt | dsa/sparse_matrix/sample_inputs/sparse_matrix.py:16-22 | one rejected line anywhere makes the whole fold fail |
| SparseMatrices.FoldKeeps | dsa/sparse_matrix/sample_inputs/sparse_matrix.py:16-20 | a cell no line touches keeps its value through the fold |
| SparseMatrices.FoldLastWrite | dsa/sparse_matrix/sample_inputs/sparse_matrix.py:16-20 | the last line that touches a cell decides its value |
| SparseMatrices.ApplyEntriesFails | dsa/sparse_matrix/sample_inputs/sparse_matrix.py:16-22 | loading fails ("wrong format") if and only if some non-blank line is not a well-formed entry |
| SparseMatrices.ApplyLineWrite | dsa/sparse_matrix/sample_inputs/sparse_matrix.py:17-20 | an entry line sets its own cell to its value and leaves every other cell alone; a blank line changes nothing |
| SparseMatrices.ApplyLineCell | dsa/sparse_matrix/sample_inputs/sparse_matrix.py:17-20 | the same, for every starting matrix and every line at once |
| SparseMatrices.ApplyEntriesKeeps | dsa/sparse_matrix/sample_inputs/sparse_matrix.py:16-20 | a cell that no entry line names keeps the value it had before loading |
| SparseMatrices.ApplyEntriesLastWrite | dsa/sparse_matrix/sample_inputs/sparse_matrix.py:16-20 | a cell holds the value of the last entry line that names it, so a later duplicate overwrites an earlier one |
| SparseMatrices.ApplyEntriesLastWriteStored | dsa/sparse_matrix/sample_inputs/sparse_matrix.py:16-20 | loading into a new matrix, the cell is stored exactly when its last entry's value is nonzero, so a `(r, c, 0)` entry leaves nothing stored |
| SparseMatrices.Load | dsa/sparse_matrix/sample_inputs/sparse_matrix.py:11-22 | a successful load keeps the no-zero invariant |
| SparseMatrices.WritesFormatEntry | dsa/sparse_matrix/sample_inputs/sparse_matrix.py:17-20 | a written entry line parses to its entry and writes exactly its own cell |
| SparseMatrices.WritesParsed | dsa/sparse_matrix/sample_inputs/sparse_matrix.py:17-20 | every line that `_parse_entry` accepts, newline and padding included, writes exactly the cell of the entry it reads |
| SparseMatrices.EntryLinesReadAs | dsa/sparse_matrix/sample_inputs/sparse_matrix.py:24-34 | every written entry line, `(r, c, v)` followed by `\n`, parses to its entry |
| SparseMatrices.LinesCell | dsa/sparse_matrix/sample_inputs/sparse_matrix.py:16-20 | loading lines that list a matrix's stored cells gives every cell its value in that matrix |
| SparseMatrices.LinesLoad | dsa/sparse_matrix/sample_inputs/sparse_matrix.py:16-22 | lines that list the stored cells of a matrix, in any order, load to exactly that matrix |
| SparseMatrices.LoadOf | dsa/sparse_matrix/sample_inputs/sparse_matrix.py:11-22 | two readable headers followed by loadable entry lines give those dimensions and those elements |
| SparseMatrices.LoadFileLines | dsa/sparse_matrix/sample_inputs/sparse_matrix.py:11-22 | writing a matrix as the lines of a coordinate-list file, each ending in `\n` as `readlines` returns them, and loading them back gives the same dimensions and elements |
| SparseMatrices.FromLines | dsa/sparse_matrix/sample_inputs/sparse_matrix.py:4-9 | `SparseMatrix(file_path=...)`: a fresh valid matrix holding what `Load` computes from empty elements, or `Load`'s error |
| Arithmetic.Sum | dsa/sparse_matrix/sample_inputs/sparse_matrix.py:54-55 | every cell of the sum is the sum of the cells; only keys of the operands are stored, and none is 0 |
| Arithmetic.Difference | dsa/sparse_matrix/sample_inputs/sparse_matrix.py:63-64 | every cell of the difference is the difference of the cells; only keys of the operands are stored, and none is 0 |
| Arithmetic.SumCommutes | dsa/sparse_matrix/sample_inputs/sparse_matrix.py:54-55 | `add(A, B)` and `add(B, A)` have the same elements |
| Arithmetic.SumOfDifference | dsa/sparse_matrix/sample_inputs/sparse_matrix.py:49-65 | `add(subtract(A, B), B)` has the elements of `A` |
| Arithmetic.SumEmpty | dsa/sparse_matrix/sample_inputs/sparse_matrix.py:54-55 | adding an empty matrix changes nothing |
| Arithmetic.AddMatrices | dsa/sparse_matrix/sample_inputs/sparse_matrix.py:49-56 | fails exactly when the row or column counts differ; otherwise returns a fresh valid matrix of the same shape whose elements are `Sum`, whatever order the key union is visited in; the operands are not modified |
| Arithmetic.SubtractMatrices | dsa/sparse_matrix/sample_inputs/sparse_matrix.py:58-65 | fails exactly when the shapes differ; otherwise returns a fresh valid matrix of the same shape whose elements are `Difference`; the operands are not modified |
| Arithmetic.RowProduct | dsa/sparse_matrix/sample_inputs/sparse_matrix.py:72-76 | the product cell `(i, j)`, summed over stored entries of `a` in any order; it is 0 whenever `b` stores nothing |
| Arithmetic.RowProductRemove | dsa/sparse_matrix/sample_inputs/sparse_matrix.py:72-76 | any stored entry of `a` can be taken out of a product cell's sum first, so the visiting order of `a`'s entries does not matter |
| Arithmetic.RowProductOtherRows | dsa/sparse_matrix/sample_inputs/sparse_matrix.py:72-76 | entries of `a` outside row `i` contribute nothing to row `i` of the product |
| Arithmetic.RowProductDenseUpTo | dsa/sparse_matrix/sample_inputs/sparse_matrix.py:72-76 | the sparse sum over `a`'s entries in columns `[0, n)` of row `i` equals the dense sum of `a[i,k] * b[k,j]` for `0 <= k < n` |
| Arithmetic.RowProductIsDense | dsa/sparse_matrix/sample_inputs/sparse_matrix.py:67-77 | when every stored column of `a` is in `[0, n)`, a product cell is the textbook row-by-column product |
| Arithmetic.MultiplyMatrices | dsa/sparse_matrix/sample_inputs/sparse_matrix.py:67-77 | fails exactly when `a.numCols != b.numRows`; otherwise returns a fresh valid `a.numRows x b.numCols` matrix whose cell `(i, j)` is the sum of `a[(i,k)] * b.get(k, j)` over stored `(i, k)` for `0 <= j < b.numCols`, and 0 for other `j`; the operands are not modified |

## Left out

- `main` (console menu, `input`, `print`, a hard-coded path) is not part of this model.
- `__str__` is not modelled. Its `(r, c, v)` rendering of one entry appears as `FormatEntry`,
  only to state the write-then-load round trip. That round trip (`FileLines`, `LoadFileLines`) is
  not something the source implements.
- Opening and reading the file: the loader takes the file's lines as a `seq<string>`.
- ParseInt: accepts only an optional sign and ASCII decimal digits. Python's `int` also accepts
  underscores between digits and non-ASCII decimal digits; such lines are rejected here.
- ParseInt: does not model CPython's limit on the length of a decimal string (`sys.int_max_str_digits`,
  4300 by default since 3.11 and in the 3.10.7, 3.9.14 and 3.8.14 releases, and configurable).
  Above it `int` raises `ValueError`, so the source rejects a header or entry field with more
  digits; here such a field reads as its value. ParseHeader, ParseEntryComplete and
  ApplyEntriesFails inherit this: their "fails exactly when" holds for fields within the limit.
- IsSpace: covers the characters below U+0100 that Python treats as whitespace. Unicode spaces
  above that (such as U+2000 to U+200A and U+3000) are not treated as whitespace here.
- LoadLines: the elements a failed load leaves in the object are not specified. The source
  raises, and the half-loaded object is never returned.
- The exceptions are modelled as error values (`LoadError`, `ArithmeticError`); the message texts
  are not.
- Dictionary and set iteration order is not modelled; every loop is proved for any order.
- Python integers are unbounded, and so are Dafny's, so there is no overflow to model (the
  digit-count limit on reading them is the ParseInt line above).
