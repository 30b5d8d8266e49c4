/**
  The coordinate-list file format line by line: the `key=<int>` header lines and the
  `(<row>, <col>, <value>)` entry lines, with the entry rendering that reads back unchanged.
*/
module EntryFormat {
  import opened Wrappers
  import opened Text

  /** One parsed entry line. */
  datatype Entry = Entry(row: int, col: int, value: int)

  /** Why loading a matrix from lines fails. */
  datatype LoadError =
    | MissingHeaderLine   // `lines[0]` or `lines[1]` does not exist (IndexError)
    | MissingHeaderValue  // a header line has no `=` (IndexError on `split('=')[1]`)
    | HeaderNotInteger    // the text after `=` is not an integer (ValueError from `int`)
    | WrongFormat         // an entry line is malformed ("Input file has wrong format")

  /**
    `_parse_entry`: the stripped line must start with `(` and end with `)`, the text between
    them must split at commas into exactly three fields, and every stripped field must be an
    integer. A failure is `None` (the source raises ValueError).
  */
  function ParseEntry(line: string): (r: Option<Entry>)
    ensures r.Some? ==> var t := Strip(line); |t| >= 2 && t[0] == '(' && t[|t| - 1] == ')'
  {
    ParseBracketed(Strip(line))
  }

  /** The stripped line: parentheses around comma-separated fields. */
  function ParseBracketed(t: string): (r: Option<Entry>)
    ensures r.Some? ==> |t| >= 2 && t[0] == '(' && t[|t| - 1] == ')'
  {
    if !(|t| > 0 && t[0] == '(' && t[|t| - 1] == ')') then None
    else ParseFields(Split(t[1..|t| - 1], ','))
  }

  /** Exactly three fields, each an integer once stripped. */
  function ParseFields(parts: seq<string>): (r: Option<Entry>)
    ensures r.Some? ==> |parts| == 3
  {
    if |parts| != 3 then None
    else
      var row, col, value := ParseInt(Strip(parts[0])), ParseInt(Strip(parts[1])), ParseInt(Strip(parts[2]));
      if row.Some? && col.Some? && value.Some? then Some(Entry(row.value, col.value, value.value))
      else None
  }

  /** The entry line spelled out from its three fields. */
  function EntryText(f0: string, f1: string, f2: string): string
  {
    "(" + f0 + "," + f1 + "," + f2 + ")"
  }

  /**
    Every line `ParseEntry` accepts is, once stripped, a parenthesised list of three
    comma-free fields whose stripped forms are the integers returned.
  */
  lemma ParseEntrySound(line: string)
    requires ParseEntry(line).Some?
    ensures exists f0, f1, f2 ::
      && ',' !in f0 && ',' !in f1 && ',' !in f2
      && Strip(line) == EntryText(f0, f1, f2)
      && ParseInt(Strip(f0)) == Some(ParseEntry(line).value.row)
      && ParseInt(Strip(f1)) == Some(ParseEntry(line).value.col)
      && ParseInt(Strip(f2)) == Some(ParseEntry(line).value.value)
  {
    var t := Strip(line);
    ParseEntryParts(line);
    var parts := Split(t[1..|t| - 1], ',');
    EntryTextOfParts(t);
    FieldsWitness(t, parts, ParseEntry(line).value);
  }

  lemma FieldsWitness(t: string, parts: seq<string>, e: Entry)
    requires |parts| == 3 && ',' !in parts[0] && ',' !in parts[1] && ',' !in parts[2]
    requires t == EntryText(parts[0], parts[1], parts[2])
    requires ParseInt(Strip(parts[0])) == Some(e.row) && ParseInt(Strip(parts[1])) == Some(e.col)
    requires ParseInt(Strip(parts[2])) == Some(e.value)
    ensures exists f0, f1, f2 ::
      && ',' !in f0 && ',' !in f1 && ',' !in f2
      && t == EntryText(f0, f1, f2)
      && ParseInt(Strip(f0)) == Some(e.row) && ParseInt(Strip(f1)) == Some(e.col)
      && ParseInt(Strip(f2)) == Some(e.value)
  {
    var f0, f1, f2 := parts[0], parts[1], parts[2];
    assert t == EntryText(f0, f1, f2);
  }

  /** A parenthesised text whose inside splits into three fields is those fields spelled out. */
  lemma EntryTextOfParts(t: string)
    requires |t| >= 2 && t[0] == '(' && t[|t| - 1] == ')'
    requires |Split(t[1..|t| - 1], ',')| == 3
    ensures var parts := Split(t[1..|t| - 1], ',');
      && ',' !in parts[0] && ',' !in parts[1] && ',' !in parts[2]
      && t == EntryText(parts[0], parts[1], parts[2])
  {
    var inner := t[1..|t| - 1];
    var parts := Split(inner, ',');
    SplitPieces(inner, ',');
    JoinThree(parts, ',');
    Bracketed(t, inner, parts[0], parts[1], parts[2]);
  }

  /** A text in parentheses whose inside is `f0,f1,f2` is `EntryText(f0, f1, f2)`. */
  lemma Bracketed(t: string, inner: string, f0: string, f1: string, f2: string)
    requires |t| >= 2 && t[0] == '(' && t[|t| - 1] == ')' && inner == t[1..|t| - 1]
    requires inner == f0 + [','] + f1 + [','] + f2
    ensures t == EntryText(f0, f1, f2)
  {
    assert t == "(" + inner + ")";
  }

  lemma JoinThree(parts: seq<string>, sep: char)
    requires |parts| == 3
    ensures Join(parts, sep) == parts[0] + [sep] + parts[1] + [sep] + parts[2]
  {
    var tail := parts[1..];
    assert tail[1..] == [parts[2]];
    assert Join(tail[1..], sep) == parts[2];
    assert Join(tail, sep) == parts[1] + [sep] + parts[2];
    assert Join(parts, sep) == parts[0] + [sep] + Join(tail, sep);
  }

  /** What a successful `ParseEntry` has looked at. */
  lemma ParseEntryParts(line: string)
    requires ParseEntry(line).Some?
    ensures |Strip(line)| >= 2 && Strip(line)[0] == '(' && Strip(line)[|Strip(line)| - 1] == ')'
    ensures |Split(Strip(line)[1..|Strip(line)| - 1], ',')| == 3
    ensures ParseInt(Strip(Split(Strip(line)[1..|Strip(line)| - 1], ',')[0])) == Some(ParseEntry(line).value.row)
    ensures ParseInt(Strip(Split(Strip(line)[1..|Strip(line)| - 1], ',')[1])) == Some(ParseEntry(line).value.col)
    ensures ParseInt(Strip(Split(Strip(line)[1..|Strip(line)| - 1], ',')[2])) == Some(ParseEntry(line).value.value)
  {
  }

  /** The text between the parentheses of an entry line. */
  lemma EntryTextInner(f0: string, f1: string, f2: string)
    ensures var t := EntryText(f0, f1, f2);
      |t| >= 2 && t[0] == '(' && t[|t| - 1] == ')' && t[1..|t| - 1] == f0 + [','] + f1 + [','] + f2
  {
  }

  /** Three comma-free fields joined by commas split back into those fields. */
  lemma SplitThree(f0: string, f1: string, f2: string)
    requires ',' !in f0 && ',' !in f1 && ',' !in f2
    ensures Split(f0 + [','] + f1 + [','] + f2, ',') == [f0, f1, f2]
  {
    SplitFirst(f0, ',', f1 + [','] + f2);
    SplitFirst(f1, ',', f2);
    SplitPlain(f2, ',');
    assert f0 + [','] + f1 + [','] + f2 == f0 + [','] + (f1 + [','] + f2);
  }

  lemma ParseEntryOfFields(line: string, f0: string, f1: string, f2: string)
    requires var t := Strip(line);
      |t| >= 2 && t[0] == '(' && t[|t| - 1] == ')' && Split(t[1..|t| - 1], ',') == [f0, f1, f2]
    requires ParseInt(Strip(f0)).Some? && ParseInt(Strip(f1)).Some? && ParseInt(Strip(f2)).Some?
    ensures ParseEntry(line) ==
      Some(Entry(ParseInt(Strip(f0)).value, ParseInt(Strip(f1)).value, ParseInt(Strip(f2)).value))
  {
    assert ParseEntry(line) == ParseFields([f0, f1, f2]);
  }

  /**
    Conversely, every line of that shape is accepted with exactly those integers; so a line is
    rejected if and only if it does not have the shape.
  */
  lemma ParseEntryComplete(line: string, f0: string, f1: string, f2: string)
    requires ',' !in f0 && ',' !in f1 && ',' !in f2
    requires Strip(line) == EntryText(f0, f1, f2)
    requires ParseInt(Strip(f0)).Some? && ParseInt(Strip(f1)).Some? && ParseInt(Strip(f2)).Some?
    ensures ParseEntry(line) ==
      Some(Entry(ParseInt(Strip(f0)).value, ParseInt(Strip(f1)).value, ParseInt(Strip(f2)).value))
  {
    EntryTextInner(f0, f1, f2);
    SplitThree(f0, f1, f2);
    ParseEntryOfFields(line, f0, f1, f2);
  }

  /** An entry written the way the format shows it: `(<row>, <col>, <value>)`. */
  function FormatEntry(e: Entry): (line: string)
    ensures |line| >= 2 && line[0] == '(' && line[|line| - 1] == ')'
  {
    EntryText(IntToString(e.row), " " + IntToString(e.col), " " + IntToString(e.value))
  }

  /** Reading back a written entry gives the same entry. */
  lemma ParseFormatEntry(e: Entry)
    ensures FormatEntry(e) != [] && Strip(FormatEntry(e)) == FormatEntry(e)
    ensures ParseEntry(FormatEntry(e)) == Some(e)
  {
    var f0, f1, f2 := IntToString(e.row), " " + IntToString(e.col), " " + IntToString(e.value);
    var line := FormatEntry(e);
    assert line == EntryText(f0, f1, f2);
    StripTrimmed(line);
    ReadField(f0, [], e.row);
    ReadPadded(e.col);
    ReadPadded(e.value);
    ParseEntryComplete(line, f0, f1, f2);
  }

  lemma ReadPadded(n: int)
    ensures ',' !in " " + IntToString(n) && ParseInt(Strip(" " + IntToString(n))) == Some(n)
  {
    ReadField(" " + IntToString(n), " ", n);
  }

  /** A field written as some blanks and then `str(n)` has no comma and reads back as `n`. */
  lemma ReadField(f: string, blanks: string, n: int)
    requires forall k :: 0 <= k < |blanks| ==> blanks[k] == ' '
    requires f == blanks + IntToString(n)
    ensures ',' !in f && ParseInt(Strip(f)) == Some(n)
  {
    var digits := IntToString(n);
    StripSpacePrefix(blanks, digits);
    StripTrimmed(digits);
    assert Strip(f) == digits;
    ParseIntToString(n);
    NoCommaAfterBlanks(blanks, digits);
  }

  lemma NoCommaAfterBlanks(blanks: string, digits: string)
    requires forall k :: 0 <= k < |blanks| ==> blanks[k] == ' '
    requires ',' !in digits
    ensures ',' !in blanks + digits
  {
    var f := blanks + digits;
    forall k | 0 <= k < |f| ensures f[k] != ',' {
      if k >= |blanks| { assert f[k] == digits[k - |blanks|]; }
    }
  }

  /**
    A dimension line, `int(line.split('=')[1].strip())`: the integer between the first `=` and
    the next one (or the end of the line). The key before `=` is not looked at.
  */
  function ParseHeader(line: string): (r: Result<int, LoadError>)
    ensures r == Err(MissingHeaderValue) <==> '=' !in line
    ensures r.Err? ==> r.error == MissingHeaderValue || r.error == HeaderNotInteger
  {
    var parts := Split(line, '=');
    if |parts| < 2 then
      assert '=' !in line by { SplitPieces(line, '='); }
      Err(MissingHeaderValue)
    else
      assert '=' in line by { if '=' !in line { SplitPlain(line, '='); } }
      match ParseInt(Strip(parts[1]))
      case None => Err(HeaderNotInteger)
      case Some(n) => Ok(n)
  }

  /**
    Every header line with an `=` is some `=`-free key, `=`, an `=`-free value text and a rest that
    is empty or starts with `=`; the line reads as `int` of the stripped value text, or fails with
    `HeaderNotInteger` exactly when that text is not an integer.
  */
  lemma ParseHeaderSound(line: string) returns (key: string, v: string, tail: string)
    requires '=' in line
    ensures '=' !in key && '=' !in v && (tail == [] || tail[0] == '=')
    ensures line == key + "=" + v + tail
    ensures ParseHeader(line) ==
      (if ParseInt(Strip(v)).Some? then Ok(ParseInt(Strip(v)).value) else Err(HeaderNotInteger))
  {
    var parts := Split(line, '=');
    SplitPieces(line, '=');
    key, v := parts[0], parts[1];
    tail := if |parts| > 2 then "=" + Join(parts[2..], '=') else [];
    assert Join(parts, '=') == key + "=" + Join(parts[1..], '=');
    assert parts[1..][1..] == parts[2..];
    assert Join(parts[1..], '=') == v + tail;
  }

  /** Conversely, any line of that shape reads as `int` of its stripped value text. */
  lemma ParseHeaderComplete(key: string, v: string, tail: string)
    requires '=' !in key && '=' !in v && (tail == [] || tail[0] == '=')
    ensures ParseHeader(key + "=" + v + tail) ==
      (if ParseInt(Strip(v)).Some? then Ok(ParseInt(Strip(v)).value) else Err(HeaderNotInteger))
  {
    assert key + "=" + v + tail == key + ['='] + (v + tail);
    SplitFirst(key, '=', v + tail);
    if tail == [] {
      assert v + tail == v;
      SplitPlain(v, '=');
    } else {
      assert v + tail == v + ['='] + tail[1..];
      SplitFirst(v, '=', tail[1..]);
    }
  }

  /** A dimension line `key=<n>` with the value rendered by `str`, ending in `\n` as `readlines` keeps it. */
  function HeaderLine(key: string, n: int): string
  {
    key + "=" + IntToString(n) + "\n"
  }

  /** A header `key=<n>\n` (any key without `=`, any value rendered by `str`) reads back as `n`. */
  lemma ParseHeaderText(key: string, n: int)
    requires '=' !in key
    ensures ParseHeader(HeaderLine(key, n)) == Ok(n)
  {
    var v := IntToString(n);
    ParseHeaderComplete(key, v + "\n", []);
    assert key + "=" + (v + "\n") + [] == HeaderLine(key, n);
    StripLineEnd(v);
    ParseIntToString(n);
  }
}
