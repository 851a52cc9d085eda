/** The backend's CSV pipeline: validate a hex field, parse one
    `file,text,number,hex` row, parse a whole file (header first, invalid
    rows dropped), and turn downloaded `{filename, content}` pairs into
    `{file, lines}` records. */
module CsvParser {
  import opened JsValues
  import opened Strings

  const HexLength: nat := 32
  const RequiredFields: nat := 4

  /** One accepted row; the row's own `file` column is not kept. */
  datatype ParsedLine = ParsedLine(text: string, number: int, hex: string)

  /** A downloaded file; `content` is `None` for `null` or a non-string. */
  datatype RawFile = RawFile(filename: string, content: Option<string>)

  /** One entry of the API's response. */
  datatype FileRecord = FileRecord(file: string, lines: seq<ParsedLine>)

  predicate IsHexChar(c: char) {
    '0' <= c <= '9' || 'a' <= c <= 'f' || 'A' <= c <= 'F'
  }

  /** The anchored pattern `[0-9a-fA-F]{count}$`, matched from the start of
      `s` one character at a time. */
  function MatchesHexRun(s: string, count: nat): bool
    decreases count
  {
    if count == 0 then s == []
    else
      s != [] && IsHexChar(s[0]) && MatchesHexRun(s[1..], count - 1)
  }

  /** `isValidHex`: a truthy string of length 32 that matches
      `^[0-9a-fA-F]{32}$`. */
  predicate IsValidHex(hex: Option<string>) {
    hex.Some? && hex.value != [] && |hex.value| == HexLength
    && MatchesHexRun(hex.value, HexLength)
  }

  /** The pattern matches exactly the strings of `count` hex digits. */
  lemma {:induction false} MatchesHexRunSpec(s: string, count: nat)
    ensures MatchesHexRun(s, count) <==> |s| == count && forall i :: 0 <= i < |s| ==> IsHexChar(s[i])
    decreases count
  {
    if count > 0 && s != [] {
      MatchesHexRunSpec(s[1..], count - 1);
      assert forall i :: 1 <= i < |s| ==> s[i] == s[1..][i - 1];
    }
  }

  /** `isValidHex` accepts exactly the strings of 32 characters from
      `0-9a-fA-F`, and rejects `null`, `undefined` and non-strings. */
  lemma IsValidHexSpec(hex: Option<string>)
    ensures IsValidHex(hex) <==>
              hex.Some? && |hex.value| == HexLength
              && forall i :: 0 <= i < |hex.value| ==> IsHexChar(hex.value[i])
  {
    if hex.Some? {
      MatchesHexRunSpec(hex.value, HexLength);
    }
  }

  /** What every record the parser returns satisfies: its text is a
      non-empty trimmed field without a comma, and its hex is valid. */
  predicate ValidLine(l: ParsedLine) {
    l.text != [] && IsTrimmed(l.text) && ',' !in l.text && IsValidHex(Some(l.hex))
  }

  /** `parseLine`: split on commas, trim every field, and accept only four
      non-empty fields whose third starts with an integer and whose fourth
      is a valid hex. */
  function ParseLine(line: string): (r: Option<ParsedLine>)
    ensures line == [] ==> r.None?
    ensures Count(line, ',') != RequiredFields - 1 ==> r.None?
    ensures r.Some? ==> ValidLine(r.value)
  {
    if line == [] then None
    else
      var parts := Split(line, ',');
      var fields := seq(|parts|, i requires 0 <= i < |parts| => Trim(parts[i]));
      if |fields| != RequiredFields then None
      else if fields[0] == [] || fields[1] == [] || fields[2] == [] || fields[3] == [] then None
      else
        match ParseInt(fields[2])
        case None => None
        case Some(n) =>
          if !IsValidHex(Some(fields[3])) then None
          else
            TrimKeepsAbsent(parts[1], ',');
            Some(ParsedLine(fields[1], n, fields[3]))
  }

  /** Which field goes where: on success the second trimmed field is the
      text, the third's leading integer the number, the fourth the hex, and
      the first (the row's own file name) was non-empty and is dropped.
      Conversely, four fields of that kind are always accepted. */
  lemma ParseLineFields(line: string)
    ensures var parts := Split(line, ',');
            ParseLine(line).Some? <==>
              && |parts| == RequiredFields
              && Trim(parts[0]) != [] && Trim(parts[1]) != []
              && ParseInt(Trim(parts[2])).Some?
              && IsValidHex(Some(Trim(parts[3])))
    ensures var parts := Split(line, ',');
            ParseLine(line).Some? ==>
              ParseLine(line).value
              == ParsedLine(Trim(parts[1]), ParseInt(Trim(parts[2])).value, Trim(parts[3]))
  {
    if line == [] {
      assert Split(line, ',') == [[]];
    }
  }

  /** Every line is non-empty and trimmed. */
  predicate CleanLines(lines: seq<string>) {
    forall i :: 0 <= i < |lines| ==> lines[i] != [] && IsTrimmed(lines[i])
  }

  lemma CleanLinesAppend(a: seq<string>, b: seq<string>)
    requires CleanLines(a) && CleanLines(b)
    ensures CleanLines(a + b)
  {
    forall i | 0 <= i < |a + b|
      ensures (a + b)[i] != [] && IsTrimmed((a + b)[i])
    {
      if i >= |a| {
        assert (a + b)[i] == b[i - |a|];
      }
    }
  }

  /** Each line trimmed and the blank ones dropped
      (`.map(line => line.trim()).filter(line => line.length > 0)`). */
  function NonBlankLines(lines: seq<string>): (r: seq<string>)
    ensures |r| <= |lines|
    ensures CleanLines(r)
    decreases |lines|
  {
    if lines == [] then []
    else
      CleanLinesAppend(NonBlank(lines[0]), NonBlankLines(lines[1..]));
      NonBlank(lines[0]) + NonBlankLines(lines[1..])
  }

  /** One line trimmed, as a sequence of zero lines (when it is blank) or one. */
  function NonBlank(line: string): (r: seq<string>)
    ensures |r| <= 1
    ensures CleanLines(r)
  {
    var t := Trim(line);
    if t == [] then [] else [t]
  }

  /** The record of one line, as a sequence of zero or one records. */
  function Kept(line: string): (r: seq<ParsedLine>)
    ensures |r| <= 1
  {
    match ParseLine(line)
    case None => []
    case Some(l) => [l]
  }

  /** The rows that parse, in their order (`.map(parseLine).filter(Boolean)`). */
  function ParseRows(lines: seq<string>): (r: seq<ParsedLine>)
    ensures |r| <= |lines|
    decreases |lines|
  {
    if lines == [] then [] else Kept(lines[0]) + ParseRows(lines[1..])
  }

  /** Every row kept is a valid record. */
  lemma {:induction false} ParseRowsValid(lines: seq<string>)
    ensures forall i :: 0 <= i < |ParseRows(lines)| ==> ValidLine(ParseRows(lines)[i])
    decreases |lines|
  {
    if lines != [] {
      ParseRowsValid(lines[1..]);
      var head, rest := Kept(lines[0]), ParseRows(lines[1..]);
      assert ParseRows(lines) == head + rest;
      forall i | 0 <= i < |head + rest|
        ensures ValidLine((head + rest)[i])
      {
        if i >= |head| {
          assert (head + rest)[i] == rest[i - |head|];
        }
      }
    }
  }

  /** The non-blank trimmed lines of a file's text. */
  function ContentLines(content: string): seq<string> {
    NonBlankLines(Split(content, '\n'))
  }

  /** `parseCSV`: nothing for absent, non-string or empty content; nothing
      unless there are at least two non-blank lines; otherwise the first is
      the header and the rows after it that parse, in order. */
  function ParseCSV(content: Option<string>): (r: seq<ParsedLine>)
    ensures !PresentNonEmpty(content) ==> r == []
    ensures content.Some? && |ContentLines(content.value)| < 2 ==> r == []
    ensures content.Some? && |ContentLines(content.value)| >= 2 ==> |r| <= |ContentLines(content.value)| - 1
    ensures forall i :: 0 <= i < |r| ==> ValidLine(r[i])
  {
    if !PresentNonEmpty(content) then []
    else
      var lines := ContentLines(content.value);
      if |lines| < 2 then []
      else
        ParseRowsValid(lines[1..]);
        ParseRows(lines[1..])
  }

  /** The records of a list of files, in order. */
  function ParseEach(files: seq<RawFile>): (r: seq<FileRecord>)
    ensures |r| == |files|
    ensures forall i :: 0 <= i < |r| ==>
              r[i].file == files[i].filename && r[i].lines == ParseCSV(files[i].content)
    decreases |files|
  {
    if files == [] then []
    else [FileRecord(files[0].filename, ParseCSV(files[0].content))] + ParseEach(files[1..])
  }

  /** `processFiles`: `[]` for a non-array, otherwise one record per file,
      in order, holding the file's name and its parsed rows. */
  function ProcessFiles(files: Option<seq<RawFile>>): (r: seq<FileRecord>)
    ensures files.None? ==> r == []
    ensures files.Some? ==> |r| == |files.value|
    ensures files.Some? ==> forall i :: 0 <= i < |r| ==>
              r[i].file == files.value[i].filename && r[i].lines == ParseCSV(files.value[i].content)
    ensures forall i, j :: 0 <= i < |r| && 0 <= j < |r[i].lines| ==> ValidLine(r[i].lines[j])
  {
    if files.None? then [] else ParseEach(files.value)
  }

  // ---------------------------------------------------------------------
  // The writer side: the row and file formats the parser reads back.

  /** A field that survives `split(',')` and `trim()` unchanged. */
  predicate IsField(s: string) {
    s != [] && IsTrimmed(s) && ',' !in s
  }

  /** The CSV row `file,text,number,hex` for a record. */
  function FormatLine(file: string, l: ParsedLine): string {
    Join([file, l.text, IntToString(l.number), l.hex], ',')
  }

  lemma Join4(a: string, b: string, c: string, d: string, sep: char)
    ensures Join([a, b, c, d], sep) == a + [sep] + b + [sep] + c + [sep] + d
  {
    assert [a, b, c, d][1..] == [b, c, d];
    assert [b, c, d][1..] == [c, d];
    assert [c, d][1..] == [d];
    assert Join([d], sep) == d;
    assert Join([c, d], sep) == c + [sep] + d;
    assert Join([b, c, d], sep) == b + [sep] + (c + [sep] + d);
  }

  lemma IntToStringIsField(n: int)
    ensures IsField(IntToString(n))
    ensures '\n' !in IntToString(n)
    ensures forall i :: 0 <= i < |IntToString(n)| ==> IntToString(n)[i] == '-' || IsDigit(IntToString(n)[i])
  {
    var ds := NatToDigits(if n < 0 then -n else n);
    assert IntToString(n) == if n < 0 then "-" + ds else ds;
  }

  lemma ValidHexIsField(h: string)
    requires IsValidHex(Some(h))
    ensures IsField(h) && '\n' !in h
  {
    IsValidHexSpec(Some(h));
    assert IsHexChar(h[0]) && IsHexChar(h[|h| - 1]);
  }

  /** Round trip: the row written for a valid record parses back to that
      record, whatever the (non-empty) file column says. */
  lemma ParseLineOfFormatLine(file: string, l: ParsedLine)
    requires IsField(file) && ValidLine(l)
    ensures ParseLine(FormatLine(file, l)) == Some(l)
  {
    var num := IntToString(l.number);
    IntToStringIsField(l.number);
    ValidHexIsField(l.hex);
    var parts := [file, l.text, num, l.hex];
    var line := FormatLine(file, l);
    assert Split(line, ',') == parts by {
      SplitJoin(parts, ',');
    }
    assert ParseInt(num) == Some(l.number) by {
      ParseIntOfIntToString(l.number, []);
      assert num + [] == num;
    }
    ParseLineFields(line);
  }

  /** Parsing rows distributes over concatenation: rows keep their order
      and each is kept or dropped on its own. */
  lemma {:induction false} ParseRowsAppend(a: seq<string>, b: seq<string>)
    ensures ParseRows(a + b) == ParseRows(a) + ParseRows(b)
    decreases |a|
  {
    if a == [] {
      assert a + b == b;
    } else {
      var x, t := a[0], a[1..];
      ParseRowsAppend(t, b);
      ConsAppend(a, b);
      ParseRowsUnfold(x, t + b);
      assert ParseRows(a) == Kept(x) + ParseRows(t);
      ConcatAssoc(Kept(x), ParseRows(t), ParseRows(b));
    }
  }

  /** A blank line is dropped; any other line is kept, trimmed. */
  lemma NonBlankLinesSingle(line: string)
    ensures Trim(line) == [] ==> NonBlankLines([line]) == []
    ensures Trim(line) != [] ==> NonBlankLines([line]) == [Trim(line)]
  {
    assert [line][1..] == [];
  }

  lemma NonBlankLinesUnfold(x: string, rest: seq<string>)
    ensures NonBlankLines([x] + rest) == NonBlank(x) + NonBlankLines(rest)
  {
    assert ([x] + rest)[0] == x;
    assert ([x] + rest)[1..] == rest;
  }

  /** Trimming and dropping blank lines goes line by line, keeping the
      order: it distributes over concatenation. */
  lemma {:induction false} NonBlankLinesAppend(a: seq<string>, b: seq<string>)
    ensures NonBlankLines(a + b) == NonBlankLines(a) + NonBlankLines(b)
    decreases |a|
  {
    if a == [] {
      assert a + b == b;
    } else {
      var x, t := a[0], a[1..];
      NonBlankLinesAppend(t, b);
      ConsAppend(a, b);
      NonBlankLinesUnfold(x, t + b);
      assert NonBlankLines(a) == NonBlank(x) + NonBlankLines(t);
      ConcatAssoc(NonBlank(x), NonBlankLines(t), NonBlankLines(b));
    }
  }

  /** Lines that are already trimmed and non-blank all survive. */
  lemma {:induction false} NonBlankLinesOfClean(lines: seq<string>)
    requires CleanLines(lines)
    ensures NonBlankLines(lines) == lines
    decreases |lines|
  {
    if lines != [] {
      NonBlankLinesOfClean(lines[1..]);
      assert lines == [lines[0]] + lines[1..];
    }
  }

  /** Joining clean lines with newlines and reading them back gives the
      same lines. */
  lemma ContentLinesOfJoin(all: seq<string>)
    requires all != []
    requires forall i :: 0 <= i < |all| ==> all[i] != [] && IsTrimmed(all[i]) && '\n' !in all[i]
    ensures ContentLines(Join(all, '\n')) == all
  {
    SplitJoin(all, '\n');
    NonBlankLinesOfClean(all);
  }

  /** A file made of a header line and data lines (each trimmed, non-blank
      and without a newline) parses to exactly the data lines that parse,
      in order; with no data lines it parses to nothing. */
  lemma ParseCsvOfLines(header: string, lines: seq<string>)
    requires header != [] && IsTrimmed(header) && '\n' !in header
    requires forall i :: 0 <= i < |lines| ==> lines[i] != [] && IsTrimmed(lines[i]) && '\n' !in lines[i]
    ensures ParseCSV(Some(Join([header] + lines, '\n'))) == ParseRows(lines)
  {
    var all := [header] + lines;
    forall i | 0 <= i < |all|
      ensures all[i] != [] && IsTrimmed(all[i]) && '\n' !in all[i]
    {
      if i > 0 {
        assert all[i] == lines[i - 1];
      }
    }
    ContentLinesOfJoin(all);
    ParseCsvOfContentLines(Join(all, '\n'), all);
    assert all[1..] == lines;
  }

  /** Content whose non-blank lines are known parses to the rows after the
      first of them. */
  lemma ParseCsvOfContentLines(content: string, all: seq<string>)
    requires all != [] && ContentLines(content) == all
    ensures ParseCSV(Some(content)) == ParseRows(all[1..])
  {
    ContentLinesOfEmpty();
    assert content != [];
  }

  lemma ContentLinesOfEmpty()
    ensures ContentLines([]) == []
  {
    assert Split([], '\n') == [[]];
    NonBlankLinesSingle([]);
  }

  /** A file made of a non-blank header line and any data lines (blank,
      padded or malformed) parses to the data lines that are left after
      trimming and dropping the blank ones and that parse, in order. */
  lemma ParseCsvOfAnyLines(header: string, lines: seq<string>)
    requires Trim(header) != [] && '\n' !in header
    requires forall i :: 0 <= i < |lines| ==> '\n' !in lines[i]
    ensures ParseCSV(Some(Join([header] + lines, '\n'))) == ParseRows(NonBlankLines(lines))
  {
    var all := [header] + lines;
    forall i | 0 <= i < |all|
      ensures '\n' !in all[i]
    {
      if i > 0 {
        assert all[i] == lines[i - 1];
      }
    }
    SplitJoin(all, '\n');
    NonBlankLinesUnfold(header, lines);
    var kept := [Trim(header)] + NonBlankLines(lines);
    assert ContentLines(Join(all, '\n')) == kept;
    ParseCsvOfContentLines(Join(all, '\n'), kept);
    assert kept[1..] == NonBlankLines(lines);
  }

  /** A header followed by one newline and nothing else yields no rows. */
  lemma ParseCsvHeaderNewline(header: string)
    requires '\n' !in header
    ensures ParseCSV(Some(header + "\n")) == []
  {
    SplitAt(header, [], '\n');
    assert header + ['\n'] + [] == header + "\n";
    SplitWithoutSeparator(header, '\n');
    assert Split([], '\n') == [[]];
    NonBlankLinesUnfold(header, [[]]);
    NonBlankLinesSingle([]);
    assert |ContentLines(header + "\n")| <= 1;
  }

  /** A file without a newline is a header only and yields no rows. */
  lemma ParseCsvHeaderOnly(content: string)
    requires '\n' !in content
    ensures ParseCSV(Some(content)) == []
  {
    SplitWithoutSeparator(content, '\n');
    assert [content][1..] == [];
  }

  /** The rows written one per line, in order. */
  function FormatLines(rows: seq<(string, ParsedLine)>): (r: seq<string>)
    ensures |r| == |rows|
    ensures forall i :: 0 <= i < |r| ==> r[i] == FormatLine(rows[i].0, rows[i].1)
  {
    if rows == [] then [] else [FormatLine(rows[0].0, rows[0].1)] + FormatLines(rows[1..])
  }

  /** The records of the rows, in order. */
  function Records(rows: seq<(string, ParsedLine)>): (r: seq<ParsedLine>)
    ensures |r| == |rows|
    ensures forall i :: 0 <= i < |r| ==> r[i] == rows[i].1
  {
    if rows == [] then [] else [rows[0].1] + Records(rows[1..])
  }

  /** A row that may be written into a CSV file and read back. */
  predicate Writable(row: (string, ParsedLine)) {
    IsField(row.0) && '\n' !in row.0 && ValidLine(row.1) && '\n' !in row.1.text
  }

  lemma FormatLineIsCleanLine(row: (string, ParsedLine))
    requires Writable(row)
    ensures var s := FormatLine(row.0, row.1); s != [] && IsTrimmed(s) && '\n' !in s
  {
    var (file, l) := row;
    var num := IntToString(l.number);
    IntToStringIsField(l.number);
    ValidHexIsField(l.hex);
    Join4(file, l.text, num, l.hex, ',');
    var s := file + [','] + l.text + [','] + num + [','] + l.hex;
    assert s[0] == file[0];
    assert s[|s| - 1] == l.hex[|l.hex| - 1];
  }

  /** Appending to a non-empty sequence keeps its first element in front. */
  lemma ConsAppend<T>(a: seq<T>, b: seq<T>)
    requires a != []
    ensures a + b == [a[0]] + (a[1..] + b)
  {
  }

  lemma ConcatAssoc<T>(a: seq<T>, b: seq<T>, c: seq<T>)
    ensures a + (b + c) == (a + b) + c
  {
  }

  lemma ParseRowsUnfold(x: string, rest: seq<string>)
    ensures ParseRows([x] + rest) == Kept(x) + ParseRows(rest)
  {
    assert ([x] + rest)[0] == x;
    assert ([x] + rest)[1..] == rest;
  }

  lemma ParseRowsCons(x: string, rest: seq<string>)
    requires ParseLine(x).Some?
    ensures ParseRows([x] + rest) == [ParseLine(x).value] + ParseRows(rest)
  {
    assert ([x] + rest)[0] == x;
    assert ([x] + rest)[1..] == rest;
  }

  lemma {:induction false} ParseRowsOfFormatted(rows: seq<(string, ParsedLine)>)
    requires forall i :: 0 <= i < |rows| ==> Writable(rows[i])
    ensures ParseRows(FormatLines(rows)) == Records(rows)
    decreases |rows|
  {
    if rows != [] {
      var line := FormatLine(rows[0].0, rows[0].1);
      ParseLineOfFormatLine(rows[0].0, rows[0].1);
      forall i | 0 <= i < |rows[1..]|
        ensures Writable(rows[1..][i])
      {
        assert rows[1..][i] == rows[i + 1];
      }
      ParseRowsOfFormatted(rows[1..]);
      ParseRowsCons(line, FormatLines(rows[1..]));
      assert FormatLines(rows) == [line] + FormatLines(rows[1..]);
      assert Records(rows) == [rows[0].1] + Records(rows[1..]);
    }
  }

  /** Round trip for whole files: a header followed by N written rows parses
      to exactly those N records, in order. */
  lemma ParseCsvRoundTrip(header: string, rows: seq<(string, ParsedLine)>)
    requires header != [] && IsTrimmed(header) && '\n' !in header
    requires forall i :: 0 <= i < |rows| ==> Writable(rows[i])
    ensures ParseCSV(Some(Join([header] + FormatLines(rows), '\n'))) == Records(rows)
  {
    var lines := FormatLines(rows);
    forall i | 0 <= i < |lines|
      ensures lines[i] != [] && IsTrimmed(lines[i]) && '\n' !in lines[i]
    {
      FormatLineIsCleanLine(rows[i]);
    }
    ParseCsvOfLines(header, lines);
    ParseRowsOfFormatted(rows);
  }
}
