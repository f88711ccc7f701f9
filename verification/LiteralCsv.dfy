/** The literal-string table: dumped as CSV by one program, read back by another. */
module LiteralCsv {
  import opened CheckPoint
  import Decimal

  datatype Entry = Entry(text: string, fingerprint: u32)

  datatype Failure = EmptyFile | BadHeader | BadRow | BadFingerprint | Collision

  datatype Result = Loaded(literals: map<u32, string>) | Failed(why: Failure)

  const HEADER: string := "literal,fingerprint"

  // ------------------------------------------------------------------ printing

  function Row(e: Entry): string {
    e.text + "," + Decimal.Text(e.fingerprint) + "\n"
  }

  function Rows(es: seq<Entry>): string {
    if es == [] then "" else Row(es[0]) + Rows(es[1..])
  }

  function Dump(es: seq<Entry>): string {
    HEADER + "\n" + Rows(es)
  }

  lemma {:induction false} RowsSnoc(es: seq<Entry>, e: Entry)
    ensures Rows(es + [e]) == Rows(es) + Row(e)
  {
    if es == [] {
      assert es + [e] == [e];
    } else {
      assert (es + [e])[1..] == es[1..] + [e];
      RowsSnoc(es[1..], e);
    }
  }

  /** `dumpLiteralStrings`. */
  method DumpLiteralStrings(es: seq<Entry>) returns (out: string)
    ensures out == Dump(es)
  {
    out := HEADER + "\n";
    var i := 0;
    while i < |es|
      invariant 0 <= i <= |es| && out == HEADER + "\n" + Rows(es[..i])
    {
      RowsSnoc(es[..i], es[i]);
      assert es[..i + 1] == es[..i] + [es[i]];
      out := out + (es[i].text + "," + Decimal.Text(es[i].fingerprint) + "\n");
      i := i + 1;
    }
    assert es[..|es|] == es;
  }

  // ------------------------------------------------------------------ reading

  /** Index of the first newline, or the length. */
  function LineEnd(s: string): (e: nat)
    ensures e <= |s| && '\n' !in s[..e] && (e < |s| ==> s[e] == '\n')
  {
    if s == [] || s[0] == '\n' then 0
    else
      var e := 1 + LineEnd(s[1..]);
      assert s[..e] == [s[0]] + s[1..][..e - 1];
      e
  }

  /** What `getline` leaves in the stream. */
  function AfterLine(s: string): (rest: string)
    ensures s != [] ==> |rest| < |s|
  {
    if LineEnd(s) < |s| then s[LineEnd(s) + 1..] else ""
  }

  function StripReturn(line: string): string {
    if line != [] && line[|line| - 1] == '\r' then line[..|line| - 1] else line
  }

  /** `rfind(',')`: one past the last comma, 0 when there is none. */
  function PastLastComma(line: string): (n: nat)
    ensures n <= |line| && (n > 0 ==> line[n - 1] == ',') && forall i :: n <= i < |line| ==> line[i] != ','
  {
    if line == [] then 0
    else if line[|line| - 1] == ',' then |line|
    else PastLastComma(line[..|line| - 1])
  }

  /** `parse_fingerprint`: decimal, or hexadecimal behind 0x; the whole field, within 32 bits. */
  function ParseFingerprint(field: string): Decimal.Parsed {
    var hex := |field| >= 2 && field[0] == '0' && (field[1] == 'x' || field[1] == 'X');
    var digits, base := if hex then field[2..] else field, if hex then 16 else 10;
    if digits == [] then Decimal.NotANumber
    else
      var parsed := Decimal.Value(digits, base);
      if parsed.Number? && parsed.value >= 0x1_0000_0000 then Decimal.NotANumber else parsed
  }

  function Emplace(literals: map<u32, string>, fingerprint: u32, text: string): Result {
    if fingerprint in literals && literals[fingerprint] != text then Failed(Collision)
    else Loaded(literals[fingerprint := text])
  }

  /** One row that is not empty. */
  function ReadRow(line: string, literals: map<u32, string>): Result {
    var past := PastLastComma(line);
    if past == 0 || past == |line| then Failed(BadRow)
    else
      var fingerprint := ParseFingerprint(line[past..]);
      if fingerprint.NotANumber? then Failed(BadFingerprint)
      else Emplace(literals, fingerprint.value, line[..past - 1])
  }

  function ReadRows(content: string, literals: map<u32, string>): Result
    decreases |content|
  {
    if content == [] then Loaded(literals)
    else
      var line := StripReturn(content[..LineEnd(content)]);
      if line == [] then ReadRows(AfterLine(content), literals)
      else
        var r := ReadRow(line, literals);
        if r.Failed? then r else ReadRows(AfterLine(content), r.literals)
  }

  function ReadLiterals(content: string): Result {
    if content == [] then Failed(EmptyFile)
    else if StripReturn(content[..LineEnd(content)]) != HEADER then Failed(BadHeader)
    else ReadRows(AfterLine(content), map[])
  }

  /** `read_literal_string_map`. */
  method ReadLiteralStringMap(content: string) returns (r: Result)
    ensures r == ReadLiterals(content)
  {
    if content == [] {
      return Failed(EmptyFile);
    }
    var line := StripReturn(content[..LineEnd(content)]);
    if line != HEADER {
      return Failed(BadHeader);
    }
    var stream, literals := AfterLine(content), map[];
    while stream != []
      invariant ReadRows(stream, literals) == ReadLiterals(content)
      decreases |stream|
    {
      line := StripReturn(stream[..LineEnd(stream)]);
      if line != [] {
        r := ReadRow(line, literals);
        if r.Failed? {
          return;
        }
        literals := r.literals;
      }
      stream := AfterLine(stream);
    }
    r := Loaded(literals);
  }

  // ------------------------------------------------------------------ what a table means

  /** Every entry's fingerprint stands for its text, and nothing else is in the map. */
  ghost predicate Represents(es: seq<Entry>, literals: map<u32, string>) {
    && (forall e :: e in es ==> e.fingerprint in literals && literals[e.fingerprint] == e.text)
    && (forall f :: f in literals ==> exists e :: e in es && e.fingerprint == f)
  }

  /** No two different texts share a fingerprint. */
  ghost predicate Consistent(es: seq<Entry>) {
    forall d, e :: d in es && e in es && d.fingerprint == e.fingerprint ==> d.text == e.text
  }

  ghost predicate OneLine(es: seq<Entry>) {
    forall e :: e in es ==> '\n' !in e.text
  }

  /** Entering every entry in turn. */
  function EmplaceAll(es: seq<Entry>, literals: map<u32, string>): Result {
    if es == [] then Loaded(literals)
    else
      var r := Emplace(literals, es[0].fingerprint, es[0].text);
      if r.Failed? then r else EmplaceAll(es[1..], r.literals)
  }

  lemma {:induction false} EmplaceAllRepresents(done: seq<Entry>, es: seq<Entry>, literals: map<u32, string>)
    requires Represents(done, literals)
    ensures EmplaceAll(es, literals).Loaded? ==> Represents(done + es, EmplaceAll(es, literals).literals)
    ensures EmplaceAll(es, literals).Failed? ==> !Consistent(done + es) && EmplaceAll(es, literals).why == Collision
    decreases |es|
  {
    if es == [] {
      assert done + es == done;
    } else {
      var e := es[0];
      assert done + es == (done + [e]) + es[1..];
      assert e in done + es;
      var r := Emplace(literals, e.fingerprint, e.text);
      if r.Failed? {
        var d :| d in done && d.fingerprint == e.fingerprint;
        assert d in done + es;
      } else {
        EmplaceOne(done, e, literals);
        EmplaceAllRepresents(done + [e], es[1..], r.literals);
      }
    }
  }

  lemma EmplaceOne(done: seq<Entry>, e: Entry, literals: map<u32, string>)
    requires Represents(done, literals) && Emplace(literals, e.fingerprint, e.text).Loaded?
    ensures Represents(done + [e], literals[e.fingerprint := e.text])
  {
    assert e in done + [e];
    var more := literals[e.fingerprint := e.text];
    forall f | f in more
      ensures exists d :: d in done + [e] && d.fingerprint == f
    {
      if f != e.fingerprint {
        var d :| d in done && d.fingerprint == f;
        assert d in done + [e];
      }
    }
  }

  lemma RepresentedIsConsistent(es: seq<Entry>, literals: map<u32, string>)
    requires Represents(es, literals)
    ensures Consistent(es)
  {
  }

  // ------------------------------------------------------------------ round trip

  lemma {:induction false} FirstNewline(line: string, rest: string)
    requires '\n' !in line
    ensures LineEnd(line + "\n" + rest) == |line|
  {
    var s := line + "\n" + rest;
    if line != [] {
      assert s[1..] == line[1..] + "\n" + rest && line[0] in line;
      FirstNewline(line[1..], rest);
    }
  }

  lemma FingerprintReadsBack(n: u32)
    ensures ParseFingerprint(Decimal.Text(n)) == Decimal.Number(n)
  {
    var s := Decimal.Text(n);
    Decimal.TextReadsBack(n);
    if |s| >= 2 { assert s[1] in s; }
  }

  lemma {:induction false} CommaBeforeDigits(text: string, digits: string)
    requires ',' !in digits
    ensures PastLastComma(text + "," + digits) == |text| + 1
    decreases |digits|
  {
    var line := text + "," + digits;
    if digits != [] {
      assert line[..|line| - 1] == text + "," + digits[..|digits| - 1];
      assert digits == digits[..|digits| - 1] + [digits[|digits| - 1]];
      CommaBeforeDigits(text, digits[..|digits| - 1]);
    }
  }

  /** The row as a line of the stream, untouched by the carriage-return stripping. */
  lemma RowLine(line: string, rest: string, s: string)
    requires '\n' !in line && line != [] && '0' <= line[|line| - 1] <= '9' && s == line + "\n" + rest
    ensures s != [] && s[..LineEnd(s)] == line && AfterLine(s) == rest && StripReturn(line) == line
  {
    FirstNewline(line, rest);
    assert s[..|line|] == line && s[|line| + 1..] == rest;
  }

  lemma RowParses(e: Entry, digits: string, literals: map<u32, string>)
    requires digits == Decimal.Text(e.fingerprint)
    ensures ReadRow(e.text + "," + digits, literals) == Emplace(literals, e.fingerprint, e.text)
  {
    var line := e.text + "," + digits;
    CommaBeforeDigits(e.text, digits);
    assert line[..|e.text|] == e.text && line[|e.text| + 1..] == digits;
    FingerprintReadsBack(e.fingerprint);
  }

  lemma {:induction false} RowReads(e: Entry, rest: string, literals: map<u32, string>)
    requires '\n' !in e.text
    ensures ReadRows(Row(e) + rest, literals) ==
            var r := Emplace(literals, e.fingerprint, e.text); if r.Failed? then r else ReadRows(rest, r.literals)
  {
    var digits := Decimal.Text(e.fingerprint);
    assert digits[|digits| - 1] in digits;
    var line := e.text + "," + digits;
    assert Row(e) + rest == line + "\n" + rest;
    RowLine(line, rest, Row(e) + rest);
    RowParses(e, digits, literals);
  }

  lemma {:induction false} RowsRead(es: seq<Entry>, literals: map<u32, string>)
    requires OneLine(es)
    ensures ReadRows(Rows(es), literals) == EmplaceAll(es, literals)
  {
    if es != [] {
      assert es[0] in es;
      RowReads(es[0], Rows(es[1..]), literals);
      var r := Emplace(literals, es[0].fingerprint, es[0].text);
      if r.Loaded? { RowsRead(es[1..], r.literals); }
    }
  }

  lemma {:induction false} DumpRows(es: seq<Entry>)
    ensures ReadLiterals(Dump(es)) == ReadRows(Rows(es), map[])
  {
    FirstNewline(HEADER, Rows(es));
    var s := Dump(es);
    assert s[..|HEADER|] == HEADER && s[|HEADER| + 1..] == Rows(es);
  }

  ghost predicate CleanValues(literals: map<u32, string>) {
    forall f :: f in literals ==> '\n' !in literals[f]
  }

  lemma {:induction false} ReadValuesAreClean(content: string, literals: map<u32, string>)
    requires CleanValues(literals)
    ensures ReadRows(content, literals).Loaded? ==> CleanValues(ReadRows(content, literals).literals)
    decreases |content|
  {
    if content != [] {
      var line := StripReturn(content[..LineEnd(content)]);
      if line == [] {
        ReadValuesAreClean(AfterLine(content), literals);
      } else {
        var r := ReadRow(line, literals);
        if r.Loaded? { ReadValuesAreClean(AfterLine(content), r.literals); }
      }
    }
  }

  /** Tables whose texts hold no newline: reading the dump fails exactly on a shared fingerprint. */
  lemma {:induction false} OneLineDumpFailsOnlyOnCollision(es: seq<Entry>)
    requires OneLine(es)
    ensures var r := ReadLiterals(Dump(es));
            if Consistent(es) then r.Loaded? && Represents(es, r.literals) else r == Failed(Collision)
  {
    DumpRows(es);
    RowsRead(es, map[]);
    EmplaceAllRepresents([], es, map[]);
    assert [] + es == es;
    var r := ReadLiterals(Dump(es));
    if r.Loaded? { RepresentedIsConsistent(es, r.literals); }
  }

  /**
   For any table at all, the dump reads back as the table's map exactly when no text holds a newline and
   no two different texts share a fingerprint. Commas and quotes in texts do not matter.
   */
  lemma DumpReadsBackExactlyWhen(es: seq<Entry>)
    ensures var r := ReadLiterals(Dump(es));
            r.Loaded? && Represents(es, r.literals) <==> OneLine(es) && Consistent(es)
  {
    var r := ReadLiterals(Dump(es));
    if OneLine(es) { OneLineDumpFailsOnlyOnCollision(es); }
    if r.Loaded? && Represents(es, r.literals) {
      RepresentedIsConsistent(es, r.literals);
      DumpRows(es);
      ReadValuesAreClean(Rows(es), map[]);
    }
  }

  // ------------------------------------------------------------------ tables from elsewhere

  /** Reading line by line, whatever ended the lines. */
  function ReadLines(lines: seq<string>, literals: map<u32, string>): Result {
    if lines == [] then Loaded(literals)
    else if lines[0] == "" then ReadLines(lines[1..], literals)
    else
      var r := ReadRow(lines[0], literals);
      if r.Failed? then r else ReadLines(lines[1..], r.literals)
  }

  /** Lines each ended by a newline, some with a carriage return before it. */
  function Joined(lines: seq<string>, crs: seq<bool>): string
    requires |crs| == |lines|
  {
    if lines == [] then ""
    else lines[0] + (if crs[0] then "\r\n" else "\n") + Joined(lines[1..], crs[1..])
  }

  /** A line that neither holds a newline nor ends with a carriage return of its own. */
  predicate PlainLine(line: string) {
    '\n' !in line && (line == "" || line[|line| - 1] != '\r')
  }

  lemma {:induction false} LineTaken(line: string, cr: bool, rest: string, s: string)
    requires PlainLine(line) && s == line + (if cr then "\r\n" else "\n") + rest
    ensures s != [] && StripReturn(s[..LineEnd(s)]) == line && AfterLine(s) == rest
  {
    var ended := if cr then line + "\r" else line;
    assert '\n' !in ended;
    assert s == ended + "\n" + rest;
    FirstNewline(ended, rest);
    assert s[..|ended|] == ended && s[|ended| + 1..] == rest;
    if cr { assert ended[..|ended| - 1] == line; }
  }

  /** Carriage returns before newlines make no difference, line by line. */
  lemma {:induction false} JoinedReads(lines: seq<string>, crs: seq<bool>, literals: map<u32, string>)
    requires |crs| == |lines| && forall i :: 0 <= i < |lines| ==> PlainLine(lines[i])
    ensures ReadRows(Joined(lines, crs), literals) == ReadLines(lines, literals)
    decreases |lines|
  {
    if lines != [] {
      var rest := Joined(lines[1..], crs[1..]);
      LineTaken(lines[0], crs[0], rest, Joined(lines, crs));
      if lines[0] == "" {
        JoinedReads(lines[1..], crs[1..], literals);
      } else {
        var r := ReadRow(lines[0], literals);
        if r.Loaded? { JoinedReads(lines[1..], crs[1..], r.literals); }
      }
    }
  }

  /** A whole table under its header reads as the same lines do without any carriage return. */
  lemma {:induction false} CarriageReturnsDontMatter(lines: seq<string>, crs: seq<bool>, plain: seq<bool>,
                                                     first: bool)
    requires |crs| == |lines| == |plain| && forall i :: 0 <= i < |lines| ==> PlainLine(lines[i]) && !plain[i]
    ensures ReadLiterals("literal,fingerprint" + (if first then "\r\n" else "\n") + Joined(lines, crs)) ==
            ReadLiterals("literal,fingerprint\n" + Joined(lines, plain)) == ReadLines(lines, map[])
  {
    var a, b := Joined(lines, crs), Joined(lines, plain);
    LineTaken(HEADER, first, a, "literal,fingerprint" + (if first then "\r\n" else "\n") + a);
    LineTaken(HEADER, false, b, "literal,fingerprint\n" + b);
    JoinedReads(lines, crs, map[]);
    JoinedReads(lines, plain, map[]);
  }

  /** The text of a row ends at its last comma; a row without one, or with nothing behind it, is refused. */
  lemma {:induction false} RowsRefused(text: string, field: string, literals: map<u32, string>)
    requires ',' !in field
    ensures ReadRow(field, literals) == Failed(BadRow) && ReadRow(text + ",", literals) == Failed(BadRow)
    ensures field != "" && ParseFingerprint(field).NotANumber? ==>
            ReadRow(text + "," + field, literals) == Failed(BadFingerprint)
    ensures field != "" && ParseFingerprint(field).Number? ==>
            ReadRow(text + "," + field, literals) == Emplace(literals, ParseFingerprint(field).value, text)
  {
    NoComma(field);
    CommaBeforeDigits(text, "");
    assert text + "," + "" == text + ",";
    CommaBeforeDigits(text, field);
    var line := text + "," + field;
    assert line[|text| + 1..] == field && line[..|text|] == text;
  }

  lemma {:induction false} NoComma(line: string)
    requires ',' !in line
    ensures PastLastComma(line) == 0
    decreases |line|
  {
    if line != [] {
      assert line[|line| - 1] in line;
      NoComma(line[..|line| - 1]);
    }
  }

  /** Decimal fields are taken below 2^32, hexadecimal ones behind 0x or 0X too, in either case of letters. */
  lemma {:induction false} NumbersRead(n: nat, upper: bool)
    ensures ParseFingerprint(Decimal.Text(n)) == if n < 0x1_0000_0000 then Decimal.Number(n) else Decimal.NotANumber
    ensures var read := if n < 0x1_0000_0000 then Decimal.Number(n) else Decimal.NotANumber;
            forall x :: x in {"0x", "0X"} ==> ParseFingerprint(x + Decimal.HexText(n, upper)) == read
  {
    var s := Decimal.Text(n);
    Decimal.TextReadsBack(n);
    if |s| >= 2 { assert s[1] in s; }
    var h := Decimal.HexText(n, upper);
    Decimal.HexReadsBack(n, upper);
    forall x | x in {"0x", "0X"}
      ensures ParseFingerprint(x + h) == if n < 0x1_0000_0000 then Decimal.Number(n) else Decimal.NotANumber
    {
      assert (x + h)[2..] == h;
    }
  }

  /** A dumped table, character by character. */
  lemma {:induction false} DumpOfOne()
    ensures Dump([Entry("a,b", 120)]) == "literal,fingerprint\na,b,120\n"
  {
    Decimal.TextOfThree(120, 1, 2, 0);
    assert Rows([Entry("a,b", 120)]) == Row(Entry("a,b", 120)) + Rows([]);
  }
}
