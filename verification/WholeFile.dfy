/** A database dumped by db_dump185 and loaded by db_load: header and records together. */
module WholeFiles {
  import opened Options
  import opened Words
  import opened Text
  import opened Numbers
  import opened Dumpers
  import opened Loaders
  import opened Headers
  import opened HeaderReaders

  // ---------- the header that was dumped ----------

  /** Lines one after the other, as far as they leave more to read. */
  function After(lines: seq<string>, f: Fields): Outcome {
    if lines == [] then More(f)
    else match HeaderLine(f, lines[0])
      case More(g) => After(lines[1..], g)
      case o => o
  }

  lemma {:induction false} AfterBoth(a: seq<string>, b: seq<string>, f: Fields)
    ensures After(a + b, f) == match After(a, f) case More(g) => After(b, g) case o => o
  {
    hide HeaderLine;
    if a == [] {
      assert a + b == b;
    } else {
      assert (a + b)[1..] == a[1..] + b;
      if HeaderLine(f, a[0]).More? { AfterBoth(a[1..], b, HeaderLine(f, a[0]).fields); }
    }
  }

  /** One more line. */
  lemma AfterLine(lines: seq<string>, line: string, f: Fields)
    ensures After(lines + [line], f) == match After(lines, f) case More(g) => HeaderLine(g, line) case o => o
  {
    hide HeaderLine;
    AfterBoth(lines, [line], f);
    if After(lines, f).More? { assert [line][1..] == []; }
  }

  /** No newline and no zero in the line. */
  predicate Clean(line: string) {
    forall k :: 0 <= k < |line| ==> line[k] != '\n' && line[k] != '\0'
  }

  predicate AllClean(lines: seq<string>) {
    forall k :: 0 <= k < |lines| ==> Clean(lines[k])
  }

  /** The run over a clean line that lies ahead. */
  lemma RunLine(input: string, pos: nat, line: string, rest: string)
    requires pos <= |input| && input[pos..] == line + "\n" + rest && Clean(line)
    ensures var end := pos + |line|;
            && end < |input| && LineEnd(input, pos) == end && CString(input[pos..end]) == line
            && input[end + 1..] == rest
  {
    hide LineEnd, CString;
    var end := pos + |line|;
    assert |input[pos..]| == |line| + 1 + |rest|;
    forall k | 0 <= k < |line| ensures input[pos + k] == line[k] {
      assert input[pos + k] == input[pos..][k];
    }
    assert input[end] == input[pos..][|line|];
    LineEndIs(input, pos, end);
    assert input[pos..end] == line;
    forall k | pos <= k < end ensures input[k] != '\0' {
      assert input[k] == line[k - pos];
    }
    NoZeroIsWhole(input, pos, end);
    forall k | 0 <= k < |rest| ensures input[end + 1..][k] == rest[k] {
      assert input[end + 1..][k] == input[pos..][|line| + 1 + k];
    }
  }

  lemma TextPassed(input: string, pos: nat, text: string, rest: string)
    requires pos <= |input| && input[pos..] == text + rest
    ensures pos + |text| <= |input| && input[pos + |text|..] == rest
  {
    assert |input[pos..]| == |text| + |rest|;
    forall k | 0 <= k < |rest| ensures input[pos + |text|..][k] == rest[k] {
      assert input[pos + |text| + k] == input[pos..][|text| + k];
    }
  }

  lemma JoinLinesStep(lines: seq<string>, rest: string)
    requires lines != []
    ensures JoinLines(lines) + rest == lines[0] + "\n" + (JoinLines(lines[1..]) + rest)
    ensures |JoinLines(lines)| == |lines[0]| + 1 + |JoinLines(lines[1..])|
  {
  }

  /** The run over clean lines that lie ahead. */
  lemma {:induction false} RunLines(input: string, pos: nat, lines: seq<string>, rest: string, f: Fields, n: nat)
    requires pos <= |input| && input[pos..] == JoinLines(lines) + rest && AllClean(lines)
    ensures pos + |JoinLines(lines)| <= |input|
    ensures match After(lines, f)
            case More(g) => RunInput(input, pos, f, n) == RunInput(input, pos + |JoinLines(lines)|, g, n + |lines|)
            case Done(g) => true
            case Bad => RunInput(input, pos, f, n) == Failed
            case Outside => RunInput(input, pos, f, n) == Beyond
    decreases |lines|
  {
    hide HeaderLine, LineEnd, CString, Clean, RunInput, JoinLines;
    TextPassed(input, pos, JoinLines(lines), rest);
    if lines == [] {
      NoLines();
    } else {
      var line := lines[0];
      JoinLinesStep(lines, rest);
      RunLine(input, pos, line, JoinLines(lines[1..]) + rest);
      InputStep(input, pos, f, n);
      if HeaderLine(f, line).More? {
        RunLines(input, pos + |line| + 1, lines[1..], rest, HeaderLine(f, line).fields, n + 1);
      }
    }
  }

  // ---------- what the old headers say ----------

  /** db_load takes no number above LONG_MAX, which is where negative fields end up. */
  predicate Loadable(d: Old) {
    match d
    case OldBtree(lorder, _, _) => lorder >= 0
    case OldHash(ffactor, lorder, bsize) => ffactor >= 0 && lorder >= 0 && bsize >= 0
  }

  function Magnitude(v: int): nat {
    if v < 0 then 0 else v
  }

  /** What db_load is to set for an old database. */
  function Settings(d: Old): seq<Call> {
    match d
    case OldBtree(lorder, psize, noDups) =>
      (if lorder != 0 then [SetNumber("db_lorder", AsInt(Magnitude(lorder)))] else [])
      + [SetNumber("db_pagesize", psize)] + if noDups then [] else [SetFlag("duplicates")]
    case OldHash(ffactor, lorder, bsize) =>
      [SetNumber("h_ffactor", ffactor)]
      + (if lorder != 0 then [SetNumber("db_lorder", AsInt(Magnitude(lorder)))] else [])
      + [SetNumber("db_pagesize", bsize)]
  }

  function OldType(d: Old): DbType {
    if d.OldBtree? then Btree else DbType.Hash
  }

  function Expected(d: Old, escaped: bool, version: int): Fields {
    Fields(OldType(d), escaped, -1, None, version, Settings(d), 0, 0)
  }

  lemma FormatIsRead(f: Fields, escaped: bool)
    ensures HeaderLine(f, Line("format", FormatName(escaped))) == More(f.(checkprint := escaped))
  {
    hide HeaderLine;
    AssignmentLine(f, "format", FormatName(escaped));
  }

  lemma TypeIsRead(f: Fields, btree: bool)
    ensures HeaderLine(f, Line("type", if btree then "btree" else "hash")) == More(f.(dbtype := if btree then Btree else DbType.Hash))
  {
    hide HeaderLine;
    AssignmentLine(f, "type", if btree then "btree" else "hash");
  }

  lemma NotANumber()
    ensures "duplicates" !in NUMBERS && "db_lorder" !in NUMBERS
  {
  }

  lemma DuplicatesAreRead(f: Fields)
    ensures HeaderLine(f, Line("duplicates", "1")) == More(f.(calls := f.calls + [SetFlag("duplicates")]))
  {
    hide HeaderLine;
    AssignmentLine(f, "duplicates", "1");
    assert "duplicates" in FLAGS by { assert FLAGS[1] == "duplicates"; }
    NotANumber();
  }

  /** A number is read back exactly if it was not negative. */
  lemma LongIsRead(v: field)
    ensures GetLong(LongText(v)) == if v >= 0 then Some(v) else None
    ensures GetULong(LongText(v)) == Some(if v >= 0 then v else v + 0x1_0000_0000_0000_0000)
    ensures LongText(v) != ""
  {
    hide Decimal, ScanNumber;
    var n: nat := if v < 0 then v + ULONG_RANGE else v;
    DecimalScans(n, "");
    assert Decimal(n) + "" == Decimal(n);
  }

  lemma FieldIsRead(f: Fields, name: string, v: field)
    requires name == "h_ffactor" || name == "db_pagesize" || name == "db_lorder"
    ensures HeaderLine(f, Line(name, LongText(v))) ==
            if v < 0 then Bad
            else More(f.(calls := f.calls + [SetNumber(name, if name == "db_lorder" then AsInt(v) else v)]))
  {
    hide HeaderLine, LongText, GetLong;
    LongIsRead(v);
    AssignmentLine(f, name, LongText(v));
    NotANumber();
    assert "db_pagesize" in NUMBERS by { assert NUMBERS[1] == "db_pagesize"; }
    assert "h_ffactor" in NUMBERS by { assert NUMBERS[3] == "h_ffactor"; }
  }

  /** An optional number line. */
  lemma LorderIsRead(lines: seq<string>, lorder: field, f: Fields, g: Fields)
    requires After(lines, f) == More(g)
    ensures After(lines + LorderLines(lorder), f) ==
            if lorder < 0 then Bad
            else More(g.(calls := g.calls + if lorder != 0 then [SetNumber("db_lorder", AsInt(Magnitude(lorder)))] else []))
  {
    hide HeaderLine, After, LongText;
    if lorder != 0 {
      AfterLine(lines, Line("db_lorder", LongText(lorder)), f);
      FieldIsRead(g, "db_lorder", lorder);
    } else {
      assert lines + [] == lines && g.calls + [] == g.calls;
    }
  }

  /** Once a line was refused, the rest is not read. */
  lemma StaysBad(a: seq<string>, b: seq<string>, f: Fields)
    requires After(a, f) == Bad
    ensures After(a + b, f) == Bad
  {
    AfterBoth(a, b, f);
  }

  lemma StartsWith(escaped: bool, btree: bool, f: Fields)
    ensures After([Line("format", FormatName(escaped))] + [Line("type", if btree then "btree" else "hash")], f) ==
            More(f.(checkprint := escaped, dbtype := if btree then Btree else DbType.Hash))
  {
    hide HeaderLine, Line, FormatName;
    var line := Line("format", FormatName(escaped));
    FormatIsRead(f, escaped);
    assert [line][1..] == [] && [line][0] == line;
    assert After([line], f) == More(f.(checkprint := escaped));
    AfterLine([line], Line("type", if btree then "btree" else "hash"), f);
    TypeIsRead(f.(checkprint := escaped), btree);
  }

  lemma PagesizeIsRead(lines: seq<string>, psize: field, f: Fields)
    requires After(lines, f).More?
    ensures After(lines + [Line("db_pagesize", LongText(psize))], f) ==
            var g := After(lines, f).fields;
            if psize < 0 then Bad else More(g.(calls := g.calls + [SetNumber("db_pagesize", psize)]))
  {
    hide HeaderLine, After, LongText, Line;
    AfterLine(lines, Line("db_pagesize", LongText(psize)), f);
    FieldIsRead(After(lines, f).fields, "db_pagesize", psize);
  }

  lemma BtreeSettings(f: Fields, lorder: field, psize: word, noDups: bool)
    ensures f.calls + Settings(OldBtree(lorder, psize, noDups)) ==
            f.calls + (if lorder != 0 then [SetNumber("db_lorder", AsInt(Magnitude(lorder)))] else [])
            + [SetNumber("db_pagesize", psize)] + if noDups then [] else [SetFlag("duplicates")]
  {
    var a := if lorder != 0 then [SetNumber("db_lorder", AsInt(Magnitude(lorder)))] else [];
    var b := [SetNumber("db_pagesize", psize)];
    var c := if noDups then [] else [SetFlag("duplicates")];
    assert f.calls + (a + b + c) == f.calls + a + b + c;
  }

  lemma BtreeIsRead(lorder: field, psize: word, noDups: bool, escaped: bool, f: Fields)
    ensures After(HeaderLines(OldBtree(lorder, psize, noDups), escaped), f) ==
            if lorder < 0 then Bad
            else More(f.(checkprint := escaped, dbtype := Btree, calls := f.calls + Settings(OldBtree(lorder, psize, noDups))))
  {
    hide HeaderLine, After, LongText, Line, FormatName, LorderLines, Settings;
    var lines := [Line("format", FormatName(escaped))] + [Line("type", "btree")];
    StartsWith(escaped, true, f);
    var g := f.(checkprint := escaped, dbtype := Btree);
    LorderIsRead(lines, lorder, f, g);
    var more := [Line("db_pagesize", LongText(psize))] + if noDups then [] else [Line("duplicates", "1")];
    assert HeaderLines(OldBtree(lorder, psize, noDups), escaped) == lines + LorderLines(lorder) + more;
    lines := lines + LorderLines(lorder);
    if lorder < 0 {
      StaysBad(lines, more, f);
    } else {
      PagesizeIsRead(lines, psize, f);
      var h := After(lines + [Line("db_pagesize", LongText(psize))], f).fields;
      if noDups {
        assert lines + more == lines + [Line("db_pagesize", LongText(psize))];
      } else {
        assert lines + more == lines + [Line("db_pagesize", LongText(psize))] + [Line("duplicates", "1")];
        AfterLine(lines + [Line("db_pagesize", LongText(psize))], Line("duplicates", "1"), f);
        DuplicatesAreRead(h);
      }
      BtreeSettings(f, lorder, psize, noDups);
    }
  }

  lemma HashSettings(f: Fields, ffactor: field, lorder: field, bsize: field)
    ensures f.calls + Settings(OldHash(ffactor, lorder, bsize)) ==
            f.calls + [SetNumber("h_ffactor", ffactor)]
            + (if lorder != 0 then [SetNumber("db_lorder", AsInt(Magnitude(lorder)))] else [])
            + [SetNumber("db_pagesize", bsize)]
  {
    var a := [SetNumber("h_ffactor", ffactor)];
    var b := if lorder != 0 then [SetNumber("db_lorder", AsInt(Magnitude(lorder)))] else [];
    var c := [SetNumber("db_pagesize", bsize)];
    assert f.calls + (a + b + c) == f.calls + a + b + c;
  }

  lemma HashIsRead(ffactor: field, lorder: field, bsize: field, escaped: bool, f: Fields)
    ensures After(HeaderLines(OldHash(ffactor, lorder, bsize), escaped), f) ==
            if ffactor < 0 || lorder < 0 || bsize < 0 then Bad
            else More(f.(checkprint := escaped, dbtype := DbType.Hash, calls := f.calls + Settings(OldHash(ffactor, lorder, bsize))))
  {
    hide HeaderLine, After, LongText, Line, FormatName, LorderLines, Settings;
    var lines := [Line("format", FormatName(escaped))] + [Line("type", "hash")];
    StartsWith(escaped, false, f);
    var g := f.(checkprint := escaped, dbtype := DbType.Hash);
    AfterLine(lines, Line("h_ffactor", LongText(ffactor)), f);
    FieldIsRead(g, "h_ffactor", ffactor);
    lines := lines + [Line("h_ffactor", LongText(ffactor))];
    var last := [Line("db_pagesize", LongText(bsize))];
    if ffactor < 0 {
      StaysBad(lines, LorderLines(lorder) + last, f);
      assert lines + LorderLines(lorder) + last == lines + (LorderLines(lorder) + last);
    } else {
      var h := After(lines, f).fields;
      LorderIsRead(lines, lorder, f, h);
      lines := lines + LorderLines(lorder);
      if lorder < 0 {
        StaysBad(lines, last, f);
      } else {
        PagesizeIsRead(lines, bsize, f);
        HashSettings(f, ffactor, lorder, bsize);
      }
    }
  }

  lemma OldIsRead(d: Old, escaped: bool, version: int)
    ensures After(HeaderLines(d, escaped), Blank(None, version)) ==
            if Loadable(d) then More(Expected(d, escaped, version)) else Bad
  {
    hide After, HeaderLines, Settings;
    var f := Blank(None, version);
    assert f.calls + Settings(d) == Settings(d);
    match d
    case OldBtree(lorder, psize, noDups) => BtreeIsRead(lorder, psize, noDups, escaped, f);
    case OldHash(ffactor, lorder, bsize) => HashIsRead(ffactor, lorder, bsize, escaped, f);
  }

  lemma CleanLine(name: string, value: string)
    requires Clean(name) && Clean(value)
    ensures Clean(Line(name, value))
  {
    var line := Line(name, value);
    forall k | 0 <= k < |line| ensures line[k] != '\n' && line[k] != '\0' {
      if k > |name| { assert line[k] == value[k - |name| - 1]; }
    }
  }

  lemma CleanNumber(v: field)
    ensures Clean(LongText(v))
  {
    hide Decimal;
    var n: nat := if v < 0 then v + ULONG_RANGE else v;
    DecimalIsRead(n, "");
    forall k | 0 <= k < |Decimal(n)| ensures Decimal(n)[k] != '\n' && Decimal(n)[k] != '\0' {
      assert IsDigit(Decimal(n)[k]);
    }
  }

  lemma HeaderLinesAreClean(d: Old, escaped: bool)
    ensures AllClean(HeaderLines(d, escaped)) && Clean(Line("HEADER", "END"))
  {
    hide Line, LongText;
    CleanLine("format", FormatName(escaped));
    CleanLine("HEADER", "END");
    match d {
      case OldBtree(lorder, psize, _) =>
        CleanLine("type", "btree");
        CleanNumber(lorder);
        CleanNumber(psize);
        CleanLine("db_lorder", LongText(lorder));
        CleanLine("db_pagesize", LongText(psize));
        CleanLine("duplicates", "1");
      case OldHash(ffactor, lorder, bsize) =>
        CleanLine("type", "hash");
        CleanNumber(ffactor);
        CleanNumber(lorder);
        CleanNumber(bsize);
        CleanLine("h_ffactor", LongText(ffactor));
        CleanLine("db_lorder", LongText(lorder));
        CleanLine("db_pagesize", LongText(bsize));
    }
  }

  lemma LastIsRead(f: Fields)
    ensures HeaderLine(f, Line("HEADER", "END")) == Done(f)
  {
    hide HeaderLine;
    AssignmentLine(f, "HEADER", "END");
  }

  /** A dumped header is read as what was dumped, or refused if a field was negative. */
  lemma DumpedHeaderIsRead(input: string, d: Old, escaped: bool, version: int, body: string, n: nat)
    requires input == HeaderText(d, escaped) + body
    ensures RunInput(input, 0, Blank(None, version), n) ==
            if Loadable(d) then
              Parsed(Expected(d, escaped, version), |HeaderText(d, escaped)|, n + |HeaderLines(d, escaped)| + 1)
            else Failed
  {
    hide HeaderLine, LineEnd, CString, Clean, RunInput, JoinLines, HeaderLines, Line, After, Expected;
    var lines, last := HeaderLines(d, escaped), Line("HEADER", "END");
    HeaderLinesAreClean(d, escaped);
    OldIsRead(d, escaped, version);
    JoinLinesAppend(lines, last);
    assert input[0..] == JoinLines(lines) + (last + "\n" + body);
    RunLines(input, 0, lines, last + "\n" + body, Blank(None, version), n);
    TextPassed(input, 0, JoinLines(lines), last + "\n" + body);
    if Loadable(d) {
      var g, at := Expected(d, escaped, version), |JoinLines(lines)|;
      RunLine(input, at, last, body);
      InputStep(input, at, g, n + |lines|);
      LastIsRead(g);
    }
  }
}
