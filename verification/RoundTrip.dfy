/** db_load over a whole file, and the round trip from db_dump185 to db_load. */
module RoundTrips {
  import opened Options
  import opened Words
  import opened Text
  import opened Dumpers
  import opened Loaders
  import opened Load
  import opened Headers
  import opened HeaderReaders
  import opened WholeFiles

  lemma FinishKeepsName(f: Fields)
    ensures Finish(f).subdb == f.subdb
  {
  }

  /**
   * load reads the header once, and again each time the environment was resized: whatever the number
   * of retries, a header without a zero before its last line gives the same, and the input stays where
   * the header ended.
   */
  method ReadHeader(h: HeaderReader, retries: nat) returns (ret: int, f: Fields)
    requires h.Valid() && h.hdrbuf == null
    modifies h, h.l
    ensures h.Valid() && h.l.endodata == old(h.l.endodata) && old(h.l.pos) <= h.l.pos
    ensures match old(RunInput(h.l.input, h.l.pos, Blank(None, h.l.version), h.l.lineno))
            case Parsed(g, end, lines) =>
              NoZero(h.l.input, old(h.l.pos),
                     LastLine(h.l.input, old(h.l.pos), Blank(None, old(h.l.version)), old(h.l.lineno))) ==>
                && ret == 0 && f == Finish(g) && h.l.version == g.version && h.l.lineno == lines
                && h.l.pos == end && h.l.endofile == old(h.l.endofile)
            case Cut => if h.NoHeader(old(h.l.pos)) then ret == 0 && h.l.endofile else ret == 1
            case Failed => ret == 1
            case Beyond => ret == 1
  {
    hide RunInput, RunSaved, IsSaved, NoZero, LineEnd, Finish, LastLine, NoHeaderBehindZero;
    var l := h.l;
    ghost var from, version, lines := l.pos, l.version, l.lineno;
    ghost var run := RunInput(l.input, from, Blank(None, version), lines);
    ret, f := h.Rheader(None);
    if ret != 0 || l.endofile {
      return;
    }
    assert run.Parsed?;
    FinishKeepsName(run.fields);
    for i := 0 to retries
      invariant h.Valid() && l.endodata == old(h.l.endodata) && from <= l.pos
      invariant h.hdrbuf != null && h.origline == lines && IsSaved(h.hdrbuf[..], l.input, from, run.end)
      invariant NoZero(l.input, from, LastLine(l.input, from, Blank(None, version), lines)) ==>
                  && ret == 0 && f == Finish(run.fields) && l.version == run.fields.version && l.lineno == run.lines
                  && l.pos == run.end && l.endofile == old(h.l.endofile)
    {
      RereadIsTheSame(l.input, from, None, version, lines, h.hdrbuf[..]);
      SavedIsNeverCut(l.input, from, from, Blank(None, version), lines, h.hdrbuf[..], 0, Blank(f.subdb, l.version), lines);
      ret, f := h.Rheader(f.subdb);
      if ret != 0 {
        return;
      }
    }
  }

  /** Are there keys, by the header and by the command line (-1 if it does not say)? None is an error. */
  function KeyFlag(keys: int, keyflag: int, dbtype: DbType): Option<int> {
    if (keys != 1 && keyflag == 1) || (keys == 1 && keyflag == 0) then None
    else
      var flag := if keys == 1 then 1 else keyflag;
      var keyed := if (dbtype == Btree || dbtype == DbType.Hash) && flag != 0 then 1 else flag;
      if (dbtype == Heap && keyed == 1) || dbtype == Unknown then None
      else Some(if keyed == -1 then 0 else keyed)
  }

  /** Header and command line must agree, and without keys a btree or hash is an error that stops nothing. */
  lemma KeyFlagExactly(keys: int, keyflag: int, dbtype: DbType)
    requires -1 <= keyflag <= 1
    ensures KeyFlag(keys, keyflag, dbtype) == None <==>
            (keys == 1 && keyflag == 0) || (keys != 1 && keyflag == 1) || dbtype == Unknown || (dbtype == Heap && keys == 1)
    ensures KeyFlag(keys, keyflag, dbtype).Some? ==>
              KeyFlag(keys, keyflag, dbtype) ==
              Some(if keys == 1 || (keyflag == -1 && (dbtype == Btree || dbtype == DbType.Hash)) then 1 else 0)
  {
  }

  predicate AllOneLine(escaped: bool, isprint: byte -> bool, items: seq<seq<byte>>) {
    forall k :: 0 <= k < |items| ==> OneLine(escaped, isprint, items[k])
  }

  /** The input is a whole file of db_dump185. */
  ghost predicate IsDump(input: string, d: Old, escaped: bool, isprint: byte -> bool, items: seq<seq<byte>>) {
    && input == HeaderText(d, escaped) + BodyText("", escaped, isprint, items)
    && AllOneLine(escaped, isprint, items)
  }

  /** Behind the header of a dump, its records are ahead. */
  lemma BodyOfDump(input: string, d: Old, escaped: bool, isprint: byte -> bool, items: seq<seq<byte>>)
    requires IsDump(input, d, escaped, isprint, items)
    ensures |HeaderText(d, escaped)| <= |input|
    ensures BodyAhead(input, |HeaderText(d, escaped)|, 1, escaped, isprint, items, "")
  {
    hide HeaderText, BodyText;
    var body := BodyText("", escaped, isprint, items);
    assert input[|HeaderText(d, escaped)|..] == body && body + "" == body;
  }

  lemma {:induction false} CleanLinesHaveNoZero(lines: seq<string>)
    requires AllClean(lines)
    ensures '\0' !in JoinLines(lines)
  {
    if lines != [] {
      CleanLinesHaveNoZero(lines[1..]);
      assert Clean(lines[0]);
    }
  }

  lemma HeaderHasNoZero(d: Old, escaped: bool)
    ensures '\0' !in HeaderText(d, escaped)
  {
    hide HeaderLines, Line, Clean;
    HeaderLinesAreClean(d, escaped);
    CleanLinesHaveNoZero(HeaderLines(d, escaped) + [Line("HEADER", "END")]);
  }

  lemma HeaderOfDump(input: string, d: Old, escaped: bool, isprint: byte -> bool, items: seq<seq<byte>>)
    requires IsDump(input, d, escaped, isprint, items)
    ensures RunInput(input, 0, Blank(None, 1), 0) ==
            if Loadable(d) then Parsed(Expected(d, escaped, 1), |HeaderText(d, escaped)|, |HeaderLines(d, escaped)| + 1)
            else Failed
    ensures |HeaderText(d, escaped)| <= |input| && NoZero(input, 0, |HeaderText(d, escaped)|)
    ensures Loadable(d) ==> NoZero(input, 0, LastLine(input, 0, Blank(None, 1), 0))
  {
    hide RunInput, HeaderText, HeaderLines, BodyText, Loadable, Expected, Blank, LastLine;
    DumpedHeaderIsRead(input, d, escaped, 1, BodyText("", escaped, isprint, items), 0);
    HeaderHasNoZero(d, escaped);
    forall k | 0 <= k < |HeaderText(d, escaped)| ensures input[k] != '\0' {
      assert input[k] == HeaderText(d, escaped)[k];
    }
    if Loadable(d) {
      NoZeroThere(input, 0, |HeaderText(d, escaped)|, 0, LastLine(input, 0, Blank(None, 1), 0));
    }
  }

  /** A header, read without error, of a database with keys whose records are ahead. */
  ghost predicate LoadAhead(input: string, pos: nat, r: Run, last: nat, isprint: byte -> bool, items: seq<seq<byte>>,
                            tail: string)
    requires r.Parsed? && pos <= last <= |input|
  {
    && (r.fields.dbtype == Btree || r.fields.dbtype == DbType.Hash) && NoZero(input, pos, last)
    && BodyAhead(input, r.end, r.fields.version, r.fields.checkprint, isprint, items, tail)
  }

  /**
   * load, for a database with keys and no options from the command line: behind an accepted header any
   * body is loaded exactly if each item fits, and the reader stops where the body ends. Where the input
   * has ended already, there is nothing to load.
   */
  method LoadInput(l: Loader, db: Database, retries: nat, blobThreshold: nat,
                   ghost isprint: byte -> bool, ghost items: seq<seq<byte>>, ghost tail: string)
    returns (rval: int, f: Fields)
    requires l.Valid() && !l.endofile
    modifies l, db
    ensures l.Valid()
    ensures match old(RunInput(l.input, l.pos, Blank(None, l.version), l.lineno))
            case Parsed(g, end, lines) =>
              LoadAhead(l.input, old(l.pos), Parsed(g, end, lines),
                        LastLine(l.input, old(l.pos), Blank(None, old(l.version)), old(l.lineno)), isprint, items, tail) ==>
                && (rval == 0 <==> AllFit(g.checkprint, blobThreshold, items))
                && (rval == 0 ==> db.puts == old(db.puts) + PairUp(items) && f == Finish(g) && l.endodata
                                  && l.endofile == (g.version <= 1)
                                  && l.pos == |l.input| - |tail| + if g.version > 1 then 9 else 0)
            case Cut =>
              if LineEnd(l.input, old(l.pos)) == |l.input| then rval == 0 && l.endofile && db.puts == old(db.puts) else rval == 1
            case Failed => rval == 1
            case Beyond => rval == 1
  {
    hide RunInput, NoZero, LastLine, BodyAhead, AllFit, PairUp, LineEnd;
    l.endodata := false;
    var h := new HeaderReader(l);
    var ret;
    ret, f := ReadHeader(h, retries);
    if ret != 0 {
      return 1, f;
    }
    if l.endofile {
      return 0, f;
    }
    var keyed := KeyFlag(f.keys, -1, f.dbtype);
    if keyed != Some(1) || (f.dbtype != Btree && f.dbtype != DbType.Hash) {
      return 1, f;
    }
    rval := LoadRecords(l, db, f.checkprint, blobThreshold, isprint, items, tail);
  }

  /** A dump of db_dump185 is loaded exactly if its header holds no negative field and each item fits. */
  method LoadFile(l: Loader, db: Database, retries: nat, blobThreshold: nat, ghost d: Old, ghost escaped: bool,
                  ghost isprint: byte -> bool, ghost items: seq<seq<byte>>)
    returns (rval: int, f: Fields)
    requires l.Valid() && l.pos == 0 && l.version == 1 && l.lineno == 0 && !l.endofile
    modifies l, db
    ensures l.Valid()
    ensures IsDump(l.input, d, escaped, isprint, items) ==>
              && (rval == 0 <==> Loadable(d) && AllFit(escaped, blobThreshold, items))
              && (rval == 0 ==> db.puts == old(db.puts) + PairUp(items) && l.endofile
                                && f == Expected(d, escaped, 1))
  {
    hide IsDump, HeaderText, HeaderLines, RunInput, Loadable, NoZero, LastLine, BodyAhead, AllFit, PairUp, Settings, LineEnd;
    if IsDump(l.input, d, escaped, isprint, items) {
      HeaderOfDump(l.input, d, escaped, isprint, items);
      BodyOfDump(l.input, d, escaped, isprint, items);
    }
    rval, f := LoadInput(l, db, retries, blobThreshold, isprint, items, "");
  }

  /** All items of these pairs stay on their lines. */
  predicate OneLinePairs(escaped: bool, isprint: byte -> bool, pairs: seq<Record>) {
    forall k :: 0 <= k < |pairs| ==> OneLine(escaped, isprint, pairs[k].0) && OneLine(escaped, isprint, pairs[k].1)
  }

  lemma {:induction false} InterleavedOneLine(escaped: bool, isprint: byte -> bool, pairs: seq<Record>)
    requires OneLinePairs(escaped, isprint, pairs)
    ensures AllOneLine(escaped, isprint, Interleave(pairs))
  {
    hide OneLine;
    if pairs != [] {
      var items, rest := Interleave(pairs), Interleave(pairs[1..]);
      InterleavedOneLine(escaped, isprint, pairs[1..]);
      forall k | 0 <= k < |items| ensures OneLine(escaped, isprint, items[k]) {
        if k >= 2 {
          assert items[k] == rest[k - 2];
        } else {
          assert items[0] == pairs[0].0 && items[1] == pairs[0].1;
        }
      }
    }
  }

  /**
   * An old database dumped to a file and the file loaded: unless a printable newline splits a line,
   * exactly the same pairs arrive in the same order, and the new database gets the settings of the
   * old one; it fails if and only if a header field was negative or an item is too large for its buffer.
   */
  method DumpThenLoad(d: Old, escaped: bool, isprint: byte -> bool, pairs: seq<Record>, retries: nat, blobThreshold: nat)
    returns (rval: int, f: Fields, loaded: seq<Record>)
    requires OneLinePairs(escaped, isprint, pairs)
    ensures rval == 0 <==> Loadable(d) && AllFit(escaped, blobThreshold, Interleave(pairs))
    ensures rval == 0 ==>
              loaded == pairs && f.dbtype == OldType(d) && f.calls == Settings(d) && f.checkprint == escaped && f.subdb == None
  {
    hide HeaderText, BodyText, Interleave, OneLinePairs, AllFit, PairUp, Settings, Loadable;
    var dumper := new Dumper();
    dumper.DumpHeader(d, escaped);
    dumper.DumpRecords(escaped, isprint, pairs);
    var l := new Loader(dumper.out, 1);
    var db := new Database();
    ghost var items := Interleave(pairs);
    InterleavedOneLine(escaped, isprint, pairs);
    assert dumper.out == HeaderText(d, escaped) + BodyText("", escaped, isprint, items);
    PairUpInvertsInterleave(pairs);
    rval, f := LoadFile(l, db, retries, blobThreshold, d, escaped, isprint, items);
    loaded := db.puts;
    assert [] + PairUp(items) == PairUp(items);
  }

  // ---------- the two decoders of escaped text ----------

  /** The line that ends with the input. */
  lemma OneLineAhead(input: string, line: string)
    requires input == line + "\n" && '\n' !in line
    ensures LineEnd(input, 0) == |line| && input[0..|line|] == line
  {
    LineEndIs(input, 0, |line|);
  }

  /**
   * convprintable on a string and dbt_rprint on the line with that string: both refuse it or both
   * give the same bytes, as long as the line's bytes fit the buffer of dbt_rprint.
   */
  method DecodeBoth(s: string) returns (ret: int, outstr: array<byte>, ret': int, dbt: Dbt)
    requires Complete(s) && '\n' !in s
    ensures |s| <= MAX_DOUBLED - 10 ==> (ret == 0 <==> ret' == 0)
    ensures ret == 0 && ret' == 0 ==>
              dbt.Valid() && dbt.size < outstr.Length && outstr[..dbt.size] == dbt.Contents() && outstr[dbt.size] == 0
  {
    hide Unescape, LineEnd, Doubled, Complete;
    ret, outstr := Convprintable(s);
    if Unescape(s).Some? { UnescapeShrinks(s); }
    var l := new Loader(s + "\n", 1);
    dbt := new Dbt();
    StartsDoubled();
    OneLineAhead(l.input, s);
    ret' := l.DbtRprint(dbt);
  }

  /** A name dumped as escaped text is read back exactly up to its first zero. */
  lemma NameRoundTrip(f: Fields, isprint: byte -> bool, bytes: seq<byte>)
    ensures Name(f, PrintText(isprint, bytes)) == More(f.(subdb := Some(CBytes(bytes))))
    ensures CBytes(bytes) == bytes <==> 0 !in bytes
  {
    hide Complete, Unescape, PrintText, CBytes;
    UnescapeInvertsPrintText(isprint, bytes);
    CBytesKeepAll(bytes);
  }
}
