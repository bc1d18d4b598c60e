/** Whole files of dump versions 2 and 3, with any number of databases, and the main loop of db_load. */
module WrittenFiles {
  import opened Options
  import opened Words
  import opened Text
  import opened Dumpers
  import opened Loaders
  import opened Load
  import opened Headers
  import opened WholeFiles
  import opened RoundTrips
  import opened HeaderTexts

  /** A database as it was written: what its header states, and its records. */
  datatype Written = Written(d: Stated, pairs: seq<Record>)

  /** Two lines for each pair, with a space in front of each. */
  function RecordsText(escaped: bool, isprint: byte -> bool, pairs: seq<Record>): string {
    if pairs == [] then ""
    else if escaped then
      " " + PrintText(isprint, pairs[0].0) + "\n"
      + (" " + PrintText(isprint, pairs[0].1) + "\n" + RecordsText(escaped, isprint, pairs[1..]))
    else
      " " + HexText(pairs[0].0) + "\n"
      + (" " + HexText(pairs[0].1) + "\n" + RecordsText(escaped, isprint, pairs[1..]))
  }

  function WrittenText(isprint: byte -> bool, w: Written): string {
    StatedText(w.d, isprint) + RecordsText(w.d.escaped, isprint, w.pairs) + "DATA=END\n"
  }

  function FileText(isprint: byte -> bool, ws: seq<Written>): string {
    if ws == [] then "" else WrittenText(isprint, ws[0]) + FileText(isprint, ws[1..])
  }

  /** A btree or hash database, in version 2 or above, of which each item stays on its line. */
  predicate Readable(isprint: byte -> bool, w: Written) {
    && WellStated(w.d, isprint) && w.d.version > 1 && (w.d.dbtype == Btree || w.d.dbtype == DbType.Hash)
    && OneLinePairs(w.d.escaped, isprint, w.pairs)
  }

  predicate AllReadable(isprint: byte -> bool, ws: seq<Written>) {
    forall k :: 0 <= k < |ws| ==> Readable(isprint, ws[k])
  }

  /**
   * A key or data item has at most 2^31 - 10 bytes escaped and 2^32 - 11 in hex; a data item in hex has any
   * number of bytes if it is streamed.
   */
  predicate OnePairFits(escaped: bool, blobThreshold: nat, pair: Record) {
    var limit := if escaped then 2147483638 else 4294967285;
    |pair.0| <= limit && (|pair.1| <= limit || (blobThreshold != 0 && !escaped))
  }

  predicate PairsFit(escaped: bool, blobThreshold: nat, pairs: seq<Record>) {
    forall k :: 0 <= k < |pairs| ==> OnePairFits(escaped, blobThreshold, pairs[k])
  }

  predicate Fits(blobThreshold: nat, w: Written) {
    Acceptable(w.d) && PairsFit(w.d.escaped, blobThreshold, w.pairs)
  }

  // ---------- the records ----------

  lemma TwoLines(escaped: bool, isprint: byte -> bool, items: seq<seq<byte>>)
    requires |items| >= 2
    ensures BodyText(" ", escaped, isprint, items) ==
            " " + ItemText(escaped, isprint, items[0]) + "\n"
            + (" " + ItemText(escaped, isprint, items[1]) + "\n" + BodyText(" ", escaped, isprint, items[2..]))
  {
    hide ItemText;
    assert items[1..][1..] == items[2..];
  }

  lemma NoBody(escaped: bool, isprint: byte -> bool)
    ensures BodyText(" ", escaped, isprint, []) == ""
  {
  }

  lemma {:induction false} RecordsAreBody(escaped: bool, isprint: byte -> bool, pairs: seq<Record>)
    ensures RecordsText(escaped, isprint, pairs) == BodyText(" ", escaped, isprint, Interleave(pairs))
  {
    hide BodyText, PrintText, HexText;
    if pairs == [] {
      NoBody(escaped, isprint);
    } else {
      var items := Interleave(pairs);
      RecordsAreBody(escaped, isprint, pairs[1..]);
      TwoLines(escaped, isprint, items);
      assert items[2..] == Interleave(pairs[1..]);
    }
  }

  lemma {:induction false} InterleavedAt(pairs: seq<Record>, k: nat)
    ensures |Interleave(pairs)| == 2 * |pairs|
    ensures k < |pairs| ==> Interleave(pairs)[2 * k] == pairs[k].0 && Interleave(pairs)[2 * k + 1] == pairs[k].1
  {
    if pairs != [] { InterleavedAt(pairs[1..], if k > 0 then k - 1 else 0); }
  }

  lemma PairsFitExactly(escaped: bool, blobThreshold: nat, pairs: seq<Record>)
    ensures AllFit(escaped, blobThreshold, Interleave(pairs)) <==> PairsFit(escaped, blobThreshold, pairs)
  {
    hide Interleave;
    var items := Interleave(pairs);
    InterleavedAt(pairs, 0);
    forall k | 0 <= k < |pairs|
      ensures ItemFits(escaped, blobThreshold, 2 * k, items[2 * k]) && ItemFits(escaped, blobThreshold, 2 * k + 1, items[2 * k + 1])
              <==> OnePairFits(escaped, blobThreshold, pairs[k])
    {
      InterleavedAt(pairs, k);
    }
    if PairsFit(escaped, blobThreshold, pairs) {
      forall j | 0 <= j < |items| ensures ItemFits(escaped, blobThreshold, j, items[j]) {
        var k := j / 2;
        assert OnePairFits(escaped, blobThreshold, pairs[k]);
        assert j == 2 * k || j == 2 * k + 1;
      }
    } else {
      var k :| 0 <= k < |pairs| && !OnePairFits(escaped, blobThreshold, pairs[k]);
      assert !(ItemFits(escaped, blobThreshold, 2 * k, items[2 * k]) && ItemFits(escaped, blobThreshold, 2 * k + 1, items[2 * k + 1]));
    }
  }

  // ---------- one database ----------

  lemma WrittenAhead(input: string, pos: nat, isprint: byte -> bool, w: Written, rest: string)
    requires pos <= |input| && input[pos..] == WrittenText(isprint, w) + rest
    ensures input[pos..] == StatedText(w.d, isprint) + (RecordsText(w.d.escaped, isprint, w.pairs) + ("DATA=END\n" + rest))
    ensures pos + |WrittenText(isprint, w)| + |rest| == |input| && input[pos + |WrittenText(isprint, w)|..] == rest
  {
    hide StatedText, RecordsText;
    TextPassed(input, pos, WrittenText(isprint, w), rest);
  }

  /** Behind the header of a written database, its records and their end are ahead. */
  lemma BodyIsAhead(input: string, end: nat, isprint: byte -> bool, w: Written, rest: string)
    requires Readable(isprint, w)
    requires end <= |input| && input[end..] == RecordsText(w.d.escaped, isprint, w.pairs) + ("DATA=END\n" + rest)
    ensures BodyAhead(input, end, w.d.version, w.d.escaped, isprint, Interleave(w.pairs), "DATA=END\n" + rest)
  {
    hide RecordsText, BodyText, Interleave, WellStated, OneLinePairs, OneLine;
    RecordsAreBody(w.d.escaped, isprint, w.pairs);
    InterleavedOneLine(w.d.escaped, isprint, w.pairs);
    assert ("DATA=END\n" + rest)[..9] == "DATA=END\n";
  }

  lemma FinishKeeps(f: Fields, g: Fields)
    requires Finish(f) == g
    ensures f.version == g.version && f.checkprint == g.checkprint && f.dbtype == g.dbtype
  {
  }

  /** What the loader finds at the start of a written database, whatever follows it. */
  lemma WrittenIsRead(input: string, pos: nat, isprint: byte -> bool, w: Written, rest: string, version: int, n: nat)
    requires pos <= |input| && input[pos..] == WrittenText(isprint, w) + rest && Readable(isprint, w)
    ensures var f := Blank(None, version);
            var r := RunInput(input, pos, f, n);
            if Acceptable(w.d) then
              && r.Parsed? && Finish(r.fields) == AsStated(w.d)
              && r.fields.version == w.d.version && r.fields.checkprint == w.d.escaped
              && LoadAhead(input, pos, r, LastLine(input, pos, f, n), isprint, Interleave(w.pairs), "DATA=END\n" + rest)
            else r == Failed || r == Beyond
  {
    hide WellStated, Acceptable, Calls, OneLinePairs, StatedText, RecordsText, WrittenText, RunInput, NoZero, LastLine,
         BodyAhead, Interleave, LineEnd, Finish;
    var end := pos + |StatedText(w.d, isprint)|;
    var r := RunInput(input, pos, Blank(None, version), n);
    WrittenAhead(input, pos, isprint, w, rest);
    StatedHeaderIsRead(input, pos, w.d, isprint, RecordsText(w.d.escaped, isprint, w.pairs) + ("DATA=END\n" + rest), version, n);
    BodyIsAhead(input, end, isprint, w, rest);
    if r.Parsed? {
      FinishKeeps(r.fields, AsStated(w.d));
      NoZeroThere(input, pos, end, pos, LastLine(input, pos, Blank(None, version), n));
    }
  }

  // ---------- the whole file ----------

  lemma FirstWritten(isprint: byte -> bool, ws: seq<Written>)
    requires ws != []
    ensures FileText(isprint, ws) == WrittenText(isprint, ws[0]) + FileText(isprint, ws[1..])
  {
    hide WrittenText;
  }

  lemma NothingWritten(isprint: byte -> bool)
    ensures FileText(isprint, []) == ""
  {
  }

  /** At the end of the input there is no header. */
  lemma NothingAhead(input: string, f: Fields, n: nat)
    ensures RunInput(input, |input|, f, n) == Cut && LineEnd(input, |input|) == |input|
  {
  }

  lemma ReadableVersion(isprint: byte -> bool, w: Written)
    requires Readable(isprint, w)
    ensures w.d.version > 1
  {
  }

  /** load, where nothing is left of the file or a database is next. */
  method LoadNext(l: Loader, db: Database, retries: nat, blobThreshold: nat,
                  ghost isprint: byte -> bool, ghost ws: seq<Written>) returns (rval: int, f: Fields)
    requires l.Valid() && !l.endofile && AllReadable(isprint, ws) && l.input[l.pos..] == FileText(isprint, ws)
    modifies l, db
    ensures l.Valid()
    ensures ws == [] ==> rval == 0 && l.endofile && db.puts == old(db.puts)
    ensures ws != [] ==>
              && (rval == 0 <==> Fits(blobThreshold, ws[0]))
              && (rval == 0 ==>
                    && db.puts == old(db.puts) + ws[0].pairs && f == AsStated(ws[0].d) && !l.endofile && l.endodata
                    && l.pos == old(l.pos) + |WrittenText(isprint, ws[0])| && l.input[l.pos..] == FileText(isprint, ws[1..]))
  {
    hide FileText, WrittenText, Readable, Acceptable, AsStated, RunInput, LastLine, LineEnd, LoadAhead, AllFit, PairsFit,
         PairUp, Interleave, Finish;
    ghost var items, tail := [], "";
    if ws == [] {
      NothingWritten(isprint);
      NothingAhead(l.input, Blank(None, l.version), l.lineno);
    } else {
      ghost var w, rest := ws[0], FileText(isprint, ws[1..]);
      items, tail := Interleave(w.pairs), "DATA=END\n" + rest;
      FirstWritten(isprint, ws);
      WrittenAhead(l.input, l.pos, isprint, w, rest);
      WrittenIsRead(l.input, l.pos, isprint, w, rest, l.version, l.lineno);
      ReadableVersion(isprint, w);
      PairsFitExactly(w.d.escaped, blobThreshold, w.pairs);
      PairUpInvertsInterleave(w.pairs);
    }
    rval, f := LoadInput(l, db, retries, blobThreshold, isprint, items, tail);
  }

  lemma NextWritten(isprint: byte -> bool, ws: seq<Written>, n: nat)
    requires n <= |ws| && AllReadable(isprint, ws)
    ensures AllReadable(isprint, ws[n..])
    ensures n < |ws| ==> ws[n..][0] == ws[n] && ws[n..][1..] == ws[n + 1..]
  {
    hide Readable;
  }

  /**
   * The main loop of db_load over a file with any number of databases. All are loaded, each with exactly
   * its records and its settings, or loading stops at the first that does not fit, and those before
   * it have been loaded.
   */
  method LoadAll(ws: seq<Written>, isprint: byte -> bool, retries: nat, blobThreshold: nat)
    returns (ok: bool, loaded: seq<(Fields, seq<Record>)>)
    requires AllReadable(isprint, ws)
    ensures |loaded| <= |ws|
    ensures forall k :: 0 <= k < |loaded| ==>
                          Fits(blobThreshold, ws[k]) && loaded[k] == (AsStated(ws[k].d), ws[k].pairs)
    ensures if ok then |loaded| == |ws| else |loaded| < |ws| && !Fits(blobThreshold, ws[|loaded|])
  {
    hide FileText, WrittenText, AllReadable, Fits, AsStated;
    var l := new Loader(FileText(isprint, ws), 1);
    loaded := [];
    assert l.input[0..] == l.input && ws[0..] == ws;
    while !l.endofile
      invariant fresh(l) && l.Valid() && |loaded| <= |ws| && (l.endofile ==> |loaded| == |ws|)
      invariant !l.endofile ==> l.input[l.pos..] == FileText(isprint, ws[|loaded|..])
      invariant forall k :: 0 <= k < |loaded| ==>
                              Fits(blobThreshold, ws[k]) && loaded[k] == (AsStated(ws[k].d), ws[k].pairs)
      decreases |ws| - |loaded|, !l.endofile
    {
      NextWritten(isprint, ws, |loaded|);
      var db := new Database();
      var rval, f := LoadNext(l, db, retries, blobThreshold, isprint, ws[|loaded|..]);
      if rval != 0 {
        return false, loaded;
      }
      if !l.endofile {
        assert [] + ws[|loaded|].pairs == ws[|loaded|].pairs;
        loaded := loaded + [(f, db.puts)];
      }
    }
    ok := true;
  }
}
