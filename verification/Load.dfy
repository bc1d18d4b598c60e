/** db_load: converting names, putting records, and the loop over the records of one database. */
module Load {
  import opened Options
  import opened Words
  import opened Text
  import opened Dumpers
  import opened Loaders

  // ---------- names ----------

  /** convprintable: escaped text into a zero-terminated string that never needs more room. */
  method Convprintable(instr: string) returns (ret: int, outstr: array<byte>)
    requires Complete(instr)
    ensures fresh(outstr) && outstr.Length == |instr| + 1
    ensures Unescape(instr) == None ==> ret == 1
    ensures Unescape(instr).Some? ==>
              var bytes := Unescape(instr).value;
              ret == 0 && |bytes| <= |instr| && outstr[..|bytes|] == bytes && outstr[|bytes|] == 0
  {
    hide Unescape, PairValue, DigitValue, TooBig, Reading, Complete;
    outstr := new byte[|instr| + 1];
    var i, len := 0, 0;
    ReadingStarts(instr);
    while i < |instr|
      invariant len <= i <= |instr| && Reading(instr, outstr[..len], i)
    {
      ghost var before, at := outstr[..len], i;
      if instr[i] == '\\' {
        EscapeIsWhole(instr, before, at);
        i := i + 1;
        if instr[i] == '\\' {
          ReadBackslash(instr, before, at);
          outstr[len] := '\\' as int % 256;
        } else {
          ReadEscape(instr, before, at);
          if TooBig(instr[i]) || TooBig(instr[i + 1]) {
            return 1, outstr;
          }
          outstr[len] := PairValue(instr[i], instr[i + 1]);
          i := i + 1;
        }
      } else {
        ReadPlain(instr, before, at);
        outstr[len] := instr[i] as int % 256;
      }
      len := len + 1;
      assert outstr[..len] == before + [outstr[len - 1]];
      i := i + 1;
    }
    ReadingEnds(instr, outstr[..len]);
    outstr[len] := 0;
    ret := 0;
  }

  // ---------- the database ----------

  type Record = (seq<byte>, seq<byte>)

  /** Writing into a data item at an offset. */
  function WriteAt(item: seq<byte>, offset: nat, bytes: seq<byte>): seq<byte> {
    if offset > |item| then item + seq(offset - |item|, i => 0) + bytes
    else if offset + |bytes| <= |item| then item[..offset] + bytes + item[offset + |bytes|..]
    else item[..offset] + bytes
  }

  /** What is written is there afterwards, what was elsewhere stays, and a gap is filled with zeros. */
  lemma WriteAtKeeps(item: seq<byte>, offset: nat, bytes: seq<byte>, k: nat)
    ensures var after := WriteAt(item, offset, bytes);
            && |after| == (if offset + |bytes| > |item| then offset + |bytes| else |item|)
            && (k < |after| ==>
                  after[k] == if offset <= k < offset + |bytes| then bytes[k - offset] else if k < |item| then item[k] else 0)
  {
  }

  /** The records put so far, in order. */
  class Database {
    var puts: seq<Record>

    constructor ()
      ensures puts == []
    {
      puts := [];
    }

    /** DBC->put */
    method Put(key: seq<byte>, value: seq<byte>)
      modifies this
      ensures puts == old(puts) + [(key, value)]
    {
      puts := puts + [(key, value)];
    }

    /** DB_STREAM->write into the record put last. */
    method StreamWrite(offset: nat, bytes: seq<byte>)
      requires puts != []
      modifies this
      ensures puts == old(puts)[..|old(puts)| - 1] +
                      [(old(puts)[|old(puts)| - 1].0, WriteAt(old(puts)[|old(puts)| - 1].1, offset, bytes))]
    {
      var n := |puts| - 1;
      puts := puts[..n] + [(puts[n].0, WriteAt(puts[n].1, offset, bytes))];
    }
  }

  // ---------- streaming ----------

  lemma {:induction false} UnhexSplit(s: string, a: nat, b: nat)
    requires 2 * (a + b) <= |s|
    ensures Unhex(s, a + b) == Unhex(s, a) + Unhex(s[2 * a..], b)
  {
    hide PairValue;
    if b > 0 {
      UnhexSplit(s, a, b - 1);
      assert s[2 * a..][2 * b - 2] == s[2 * (a + b) - 2] && s[2 * a..][2 * b - 1] == s[2 * (a + b) - 1];
    }
  }

  /** The rest of a line, from somewhere between two pairs of digits. */
  lemma RestOfLine(l: Loader, from: nat, to: nat)
    requires l.HexAhead(from) && from <= to <= LineEnd(l.input, from) && (to - from) % 2 == 0
    ensures l.HexAhead(to) && LineEnd(l.input, to) == LineEnd(l.input, from)
    ensures l.input[to..LineEnd(l.input, to)] == l.input[from..LineEnd(l.input, from)][to - from..]
  {
    var end := LineEnd(l.input, from);
    LineEndIs(l.input, to, end);
    assert l.input[to..end] == l.input[from..end][to - from..];
  }

  /** A chunk of a line of digits: the line's first bytes, and all of them unless there are more. */
  lemma ChunkIsRead(digits: string, ret: int, more: bool, moved: int, data: Dbt)
    requires data.Valid() && RdumpResult(digits, true, ret, more, moved, data) && |digits| % 2 == 0
    ensures ret == 0 && 2 * data.size <= |digits| && data.Contents() == Unhex(digits, data.size)
    ensures if more then moved == 2 * data.size else 2 * data.size == |digits| && moved == |digits| + 1
  {
    assert |data.Contents()| == data.size;
  }

  /** Written at the end of what is there, a chunk extends it without gap or overlap. */
  lemma ChunkIsAppended(d: seq<byte>, rest: string, done: nat, n: nat)
    requires 2 * (done + n) <= |rest|
    ensures 2 * n <= |rest[2 * done..]|
    ensures WriteAt(d + Unhex(rest, done), |d| + done, Unhex(rest[2 * done..], n)) == d + Unhex(rest, done + n)
  {
    UnhexSplit(rest, done, n);
    hide Unhex;
    var a, b := Unhex(rest, done), Unhex(rest[2 * done..], n);
    assert d + a + b == d + (a + b);
    assert (d + a)[..|d| + done] == d + a;
    assert (d + a)[|d| + done..] == [];
  }

  /**
   * Streaming the line from on: its first done bytes are in the record put last, behind d, and there may
   * be more of it.
   */
  ghost predicate Streaming(l: Loader, db: Database, from: nat, puts: seq<Record>, k: seq<byte>, d: seq<byte>,
                            done: nat, more: bool)
    reads l, db
  {
    l.HexAhead(from) &&
    var end := LineEnd(l.input, from);
    var rest := l.input[from..end];
    && 2 * done <= |rest| && db.puts == puts + [(k, d + Unhex(rest, done))]
    && if more then l.pos == from + 2 * done else 2 * done == |rest| && l.pos == end + 1
  }

  lemma StreamingStarts(l: Loader, db: Database, puts: seq<Record>, k: seq<byte>, d: seq<byte>)
    requires l.HexAhead(l.pos) && db.puts == puts + [(k, d)]
    ensures Streaming(l, db, l.pos, puts, k, d, 0, true)
  {
    hide IsHex, LineEnd;
    UnhexNone(l.input[l.pos..LineEnd(l.input, l.pos)]);
    assert d + [] == d;
  }

  lemma StreamingEnds(l: Loader, db: Database, from: nat, puts: seq<Record>, k: seq<byte>, d: seq<byte>, done: nat)
    requires Streaming(l, db, from, puts, k, d, done, false)
    ensures var end := LineEnd(l.input, from);
            var rest := l.input[from..end];
            && l.pos == end + 1 && db.puts == puts + [(k, d + Unhex(rest, |rest| / 2))]
  {
    hide Unhex, IsHex, LineEnd;
  }

  /** The line from where a chunk was started, and what the chunk adds. */
  lemma ChunkGoesOn(l: Loader, from: nat, done: nat, d: seq<byte>, ret: int, more: bool, moved: int, data: Dbt)
    requires l.HexAhead(from) && data.Valid() && from + 2 * done <= LineEnd(l.input, from)
    requires l.HexAhead(from + 2 * done)
    requires var p := from + 2 * done; RdumpResult(l.input[p..LineEnd(l.input, p)], true, ret, more, moved, data)
    ensures var end := LineEnd(l.input, from);
            var rest := l.input[from..end];
            && ret == 0 && 2 * (done + data.size) <= |rest|
            && WriteAt(d + Unhex(rest, done), |d| + done, data.Contents()) == d + Unhex(rest, done + data.size)
            && (if more then moved == 2 * data.size
                else 2 * (done + data.size) == |rest| && from + 2 * done + moved == end + 1)
  {
    hide LineEnd, IsHex, Unhex, RdumpResult, Loader.HexAhead, WriteAt;
    var p, rest := from + 2 * done, l.input[from..LineEnd(l.input, from)];
    l.HexLineIsEven(from);
    RestOfLine(l, from, p);
    ChunkIsRead(rest[2 * done..], ret, more, moved, data);
    ChunkIsAppended(d, rest, done, data.size);
  }

  /** One turn of the loop of putdata: a chunk is read and written where the last one ended. */
  method StreamChunk(l: Loader, db: Database, data: Dbt, offset: nat, ghost from: nat, ghost puts: seq<Record>,
                     ghost k: seq<byte>, ghost d: seq<byte>, ghost done: nat, ghost ahead: bool)
    returns (ret: int, more: bool)
    requires l.Valid() && data.Valid() && db.puts != []
    requires ahead ==> Streaming(l, db, from, puts, k, d, done, true) && offset == |d| + done && !l.endodata
    modifies l, db, data, data.data
    ensures l.Valid() && data.Valid() && (data.data == old(data.data) || fresh(data.data))
    ensures l.version == old(l.version) && old(l.pos) <= l.pos && (ret == 0 && more ==> old(l.pos) < l.pos)
    ensures |db.puts| == |old(db.puts)|
    ensures ahead ==>
              && ret == 0 && Streaming(l, db, from, puts, k, d, done + data.size, more)
              && !l.endodata && l.endofile == old(l.endofile)
  {
    hide LineEnd, IsHex, Unhex, RdumpResult, Loader.HexAhead, WriteAt;
    ghost var p := l.pos;
    if ahead { RestOfLine(l, from, p); }
    ret, more := l.DbtRdump(data, data.data.Length, true);
    if ahead { ChunkGoesOn(l, from, done, d, ret, more, l.pos - p, data); }
    if ret != 0 {
      return 5, more;
    }
    db.StreamWrite(offset, data.data[..data.size]);
    return 0, more;
  }

  /** putdata: put the item, and stream the rest of its line after it chunk by chunk. */
  method PutData(l: Loader, db: Database, key: Dbt, data: Dbt, streaming: bool) returns (ret: int)
    requires l.Valid() && key.Valid() && data.Valid()
    requires key != data && key.data != data.data
    modifies l, db, data, data.data
    ensures l.Valid() && data.Valid() && (data.data == old(data.data) || fresh(data.data))
    ensures l.version == old(l.version) && old(l.pos) <= l.pos
    ensures !streaming ==> data.data == old(data.data) && data.size == old(data.size)
    ensures !streaming ==>
              && ret == 0 && db.puts == old(db.puts) + [(old(key.Contents()), old(data.Contents()))]
              && l.pos == old(l.pos) && l.endodata == old(l.endodata) && l.endofile == old(l.endofile)
    ensures streaming && l.HexAhead(old(l.pos)) && !old(l.endodata) ==>
              var end := LineEnd(l.input, old(l.pos));
              var rest := l.input[old(l.pos)..end];
              && ret == 0 && l.pos == end + 1 && !l.endodata && l.endofile == old(l.endofile)
              && db.puts == old(db.puts) +
                   [(old(key.Contents()), old(data.Contents()) + Unhex(rest, |rest| / 2))]
  {
    hide LineEnd, IsHex, Unhex, Loader.HexAhead, Streaming;
    ghost var from, ahead := l.pos, streaming && l.HexAhead(l.pos) && !l.endodata;
    ghost var puts, k, d := db.puts, key.Contents(), data.Contents();
    var offset: nat := data.size;
    db.Put(key.data[..key.size], data.data[..data.size]);
    if !streaming {
      return 0;
    }
    if data.data.Length < MEGABYTE {
      data.Realloc(MEGABYTE);
    }
    if ahead { StreamingStarts(l, db, puts, k, d); }
    var more := streaming;
    ghost var done: nat := 0;
    while more && !l.endodata
      invariant l.Valid() && data.Valid() && (data.data == old(data.data) || fresh(data.data))
      invariant l.version == old(l.version) && from <= l.pos && |db.puts| == |puts| + 1
      invariant ahead ==> !l.endodata && l.endofile == old(l.endofile) && offset == |d| + done
      invariant ahead ==> Streaming(l, db, from, puts, k, d, done, more)
      decreases |l.input| - l.pos, more
    {
      ret, more := StreamChunk(l, db, data, offset, from, puts, k, d, done, ahead);
      if ret != 0 {
        return ret;
      }
      done := done + data.size;
      offset := offset + data.size;
    }
    if ahead { StreamingEnds(l, db, from, puts, k, d, done); }
    return 0;
  }

  // ---------- the text of a whole database ----------

  /** Versions 2 and 3 put a space before each item and end the data with a line of its own. */
  function Lead(version: int): string {
    if version > 1 then " " else ""
  }

  predicate EndsBody(version: int, tail: string) {
    if version > 1 then 9 <= |tail| && tail[..9] == "DATA=END\n" else tail == ""
  }

  /** The item's text stays on one line. */
  predicate OneLine(escaped: bool, isprint: byte -> bool, x: seq<byte>) {
    escaped ==> !(isprint(10) && 10 in x)
  }

  /** From pos on, the input is the text of these items and then the end of the data. */
  ghost predicate BodyAhead(input: string, pos: nat, version: int, escaped: bool, isprint: byte -> bool,
                            items: seq<seq<byte>>, tail: string)
  {
    && pos <= |input| && input[pos..] == BodyText(Lead(version), escaped, isprint, items) + tail
    && EndsBody(version, tail)
    && forall k :: 0 <= k < |items| ==> OneLine(escaped, isprint, items[k])
  }

  /** The largest item that fits a buffer: growth saturates for hex items and wraps for escaped ones. */
  function MaxItem(escaped: bool): nat {
    if escaped then MAX_DOUBLED - 10 else MAX_WORD - 10
  }

  lemma ItemTextIsOneLine(escaped: bool, isprint: byte -> bool, x: seq<byte>)
    requires OneLine(escaped, isprint, x)
    ensures '\n' !in ItemText(escaped, isprint, x)
  {
    if escaped {
      PrintTextIsOneLine(isprint, x);
    } else {
      UnhexInvertsHexText(x);
    }
  }

  lemma BodyTextStep(lead: string, escaped: bool, isprint: byte -> bool, items: seq<seq<byte>>, tail: string)
    requires items != []
    ensures BodyText(lead, escaped, isprint, items) + tail
            == lead + ItemText(escaped, isprint, items[0]) + "\n" + (BodyText(lead, escaped, isprint, items[1..]) + tail)
  {
    hide ItemText;
  }

  lemma SplitAhead(input: string, pos: nat, lead: string, text: string, rest: string)
    requires pos <= |input| && input[pos..] == lead + text + "\n" + rest
    ensures var start := pos + |lead|;
            && start + |text| < |input| && input[start..start + |text|] == text
            && input[start + |text|] == '\n' && input[start + |text| + 1..] == rest
            && (lead != "" ==> input[pos] == lead[0])
  {
    var ahead, start := input[pos..], pos + |lead|;
    assert |ahead| == |lead| + |text| + 1 + |rest|;
    assert forall k :: 0 <= k < |ahead| ==> input[pos + k] == ahead[k];
    forall k | start <= k < start + |text| ensures input[k] == text[k - start] {
      assert input[k] == ahead[k - pos];
    }
    assert input[start + |text|] == ahead[|lead| + |text|];
    forall k | 0 <= k < |rest| ensures input[start + |text| + 1..][k] == rest[k] {
      assert input[start + |text| + 1 + k] == ahead[|lead| + |text| + 1 + k];
    }
    if lead != "" { assert input[pos] == ahead[0]; }
  }

  lemma TextIsLine(input: string, start: nat, text: string)
    requires start + |text| < |input| && input[start..start + |text|] == text
    requires input[start + |text|] == '\n' && '\n' !in text
    ensures LineEnd(input, start) == start + |text|
  {
    hide LineEnd;
    forall k | start <= k < start + |text| ensures input[k] != '\n' {
      assert input[k] == input[start..start + |text|][k - start];
    }
    LineEndIs(input, start, start + |text|);
  }

  /** The first line of a body and the rest of it. */
  lemma BodySplits(input: string, pos: nat, version: int, escaped: bool, isprint: byte -> bool,
                   items: seq<seq<byte>>, tail: string)
    requires BodyAhead(input, pos, version, escaped, isprint, items, tail) && items != []
    ensures var lead, text := Lead(version), ItemText(escaped, isprint, items[0]);
            && pos <= |input| && '\n' !in text
            && input[pos..] == lead + text + "\n" + (BodyText(lead, escaped, isprint, items[1..]) + tail)
  {
    hide ItemText, BodyText, EndsBody;
    ItemTextIsOneLine(escaped, isprint, items[0]);
    BodyTextStep(Lead(version), escaped, isprint, items, tail);
  }

  lemma RestIsBody(input: string, pos: nat, next: nat, version: int, escaped: bool, isprint: byte -> bool,
                   items: seq<seq<byte>>, tail: string)
    requires BodyAhead(input, pos, version, escaped, isprint, items, tail) && items != []
    requires next <= |input| && input[next..] == BodyText(Lead(version), escaped, isprint, items[1..]) + tail
    ensures BodyAhead(input, next, version, escaped, isprint, items[1..], tail)
  {
    hide ItemText, BodyText, EndsBody, OneLine;
  }

  /** The first item's line: where its text starts and ends, and what follows it. */
  lemma ItemAhead(input: string, pos: nat, version: int, escaped: bool, isprint: byte -> bool,
                  items: seq<seq<byte>>, tail: string)
    requires BodyAhead(input, pos, version, escaped, isprint, items, tail) && items != []
    ensures var start := pos + |Lead(version)|;
            var text := ItemText(escaped, isprint, items[0]);
            && start + |text| < |input| && (version > 1 ==> input[pos] == ' ')
            && LineEnd(input, start) == start + |text|
            && input[start..start + |text|] == text
            && BodyAhead(input, start + |text| + 1, version, escaped, isprint, items[1..], tail)
  {
    hide BodyAhead, ItemText, BodyText, LineEnd;
    var lead, text := Lead(version), ItemText(escaped, isprint, items[0]);
    BodySplits(input, pos, version, escaped, isprint, items, tail);
    SplitAhead(input, pos, lead, text, BodyText(lead, escaped, isprint, items[1..]) + tail);
    TextIsLine(input, pos + |lead|, text);
    RestIsBody(input, pos, pos + |lead| + |text| + 1, version, escaped, isprint, items, tail);
  }

  lemma EndAhead(input: string, pos: nat, version: int, escaped: bool, isprint: byte -> bool, tail: string)
    requires BodyAhead(input, pos, version, escaped, isprint, [], tail)
    ensures |input| == pos + |tail|
    ensures if version > 1 then pos + 9 <= |input| && input[pos] == 'D' && input[pos..pos + 9] == "DATA=END\n"
            else pos == |input|
  {
    assert input[pos..] == tail;
    if version > 1 {
      assert input[pos..pos + 9] == tail[..9];
      assert input[pos] == tail[..9][0];
    }
  }

  /** Where the reader stops: behind the line that ends the data, if there is one. */
  function BodyEnd(l: Loader, tail: string): int
    reads l
  {
    |l.input| - |tail| + if l.version > 1 then 9 else 0
  }

  /** A first chunk of an item has been read, and the rest of its line and of the data are ahead. */
  ghost predicate ChunkRead(l: Loader, dbt: Dbt, isprint: byte -> bool, items: seq<seq<byte>>, tail: string)
    reads l, dbt, dbt.data
    requires dbt.Valid() && items != []
  {
    && l.HexAhead(l.pos)
    && BodyAhead(l.input, LineEnd(l.input, l.pos) + 1, l.version, false, isprint, items[1..], tail)
    && var rest := l.input[l.pos..LineEnd(l.input, l.pos)];
       dbt.Contents() + Unhex(rest, |rest| / 2) == items[0]
  }

  /** The outcome of reading the first of these items: the whole of it, a first chunk, or a refusal. */
  ghost predicate ItemRead(l: Loader, dbt: Dbt, escaped: bool, blobThreshold: nat, isprint: byte -> bool,
                           items: seq<seq<byte>>, tail: string, ret: int, more: bool)
    reads l, dbt, dbt.data
    requires items != [] && (ret == 0 ==> dbt.Valid())
  {
    if blobThreshold != 0 && !escaped && |items[0]| > BLOB_LOADING_SIZE then
      ret == 0 && more && ChunkRead(l, dbt, isprint, items, tail)
    else if |items[0]| <= MaxItem(escaped) then
      && ret == 0 && !more && dbt.Contents() == items[0]
      && BodyAhead(l.input, l.pos, l.version, escaped, isprint, items[1..], tail)
    else ret != 0
  }

  lemma TextIsReadable(l: Loader, start: nat, escaped: bool, isprint: byte -> bool, x: seq<byte>)
    requires var text := ItemText(escaped, isprint, x);
             && start + |text| < |l.input| && LineEnd(l.input, start) == start + |text|
             && l.input[start..start + |text|] == text
    ensures if escaped then l.EscapedAhead(start) else l.HexAhead(start)
  {
    hide LineEnd, PrintText, HexText, IsHex, Complete;
    if escaped {
      UnescapeInvertsPrintText(isprint, x);
    } else {
      UnhexInvertsHexText(x);
    }
  }

  lemma PrintedItem(l: Loader, dbt: Dbt, blobThreshold: nat, isprint: byte -> bool, items: seq<seq<byte>>, tail: string,
                    start: nat, ret: int)
    requires l.Valid() && items != [] && (ret == 0 ==> dbt.Valid())
    requires var text := PrintText(isprint, items[0]);
             && Complete(text) && RprintResult(text, ret, l.pos - start, dbt)
             && start + |text| < |l.input| && BodyAhead(l.input, start + |text| + 1, l.version, true, isprint, items[1..], tail)
    ensures ItemRead(l, dbt, true, blobThreshold, isprint, items, tail, ret, false)
  {
    hide BodyAhead, PrintText;
    UnescapeInvertsPrintText(isprint, items[0]);
  }

  lemma DumpedItem(l: Loader, dbt: Dbt, blobThreshold: nat, isprint: byte -> bool, items: seq<seq<byte>>, tail: string,
                   start: nat, ret: int, more: bool)
    requires l.Valid() && dbt.Valid() && items != []
    requires l.HexAhead(start)
    requires var text := HexText(items[0]);
             && LineEnd(l.input, start) == start + |text| && l.input[start..start + |text|] == text
             && RdumpResult(text, blobThreshold != 0, ret, more, l.pos - start, dbt)
             && BodyAhead(l.input, start + |text| + 1, l.version, false, isprint, items[1..], tail)
    ensures ItemRead(l, dbt, false, blobThreshold, isprint, items, tail, ret, more)
  {
    hide BodyAhead, LineEnd, BodyText, HexText, Unhex;
    var x, text := items[0], HexText(items[0]);
    UnhexInvertsHexText(x);
    if blobThreshold != 0 && |x| > BLOB_LOADING_SIZE {
      var limit := BLOB_LOADING_SIZE + 1;
      RestOfLine(l, start, l.pos);
      UnhexSplit(text, limit, |x| - limit);
      assert l.input[l.pos..LineEnd(l.input, l.pos)] == text[2 * limit..];
    }
  }

  /** What is ahead of a reader: a line it can read, or the end of the data. */
  lemma NextAhead(l: Loader, escaped: bool, isprint: byte -> bool, items: seq<seq<byte>>, tail: string)
    requires BodyAhead(l.input, l.pos, l.version, escaped, isprint, items, tail)
    ensures items == [] ==>
              && |l.input| == l.pos + |tail|
              && if l.version > 1 then
                   l.pos + 9 <= |l.input| && l.input[l.pos] == 'D' && l.input[l.pos..l.pos + 9] == "DATA=END\n"
                 else l.pos == |l.input|
    ensures items != [] ==>
              var start := l.pos + |Lead(l.version)|;
              var text := ItemText(escaped, isprint, items[0]);
              && start + |text| < |l.input| && (l.version > 1 ==> l.input[l.pos] == ' ')
              && LineEnd(l.input, start) == start + |text| && l.input[start..start + |text|] == text
              && (if escaped then l.EscapedAhead(start) else l.HexAhead(start))
              && BodyAhead(l.input, start + |text| + 1, l.version, escaped, isprint, items[1..], tail)
  {
    hide BodyAhead, LineEnd, ItemText, Loader.EscapedAhead, Loader.HexAhead;
    if items == [] {
      EndAhead(l.input, l.pos, l.version, escaped, isprint, tail);
    } else {
      ItemAhead(l.input, l.pos, l.version, escaped, isprint, items, tail);
      TextIsReadable(l, l.pos + |Lead(l.version)|, escaped, isprint, items[0]);
    }
  }

  /** An item in escaped text. */
  method ReadPrinted(l: Loader, dbt: Dbt, blobThreshold: nat,
                     ghost isprint: byte -> bool, ghost items: seq<seq<byte>>, ghost tail: string) returns (ret: int)
    requires l.Valid() && dbt.Valid() && Doubled(dbt.data.Length)
    modifies l, dbt, dbt.data
    ensures l.Valid() && (dbt.data == old(dbt.data) || fresh(dbt.data)) && l.version == old(l.version)
    ensures ret == 0 ==> dbt.Valid() && Doubled(dbt.data.Length)
    ensures old(l.pos) <= l.pos && (ret == 0 && !l.endodata ==> old(l.pos) < l.pos)
    ensures BodyAhead(l.input, old(l.pos), old(l.version), true, isprint, items, tail) ==>
              if items == [] then
                && ret == 0 && l.endodata && l.endofile == (old(l.endofile) || l.version <= 1)
                && l.pos == BodyEnd(l, tail)
              else
                && l.endodata == old(l.endodata) && l.endofile == old(l.endofile)
                && ItemRead(l, dbt, true, blobThreshold, isprint, items, tail, ret, false)
  {
    hide LineEnd, RprintResult, Doubled, BodyAhead, ItemRead, PrintText, Complete;
    ghost var start := l.pos + |Lead(l.version)|;
    ghost var ahead := BodyAhead(l.input, l.pos, l.version, true, isprint, items, tail);
    if ahead { NextAhead(l, true, isprint, items, tail); }
    ret := l.DbtRprint(dbt);
    if ahead && items != [] { PrintedItem(l, dbt, blobThreshold, isprint, items, tail, start, ret); }
  }

  /** An item in hex. */
  method ReadDumped(l: Loader, dbt: Dbt, blobThreshold: nat,
                    ghost isprint: byte -> bool, ghost items: seq<seq<byte>>, ghost tail: string)
    returns (ret: int, more: bool)
    requires l.Valid() && dbt.Valid()
    modifies l, dbt, dbt.data
    ensures l.Valid() && dbt.Valid() && (dbt.data == old(dbt.data) || fresh(dbt.data)) && l.version == old(l.version)
    ensures old(l.pos) <= l.pos && (ret == 0 && !l.endodata ==> old(l.pos) < l.pos)
    ensures BodyAhead(l.input, old(l.pos), old(l.version), false, isprint, items, tail) ==>
              if items == [] then
                && ret == 0 && !more && l.endodata && l.endofile == (old(l.endofile) || l.version <= 1)
                && l.pos == BodyEnd(l, tail)
              else
                && l.endodata == old(l.endodata) && l.endofile == old(l.endofile)
                && ItemRead(l, dbt, false, blobThreshold, isprint, items, tail, ret, more)
  {
    hide LineEnd, RdumpResult, BodyAhead, ItemRead, HexText, IsHex;
    ghost var start := l.pos + |Lead(l.version)|;
    ghost var ahead := BodyAhead(l.input, l.pos, l.version, false, isprint, items, tail);
    if ahead { NextAhead(l, false, isprint, items, tail); }
    ret, more := l.DbtRdump(dbt, blobThreshold, false);
    if ahead && items != [] { DumpedItem(l, dbt, blobThreshold, isprint, items, tail, start, ret, more); }
  }

  /** Reading one item with the reader for its format. */
  method ReadItem(l: Loader, dbt: Dbt, escaped: bool, blobThreshold: nat,
                  ghost isprint: byte -> bool, ghost items: seq<seq<byte>>, ghost tail: string)
    returns (ret: int, more: bool)
    requires l.Valid() && dbt.Valid() && (escaped ==> Doubled(dbt.data.Length))
    modifies l, dbt, dbt.data
    ensures l.Valid() && (dbt.data == old(dbt.data) || fresh(dbt.data)) && l.version == old(l.version)
    ensures ret == 0 ==> dbt.Valid() && (escaped ==> Doubled(dbt.data.Length))
    ensures old(l.pos) <= l.pos && (ret == 0 && !l.endodata ==> old(l.pos) < l.pos)
    ensures escaped ==> !more
    ensures BodyAhead(l.input, old(l.pos), old(l.version), escaped, isprint, items, tail) ==>
              if items == [] then
                && ret == 0 && !more && l.endodata && l.endofile == (old(l.endofile) || l.version <= 1)
                && l.pos == BodyEnd(l, tail)
              else
                && l.endodata == old(l.endodata) && l.endofile == old(l.endofile)
                && ItemRead(l, dbt, escaped, blobThreshold, isprint, items, tail, ret, more)
  {
    hide Doubled, BodyAhead, ItemRead;
    more := false;
    if escaped {
      ret := ReadPrinted(l, dbt, blobThreshold, isprint, items, tail);
    } else {
      ret, more := ReadDumped(l, dbt, blobThreshold, isprint, items, tail);
    }
  }

  // ---------- the record loop ----------

  /** Items two by two; an odd last one is dropped. */
  function PairUp(items: seq<seq<byte>>): seq<Record> {
    if |items| < 2 then [] else [(items[0], items[1])] + PairUp(items[2..])
  }

  lemma {:induction false} PairUpInvertsInterleave(pairs: seq<Record>)
    ensures PairUp(Interleave(pairs)) == pairs
  {
    if pairs != [] {
      PairUpInvertsInterleave(pairs[1..]);
      assert Interleave(pairs)[2..] == Interleave(pairs[1..]);
    }
  }

  /** Does the k-th item, a key or a data item, fit where it is read to? */
  predicate ItemFits(escaped: bool, blobThreshold: nat, k: nat, x: seq<byte>) {
    |x| <= MaxItem(escaped) || (k % 2 == 1 && blobThreshold != 0 && !escaped)
  }

  predicate AllFit(escaped: bool, blobThreshold: nat, items: seq<seq<byte>>) {
    forall k :: 0 <= k < |items| ==> ItemFits(escaped, blobThreshold, k, items[k])
  }

  /** What has been read of the items when the next pair comes. */
  lemma AllFitFrom(escaped: bool, blobThreshold: nat, items: seq<seq<byte>>, n: nat)
    requires n % 2 == 0 && n + 1 < |items|
    requires AllFit(escaped, blobThreshold, items[..n])
    requires |items[n]| <= MaxItem(escaped) && ItemFits(escaped, blobThreshold, 1, items[n + 1])
    ensures AllFit(escaped, blobThreshold, items[..n + 2])
  {
    var done, next := items[..n], items[..n + 2];
    forall k | 0 <= k < |next| ensures ItemFits(escaped, blobThreshold, k, next[k]) {
      if k < n { assert next[k] == done[k]; }
    }
  }

  /** An item of the next pair that does not fit. */
  lemma NotAllFit(escaped: bool, blobThreshold: nat, items: seq<seq<byte>>, n: nat)
    requires n % 2 == 0 && n < |items|
    requires |items[n]| > MaxItem(escaped) ||
             (n + 1 < |items| && !ItemFits(escaped, blobThreshold, 1, items[n + 1]))
    ensures !AllFit(escaped, blobThreshold, items)
  {
    if |items[n]| > MaxItem(escaped) {
      assert !ItemFits(escaped, blobThreshold, n, items[n]);
    } else {
      assert !ItemFits(escaped, blobThreshold, n + 1, items[n + 1]);
    }
  }

  lemma {:induction false} OddOneOut(items: seq<seq<byte>>, n: nat)
    requires n % 2 == 0 && n <= |items| <= n + 1
    ensures PairUp(items) == PairUp(items[..n])
    decreases n
  {
    if n > 0 {
      OddOneOut(items[2..], n - 2);
      assert items[..n][2..] == items[2..][..n - 2];
    }
  }

  /** No pair is left, at most a key that fits. */
  lemma NoMorePairs(escaped: bool, blobThreshold: nat, items: seq<seq<byte>>, n: nat)
    requires n % 2 == 0 && n <= |items| <= n + 1 && AllFit(escaped, blobThreshold, items[..n])
    requires n < |items| ==> |items[n]| <= MaxItem(escaped)
    ensures AllFit(escaped, blobThreshold, items) && PairUp(items) == PairUp(items[..n])
  {
    var done := items[..n];
    forall k | 0 <= k < |items| ensures ItemFits(escaped, blobThreshold, k, items[k]) {
      if k < n { assert items[k] == done[k]; }
    }
    OddOneOut(items, n);
  }

  lemma {:induction false} PairUpNext(items: seq<seq<byte>>, n: nat)
    requires n % 2 == 0 && n + 1 < |items|
    ensures PairUp(items[..n + 2]) == PairUp(items[..n]) + [(items[n], items[n + 1])]
    decreases n
  {
    if n > 0 {
      var rest := items[2..];
      PairUpNext(rest, n - 2);
      assert items[..n + 2][2..] == rest[..n] && items[..n][2..] == rest[..n - 2];
    } else {
      assert items[..2][2..] == [] && items[..0] == [];
    }
  }

  /** One pair, or the end of the data. */
  method ReadPair(l: Loader, key: Dbt, data: Dbt, escaped: bool, blobThreshold: nat,
                  ghost isprint: byte -> bool, ghost items: seq<seq<byte>>, ghost tail: string)
    returns (ret: int, streaming: bool)
    requires l.Valid() && key.Valid() && data.Valid() && key != data && key.data != data.data
    requires escaped ==> Doubled(key.data.Length) && Doubled(data.data.Length)
    modifies l, key, key.data, data, data.data
    ensures l.Valid() && l.version == old(l.version) && key.data != data.data
    ensures key.data == old(key.data) || fresh(key.data)
    ensures data.data == old(data.data) || fresh(data.data)
    ensures ret == 0 ==> key.Valid() && data.Valid()
    ensures ret == 0 && escaped ==> Doubled(key.data.Length) && Doubled(data.data.Length)
    ensures old(l.pos) <= l.pos && (ret == 0 && !l.endodata ==> old(l.pos) < l.pos)
    ensures ret == 0 && streaming && !l.endodata ==> !escaped
    ensures BodyAhead(l.input, old(l.pos), old(l.version), escaped, isprint, items, tail) && !old(l.endodata) ==>
              if items == [] then
                ret == 0 && l.endodata && l.endofile == (old(l.endofile) || l.version <= 1) && l.pos == BodyEnd(l, tail)
              else if !(|items[0]| <= MaxItem(escaped)) then ret != 0
              else if |items| == 1 then
                ret == 0 && l.endodata && l.endofile == (old(l.endofile) || l.version <= 1) && l.pos == BodyEnd(l, tail)
              else if !ItemFits(escaped, blobThreshold, 1, items[1]) then ret != 0
              else
                && ret == 0 && !l.endodata && l.endofile == old(l.endofile) && key.Contents() == items[0]
                && if streaming then !escaped && ChunkRead(l, data, isprint, items[1..], tail)
                   else data.Contents() == items[1] && BodyAhead(l.input, l.pos, l.version, escaped, isprint, items[2..], tail)
  {
    hide BodyAhead, ChunkRead, Doubled;
    streaming := false;
    ret, streaming := ReadItem(l, key, escaped, 0, isprint, items, tail);
    if ret != 0 || l.endodata {
      return;
    }
    ghost var rest := if items == [] then [] else items[1..];
    ret, streaming := ReadItem(l, data, escaped, blobThreshold, isprint, rest, tail);
    assert |items| >= 2 ==> rest[1..] == items[2..] && rest[0] == items[1];
  }

  /** What putdata adds for a pair that has been read, in one piece or in chunks. */
  method PutPair(l: Loader, db: Database, key: Dbt, data: Dbt, escaped: bool, streaming: bool,
                 ghost isprint: byte -> bool, ghost items: seq<seq<byte>>, ghost tail: string) returns (ret: int)
    requires l.Valid() && key.Valid() && data.Valid() && key != data && key.data != data.data && !l.endodata
    requires escaped ==> !streaming && Doubled(data.data.Length)
    modifies l, db, data, data.data
    ensures l.Valid() && data.Valid() && (data.data == old(data.data) || fresh(data.data)) && l.version == old(l.version)
    ensures escaped ==> Doubled(data.data.Length)
    ensures old(l.pos) <= l.pos
    ensures |items| >= 2 && old(key.Contents()) == items[0] &&
            old(if streaming then ChunkRead(l, data, isprint, items[1..], tail)
                else data.Contents() == items[1] && BodyAhead(l.input, l.pos, l.version, escaped, isprint, items[2..], tail)) ==>
              && ret == 0 && !l.endodata && l.endofile == old(l.endofile)
              && db.puts == old(db.puts) + [(items[0], items[1])]
              && BodyAhead(l.input, l.pos, l.version, escaped, isprint, items[2..], tail)
  {
    hide BodyAhead, Doubled;
    assert |items| >= 2 ==> items[1..][1..] == items[2..];
    ret := PutData(l, db, key, data, streaming);
  }

  lemma StartsDoubled()
    ensures Doubled(1024)
  {
    Pow2Of31();
  }

  lemma NoPairs(items: seq<seq<byte>>)
    ensures PairUp(items[..0]) == []
  {
  }

  /**
   * The loop of load over the records of a keyed database. On the text of any list of items it puts
   * the pairs in order and comes to the end of the data, whichever data items are streamed; it
   * fails exactly when some item does not fit its buffer. An odd last key is dropped in silence.
   */
  method LoadRecords(l: Loader, db: Database, escaped: bool, blobThreshold: nat,
                     ghost isprint: byte -> bool, ghost items: seq<seq<byte>>, ghost tail: string)
    returns (rval: int)
    requires l.Valid() && !l.endodata
    modifies l, db
    ensures l.Valid() && l.version == old(l.version)
    ensures BodyAhead(l.input, old(l.pos), old(l.version), escaped, isprint, items, tail) ==>
              && (rval == 0 <==> AllFit(escaped, blobThreshold, items))
              && (rval == 0 ==> db.puts == old(db.puts) + PairUp(items) && l.endodata
                                && l.endofile == (old(l.endofile) || l.version <= 1) && l.pos == BodyEnd(l, tail))
  {
    hide BodyAhead, ChunkRead, Doubled, PairUp, ItemFits;
    ghost var ahead := BodyAhead(l.input, l.pos, l.version, escaped, isprint, items, tail);
    var key := new Dbt();
    var data := new Dbt();
    StartsDoubled();
    NoPairs(items);
    ghost var n: nat := 0;
    assert items[0..] == items && db.puts + [] == db.puts;
    while true
      invariant l.Valid() && l.version == old(l.version) && (ahead ==> !l.endodata)
      invariant key.Valid() && data.Valid() && fresh(key) && fresh(data) && fresh(key.data) && fresh(data.data)
      invariant key != data && key.data != data.data
      invariant escaped ==> Doubled(key.data.Length) && Doubled(data.data.Length)
      invariant ahead ==> n <= |items| && n % 2 == 0 && l.endofile == old(l.endofile)
      invariant ahead ==> BodyAhead(l.input, l.pos, l.version, escaped, isprint, items[n..], tail)
      invariant ahead ==> db.puts == old(db.puts) + PairUp(items[..n])
      invariant ahead ==> AllFit(escaped, blobThreshold, items[..n])
      decreases |l.input| - l.pos
    {
      ghost var at := l.pos;
      var ret, streaming := ReadPair(l, key, data, escaped, blobThreshold, isprint, if ahead then items[n..] else [], tail);
      if ret != 0 {
        if ahead { NotAllFit(escaped, blobThreshold, items, n); }
        return 1;
      }
      if l.endodata {
        if ahead { NoMorePairs(escaped, blobThreshold, items, n); }
        break;
      }
      ret := PutPair(l, db, key, data, escaped, streaming, isprint, if ahead then items[n..] else [], tail);
      if ret != 0 {
        return 1;
      }
      if ahead {
        AllFitFrom(escaped, blobThreshold, items, n);
        PairUpNext(items, n);
        assert items[n..][2..] == items[n + 2..];
      }
      n := n + 2;
    }
    return 0;
  }
}
