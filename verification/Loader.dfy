/**
 * db_load: reading items from standard input.
 *
 * Standard input is a sequence of characters with a position. A DBT owns a byte buffer that grows
 * in place, with 32-bit lengths.
 */
module Loaders {
  import opened Options
  import opened Words
  import opened Text
  import opened Bits

  const EOF: Option<char> := None

  const MEGABYTE := 1048576
  const BLOB_LOADING_SIZE := 1048576
  const DB_BUFFER_SMALL := -30999

  /** Position of the end of the line that pos is on. */
  function LineEnd(input: string, pos: nat): (r: nat)
    requires pos <= |input|
    ensures pos <= r <= |input|
    ensures r < |input| ==> input[r] == '\n'
    ensures forall k :: pos <= k < r ==> input[k] != '\n'
    decreases |input| - pos
  {
    if pos == |input| || input[pos] == '\n' then pos else LineEnd(input, pos + 1)
  }

  lemma {:induction false} LineEndIs(input: string, pos: nat, end: nat)
    requires pos <= end < |input| && input[end] == '\n'
    requires forall k :: pos <= k < end ==> input[k] != '\n'
    ensures LineEnd(input, pos) == end
    decreases end - pos
  {
    if pos < end {
      LineEndIs(input, pos + 1, end);
    }
  }

  /** A data buffer: ulen is the length of the array. */
  class Dbt {
    var data: array<byte>
    var size: nat

    /** Buffers start at 1024 bytes and stay below 2^32. */
    predicate Valid()
      reads this
    {
      1024 <= data.Length <= MAX_WORD && size <= data.Length
    }

    ghost function Contents(): seq<byte>
      reads this, data
      requires Valid()
    {
      data[..size]
    }

    /** malloc(ulen = 1024) */
    constructor ()
      ensures Valid() && size == 0 && data.Length == 1024 && fresh(data)
    {
      data := new byte[1024];
      size := 0;
    }

    /** realloc(data, n) to a larger size */
    method Realloc(n: nat)
      requires data.Length <= n
      modifies this`data
      ensures fresh(data) && data.Length == n
      ensures data[..old(data.Length)] == old(data[..])
    {
      var bigger := new byte[n];
      forall k | 0 <= k < data.Length {
        bigger[k] := data[k];
      }
      data := bigger;
    }
  }

  /** The lengths that doubling from 1024 goes through, up to 2^31. */
  ghost predicate Doubled(n: nat) {
    exists k: nat :: 10 <= k <= 31 && n == Pow2(k)
  }

  const MAX_DOUBLED := 0x8000_0000

  lemma Pow2Of31()
    ensures Pow2(31) == MAX_DOUBLED && Pow2(10) == 1024
  {
    assert Pow2(5) == 32;
    Pow2Adds(5, 5);
    Pow2Adds(10, 10);
    Pow2Adds(20, 10);
  }

  lemma DoubledFits(n: nat)
    requires Doubled(n)
    ensures n <= MAX_DOUBLED && Doubled(1024)
    ensures n < MAX_DOUBLED ==> Doubled(2 * n) && 2 * n <= MAX_DOUBLED
  {
    var k: nat :| 10 <= k <= 31 && n == Pow2(k);
    Pow2Of31();
    Pow2Mono(k, 31);
    if n < MAX_DOUBLED {
      assert k < 31;
      assert 2 * n == Pow2(k + 1);
      Pow2Mono(k + 1, 31);
    }
  }

  /** Decoding has come to position at, with these bytes so far. */
  ghost predicate Reading(line: string, bytes: seq<byte>, at: int)
    requires Complete(line)
  {
    0 <= at <= |line| && Complete(line[at..]) && Unescape(line) == Prepend(bytes, Unescape(line[at..]))
  }

  lemma PrependTwice(a: seq<byte>, b: seq<byte>, r: Option<seq<byte>>)
    ensures Prepend(a, Prepend(b, r)) == Prepend(a + b, r)
  {
    if r.Some? { assert a + (b + r.value) == a + b + r.value; }
  }

  lemma ReadingStarts(line: string)
    requires Complete(line)
    ensures Reading(line, [], 0)
  {
    assert line[0..] == line;
    var r := Unescape(line);
    if r.Some? { assert [] + r.value == r.value; }
  }

  lemma ReadingBounds(line: string, bytes: seq<byte>, at: int)
    requires Complete(line) && Reading(line, bytes, at)
    ensures Unescape(line).Some? ==> |bytes| <= |Unescape(line).value|
  {
  }

  lemma ReadingEnds(line: string, bytes: seq<byte>)
    requires Complete(line) && Reading(line, bytes, |line|)
    ensures Unescape(line) == Some(bytes)
  {
    assert line[|line|..] == "";
    assert bytes + [] == bytes;
  }

  /** A plain character stands for itself. */
  lemma ReadPlain(line: string, bytes: seq<byte>, at: nat)
    requires Complete(line) && Reading(line, bytes, at) && at < |line| && line[at] != '\\'
    ensures Reading(line, bytes + [line[at] as int % 256], at + 1)
  {
    assert line[at..][1..] == line[at + 1..];
    PrependTwice(bytes, [line[at] as int % 256], Unescape(line[at + 1..]));
  }

  /** A backslash is never last, nor next to last unless another one follows. */
  lemma EscapeIsWhole(line: string, bytes: seq<byte>, at: nat)
    requires Complete(line) && Reading(line, bytes, at) && at < |line| && line[at] == '\\'
    ensures at + 1 < |line| && (line[at + 1] != '\\' ==> at + 2 < |line|)
  {
  }

  /** Two backslashes stand for one. */
  lemma ReadBackslash(line: string, bytes: seq<byte>, at: nat)
    requires Complete(line) && Reading(line, bytes, at) && at + 1 < |line|
    requires line[at] == '\\' && line[at + 1] == '\\'
    ensures Reading(line, bytes + ['\\' as int % 256], at + 2)
  {
    assert line[at..][2..] == line[at + 2..];
    PrependTwice(bytes, ['\\' as int % 256], Unescape(line[at + 2..]));
  }

  /** A backslash and two digits stand for a byte, unless a digit is refused. */
  lemma ReadEscape(line: string, bytes: seq<byte>, at: nat)
    requires Complete(line) && Reading(line, bytes, at) && at + 2 < |line|
    requires line[at] == '\\' && line[at + 1] != '\\'
    ensures if TooBig(line[at + 1]) || TooBig(line[at + 2]) then Unescape(line) == None
            else Reading(line, bytes + [PairValue(line[at + 1], line[at + 2])], at + 3)
  {
    hide PairValue, TooBig;
    assert line[at..][3..] == line[at + 3..];
    PrependTwice(bytes, [PairValue(line[at + 1], line[at + 2])], Unescape(line[at + 3..]));
  }

  /** What reading a complete line of escaped text gives. */
  ghost predicate RprintResult(line: string, ret: int, moved: int, dbt: Dbt)
    reads dbt, dbt.data
    requires Complete(line)
  {
    var r := Unescape(line);
    if r.Some? && |r.value| <= MAX_DOUBLED - 10 then
      ret == 0 && moved == |line| + 1 && dbt.Valid() && dbt.Contents() == r.value
    else ret == 1
  }

  /**
   * What reading a complete line of hex digits gives: a first chunk of a long line if chunks are
   * allowed, or else the whole line unless it has more bytes than a 32-bit buffer takes.
   */
  ghost predicate RdumpResult(digits: string, chunks: bool, ret: int, more: bool, moved: int, dbt: Dbt)
    reads dbt, dbt.data
    requires dbt.Valid()
  {
    var n, limit := |digits| / 2, 1048577;
    if chunks && n >= limit then
      ret == 0 && more && moved == 2 * limit && dbt.Contents() == Unhex(digits, limit)
    else if n <= MAX_WORD - 10 then
      ret == 0 && !more && moved == |digits| + 1 && dbt.Contents() == Unhex(digits, n)
    else ret == DB_BUFFER_SMALL && !more
  }

  function Min(a: int, b: int): int {
    if a <= b then a else b
  }

  const DATA_END := "DATA=END\n"

  predicate IsDataEnd(input: string, at: nat) {
    at + |DATA_END| <= |input| && input[at..at + |DATA_END|] == DATA_END
  }

  lemma DataEndStarts(input: string, at: nat)
    requires IsDataEnd(input, at)
    ensures at < |input| && input[at] == 'D'
  {
    assert input[at..at + |DATA_END|][0] == input[at];
  }

  lemma DataEndIsRead(input: string, at: nat)
    requires IsDataEnd(input, at)
    ensures LineEnd(input, at + 1) == at + |DATA_END| - 1
  {
    var n := |DATA_END| - 1;
    forall k | at < k < at + n ensures input[k] != '\n' {
      assert input[k] == input[at..at + |DATA_END|][k - at];
    }
    assert input[at + n] == input[at..at + |DATA_END|][n];
    LineEndIs(input, at + 1, at + |DATA_END| - 1);
  }

  /** The characters of the line that ends the data. */
  lemma DataEndIsLiteral(input: string, at: nat)
    ensures IsDataEnd(input, at) <==> at + 9 <= |input| && input[at..at + 9] == "DATA=END\n"
  {
  }

  class Loader {
    const input: string
    var pos: nat
    var version: int
    var endodata: bool
    var endofile: bool
    var lineno: nat

    ghost predicate Valid()
      reads this
    {
      pos <= |input|
    }

    constructor (input: string, version: int)
      ensures Valid() && this.input == input && pos == 0 && this.version == version
      ensures !endodata && !endofile && lineno == 0
    {
      this.input, pos, this.version := input, 0, version;
      endodata, endofile, lineno := false, false, 0;
    }

    /** getchar() */
    method GetChar() returns (c: Option<char>)
      requires Valid()
      modifies this`pos
      ensures Valid()
      ensures if old(pos) < |input| then c == Some(input[old(pos)]) && pos == old(pos) + 1 else c == EOF && pos == old(pos)
    {
      if pos < |input| {
        c := Some(input[pos]);
        pos := pos + 1;
      } else {
        c := EOF;
      }
    }

    /** fgets(buf, n, stdin): up to n - 1 characters, not past a newline. */
    method Fgets(n: nat) returns (s: string)
      requires Valid() && n > 0
      modifies this`pos
      ensures Valid() && old(pos) <= pos && s == input[old(pos)..pos]
      ensures pos == Min(old(pos) + n - 1, Min(LineEnd(input, old(pos)) + 1, |input|))
    {
      ghost var start, end := pos, LineEnd(input, pos);
      s := "";
      while |s| < n - 1 && pos < |input|
        invariant start <= pos <= |input| && s == input[start..pos] && |s| <= n - 1
        invariant pos <= end || pos == end + 1
        invariant pos == end + 1 ==> |s| > 0 && s[|s| - 1] == '\n'
        invariant pos <= end ==> forall k :: 0 <= k < |s| ==> s[k] != '\n'
      {
        if |s| > 0 && s[|s| - 1] == '\n' {
          break;
        }
        s := s + [input[pos]];
        pos := pos + 1;
      }
    }

    /** Does the text from here say that the data is over? Characters up to the line's end are read. */
    method DataEnd(c1: char) returns (ret: int)
      requires Valid() && 0 < pos && input[pos - 1] == c1
      modifies this`pos, this`endodata
      ensures Valid() && old(pos) <= pos
      ensures ret == 0 <==> IsDataEnd(input, old(pos) - 1)
      ensures ret == 0 ==> endodata && pos == old(pos) + |DATA_END| - 1
      ensures ret != 0 ==> ret == 1 && endodata == old(endodata)
    {
      ghost var at := pos - 1;
      var rest := Fgets(31);
      if [c1] + rest != DATA_END {
        if IsDataEnd(input, at) {
          DataEndIsRead(input, at);
        }
        return 1;
      }
      assert input[at..pos] == [c1] + rest;
      endodata := true;
      return 0;
    }

    /**
     * The middle of the loop of dbt_rdump: make room for one more byte, in 32-bit lengths that
     * saturate, and store the value of a pair of digits there.
     */
    method StorePair(dbt: Dbt, len: nat, c1: char, c2: char) returns (ret: int)
      requires dbt.Valid() && len <= dbt.data.Length - 10
      modifies dbt, dbt.data
      ensures dbt.Valid() && (dbt.data == old(dbt.data) || fresh(dbt.data)) && dbt.size == old(dbt.size)
      ensures old(dbt.data.Length) <= dbt.data.Length
      ensures ret == (if len >= MAX_WORD - 10 then DB_BUFFER_SMALL else if TooBig(c1) || TooBig(c2) then 1 else 0)
      ensures ret == 0 ==> len + 1 <= dbt.data.Length - 10
      ensures ret == 0 ==> dbt.data[..len + 1] == old(dbt.data[..len]) + [PairValue(c1, c2)]
    {
      if len >= dbt.data.Length - 10 {
        if dbt.data.Length == MAX_WORD {
          return DB_BUFFER_SMALL;
        }
        var ulen := if dbt.data.Length > MAX_WORD / 2 then MAX_WORD else dbt.data.Length * 2 % WORD_RANGE;
        ghost var before := dbt.data[..];
        dbt.Realloc(ulen);
        assert dbt.data[..len] == before[..len];
      }
      if TooBig(c1) || TooBig(c2) {
        return 1;
      }
      dbt.data[len] := PairValue(c1, c2);
      return 0;
    }

    /** A complete line of hex digits lies ahead. */
    ghost predicate HexAhead(start: nat)
    {
      start <= |input| && LineEnd(input, start) < |input| && IsHex(input[start..LineEnd(input, start)])
    }

    /** In a line of digits that has been read up to a pair, the line ends or a whole pair follows. */
    lemma HexGoesOn(start: nat, len: nat)
      requires HexAhead(start) && start + 2 * len <= LineEnd(input, start)
      ensures var p, end := start + 2 * len, LineEnd(input, start);
              && p < |input| && (input[p] == '\n' <==> p == end)
              && (p < end ==>
                    && p + 2 <= end && !TooBig(input[p]) && !TooBig(input[p + 1])
                    && Unhex(input[start..end], len + 1) == Unhex(input[start..end], len) + [PairValue(input[p], input[p + 1])])
    {
      hide Unhex, PairValue, TooBig, LineEnd;
      var p, end := start + 2 * len, LineEnd(input, start);
      var digits := input[start..end];
      if p < end {
        assert p + 2 <= end;
        assert digits[2 * len] == input[p] && digits[2 * len + 1] == input[p + 1];
        UnhexStep(digits, len);
      }
    }

    lemma HexLineIsEven(start: nat)
      requires HexAhead(start)
      ensures LineEnd(input, start) < |input| && (LineEnd(input, start) - start) % 2 == 0
    {
    }

    lemma HexIsRead(digits: string, chunks: bool, len: nat, more: bool, dbt: Dbt)
      requires dbt.Valid() && dbt.size == len && |digits| % 2 == 0
      requires 2 * len <= |digits| && dbt.data[..len] == Unhex(digits, len)
      requires if more then chunks && len == BLOB_LOADING_SIZE + 1
               else 2 * len == |digits| && len <= MAX_WORD - 10 && (chunks ==> len <= BLOB_LOADING_SIZE)
      ensures RdumpResult(digits, chunks, 0, more, 2 * len + if more then 0 else 1, dbt)
    {
      hide Unhex;
    }

    lemma HexIsRefused(digits: string, chunks: bool, len: nat, moved: int, dbt: Dbt)
      requires dbt.Valid() && 2 * len + 2 <= |digits| && MAX_WORD - 10 <= len
      requires chunks ==> len <= BLOB_LOADING_SIZE
      ensures RdumpResult(digits, chunks, DB_BUFFER_SMALL, false, moved, dbt)
    {
      hide Unhex;
    }

    /** The loop of dbt_rdump, from where the digits start. */
    method ReadHex(dbt: Dbt, blobThreshold: nat) returns (ret: int, more: bool)
      requires Valid() && dbt.Valid()
      modifies this`pos, this`endodata, this`endofile, dbt, dbt.data
      ensures Valid() && dbt.Valid() && (dbt.data == old(dbt.data) || fresh(dbt.data))
      ensures old(pos) <= pos
      ensures more ==> old(pos) < pos && ret == 0 && endodata == old(endodata)
      ensures ret == 0 && !endodata ==> old(pos) < pos
      ensures old(pos) == |input| ==>
                ret == 0 && endofile && endodata && pos == old(pos) && !more && dbt.size == old(dbt.size)
      ensures HexAhead(old(pos)) ==>
                && RdumpResult(input[old(pos)..LineEnd(input, old(pos))], blobThreshold != 0, ret, more, pos - old(pos), dbt)
                && endodata == old(endodata) && endofile == old(endofile)
    {
      hide Unhex, PairValue, TooBig, LineEnd, IsHex, RdumpResult, Loader.HexAhead;
      ghost var ahead, start, end := HexAhead(pos), pos, LineEnd(input, pos);
      ghost var digits := input[start..end];
      UnhexNone(digits);
      var len := 0;
      more := false;
      while true
        invariant Valid() && dbt.Valid() && (dbt.data == old(dbt.data) || fresh(dbt.data)) && !more
        invariant dbt.size == old(dbt.size) && endodata == old(endodata) && endofile == old(endofile)
        invariant len <= dbt.data.Length - 10 && pos == start + 2 * len
        invariant ahead ==> pos <= end && dbt.data[..len] == Unhex(digits, len)
        invariant blobThreshold != 0 ==> len <= BLOB_LOADING_SIZE
        invariant ahead ==> len <= MAX_WORD - 10
        decreases |input| - pos
      {
        if ahead { HexGoesOn(start, len); }
        var c1 := GetChar();
        if c1 == Some('\n') {
          break;
        }
        if c1 == EOF {
          if len == 0 {
            endofile, endodata := true, true;
            return 0, false;
          }
          return 1, false;
        }
        var c2 := GetChar();
        if c2 == EOF {
          return 1, false;
        }
        ret := StorePair(dbt, len, c1.value, c2.value);
        if ret != 0 {
          if ahead { HexIsRefused(digits, blobThreshold != 0, len, pos - start, dbt); }
          return ret, false;
        }
        len := len + 1;
        if blobThreshold != 0 && len > BLOB_LOADING_SIZE {
          more := true;
          break;
        }
      }
      dbt.size := len;
      ret := 0;
      if ahead {
        HexLineIsEven(start);
        HexIsRead(digits, blobThreshold != 0, len, more, dbt);
      }
    }

    /**
     * dbt_rdump, where streaming says that the start of this line has been read already. In
     * versions 2 and 3 an item starts with a space, or the data ends here.
     */
    method DbtRdump(dbt: Dbt, blobThreshold: nat, streaming: bool) returns (ret: int, more: bool)
      requires Valid() && dbt.Valid()
      modifies this, dbt, dbt.data
      ensures Valid() && dbt.Valid() && (dbt.data == old(dbt.data) || fresh(dbt.data))
      ensures version == old(version) && lineno == old(lineno) + 1 && old(pos) <= pos
      ensures more ==> old(pos) < pos && ret == 0 && endodata == old(endodata)
      ensures ret == 0 && !endodata ==> old(pos) < pos
      // at the end of the input
      ensures old(pos) == |input| ==>
                ret == 0 && endofile && endodata && pos == old(pos) && !more && dbt.size == old(dbt.size)
      // at the end of the data, or at anything else that is no item
      ensures !streaming && version > 1 && old(pos) < |input| && input[old(pos)] != ' ' ==>
                && !more && endofile == old(endofile)
                && if input[old(pos)] == '\n' then
                     ret == 0 && endodata == old(endodata) && pos == old(pos) + 1 && dbt.size == 0
                   else if old(pos) + 9 <= |input| && input[old(pos)..old(pos) + 9] == "DATA=END\n" then
                     ret == 0 && endodata && pos == old(pos) + 9
                   else ret == 1 && endodata == old(endodata)
      // at a line of digits
      ensures var start := old(pos) + if streaming || version <= 1 then 0 else 1;
              HexAhead(start) && (start == old(pos) || input[old(pos)] == ' ') ==>
                && RdumpResult(input[start..LineEnd(input, start)], blobThreshold != 0, ret, more, pos - start, dbt)
                && endodata == old(endodata) && endofile == old(endofile)
    {
      hide LineEnd, RdumpResult, IsDataEnd, IsHex;
      DataEndIsLiteral(input, pos);
      lineno := lineno + 1;
      if streaming || version <= 1 {
        ret, more := ReadHex(dbt, blobThreshold);
        return;
      }
      var c1 := GetChar();
      if c1 == Some('\n') {
        dbt.size := 0;
        return 0, false;
      }
      if c1 == EOF {
        endofile, endodata := true, true;
        return 0, false;
      }
      if c1 != Some(' ') {
        ret := DataEnd(c1.value);
        return ret, false;
      }
      ret, more := ReadHex(dbt, blobThreshold);
    }

    // ---------- printable lines ----------

    /**
     * The end of the loop of dbt_rprint: make room for one more byte and store it. The 32-bit length
     * doubles without saturating, so past 2^31 it wraps to zero and no buffer is left.
     */
    method StoreByte(dbt: Dbt, len: nat, b: byte) returns (ret: int)
      requires dbt.Valid() && Doubled(dbt.data.Length) && len <= dbt.data.Length - 10
      modifies dbt, dbt.data
      ensures dbt.data == old(dbt.data) || fresh(dbt.data)
      ensures ret == if len >= MAX_DOUBLED - 10 then 1 else 0
      ensures ret == 0 ==>
                && dbt.Valid() && Doubled(dbt.data.Length) && dbt.size == old(dbt.size)
                && len + 1 <= dbt.data.Length - 10
                && dbt.data[..len + 1] == old(dbt.data[..len]) + [b]
    {
      hide Doubled;
      DoubledFits(dbt.data.Length);
      if len >= dbt.data.Length - 10 {
        var ulen := dbt.data.Length * 2 % WORD_RANGE;
        if ulen == 0 {
          dbt.data := new byte[0];
          return 1;
        }
        ghost var before := dbt.data[..];
        dbt.Realloc(ulen);
        assert dbt.data[..len] == before[..len];
      }
      dbt.data[len] := b;
      return 0;
    }

    /** A line of escaped text, with every escape complete, lies ahead. */
    ghost predicate EscapedAhead(start: nat)
    {
      start <= |input| && LineEnd(input, start) < |input| && Complete(input[start..LineEnd(input, start)])
    }

    /** Reading the line from start has come to p, with these bytes so far. */
    ghost predicate SoFar(start: nat, p: nat, bytes: seq<byte>, escape: bool) {
      && EscapedAhead(start) && start + (if escape then 1 else 0) <= p <= LineEnd(input, start)
      && Reading(input[start..LineEnd(input, start)], bytes, p - start - if escape then 1 else 0)
    }

    lemma SoFarNothing(start: nat)
      requires EscapedAhead(start)
      ensures SoFar(start, start, [], false)
    {
      hide Unescape, Complete, LineEnd, Reading;
      ReadingStarts(input[start..LineEnd(input, start)]);
    }

    lemma SoFarGoesOn(start: nat, p: nat, bytes: seq<byte>, escape: bool)
      requires SoFar(start, p, bytes, escape) && (escape ==> start < p && input[p - 1] == '\\')
      ensures p < |input| && (start <= p)
      ensures input[p] == '\n' ==>
                p == LineEnd(input, start) && Unescape(input[start..LineEnd(input, start)]) == Some(bytes)
      ensures !escape && input[p] == '\\' ==> SoFar(start, p + 1, bytes, true)
      ensures Unescape(input[start..LineEnd(input, start)]).Some? ==>
                |bytes| <= |Unescape(input[start..LineEnd(input, start)]).value|
    {
      hide Unescape, Complete, LineEnd, Reading;
      var line := input[start..LineEnd(input, start)];
      ReadingBounds(line, bytes, p - start - if escape then 1 else 0);
      if escape {
        EscapeIsWhole(line, bytes, p - start - 1);
      } else if input[p] == '\n' {
        ReadingEnds(line, bytes);
      }
    }

    /**
     * The middle of the loop of dbt_rprint: the byte that a character stands for, by itself or behind
     * a backslash, where it may take another character.
     */
    method EscapedByte(c1: char, escape: bool, ghost start: nat, ghost bytes: seq<byte>, ghost ahead: bool)
      returns (ret: int, b: byte)
      requires Valid() && start < pos && input[pos - 1] == c1 && c1 != '\n'
      requires if escape then start < pos - 1 && input[pos - 2] == '\\' else c1 != '\\'
      requires ahead ==> SoFar(start, pos - 1, bytes, escape)
      modifies this`pos
      ensures Valid() && old(pos) <= pos && (ret == 0 || ret == 1)
      ensures ahead && ret == 0 ==> SoFar(start, pos, bytes + [b], false)
      ensures ahead && ret == 1 ==> Unescape(input[start..LineEnd(input, start)]) == None
    {
      hide Unescape, Complete, PairValue, DigitValue, TooBig, LineEnd, Reading;
      ghost var line, at := input[start..LineEnd(input, start)], pos - 1 - start - if escape then 1 else 0;
      if ahead && escape { EscapeIsWhole(line, bytes, at); }
      ret, b := 0, c1 as int % 256;
      if escape {
        if c1 != '\\' {
          var c2 := GetChar();
          if c2 == EOF {
            return 1, b;
          }
          if ahead { ReadEscape(line, bytes, at); }
          if TooBig(c1) || TooBig(c2.value) {
            return 1, b;
          }
          b := PairValue(c1, c2.value);
        } else if ahead {
          ReadBackslash(line, bytes, at);
        }
      } else if ahead {
        ReadPlain(line, bytes, at);
      }
    }

    /** The loop of dbt_rprint, from where the text starts. */
    method ReadEscaped(dbt: Dbt) returns (ret: int)
      requires Valid() && dbt.Valid() && Doubled(dbt.data.Length)
      modifies this`pos, this`endodata, this`endofile, dbt, dbt.data
      ensures Valid() && (dbt.data == old(dbt.data) || fresh(dbt.data))
      ensures ret == 0 ==> dbt.Valid() && Doubled(dbt.data.Length)
      ensures old(pos) <= pos && (ret == 0 && !endodata ==> old(pos) < pos)
      ensures old(pos) == |input| ==> ret == 0 && endofile && endodata && pos == old(pos)
      ensures EscapedAhead(old(pos)) ==>
                && RprintResult(input[old(pos)..LineEnd(input, old(pos))], ret, pos - old(pos), dbt)
                && endodata == old(endodata) && endofile == old(endofile)
    {
      hide Unescape, Complete, LineEnd, Doubled, SoFar;
      ghost var ahead, start := EscapedAhead(pos), pos;
      if ahead { SoFarNothing(pos); }
      var len, escape := 0, false;
      while true
        invariant Valid() && dbt.Valid() && Doubled(dbt.data.Length)
        invariant dbt.data == old(dbt.data) || fresh(dbt.data)
        invariant endodata == old(endodata) && endofile == old(endofile)
        invariant len <= dbt.data.Length - 10 && len <= MAX_DOUBLED - 10
        invariant start <= pos && (start == |input| ==> pos == start && len == 0)
        invariant escape ==> pos > start && input[pos - 1] == '\\'
        invariant ahead ==> SoFar(start, pos, dbt.data[..len], escape)
        decreases |input| - pos
      {
        if ahead { SoFarGoesOn(start, pos, dbt.data[..len], escape); }
        var c1 := GetChar();
        if c1 == Some('\n') {
          break;
        }
        if c1 == EOF {
          if len == 0 {
            endofile, endodata := true, true;
            return 0;
          }
          return 1;
        }
        if !escape && c1 == Some('\\') {
          escape := true;
          continue;
        }
        var b;
        ret, b := EscapedByte(c1.value, escape, start, dbt.data[..len], ahead);
        if ret != 0 {
          return ret;
        }
        escape := false;
        if ahead { SoFarGoesOn(start, pos, dbt.data[..len] + [b], false); }
        ret := StoreByte(dbt, len, b);
        if ret != 0 {
          return ret;
        }
        len := len + 1;
      }
      dbt.size := len;
      ret := 0;
    }

    /** dbt_rprint */
    method DbtRprint(dbt: Dbt) returns (ret: int)
      requires Valid() && dbt.Valid() && Doubled(dbt.data.Length)
      modifies this, dbt, dbt.data
      ensures Valid() && (dbt.data == old(dbt.data) || fresh(dbt.data))
      ensures ret == 0 ==> dbt.Valid() && Doubled(dbt.data.Length)
      ensures version == old(version) && lineno == old(lineno) + 1
      ensures old(pos) <= pos && (ret == 0 && !endodata ==> old(pos) < pos)
      // at the end of the input
      ensures old(pos) == |input| ==> ret == 0 && endofile && endodata && pos == old(pos)
      // at the end of the data, or at anything else that is no item
      ensures version > 1 && old(pos) < |input| && input[old(pos)] != ' ' ==>
                && endofile == old(endofile)
                && if input[old(pos)] == '\n' then
                     ret == 0 && endodata == old(endodata) && pos == old(pos) + 1 && dbt.size == 0
                   else if old(pos) + 9 <= |input| && input[old(pos)..old(pos) + 9] == "DATA=END\n" then
                     ret == 0 && endodata && pos == old(pos) + 9
                   else ret == 1 && endodata == old(endodata)
      // at a line of escaped text
      ensures var start := old(pos) + if version <= 1 then 0 else 1;
              EscapedAhead(start) && (start == old(pos) || input[old(pos)] == ' ') ==>
                && RprintResult(input[start..LineEnd(input, start)], ret, pos - start, dbt)
                && endodata == old(endodata) && endofile == old(endofile)
    {
      hide LineEnd, RprintResult, IsDataEnd, Complete, Doubled;
      DataEndIsLiteral(input, pos);
      lineno := lineno + 1;
      if version <= 1 {
        ret := ReadEscaped(dbt);
        return;
      }
      var c1 := GetChar();
      if c1 == Some('\n') {
        dbt.size := 0;
        return 0;
      }
      if c1 == EOF {
        endofile, endodata := true, true;
        return 0;
      }
      if c1 != Some(' ') {
        ret := DataEnd(c1.value);
        return ret;
      }
      ret := ReadEscaped(dbt);
    }
  }
}
