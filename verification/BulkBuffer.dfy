/**
 * The DB_MULTIPLE writer and reader macros, over one shared byte array.
 *
 * Addresses are offsets from the start of the array, as unbounded integers, so that the
 * address tests of the reserve macros may look below the array exactly as the C pointers do.
 */
module BulkBuffers {
  import opened Words
  import opened Bulk

  /** A C pointer into the buffer, or NULL. */
  datatype Pointer = Null | At(addr: int)

  /** The test of the key/data reserve. */
  predicate PairFits(ulen: nat, n: nat, off: nat, keyNeed: nat, dataNeed: nat) {
    off + keyNeed + dataNeed <= EntryAddr(Plain, ulen, n) - 16
  }

  /** From s to t only the two words of a plain entry were stored. */
  ghost predicate HeaderStored(s: seq<byte>, t: seq<byte>, x: Item, off: nat, p: int)
    requires 4 <= p <= |s| - WORD_SIZE
  {
    && |t| == |s|
    && EntryAt(Plain, t, x, off, p)
    && forall k :: 0 <= k < |s| && !(p - 4 <= k < p + WORD_SIZE) ==> t[k] == s[k]
  }

  lemma PlainEntryStored(s: seq<byte>, s1: seq<byte>, s2: seq<byte>, x: Item, off: nat, p: int)
    requires 8 <= p <= |s| - WORD_SIZE
    requires HeaderStored(s, s1, x, off, p)
    requires WordStored(s1, s2, p - 8, MAX_WORD)
    ensures Stored(Plain, s, s2, x, off, p)
  {
  }

  /** A pair's two entries, stored without the sentinel that would stand between them. */
  lemma PairEntriesStored(s: seq<byte>, s1: seq<byte>, mid: seq<byte>, s2: seq<byte>, s3: seq<byte>,
                          x: Item, y: Item, off: nat, p: int)
    requires 16 <= p <= |s| - WORD_SIZE
    requires HeaderStored(s, s1, x, off, p)
    requires WordStored(s1, mid, p - 8, MAX_WORD)
    requires HeaderStored(s1, s2, y, off + |x.bytes|, p - 8)
    requires WordStored(s2, s3, p - 16, MAX_WORD)
    ensures Stored(Plain, s, mid, x, off, p)
    ensures Stored(Plain, mid, s3, y, off + |x.bytes|, p - 8)
  {
    PlainEntryStored(s, s1, mid, x, off, p);
    assert HeaderStored(mid, s2, y, off + |x.bytes|, p - 8);
    PlainEntryStored(mid, s2, s3, y, off + |x.bytes|, p - 8);
  }

  /** Two appends at once: the layout after a key/data reserve. */
  lemma AppendPairKeepsLayout(s: seq<byte>, mid: seq<byte>, t: seq<byte>, items: seq<Item>, x: Item, y: Item)
    requires Layout(Plain, s, items)
    requires PairFits(|s|, |items|, Free(items), |x.bytes|, |y.bytes|)
    requires s[Free(items)..Free(items) + |x.bytes|] == x.bytes
    requires s[Free(items) + |x.bytes|..Free(items) + |x.bytes| + |y.bytes|] == y.bytes
    requires Stored(Plain, s, mid, x, Free(items), EntryAddr(Plain, |s|, |items|))
    requires Stored(Plain, mid, t, y, Free(items) + |x.bytes|, EntryAddr(Plain, |s|, |items|) - 8)
    ensures Layout(Plain, t, items + [x] + [y])
  {
    AppendKeepsLayout(Plain, s, mid, items, x);
    FreeAppend(items, x);
    var lo, hi := Free(items + [x]), Free(items + [x]) + |y.bytes|;
    assert mid[lo..hi] == s[lo..hi];
    AppendKeepsLayout(Plain, mid, t, items + [x], y);
  }

  lemma NumberedEntryStored(s: seq<byte>, s1: seq<byte>, s2: seq<byte>, s3: seq<byte>, s4: seq<byte>,
                            x: Item, off: word, p: int)
    requires 12 <= p <= |s| - WORD_SIZE && |x.bytes| < WORD_RANGE
    requires WordStored(s, s1, p, x.recno)
    requires WordStored(s1, s2, p - 4, off)
    requires WordStored(s2, s3, p - 8, |x.bytes|)
    requires WordStored(s3, s4, p - 12, 0)
    ensures Stored(Numbered, s, s4, x, off, p)
  {
  }

  /** The last two table words give the free offset back, without wrapping. */
  lemma FreeOffsetRecovered(fmt: Format, s: seq<byte>, items: seq<Item>)
    requires Layout(fmt, s, items) && items != []
    ensures var p := EntryAddr(fmt, |s|, |items|);
            0 <= p && p + 8 <= |s| - WORD_SIZE && WordAt(s, p + 4) + WordAt(s, p + 8) == Free(items) < WORD_RANGE
  {
    var n := |items| - 1;
  }

  lemma StartIsFree()
    ensures Free([]) == 0
  {
  }

  // ---------- filling in a reserved item ----------

  /** Overwriting in front of b, or exactly b. */
  lemma SpliceInFront(a: seq<byte>, b: seq<byte>, at: nat, d: seq<byte>)
    requires at + |d| <= |a|
    ensures Splice(a + b, at, d) == Splice(a, at, d) + b
  {
  }

  lemma SpliceAtEnd(a: seq<byte>, b: seq<byte>, d: seq<byte>)
    requires |d| == |b|
    ensures Splice(a + b, |a|, d) == a + d
  {
  }

  lemma {:induction false} PayloadOverwrite(items: seq<Item>, i: nat, y: Item)
    requires i < |items| && |y.bytes| == |items[i].bytes|
    ensures Free(items[..i]) + |y.bytes| <= Free(items)
    ensures Payload(items[i := y]) == Splice(Payload(items), Free(items[..i]), y.bytes)
  {
    hide Payload, Splice;
    ItemInPayload(items, i);
    var n := |items| - 1;
    var front, last := items[..n], items[n];
    assert items == front + [last];
    FreeAppend(front, last);
    if i < n {
      PayloadOverwrite(front, i, y);
      assert items[i := y] == front[i := y] + [last];
      FreeAppend(front[i := y], last);
      assert front[..i] == items[..i];
      SpliceInFront(Payload(front), last.bytes, Free(items[..i]), y.bytes);
    } else {
      assert items[i := y] == front + [y];
      FreeAppend(front, y);
      SpliceAtEnd(Payload(front), last.bytes, y.bytes);
    }
  }

  lemma SplicePrefix(s: seq<byte>, end: nat, at: nat, d: seq<byte>)
    requires at + |d| <= end <= |s|
    ensures Splice(s, at, d)[..end] == Splice(s[..end], at, d)
  {
  }

  lemma {:induction false} TableOfOverwritten(fmt: Format, t: seq<byte>, items: seq<Item>, i: nat, y: Item)
    requires i < |items| && |y.bytes| == |items[i].bytes| && y.recno == items[i].recno
    requires 0 <= EntryAddr(fmt, |t|, |items|) && Table(fmt, t, items)
    ensures Table(fmt, t, items[i := y])
  {
    var n := |items| - 1;
    if i < n {
      TableOfOverwritten(fmt, t, items[..n], i, y);
      PayloadOverwrite(items[..n], i, y);
      assert items[i := y][..n] == items[..n][i := y];
    } else {
      assert items[i := y][..n] == items[..n];
    }
  }

  lemma OverwriteKeepsTable(fmt: Format, s: seq<byte>, t: seq<byte>, items: seq<Item>, i: nat, y: Item)
    requires i < |items| && |s| == |t|
    requires |y.bytes| == |items[i].bytes| && y.recno == items[i].recno
    requires 0 <= EntryAddr(fmt, |s|, |items|) && Table(fmt, s, items)
    requires forall k :: EntryAddr(fmt, |s|, |items|) <= k < |s| ==> t[k] == s[k]
    ensures Table(fmt, t, items[i := y])
  {
    TableUnchanged(fmt, s, t, items);
    TableOfOverwritten(fmt, t, items, i, y);
  }

  /** Copying bytes over an item's own bytes changes that item and nothing else. */
  lemma OverwriteKeepsLayout(fmt: Format, s: seq<byte>, items: seq<Item>, i: nat, y: Item)
    requires Layout(fmt, s, items) && i < |items|
    requires |y.bytes| == |items[i].bytes| && y.recno == items[i].recno
    ensures Free(items[..i]) + |y.bytes| <= |s|
    ensures Layout(fmt, Splice(s, Free(items[..i]), y.bytes), items[i := y])
  {
    hide Table, Payload;
    PayloadOverwrite(items, i, y);
    var t := Splice(s, Free(items[..i]), y.bytes);
    SplicePrefix(s, Free(items), Free(items[..i]), y.bytes);
    OverwriteKeepsTable(fmt, s, t, items, i, y);
  }

  /** One item with this record number and length was added to the earlier ones. */
  ghost predicate OneMore(items: seq<Item>, earlier: seq<Item>, recno: word, len: nat) {
    && |items| == |earlier| + 1
    && items[..|earlier|] == earlier
    && items[|earlier|].recno == recno && |items[|earlier|].bytes| == len
  }

  /** The buffer a DBT points at, and the items written to it so far. */
  class BulkBuffer {
    const data: array<byte>
    var bulk: bool           // DB_DBT_BULK
    ghost var fmt: Format
    ghost var items: seq<Item>

    ghost predicate Valid()
      reads this, data
    {
      Layout(fmt, data[..], items)
    }

    /** Where the sentinel is: the value of the caller's pointer variable between appends. */
    ghost function Tail(): int
      reads this
    {
      EntryAddr(fmt, data.Length, |items|)
    }

    /** Does the next append of need bytes fit? */
    ghost predicate Room(need: nat)
      reads this
    {
      Fits(fmt, data.Length, |items|, Free(items), need)
    }

    ghost predicate PairRoom(keyNeed: nat, dataNeed: nat)
      reads this
    {
      PairFits(data.Length, |items|, Free(items), keyNeed, dataNeed)
    }

    constructor (data: array<byte>)
      ensures this.data == data && !bulk
    {
      this.data, this.bulk := data, false;
      fmt, items := Plain, [];
    }

    /** DB_MULTIPLE_WRITE_INIT */
    method WriteInit() returns (pointer: int)
      requires WORD_SIZE <= data.Length < WORD_RANGE
      modifies this, data
      ensures Valid() && fmt == Plain && items == [] && bulk && pointer == Tail()
      ensures forall k :: 0 <= k < data.Length - WORD_SIZE ==> data[k] == old(data[k])
    {
      bulk := true;
      pointer := data.Length - WORD_SIZE;
      StoreWord(data, pointer, MAX_WORD);
      fmt, items := Plain, [];
    }

    /** DB_MULTIPLE_RECNO_WRITE_INIT */
    method RecnoWriteInit() returns (pointer: int)
      requires WORD_SIZE <= data.Length < WORD_RANGE
      modifies this, data
      ensures Valid() && fmt == Numbered && items == [] && bulk && pointer == Tail()
      ensures forall k :: 0 <= k < data.Length - WORD_SIZE ==> data[k] == old(data[k])
    {
      bulk := true;
      pointer := data.Length - WORD_SIZE;
      StoreWord(data, pointer, 0);
      fmt, items := Numbered, [];
    }

    /** The __off computation that opens every reserve macro. */
    method FreeOffset(pointer: int) returns (off: word)
      requires Valid() && pointer == Tail()
      ensures off == Free(items)
    {
      hide Layout, WordAt, Payload;
      StartIsFree();
      if pointer == data.Length - WORD_SIZE {
        off := 0;
      } else {
        FreeOffsetRecovered(fmt, data[..], items);
        var len := LoadWord(data, pointer + 4);
        var start := LoadWord(data, pointer + 8);
        off := (len + start) % WORD_RANGE;
      }
    }

    /** __p[0] = off; __p[-1] = len */
    method StoreHeader(p: int, off: word, len: nat, ghost x: Item)
      requires 4 <= p <= data.Length - WORD_SIZE && len == |x.bytes| < WORD_RANGE
      modifies data
      ensures HeaderStored(old(data[..]), data[..], x, off, p)
    {
      StoreWord(data, p, off);
      StoreWord(data, p - 4, len % WORD_RANGE);
    }

    /** The stores of the plain reserve. */
    method StorePlainEntry(p: int, off: word, len: nat, ghost x: Item)
      requires 8 <= p <= data.Length - WORD_SIZE && len == |x.bytes| < WORD_RANGE
      modifies data
      ensures Stored(Plain, old(data[..]), data[..], x, off, p)
    {
      StoreHeader(p, off, len, x);
      ghost var s1 := data[..];
      StoreWord(data, p - 8, MAX_WORD);
      PlainEntryStored(old(data[..]), s1, data[..], x, off, p);
    }

    /** DB_MULTIPLE_RESERVE_NEXT */
    method ReserveNext(pointer: int, len: nat) returns (next: int, dest: Pointer)
      requires Valid() && fmt == Plain && pointer == Tail()
      modifies this`items, data
      ensures Valid() && next == Tail()
      ensures !old(Room(len)) ==> dest == Null && items == old(items) && data[..] == old(data[..])
      ensures old(Room(len)) ==>
                && dest == At(Free(old(items)))
                && OneMore(items, old(items), 0, len)
                && (forall k :: 0 <= k < next ==> data[k] == old(data[k]))
                && (forall k :: pointer + WORD_SIZE <= k < data.Length ==> data[k] == old(data[k]))
    {
      hide Table, Payload, WordAt;
      var off := FreeOffset(pointer);
      if off + len > pointer - 8 {
        return pointer, Null;
      }
      ghost var before := data[..];
      ghost var x := Item(0, before[off..off + len]);
      StorePlainEntry(pointer, off, len, x);
      next, dest := pointer - 8, At(off);
      AppendKeepsLayout(Plain, before, data[..], items, x);
      items := items + [x];
    }

    /** memcpy into the i-th item's own bytes. */
    method FillItem(dest: int, src: seq<byte>, ghost i: nat)
      requires Valid() && i < |items| && dest == Free(items[..i]) && |src| == |items[i].bytes|
      modifies this`items, data
      ensures Valid() && items == old(items)[i := Item(old(items)[i].recno, src)]
      ensures forall k :: 0 <= k < data.Length && !(dest <= k < dest + |src|) ==> data[k] == old(data[k])
    {
      OverwriteKeepsLayout(fmt, data[..], items, i, Item(items[i].recno, src));
      CopyBytes(data, dest, src);
      items := items[i := Item(items[i].recno, src)];
    }

    /** DB_MULTIPLE_WRITE_NEXT */
    method WriteNext(pointer: int, src: seq<byte>) returns (next: Pointer)
      requires Valid() && fmt == Plain && pointer == Tail()
      modifies this`items, data
      ensures Valid()
      ensures !old(Room(|src|)) ==> next == Null && items == old(items) && data[..] == old(data[..])
      ensures old(Room(|src|)) ==>
                && next == At(Tail()) && items == old(items) + [Item(0, src)]
                && (forall k :: 0 <= k < Free(old(items)) ==> data[k] == old(data[k]))
                && (forall k :: pointer + WORD_SIZE <= k < data.Length ==> data[k] == old(data[k]))
    {
      hide Layout, Payload;
      var p, dest := ReserveNext(pointer, |src|);
      if dest == Null {
        next := Null;
      } else {
        next := At(p);
        ghost var n := |items| - 1;
        assert items[..n] == old(items);
        FillItem(dest.addr, src, n);
        assert items == old(items) + [Item(0, src)];
      }
    }

    // ---------- key/data format ----------

    /** The five stores of the key/data reserve. */
    method StorePairEntries(p: int, off: word, keyLen: nat, dataLen: nat, ghost x: Item, ghost y: Item)
      returns (ghost mid: seq<byte>)
      requires 16 <= p <= data.Length - WORD_SIZE && off + keyLen + dataLen < WORD_RANGE
      requires keyLen == |x.bytes| && dataLen == |y.bytes|
      modifies data
      ensures Stored(Plain, old(data[..]), mid, x, off, p)
      ensures Stored(Plain, mid, data[..], y, off + keyLen, p - 8)
    {
      hide HeaderStored, WordStored, Stored;
      StoreHeader(p, off, keyLen, x);
      ghost var s1 := data[..];
      mid := WithWord(s1, p - 8, MAX_WORD);
      StoreHeader(p - 8, (off + keyLen % WORD_RANGE) % WORD_RANGE, dataLen, y);
      ghost var s2 := data[..];
      StoreWord(data, p - 16, MAX_WORD);
      PairEntriesStored(old(data[..]), s1, mid, s2, data[..], x, y, off, p);
    }

    /** DB_MULTIPLE_KEY_RESERVE_NEXT */
    method KeyReserveNext(pointer: int, keyLen: nat, dataLen: nat)
      returns (next: int, keyDest: Pointer, dataDest: Pointer)
      requires Valid() && fmt == Plain && pointer == Tail()
      modifies this`items, data
      ensures Valid() && next == Tail()
      ensures !old(PairRoom(keyLen, dataLen)) ==>
                keyDest == dataDest == Null && items == old(items) && data[..] == old(data[..])
      ensures old(PairRoom(keyLen, dataLen)) ==>
                var off := Free(old(items));
                && keyDest == At(off) && dataDest == At(off + keyLen)
                && |items| == |old(items)| + 2
                && OneMore(items[..|items| - 1], old(items), 0, keyLen)
                && OneMore(items, items[..|items| - 1], 0, dataLen)
                && (forall k :: 0 <= k < next ==> data[k] == old(data[k]))
                && (forall k :: pointer + WORD_SIZE <= k < data.Length ==> data[k] == old(data[k]))
    {
      hide Table, Payload, WordAt;
      var off := FreeOffset(pointer);
      if off + keyLen + dataLen > pointer - 16 {
        return pointer, Null, Null;
      }
      ghost var before := data[..];
      ghost var x := Item(0, before[off..off + keyLen]);
      ghost var y := Item(0, before[off + keyLen..off + keyLen + dataLen]);
      ghost var mid := StorePairEntries(pointer, off, keyLen, dataLen, x, y);
      next, keyDest, dataDest := pointer - 16, At(off), At(off + keyLen);
      AppendPairKeepsLayout(before, mid, data[..], items, x, y);
      items := items + [x] + [y];
      assert items[..|items| - 1] == old(items) + [x];
    }

    /** DB_MULTIPLE_KEY_WRITE_NEXT */
    method KeyWriteNext(pointer: int, key: seq<byte>, value: seq<byte>) returns (next: Pointer)
      requires Valid() && fmt == Plain && pointer == Tail()
      modifies this`items, data
      ensures Valid()
      ensures !old(PairRoom(|key|, |value|)) ==> next == Null && items == old(items) && data[..] == old(data[..])
      ensures old(PairRoom(|key|, |value|)) ==>
                && next == At(Tail()) && items == old(items) + [Item(0, key), Item(0, value)]
                && (forall k :: 0 <= k < Free(old(items)) ==> data[k] == old(data[k]))
                && (forall k :: pointer + WORD_SIZE <= k < data.Length ==> data[k] == old(data[k]))
    {
      hide Layout, Payload;
      var p, keyDest, dataDest := KeyReserveNext(pointer, |key|, |value|);
      if keyDest == Null {
        next := Null;
      } else {
        next := At(p);
        ghost var n := |items| - 2;
        assert items[..n] == old(items) && items[..n + 1] == old(items) + [items[n]];
        FreeAppend(old(items), items[n]);
        FillItem(keyDest.addr, key, n);
        assert items[..n + 1] == old(items) + [Item(0, key)];
        FreeAppend(old(items), Item(0, key));
        if dataDest != Null {
          FillItem(dataDest.addr, value, n + 1);
        }
        assert items == old(items) + [Item(0, key), Item(0, value)];
      }
    }

    // ---------- recno/data format ----------

    /** The four stores of the recno reserve. */
    method StoreNumberedEntry(p: int, recno: word, off: word, len: nat, ghost x: Item)
      requires 12 <= p <= data.Length - WORD_SIZE && len == |x.bytes| < WORD_RANGE && recno == x.recno
      modifies data
      ensures Stored(Numbered, old(data[..]), data[..], x, off, p)
    {
      StoreWord(data, p, recno);
      ghost var s1 := data[..];
      StoreWord(data, p - 4, off);
      ghost var s2 := data[..];
      StoreWord(data, p - 8, len % WORD_RANGE);
      ghost var s3 := data[..];
      StoreWord(data, p - 12, 0);
      NumberedEntryStored(old(data[..]), s1, s2, s3, data[..], x, off, p);
    }

    /** DB_MULTIPLE_RECNO_RESERVE_NEXT */
    method RecnoReserveNext(pointer: int, recno: word, len: nat) returns (next: int, dest: Pointer)
      requires Valid() && fmt == Numbered && pointer == Tail()
      modifies this`items, data
      ensures Valid() && next == Tail()
      ensures !old(Room(len)) ==> dest == Null && items == old(items) && data[..] == old(data[..])
      ensures old(Room(len)) ==>
                && dest == At(Free(old(items)))
                && OneMore(items, old(items), recno, len)
                && (forall k :: 0 <= k < next ==> data[k] == old(data[k]))
                && (forall k :: pointer + WORD_SIZE <= k < data.Length ==> data[k] == old(data[k]))
    {
      hide Table, Payload, WordAt;
      var off := FreeOffset(pointer);
      if off + len > pointer - 12 {
        return pointer, Null;
      }
      ghost var before := data[..];
      ghost var x := Item(recno, before[off..off + len]);
      StoreNumberedEntry(pointer, recno, off, len, x);
      next, dest := pointer - 12, At(off);
      AppendKeepsLayout(Numbered, before, data[..], items, x);
      items := items + [x];
    }

    /** DB_MULTIPLE_RECNO_WRITE_NEXT */
    method RecnoWriteNext(pointer: int, recno: word, src: seq<byte>) returns (next: Pointer)
      requires Valid() && fmt == Numbered && pointer == Tail()
      modifies this`items, data
      ensures Valid()
      ensures !old(Room(|src|)) ==> next == Null && items == old(items) && data[..] == old(data[..])
      ensures old(Room(|src|)) ==>
                && next == At(Tail()) && items == old(items) + [Item(recno, src)]
                && (forall k :: 0 <= k < Free(old(items)) ==> data[k] == old(data[k]))
                && (forall k :: pointer + WORD_SIZE <= k < data.Length ==> data[k] == old(data[k]))
    {
      hide Layout, Payload;
      var p, dest := RecnoReserveNext(pointer, recno, |src|);
      if dest == Null {
        next := Null;
      } else {
        next := At(p);
        ghost var n := |items| - 1;
        assert items[..n] == old(items);
        if |src| != 0 {
          FillItem(dest.addr, src, n);
        }
        assert items == old(items) + [Item(recno, src)];
      }
    }

    // ---------- readers ----------

    /** DB_MULTIPLE_INIT */
    method ReadInit() returns (pointer: int)
      requires WORD_SIZE <= data.Length
      ensures pointer == data.Length - WORD_SIZE == EntryAddr(Plain, data.Length, 0) == EntryAddr(Numbered, data.Length, 0)
    {
      pointer := data.Length - WORD_SIZE;
    }

    /**
     * DB_MULTIPLE_NEXT. The pointer becomes NULL exactly at the sentinel; the data pointer is also
     * NULL for a zero-length item at the very start of the buffer.
     */
    method Next(pointer: int) returns (next: Pointer, retData: Pointer, retLen: word)
      requires 0 <= pointer <= data.Length - WORD_SIZE
      requires WordAt(data[..], pointer) != MAX_WORD ==> 4 <= pointer
      ensures WordAt(data[..], pointer) == MAX_WORD <==> next == Null
      ensures next == Null ==> retData == Null
      ensures next != Null ==>
                var e := EntryWordsAt(Plain, data[..], pointer);
                && next == At(pointer - EntrySize(Plain)) && retLen == e.len
                && retData == if e.len == 0 && e.off == 0 then Null else At(e.off)
    {
      var p := pointer;
      var w := LoadWord(data, p);
      retLen := 0;
      if w == MAX_WORD {
        return Null, Null, retLen;
      }
      var off := LoadWord(data, p);
      p := p - 4;
      retLen := LoadWord(data, p);
      p := p - 4;
      next := At(p);
      retData := if retLen == 0 && off == 0 then Null else At(off);
    }

    /** DB_MULTIPLE_KEY_NEXT */
    method KeyNext(pointer: int)
      returns (next: Pointer, retKey: Pointer, retKeyLen: word, retData: Pointer, retDataLen: word)
      requires 0 <= pointer <= data.Length - WORD_SIZE
      requires WordAt(data[..], pointer) != MAX_WORD ==> 12 <= pointer
      ensures WordAt(data[..], pointer) == MAX_WORD <==> next == Null
      ensures next == Null ==> retKey == retData == Null
      ensures next != Null ==>
                var k := EntryWordsAt(Plain, data[..], pointer);
                var d := EntryWordsAt(Plain, data[..], pointer - EntrySize(Plain));
                && next == At(pointer - 2 * EntrySize(Plain))
                && retKey == At(k.off) && retKeyLen == k.len && retData == At(d.off) && retDataLen == d.len
    {
      var p := pointer;
      retKeyLen, retDataLen := 0, 0;
      var w := LoadWord(data, p);
      if w == MAX_WORD {
        return Null, Null, retKeyLen, Null, retDataLen;
      }
      w := LoadWord(data, p);
      retKey, p := At(w), p - 4;
      retKeyLen := LoadWord(data, p);
      p := p - 4;
      w := LoadWord(data, p);
      retData, p := At(w), p - 4;
      retDataLen := LoadWord(data, p);
      p := p - 4;
      next := At(p);
    }

    /** DB_MULTIPLE_RECNO_NEXT */
    method RecnoNext(pointer: int) returns (next: Pointer, recno: word, retData: Pointer, retLen: word)
      requires 0 <= pointer <= data.Length - WORD_SIZE
      requires WordAt(data[..], pointer) != 0 ==> 8 <= pointer
      ensures WordAt(data[..], pointer) == 0 <==> next == Null
      ensures next == Null ==> recno == 0 && retData == Null
      ensures next != Null ==>
                var e := EntryWordsAt(Numbered, data[..], pointer);
                && next == At(pointer - EntrySize(Numbered))
                && recno == e.recno && retData == At(e.off) && retLen == e.len
    {
      var p := pointer;
      retLen := 0;
      recno := LoadWord(data, p);
      if recno == 0 {
        return Null, recno, Null, retLen;
      }
      p := p - 4;
      var w := LoadWord(data, p);
      retData, p := At(w), p - 4;
      retLen := LoadWord(data, p);
      p := p - 4;
      next := At(p);
    }
  }
}
