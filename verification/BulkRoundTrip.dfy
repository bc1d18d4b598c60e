/**
 * Callers of the DB_MULTIPLE macros: a batch is written to a buffer item by item until one is
 * rejected, and a buffer is read by iterating until the pointer becomes NULL.
 */
module BulkRoundTrips {
  import opened Words
  import opened Sums
  import opened Bulk
  import opened BulkBuffers

  // ---------- what fits ----------

  /** The test of a reserve says whether the items with the new one fit the buffer. */
  lemma RoomIsSpace(fmt: Format, ulen: nat, items: seq<Item>, x: Item)
    ensures Fits(fmt, ulen, |items|, Free(items), |x.bytes|) <==> Space(fmt, items + [x]) <= ulen
  {
    FreeIsSumOfLengths(items);
    TotalAppend(items, x, Length);
  }

  lemma PairRoomIsSpace(ulen: nat, items: seq<Item>, x: Item, y: Item)
    ensures PairFits(ulen, |items|, Free(items), |x.bytes|, |y.bytes|) <==> Space(Plain, items + [x, y]) <= ulen
  {
    FreeIsSumOfLengths(items);
    TotalAppend(items, x, Length);
    TotalAppend(items + [x], y, Length);
    assert items + [x] + [y] == items + [x, y];
  }

  lemma {:induction false} SpaceGrows(fmt: Format, items: seq<Item>, n: nat)
    requires n <= |items|
    ensures Space(fmt, items[..n]) <= Space(fmt, items)
  {
    if n < |items| {
      SpaceGrows(fmt, items[..|items| - 1], n);
      assert items[..|items| - 1][..n] == items[..n];
    } else {
      assert items[..n] == items;
    }
  }

  /** Next items that do not fit keep the whole from fitting. */
  lemma TooMuch(fmt: Format, ulen: nat, items: seq<Item>, n: nat)
    requires n <= |items| && Space(fmt, items[..n]) > ulen
    ensures Space(fmt, items) > ulen
  {
    SpaceGrows(fmt, items, n);
  }

  lemma NoItemsFit(fmt: Format, ulen: nat)
    requires WORD_SIZE <= ulen
    ensures Space(fmt, []) <= ulen
  {
  }

  // ---------- data and recno/data buffers ----------

  /** Writing a batch: all of it is accepted exactly if it fits, or else the items before the first rejected one. */
  method WriteBatch(b: BulkBuffer, fmt: Format, batch: seq<Item>) returns (n: nat)
    requires WORD_SIZE <= b.data.Length < WORD_RANGE
    requires fmt.Plain? ==> PlainItems(batch)
    modifies b, b.data
    ensures b.Valid() && b.fmt == fmt && n <= |batch| && b.items == batch[..n]
    ensures n == |batch| <==> Space(fmt, batch) <= b.data.Length
    ensures n < |batch| ==> Space(fmt, batch[..n + 1]) > b.data.Length
  {
    hide Layout, Space, Fits, Free;
    var pointer;
    if fmt.Plain? {
      pointer := b.WriteInit();
    } else {
      pointer := b.RecnoWriteInit();
    }
    NoItemsFit(fmt, b.data.Length);
    n := 0;
    while n < |batch|
      invariant n <= |batch| && b.Valid() && b.fmt == fmt && b.items == batch[..n] && pointer == b.Tail()
      invariant Space(fmt, batch[..n]) <= b.data.Length
    {
      var x := batch[n];
      RoomIsSpace(fmt, b.data.Length, batch[..n], x);
      assert batch[..n + 1] == batch[..n] + [x];
      var next;
      if fmt.Plain? {
        next := b.WriteNext(pointer, x.bytes);
      } else {
        next := b.RecnoWriteNext(pointer, x.recno, x.bytes);
      }
      if next == Null {
        TooMuch(fmt, b.data.Length, batch, n + 1);
        return;
      }
      pointer := next.addr;
      n := n + 1;
    }
    assert batch[..n] == batch;
  }

  /** What a reader finds at the i-th entry of a buffer that was written. */
  lemma EntryIsFetched(fmt: Format, buf: seq<byte>, items: seq<Item>, i: nat)
    requires Followable(fmt, buf, items) && i < |items| && (fmt.Numbered? ==> items[i].recno != 0)
    ensures var p := EntryAddr(fmt, |buf|, i);
            && EntrySize(fmt) - WORD_SIZE <= p <= |buf| - WORD_SIZE && p - EntrySize(fmt) == EntryAddr(fmt, |buf|, i + 1)
            && WordAt(buf, p) != Sentinel(fmt)
            && var e := EntryWordsAt(fmt, buf, p);
               && e.recno == items[i].recno && e.len == |items[i].bytes|
               && e.off + e.len <= |buf| && buf[e.off..e.off + e.len] == items[i].bytes
  {
    hide WordAt, EntryWordsAt;
    assert FollowableAt(fmt, buf, items[i], EntryAddr(fmt, |buf|, i));
  }

  lemma EntryOffset(buf: seq<byte>, items: seq<Item>, i: nat)
    requires Layout(Plain, buf, items) && i < |items|
    ensures EntrySize(Plain) - WORD_SIZE <= EntryAddr(Plain, |buf|, i) <= |buf| - WORD_SIZE
    ensures EntryWordsAt(Plain, buf, EntryAddr(Plain, |buf|, i)).off == Free(items[..i])
  {
    hide WordAt, Payload;
    TableEntry(Plain, buf, items, i);
  }

  /**
   * DB_MULTIPLE_NEXT at the i-th entry of a written buffer: the pointer stays live, and the data pointer
   * is NULL exactly for the items of the leading run of empty ones.
   */
  method NextAtItem(b: BulkBuffer, i: nat) returns (next: Pointer, retData: Pointer, retLen: word)
    requires b.Valid() && b.fmt == Plain && PlainItems(b.items) && i < |b.items|
    ensures next == At(EntryAddr(Plain, b.data.Length, i + 1)) && retLen == |b.items[i].bytes|
    ensures retData == Null <==> forall j :: 0 <= j <= i ==> b.items[j].bytes == []
    ensures retData != Null ==>
              var at := retData.addr;
              0 <= at && at + retLen <= b.data.Length && b.data[at..at + retLen] == b.items[i].bytes
  {
    hide Layout, Fetch, WordAt, FollowableAt;
    LayoutIsFollowable(Plain, b.data[..], b.items);
    EntryIsFetched(Plain, b.data[..], b.items, i);
    EntryOffset(b.data[..], b.items, i);
    NullItemsAreTheLeadingEmptyRun(b.items, i);
    next, retData, retLen := b.Next(EntryAddr(Plain, b.data.Length, i));
  }

  /** Reading all items: a NULL data pointer is an empty item as long as the pointer is live. */
  method ReadItems(b: BulkBuffer, fmt: Format) returns (read: seq<Item>)
    requires b.Valid() && b.fmt == fmt && if fmt.Plain? then PlainItems(b.items) else RecnosNonZero(b.items)
    ensures read == b.items
  {
    hide Layout, Fetch, WordAt, FollowableAt;
    LayoutIsFollowable(fmt, b.data[..], b.items);
    var pointer := b.ReadInit();
    read := [];
    while true
      invariant |read| <= |b.items| && read == b.items[..|read|] && pointer == EntryAddr(fmt, b.data.Length, |read|)
      decreases |b.items| - |read|
    {
      if |read| < |b.items| { EntryIsFetched(fmt, b.data[..], b.items, |read|); }
      var next, recno, at, len;
      if fmt.Plain? {
        next, at, len := b.Next(pointer);
        recno := 0;
      } else {
        next, recno, at, len := b.RecnoNext(pointer);
      }
      if next == Null {
        break;
      }
      var bytes := if at == Null then [] else b.data[at.addr..at.addr + len];
      read := read + [Item(recno, bytes)];
      pointer := next.addr;
    }
  }

  // ---------- key/data buffers ----------

  /** A key and its data item, as two items of the plain format. */
  function PairItems(pairs: seq<(seq<byte>, seq<byte>)>): seq<Item> {
    if pairs == [] then []
    else
      var last := pairs[|pairs| - 1];
      PairItems(pairs[..|pairs| - 1]) + [Item(0, last.0), Item(0, last.1)]
  }

  lemma {:induction false} PairItemsPrefix(pairs: seq<(seq<byte>, seq<byte>)>, n: nat)
    requires n <= |pairs|
    ensures |PairItems(pairs)| == 2 * |pairs| && PlainItems(PairItems(pairs))
    ensures PairItems(pairs)[..2 * n] == PairItems(pairs[..n])
  {
    if n < |pairs| {
      PairItemsPrefix(pairs[..|pairs| - 1], n);
      assert pairs[..|pairs| - 1][..n] == pairs[..n];
    } else if pairs != [] {
      PairItemsPrefix(pairs[..|pairs| - 1], 0);
      assert pairs[..n] == pairs;
    }
  }

  lemma PairItemsNext(pairs: seq<(seq<byte>, seq<byte>)>, n: nat)
    requires n < |pairs|
    ensures PairItems(pairs[..n + 1]) == PairItems(pairs[..n]) + [Item(0, pairs[n].0), Item(0, pairs[n].1)]
  {
    assert pairs[..n + 1][..n] == pairs[..n];
  }

  /** Writing pairs: all of them are accepted exactly if they fit. */
  method WritePairs(b: BulkBuffer, pairs: seq<(seq<byte>, seq<byte>)>) returns (n: nat)
    requires WORD_SIZE <= b.data.Length < WORD_RANGE
    modifies b, b.data
    ensures b.Valid() && b.fmt == Plain && n <= |pairs| && b.items == PairItems(pairs[..n])
    ensures n == |pairs| <==> Space(Plain, PairItems(pairs)) <= b.data.Length
    ensures n < |pairs| ==> Space(Plain, PairItems(pairs[..n + 1])) > b.data.Length
  {
    hide Layout, Space, PairFits, Free, PairItems;
    var pointer := b.WriteInit();
    NoItemsFit(Plain, b.data.Length);
    n := 0;
    PairItemsPrefix(pairs, 0);
    while n < |pairs|
      invariant n <= |pairs| && b.Valid() && b.fmt == Plain && b.items == PairItems(pairs[..n]) && pointer == b.Tail()
      invariant Space(Plain, PairItems(pairs[..n])) <= b.data.Length
    {
      var (key, value) := pairs[n];
      PairRoomIsSpace(b.data.Length, PairItems(pairs[..n]), Item(0, key), Item(0, value));
      PairItemsNext(pairs, n);
      var next := b.KeyWriteNext(pointer, key, value);
      if next == Null {
        PairItemsPrefix(pairs, n + 1);
        TooMuch(Plain, b.data.Length, PairItems(pairs), 2 * (n + 1));
        return;
      }
      pointer := next.addr;
      n := n + 1;
    }
    assert pairs[..n] == pairs;
  }

  lemma PairItemsAt(pairs: seq<(seq<byte>, seq<byte>)>, n: nat)
    requires n < |pairs|
    ensures |PairItems(pairs)| == 2 * |pairs|
    ensures PairItems(pairs)[2 * n] == Item(0, pairs[n].0) && PairItems(pairs)[2 * n + 1] == Item(0, pairs[n].1)
  {
    hide PairItems;
    PairItemsPrefix(pairs, n + 1);
    PairItemsPrefix(pairs[..n], n);
    PairItemsNext(pairs, n);
    var items := PairItems(pairs);
    assert items[2 * n] == items[..2 * (n + 1)][2 * n] && items[2 * n + 1] == items[..2 * (n + 1)][2 * n + 1];
  }

  /** Reading pairs until the pointer becomes NULL. */
  method ReadPairs(b: BulkBuffer, ghost pairs: seq<(seq<byte>, seq<byte>)>) returns (read: seq<(seq<byte>, seq<byte>)>)
    requires b.Valid() && b.fmt == Plain && b.items == PairItems(pairs)
    ensures read == pairs
  {
    hide Layout, Fetch, WordAt, FollowableAt, PairItems;
    PairItemsPrefix(pairs, 0);
    LayoutIsFollowable(Plain, b.data[..], b.items);
    var pointer := b.ReadInit();
    read := [];
    while true
      invariant |read| <= |pairs| && read == pairs[..|read|] && pointer == EntryAddr(Plain, b.data.Length, 2 * |read|)
      decreases |pairs| - |read|
    {
      ghost var n := |read|;
      if n < |pairs| {
        EntryIsFetched(Plain, b.data[..], b.items, 2 * n);
        EntryIsFetched(Plain, b.data[..], b.items, 2 * n + 1);
        PairItemsAt(pairs, n);
      }
      var next, key, keyLen, value, valueLen := b.KeyNext(pointer);
      if next == Null {
        break;
      }
      read := read + [(b.data[key.addr..key.addr + keyLen], b.data[value.addr..value.addr + valueLen])];
      pointer := next.addr;
    }
  }
}
