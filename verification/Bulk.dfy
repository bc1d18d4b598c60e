/**
 * The layout of a multiple-item ("bulk") buffer, as pure functions on the bytes of the buffer.
 *
 * Item bytes grow up from the front. A table of 32-bit words grows down from the end, each
 * entry holding an optional record number, the item's offset and its length; a sentinel word
 * closes the table. Key/data buffers use the plain format, with a key entry followed by a
 * data entry for every pair.
 */
module Bulk {
  import opened Options
  import opened Words
  import opened Sums

  datatype Format = Plain | Numbered

  /** One appended item. The record number is used by the numbered format only. */
  datatype Item = Item(recno: word, bytes: seq<byte>)

  /** What a reader learns about one item: where its bytes are. */
  datatype Entry = Entry(recno: word, off: word, len: word)

  function Sentinel(fmt: Format): word {
    if fmt.Plain? then MAX_WORD else 0
  }

  /** Bytes of table that one item takes: two words, or three with a record number. */
  function EntrySize(fmt: Format): nat {
    if fmt.Plain? then 8 else 12
  }

  function Length(x: Item): nat {
    |x.bytes|
  }

  /** The bytes of the items, one after the other. */
  function Payload(items: seq<Item>): seq<byte> {
    if items == [] then [] else Payload(items[..|items| - 1]) + items[|items| - 1].bytes
  }

  /** Where the items written so far end, and so where the next one starts. */
  function Free(items: seq<Item>): nat {
    |Payload(items)|
  }

  /** Address of the n-th table entry, which is where the sentinel stands after n appends. */
  function EntryAddr(fmt: Format, ulen: nat, n: nat): int {
    if fmt.Plain? then ulen - 8 * n - WORD_SIZE else ulen - 12 * n - WORD_SIZE
  }

  /** The entry of one item, whose words run down from address at. */
  predicate EntryAt(fmt: Format, buf: seq<byte>, x: Item, off: nat, at: int)
    requires EntrySize(fmt) - WORD_SIZE <= at <= |buf| - WORD_SIZE
  {
    if fmt.Plain? then WordAt(buf, at) == off && WordAt(buf, at - 4) == |x.bytes|
    else WordAt(buf, at) == x.recno && WordAt(buf, at - 4) == off && WordAt(buf, at - 8) == |x.bytes|
  }

  /** The table holds one entry for each item, with the item's own offset and length. */
  ghost predicate Table(fmt: Format, buf: seq<byte>, items: seq<Item>)
    requires 0 <= EntryAddr(fmt, |buf|, |items|)
  {
    items == [] ||
    var n := |items| - 1;
    Table(fmt, buf, items[..n]) &&
    EntryAt(fmt, buf, items[n], Free(items[..n]), EntryAddr(fmt, |buf|, n))
  }

  /** The buffer holds exactly these items: data prefix, table, sentinel, and the two ends apart. */
  ghost predicate Layout(fmt: Format, buf: seq<byte>, items: seq<Item>) {
    && WORD_SIZE <= |buf| < WORD_RANGE
    && Free(items) <= EntryAddr(fmt, |buf|, |items|)
    && buf[..Free(items)] == Payload(items)
    && WordAt(buf, EntryAddr(fmt, |buf|, |items|)) == Sentinel(fmt)
    && Table(fmt, buf, items)
  }

  /** The test every reserve makes: n items ending at off are present, need more bytes arrive. */
  predicate Fits(fmt: Format, ulen: nat, n: nat, off: nat, need: nat) {
    off + need <= EntryAddr(fmt, ulen, n) - EntrySize(fmt)
  }

  // ---------- facts about offsets ----------

  lemma FreeAppend(items: seq<Item>, x: Item)
    ensures Payload(items + [x]) == Payload(items) + x.bytes
    ensures Free(items + [x]) == Free(items) + |x.bytes|
  {
    assert (items + [x])[..|items|] == items;
  }

  /** Free is monotone in the prefix, and an item's bytes sit at its offset in the payload. */
  lemma {:induction false} ItemInPayload(items: seq<Item>, i: nat)
    requires i < |items|
    ensures Free(items[..i]) + |items[i].bytes| <= Free(items)
    ensures Free(items[..i + 1]) == Free(items[..i]) + |items[i].bytes|
    ensures Payload(items)[Free(items[..i])..Free(items[..i + 1])] == items[i].bytes
  {
    var n := |items| - 1;
    assert items[..i + 1] == items[..i] + [items[i]];
    FreeAppend(items[..i], items[i]);
    if i < n {
      ItemInPayload(items[..n], i);
      assert items[..n][..i] == items[..i] && items[..n][..i + 1] == items[..i + 1];
    } else {
      assert items[..n + 1] == items;
    }
  }

  /** The free offset is the sum of all lengths. */
  lemma {:induction false} FreeIsSumOfLengths(items: seq<Item>)
    ensures Free(items) == Total(items, Length)
  {
    if items != [] {
      FreeIsSumOfLengths(items[..|items| - 1]);
    }
  }

  // ---------- what an append does ----------

  /** From s to t only the entry of x at address p and the sentinel below it were stored. */
  ghost predicate Stored(fmt: Format, s: seq<byte>, t: seq<byte>, x: Item, off: nat, p: int)
    requires EntrySize(fmt) <= p <= |s| - WORD_SIZE
  {
    && |t| == |s|
    && EntryAt(fmt, t, x, off, p)
    && WordAt(t, p - EntrySize(fmt)) == Sentinel(fmt)
    && (forall k :: 0 <= k < p - EntrySize(fmt) ==> t[k] == s[k])
    && (forall k :: p + WORD_SIZE <= k < |s| ==> t[k] == s[k])
  }

  /** The table depends only on the bytes above the sentinel. */
  lemma {:induction false} TableUnchanged(fmt: Format, s: seq<byte>, t: seq<byte>, items: seq<Item>)
    requires |s| == |t| && 0 <= EntryAddr(fmt, |s|, |items|) && Table(fmt, s, items)
    requires forall k :: EntryAddr(fmt, |s|, |items|) + WORD_SIZE <= k < |s| ==> t[k] == s[k]
    ensures Table(fmt, t, items)
  {
    if items != [] {
      TableUnchanged(fmt, s, t, items[..|items| - 1]);
    }
  }

  /** An append keeps every earlier item and entry and adds exactly the new one. */
  lemma AppendKeepsLayout(fmt: Format, s: seq<byte>, t: seq<byte>, items: seq<Item>, x: Item)
    requires Layout(fmt, s, items)
    requires Fits(fmt, |s|, |items|, Free(items), |x.bytes|)
    requires s[Free(items)..Free(items) + |x.bytes|] == x.bytes
    requires Stored(fmt, s, t, x, Free(items), EntryAddr(fmt, |s|, |items|))
    ensures Layout(fmt, t, items + [x])
  {
    FreeAppend(items, x);
    TableUnchanged(fmt, s, t, items);
    var lo, hi := Free(items), Free(items) + |x.bytes|;
    assert t[..hi] == s[..lo] + s[lo..hi];
    assert (items + [x])[..|items|] == items;
  }

  /** The entry of the i-th item. */
  lemma {:induction false} TableEntry(fmt: Format, buf: seq<byte>, items: seq<Item>, i: nat)
    requires 0 <= EntryAddr(fmt, |buf|, |items|) && Table(fmt, buf, items) && i < |items|
    ensures EntryAt(fmt, buf, items[i], Free(items[..i]), EntryAddr(fmt, |buf|, i))
  {
    var n := |items| - 1;
    if i < n {
      TableEntry(fmt, buf, items[..n], i);
      assert items[..n][..i] == items[..i];
    }
  }

  /**
   * No stored word is truncated, and no offset or length can be taken for the plain
   * format's sentinel.
   */
  lemma StoredWordsAreExact(fmt: Format, buf: seq<byte>, items: seq<Item>, i: nat)
    requires Layout(fmt, buf, items) && i < |items|
    ensures Free(items[..i]) < MAX_WORD && |items[i].bytes| < MAX_WORD
    ensures Free(items[..i]) + |items[i].bytes| < MAX_WORD
  {
    ItemInPayload(items, i);
  }

  lemma SliceOfPrefix(s: seq<byte>, end: nat, lo: nat, hi: nat)
    requires lo <= hi <= end <= |s|
    ensures s[..end][lo..hi] == s[lo..hi]
  {
  }

  /**
   * Where everything is: item bytes from the front without a gap, the words of the i-th item from the
   * end down, offset before length, and the sentinel below the last of them.
   */
  lemma WordsArePlaced(fmt: Format, buf: seq<byte>, items: seq<Item>, i: nat)
    requires Layout(fmt, buf, items) && i < |items|
    ensures fmt.Plain? ==>
              var at := |buf| - 4 - 8 * i;
              && 8 <= at <= |buf| - 4 && WordAt(buf, |buf| - 4 - 8 * |items|) == 0xFFFF_FFFF
              && WordAt(buf, at) == Total(items[..i], Length) && WordAt(buf, at - 4) == |items[i].bytes|
    ensures fmt.Numbered? ==>
              var at := |buf| - 4 - 12 * i;
              && 12 <= at <= |buf| - 4 && WordAt(buf, |buf| - 4 - 12 * |items|) == 0
              && WordAt(buf, at) == items[i].recno
              && WordAt(buf, at - 4) == Total(items[..i], Length) && WordAt(buf, at - 8) == |items[i].bytes|
    ensures var off := Total(items[..i], Length);
            off + |items[i].bytes| <= |buf| && buf[off..off + |items[i].bytes|] == items[i].bytes
  {
    hide WordAt, Payload;
    TableEntry(fmt, buf, items, i);
    ItemInPayload(items, i);
    FreeIsSumOfLengths(items[..i]);
    SliceOfPrefix(buf, Free(items), Free(items[..i]), Free(items[..i + 1]));
  }

  // ---------- reading ----------

  /** An entry, followed to the bytes it points at. */
  function Fetch(buf: seq<byte>, e: Entry): Option<Item> {
    if e.off + e.len <= |buf| then Some(Item(e.recno, buf[e.off..e.off + e.len])) else None
  }

  function EntryWordsAt(fmt: Format, buf: seq<byte>, p: int): Entry
    requires EntrySize(fmt) - WORD_SIZE <= p <= |buf| - WORD_SIZE
  {
    if fmt.Plain? then Entry(0, WordAt(buf, p), WordAt(buf, p - 4))
    else Entry(WordAt(buf, p), WordAt(buf, p - 4), WordAt(buf, p - 8))
  }

  /**
   * Everything a caller gets by iterating from address p until the pointer becomes NULL, or None
   * if an entry or an item's bytes lie outside the buffer.
   */
  function ReadFrom(fmt: Format, buf: seq<byte>, p: int): Option<seq<Item>>
    decreases p
  {
    if !(0 <= p <= |buf| - WORD_SIZE) then None
    else if WordAt(buf, p) == Sentinel(fmt) then Some([])
    else if p < EntrySize(fmt) - WORD_SIZE then None
    else
      match (Fetch(buf, EntryWordsAt(fmt, buf, p)), ReadFrom(fmt, buf, p - EntrySize(fmt)))
      case (Some(x), Some(rest)) => Some([x] + rest)
      case _ => None
  }

  function ReadAll(fmt: Format, buf: seq<byte>): Option<seq<Item>> {
    ReadFrom(fmt, buf, |buf| - WORD_SIZE)
  }

  /** The items before the first one whose entry looks like the end of the table. */
  function BeforeZeroRecno(fmt: Format, items: seq<Item>): seq<Item> {
    if items == [] || (fmt.Numbered? && items[0].recno == 0) then []
    else [items[0]] + BeforeZeroRecno(fmt, items[1..])
  }

  predicate RecnosNonZero(items: seq<Item>) {
    forall i :: 0 <= i < |items| ==> items[i].recno != 0
  }

  /** The plain format stores no record numbers: reading gives items with record number 0. */
  predicate PlainItems(items: seq<Item>) {
    forall i :: 0 <= i < |items| ==> items[i].recno == 0
  }

  predicate FollowableAt(fmt: Format, buf: seq<byte>, x: Item, p: int) {
    && EntrySize(fmt) - WORD_SIZE <= p <= |buf| - WORD_SIZE
    && (WordAt(buf, p) == Sentinel(fmt) <==> fmt.Numbered? && x.recno == 0)
    && Fetch(buf, EntryWordsAt(fmt, buf, p)) == Some(x)
  }

  /** Each table entry, seen by a reader: it ends the table or leads to its item's bytes. */
  ghost predicate Followable(fmt: Format, buf: seq<byte>, items: seq<Item>) {
    && 0 <= EntryAddr(fmt, |buf|, |items|) <= |buf| - WORD_SIZE
    && WordAt(buf, EntryAddr(fmt, |buf|, |items|)) == Sentinel(fmt)
    && forall i :: 0 <= i < |items| ==> FollowableAt(fmt, buf, items[i], EntryAddr(fmt, |buf|, i))
  }

  /** Iterating from entry i gives the items from i on, up to a zero record number. */
  lemma {:induction false} ReadFromEntry(fmt: Format, buf: seq<byte>, items: seq<Item>, i: nat)
    requires Followable(fmt, buf, items) && i <= |items|
    ensures ReadFrom(fmt, buf, EntryAddr(fmt, |buf|, i)) == Some(BeforeZeroRecno(fmt, items[i..]))
    decreases |items| - i
  {
    hide WordAt, EntryWordsAt, Fetch;
    if i < |items| {
      assert FollowableAt(fmt, buf, items[i], EntryAddr(fmt, |buf|, i));
      if !(fmt.Numbered? && items[i].recno == 0) {
        ReadFromEntry(fmt, buf, items, i + 1);
        assert items[i..][1..] == items[i + 1..];
      }
    }
  }

  lemma WrittenEntryIsFollowable(fmt: Format, buf: seq<byte>, x: Item, off: nat, end: nat, p: int)
    requires EntrySize(fmt) - WORD_SIZE <= p <= |buf| - WORD_SIZE && |buf| < WORD_RANGE
    requires EntryAt(fmt, buf, x, off, p)
    requires off + |x.bytes| == end <= p
    requires buf[off..end] == x.bytes
    requires fmt.Plain? ==> x.recno == 0
    ensures FollowableAt(fmt, buf, x, p)
  {
  }

  lemma ItemIsFollowable(fmt: Format, buf: seq<byte>, items: seq<Item>, i: nat)
    requires Layout(fmt, buf, items) && i < |items|
    requires fmt.Plain? ==> items[i].recno == 0
    ensures FollowableAt(fmt, buf, items[i], EntryAddr(fmt, |buf|, i))
  {
    TableEntry(fmt, buf, items, i);
    ItemInPayload(items, i);
    var lo, hi := Free(items[..i]), Free(items[..i + 1]);
    SliceOfPrefix(buf, Free(items), lo, hi);
    WrittenEntryIsFollowable(fmt, buf, items[i], lo, hi, EntryAddr(fmt, |buf|, i));
  }

  /** What a writer laid out, a reader can follow. */
  lemma LayoutIsFollowable(fmt: Format, buf: seq<byte>, items: seq<Item>)
    requires Layout(fmt, buf, items)
    requires fmt.Plain? ==> PlainItems(items)
    ensures Followable(fmt, buf, items)
  {
    forall i | 0 <= i < |items|
      ensures FollowableAt(fmt, buf, items[i], EntryAddr(fmt, |buf|, i))
    {
      ItemIsFollowable(fmt, buf, items, i);
    }
  }

  lemma FollowableIsReadBack(fmt: Format, buf: seq<byte>, items: seq<Item>)
    requires Followable(fmt, buf, items)
    ensures ReadAll(fmt, buf) == Some(BeforeZeroRecno(fmt, items))
  {
    ReadFromEntry(fmt, buf, items, 0);
    assert items[0..] == items;
  }

  lemma {:induction false} BeforeZeroRecnoIsAll(fmt: Format, items: seq<Item>)
    ensures BeforeZeroRecno(fmt, items) == items <==> (fmt.Plain? || RecnosNonZero(items))
  {
    if items != [] {
      BeforeZeroRecnoIsAll(fmt, items[1..]);
      assert items == [items[0]] + items[1..];
      if fmt.Numbered? && RecnosNonZero(items[1..]) && items[0].recno != 0 {
        forall i | 0 <= i < |items| ensures items[i].recno != 0 {
          if i > 0 { assert items[i] == items[1..][i - 1]; }
        }
      }
    }
  }

  /**
   * Round trip. Reading a written buffer gives the items before the first zero record number
   * and then ends; so it gives back exactly what was written if and only if the format is
   * plain or every record number is non-zero.
   */
  lemma ReadBack(fmt: Format, buf: seq<byte>, items: seq<Item>)
    requires Layout(fmt, buf, items)
    requires fmt.Plain? ==> PlainItems(items)
    ensures ReadAll(fmt, buf) == Some(BeforeZeroRecno(fmt, items))
    ensures ReadAll(fmt, buf) == Some(items) <==> (fmt.Plain? || RecnosNonZero(items))
  {
    LayoutIsFollowable(fmt, buf, items);
    FollowableIsReadBack(fmt, buf, items);
    BeforeZeroRecnoIsAll(fmt, items);
  }

  /**
   * The plain reader reports a NULL item for a zero-length entry at offset 0: those are exactly
   * the items of the leading run of empty ones.
   */
  lemma {:induction false} NullItemsAreTheLeadingEmptyRun(items: seq<Item>, i: nat)
    requires i < |items|
    ensures (Free(items[..i]) == 0 && |items[i].bytes| == 0) <==> forall j :: 0 <= j <= i ==> items[j].bytes == []
  {
    ItemInPayload(items, i);
    if i > 0 {
      NullItemsAreTheLeadingEmptyRun(items, i - 1);
      ItemInPayload(items, i - 1);
      if Free(items[..i]) == 0 {
        assert forall j :: 0 <= j <= i - 1 ==> items[j].bytes == [];
      }
    }
  }

  // ---------- capacity ----------

  /** Every append of the sequence passes its own test, in order. */
  predicate AllAccepted(fmt: Format, ulen: nat, items: seq<Item>) {
    forall i :: 0 <= i < |items| ==> Fits(fmt, ulen, i, Free(items[..i]), |items[i].bytes|)
  }

  /** Total space of a buffer that holds these items. */
  function Space(fmt: Format, items: seq<Item>): nat {
    Total(items, Length) + EntrySize(fmt) * |items| + WORD_SIZE
  }

  /** All appends succeed exactly when the whole fits: item bytes plus the table plus the sentinel. */
  lemma {:induction false} CapacityIsExact(fmt: Format, ulen: nat, items: seq<Item>)
    requires WORD_SIZE <= ulen
    ensures AllAccepted(fmt, ulen, items) <==> Space(fmt, items) <= ulen
  {
    FreeIsSumOfLengths(items);
    forall i | 0 <= i < |items| && Space(fmt, items) <= ulen
      ensures Fits(fmt, ulen, i, Free(items[..i]), |items[i].bytes|)
    {
      ItemInPayload(items, i);
    }
    if AllAccepted(fmt, ulen, items) && items != [] {
      var n := |items| - 1;
      assert Fits(fmt, ulen, n, Free(items[..n]), |items[n].bytes|);
    }
  }

  /** So whether a batch is accepted does not depend on its order. */
  lemma AcceptanceIgnoresOrder(fmt: Format, ulen: nat, a: seq<Item>, b: seq<Item>)
    requires WORD_SIZE <= ulen && multiset(a) == multiset(b)
    ensures AllAccepted(fmt, ulen, a) <==> AllAccepted(fmt, ulen, b)
  {
    CapacityIsExact(fmt, ulen, a);
    CapacityIsExact(fmt, ulen, b);
    TotalPermutation(a, b, Length);
  }
}
