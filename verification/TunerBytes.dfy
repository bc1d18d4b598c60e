/**
 * The bytes that the simulator puts on pages, counted from the records and the page layout alone:
 * which insertions a database causes at one page size, and how long each one is.
 */
module TunerBytes {
  import opened Sums
  import opened NextFit
  import opened Bits
  import opened TunerSpec
  import opened TunerFacts
  import opened TunerPacking
  import opened TunerDups
  import opened TunerRuns

  // ---------- the page layout ----------

  /** Bytes of a page's header. */
  function HeaderBytes(prot: Protection): nat {
    match prot
    case Unprotected => 26
    case Checksummed => 32
    case Encrypted => 64
  }

  /** The longest item that stays on a page: a quarter of the page behind its header, less 10 bytes. */
  function Threshold(prot: Protection, pgsize: nat): int {
    (pgsize - HeaderBytes(prot)) / 4 - 10
  }

  /** The length of an item: its own on the page, or the total length of what it refers to. */
  function Bytes(x: Item): uint32 {
    match x.kind
    case KeyData => x.len
    case Duplicate => x.tlen
    case Overflow => x.tlen
    case Blob => x.tlen
  }

  /**
   * An item with its index entry of 2 bytes: behind a header of 3 bytes and rounded up to four, or a
   * reference of 12 bytes to overflow pages.
   */
  function OnPageBytes(prot: Protection, pgsize: nat, size: nat): nat {
    if size > Threshold(prot, pgsize) then 14 else (3 + size + 3) / 4 * 4 + 2
  }

  lemma ThresholdIsExact(prot: Protection, pgsize: nat)
    requires DB_MIN_PGSIZE <= pgsize <= DB_MAX_PGSIZE
    ensures OvflSize(prot, pgsize) == Threshold(prot, pgsize) && 0 <= Threshold(prot, pgsize) < 0x4000
  {
    hide OvflSize;
    OvflSizeValue(prot, pgsize);
  }

  lemma SizeIsBytes(x: Item)
    ensures ItemSize(x) == Bytes(x)
  {
  }

  /**
   * What a key and what a data item take. One that is too long takes 14 bytes however it is inserted, and
   * of the others a key may take its index entry alone, and a data item a pointer's 14 bytes.
   */
  lemma NeedsAreBytes(prot: Protection, pgsize: nat, size: uint32, how: Insert)
    requires DB_MIN_PGSIZE <= pgsize <= DB_MAX_PGSIZE
    ensures how.Normal? || size > Threshold(prot, pgsize) ==>
              KeyNeed(prot, pgsize, size, how) == DataNeed(prot, pgsize, size, how) == OnPageBytes(prot, pgsize, size)
    ensures !how.Normal? && size <= Threshold(prot, pgsize) ==>
              && KeyNeed(prot, pgsize, size, how) == (if how.SlotOnly? then 2 else 0)
              && DataNeed(prot, pgsize, size, how) == (if how.BDuplicate? then 14 else 0)
  {
    hide OvflSize, KeyDataSpace, OverflowSpace, DbAlign, Pow2;
    ThresholdIsExact(prot, pgsize);
    SpaceValues();
    KeyDataSpaceValue(size);
  }

  // ---------- one group of a leaf page ----------

  /** The live items among the first n of a set that stays on the page: a key with the first item, 2 bytes with the others. */
  function StayingNeeds(prot: Protection, pgsize: nat, g: Group, n: nat): seq<nat>
    requires n <= |g.data|
  {
    if n == 0 then []
    else
      StayingNeeds(prot, pgsize, g, n - 1) +
      if g.data[n - 1].deleted then []
      else [(if n == 1 then OnPageBytes(prot, pgsize, Bytes(g.key)) else 2)
            + OnPageBytes(prot, pgsize, Bytes(g.data[n - 1]))]
  }

  /** A set that leaves the page, and a set that has left it already, differ in the pointer of 14 bytes. */
  function GroupNeeds(prot: Protection, pgsize: nat, g: Group): seq<nat>
    requires |g.data| >= 1
  {
    if |g.data| > 1 then
      if SetSpace(g) >= pgsize / 4 then [OnPageBytes(prot, pgsize, Bytes(g.key)) + 14]
      else StayingNeeds(prot, pgsize, g, |g.data|)
    else if g.data[0].kind.Duplicate? then [OnPageBytes(prot, pgsize, Bytes(g.key))]
    else [OnPageBytes(prot, pgsize, Bytes(g.key)) + OnPageBytes(prot, pgsize, Bytes(g.data[0]))]
  }

  lemma {:induction false} LeafNeedsConcat(prot: Protection, pgsize: nat, a: seq<Op>, b: seq<Op>)
    requires DB_MIN_PGSIZE <= pgsize <= DB_MAX_PGSIZE
    ensures LeafNeeds(prot, pgsize, a + b) == LeafNeeds(prot, pgsize, a) + LeafNeeds(prot, pgsize, b)
  {
    hide LeafNeed;
    if b == [] {
      assert a + b == a;
    } else {
      var n := |b| - 1;
      assert (a + b)[..|a + b| - 1] == a + b[..n];
      LeafNeedsConcat(prot, pgsize, a, b[..n]);
    }
  }

  lemma LeafNeedsOne(prot: Protection, pgsize: nat, op: Op)
    requires DB_MIN_PGSIZE <= pgsize <= DB_MAX_PGSIZE
    ensures LeafNeeds(prot, pgsize, [op]) == LeafNeed(prot, pgsize, op)
    ensures LeafNeeds(prot, pgsize, []) == []
  {
    hide LeafNeed;
    assert [op][..0] == [];
  }

  lemma PairTakes(prot: Protection, pgsize: nat, op: Op)
    requires DB_MIN_PGSIZE <= pgsize <= DB_MAX_PGSIZE && op.Pair?
    ensures 0 <= Threshold(prot, pgsize)
    ensures PairNeed(prot, pgsize, op) ==
            (if op.inKey.Normal? || op.keySize > Threshold(prot, pgsize) then OnPageBytes(prot, pgsize, op.keySize)
             else if op.inKey.SlotOnly? then 2 else 0) +
            (if op.inData.Normal? || op.dataSize > Threshold(prot, pgsize) then OnPageBytes(prot, pgsize, op.dataSize)
             else if op.inData.BDuplicate? then 14 else 0)
  {
    hide KeyNeed, DataNeed, OnPageBytes, OvflSize;
    NeedsAreBytes(prot, pgsize, op.keySize, op.inKey);
    NeedsAreBytes(prot, pgsize, op.dataSize, op.inData);
    ThresholdIsExact(prot, pgsize);
  }

  lemma ItemsArePositive(prot: Protection, pgsize: nat, size: nat)
    ensures OnPageBytes(prot, pgsize, size) > 0
  {
  }

  /** One item of a set that stays on the page. */
  lemma StayingItem(prot: Protection, pgsize: nat, g: Group, k: nat)
    requires DB_MIN_PGSIZE <= pgsize <= DB_MAX_PGSIZE && k < |g.data|
    ensures LeafNeeds(prot, pgsize, OnPageOp(g, k)) ==
            if g.data[k].deleted then []
            else [(if k == 0 then OnPageBytes(prot, pgsize, Bytes(g.key)) else 2)
                  + OnPageBytes(prot, pgsize, Bytes(g.data[k]))]
  {
    hide LeafNeeds, PairNeed, OnPageBytes, ItemSize, Bytes;
    SizeIsBytes(g.key);
    SizeIsBytes(g.data[k]);
    ItemsArePositive(prot, pgsize, Bytes(g.data[k]));
    if g.data[k].deleted {
      LeafNeedsOne(prot, pgsize, EndSet);
    } else {
      var op := OnPageOp(g, k)[0];
      LeafNeedsOne(prot, pgsize, op);
      PairTakes(prot, pgsize, op);
    }
  }

  lemma {:induction false} StayingPrefix(prot: Protection, pgsize: nat, g: Group, n: nat)
    requires DB_MIN_PGSIZE <= pgsize <= DB_MAX_PGSIZE && n <= |g.data|
    ensures LeafNeeds(prot, pgsize, SetPrefix(g, false, n)) == StayingNeeds(prot, pgsize, g, n)
  {
    hide LeafNeeds, OnPageOp, OnPageBytes, Bytes;
    if n == 0 {
      LeafNeedsOne(prot, pgsize, EndSet);
    } else {
      StayingPrefix(prot, pgsize, g, n - 1);
      StayingItem(prot, pgsize, g, n - 1);
      LeafNeedsConcat(prot, pgsize, SetPrefix(g, false, n - 1), OnPageOp(g, n - 1));
    }
  }

  lemma NoDupItems()
    ensures DupItems([]) == []
  {
  }

  lemma {:induction false} DupItemsTakeNoLeaf(prot: Protection, pgsize: nat, sizes: seq<uint32>)
    requires DB_MIN_PGSIZE <= pgsize <= DB_MAX_PGSIZE
    ensures LeafNeeds(prot, pgsize, DupItems(sizes) + [EndSet]) == LeafNeeds(prot, pgsize, DupItems(sizes)) == []
  {
    hide LeafNeeds;
    LeafNeedsConcat(prot, pgsize, DupItems(sizes), [EndSet]);
    LeafNeedsOne(prot, pgsize, EndSet);
    if sizes == [] {
      NoDupItems();
    } else {
      var front, last := sizes[..|sizes| - 1], sizes[|sizes| - 1];
      DupItemsTakeNoLeaf(prot, pgsize, front);
      FlatAppend(front, last, OneDupItem);
      assert sizes == front + [last];
      LeafNeedsConcat(prot, pgsize, DupItems(front), [DupItem(last)]);
      LeafNeedsOne(prot, pgsize, DupItem(last));
    }
  }

  /** A pair and then items for duplicate pages. */
  lemma OnlyThePair(prot: Protection, pgsize: nat, first: Op, sizes: seq<uint32>)
    requires DB_MIN_PGSIZE <= pgsize <= DB_MAX_PGSIZE && first.Pair?
    ensures LeafNeeds(prot, pgsize, [first] + DupItems(sizes) + [EndSet]) == LeafNeed(prot, pgsize, first)
  {
    hide LeafNeeds, DupItems, LeafNeed;
    DupItemsTakeNoLeaf(prot, pgsize, sizes);
    LeafNeedsOne(prot, pgsize, first);
    LeafNeedsConcat(prot, pgsize, [first], DupItems(sizes) + [EndSet]);
    assert [first] + DupItems(sizes) + [EndSet] == [first] + (DupItems(sizes) + [EndSet]);
    assert LeafNeed(prot, pgsize, first) + [] == LeafNeed(prot, pgsize, first);
  }

  /** The insertions of a group, as bytes on leaf pages. */
  lemma GroupTakes(prot: Protection, pgsize: nat, g: Group)
    requires DB_MIN_PGSIZE <= pgsize <= DB_MAX_PGSIZE && |g.data| >= 1
    ensures LeafNeeds(prot, pgsize, GroupOps(pgsize, g)) == GroupNeeds(prot, pgsize, g)
  {
    hide LeafNeeds, PairNeed, OnPageBytes, ItemSize, Bytes, SetPrefix, SetSpace, StayingNeeds, DupItems, Flat;
    SizeIsBytes(g.key);
    SizeIsBytes(g.data[0]);
    ItemsArePositive(prot, pgsize, Bytes(g.key));
    if !IsDupSet(g) {
      LeafNeedsOne(prot, pgsize, SingleOp(g));
      PairTakes(prot, pgsize, SingleOp(g));
    } else if GoesOffPage(SetSpace(g), pgsize) {
      var first := Pair(ItemSize(g.key), 0, Normal, BDuplicate);
      OffPagePrefix(g, |g.data|);
      assert g.data[..|g.data|] == g.data;
      OnlyThePair(prot, pgsize, first, Sizes(Live(g.data)));
      PairTakes(prot, pgsize, first);
    } else {
      StayingPrefix(prot, pgsize, g, |g.data|);
      assert SetOps(g, false) == SetPrefix(g, false, |g.data|);
    }
  }

  // ---------- off-page sets ----------

  /** The lengths of the live items. */
  function LiveBytes(items: seq<Item>): seq<uint32> {
    if items == [] then []
    else
      var last := items[|items| - 1];
      LiveBytes(items[..|items| - 1]) + if last.deleted then [] else [Bytes(last)]
  }

  lemma NoneIsCharged()
    ensures Sizes(Live([])) == []
  {
  }

  lemma {:induction false} LiveBytesAreSizes(items: seq<Item>)
    ensures Sizes(Live(items)) == LiveBytes(items)
  {
    hide ItemSize, Bytes;
    if items == [] {
      NoneIsCharged();
    } else {
      var front, last := items[..|items| - 1], items[|items| - 1];
      LiveBytesAreSizes(front);
      assert items == front + [last];
      SizeIsBytes(last);
      hide Flat;
      FlatAppend(front, last, IfLive);
      if last.deleted {
        assert Live(front) + [] == Live(front);
      } else {
        FlatAppend(Live(front), last, OneSize);
      }
    }
  }

  /** Data items on leaf pages under a key that is there already: each takes 2 bytes for the key's entry. */
  function SlotNeeds(prot: Protection, pgsize: nat, sizes: seq<uint32>): seq<nat> {
    if sizes == [] then []
    else SlotNeeds(prot, pgsize, sizes[..|sizes| - 1]) + [2 + OnPageBytes(prot, pgsize, sizes[|sizes| - 1])]
  }

  function RepeatNeeds(n: nat, needs: seq<nat>): seq<nat> {
    if n == 0 then [] else RepeatNeeds(n - 1, needs) + needs
  }

  /** Off the leaf pages a set has its pointer; on them it has the first page's items once for each of its pages. */
  function ChainNeeds(prot: Protection, pgsize: nat, chain: Chain): seq<nat> {
    if ChainSpace(chain) >= pgsize / 4 then [14]
    else RepeatNeeds(|chain|, SlotNeeds(prot, pgsize, LiveBytes(chain[0])))
  }

  lemma NoSlotPairs()
    ensures SlotPairs([]) == []
  {
  }

  lemma {:induction false} SlotPairsTake(prot: Protection, pgsize: nat, sizes: seq<uint32>)
    requires DB_MIN_PGSIZE <= pgsize <= DB_MAX_PGSIZE
    ensures LeafNeeds(prot, pgsize, SlotPairs(sizes)) == SlotNeeds(prot, pgsize, sizes)
  {
    hide LeafNeeds, PairNeed, OnPageBytes;
    if sizes == [] {
      NoSlotPairs();
      LeafNeedsOne(prot, pgsize, EndSet);
    } else {
      var front, last := sizes[..|sizes| - 1], sizes[|sizes| - 1];
      var op := Pair(0, last, SlotOnly, Normal);
      SlotPairsTake(prot, pgsize, front);
      FlatAppend(front, last, OneSlotPair);
      assert sizes == front + [last];
      LeafNeedsConcat(prot, pgsize, SlotPairs(front), [op]);
      LeafNeedsOne(prot, pgsize, op);
      PairTakes(prot, pgsize, op);
    }
  }

  lemma {:induction false} RepeatedTake(prot: Protection, pgsize: nat, n: nat, ops: seq<Op>)
    requires DB_MIN_PGSIZE <= pgsize <= DB_MAX_PGSIZE
    ensures LeafNeeds(prot, pgsize, Repeat(n, ops)) == RepeatNeeds(n, LeafNeeds(prot, pgsize, ops))
  {
    hide LeafNeeds;
    if n == 0 {
      LeafNeedsOne(prot, pgsize, EndSet);
    } else {
      RepeatedTake(prot, pgsize, n - 1, ops);
      LeafNeedsConcat(prot, pgsize, Repeat(n - 1, ops), ops);
    }
  }

  lemma ChainTakes(prot: Protection, pgsize: nat, chain: Chain)
    requires DB_MIN_PGSIZE <= pgsize <= DB_MAX_PGSIZE
    ensures LeafNeeds(prot, pgsize, ChainOps(chain, GoesOffPage(ChainSpace(chain), pgsize))) == ChainNeeds(prot, pgsize, chain)
  {
    hide LeafNeeds, PairNeed, OnPageBytes, ChainSpace, DupItems, SlotPairs, SlotNeeds, Repeat, RepeatNeeds, Copies;
    hide Sizes, Live, LiveBytes;
    var first := Sizes(Live(chain[0]));
    LiveBytesAreSizes(chain[0]);
    if GoesOffPage(ChainSpace(chain), pgsize) {
      var pointer := Pair(0, 0, Nothing, BDuplicate);
      RepeatedItems(|chain|, first);
      OnlyThePair(prot, pgsize, pointer, Copies(|chain|, first));
      PairTakes(prot, pgsize, pointer);
    } else {
      SlotPairsTake(prot, pgsize, first);
      RepeatedTake(prot, pgsize, |chain|, SlotPairs(first));
    }
  }

  // ---------- a whole traversal ----------

  function LeafPageNeeds(prot: Protection, pgsize: nat, page: seq<Slot>, indx: nat): seq<nat>
    requires IsLeaf(page) && indx % 2 == 0 && indx <= |page|
    decreases |page| - indx
  {
    if indx == |page| then []
    else GroupNeeds(prot, pgsize, GroupAt(page, indx)) + LeafPageNeeds(prot, pgsize, page, RunEnd(page, indx, indx))
  }

  function PageNeeds(prot: Protection, pgsize: nat, p: TreePage): seq<nat>
    requires Readable(p)
  {
    match p
    case Leaf(entries) => LeafPageNeeds(prot, pgsize, entries, 0)
    case FirstDup(chain) => ChainNeeds(prot, pgsize, chain)
    case LaterDup => []
    case NoRecords => []
    case Unknown => []
  }

  /** The length of every insertion on leaf pages, in the order of the traversal. */
  function TraversalNeeds(prot: Protection, pgsize: nat, pages: seq<TreePage>): seq<nat>
    requires forall k :: 0 <= k < |pages| ==> Readable(pages[k])
  {
    if pages == [] then []
    else TraversalNeeds(prot, pgsize, pages[..|pages| - 1]) + PageNeeds(prot, pgsize, pages[|pages| - 1])
  }

  lemma {:induction false} LeafPageTakes(prot: Protection, pgsize: nat, page: seq<Slot>, indx: nat)
    requires DB_MIN_PGSIZE <= pgsize <= DB_MAX_PGSIZE && IsLeaf(page) && indx % 2 == 0 && indx <= |page|
    ensures LeafNeeds(prot, pgsize, LeafOps(pgsize, page, indx)) == LeafPageNeeds(prot, pgsize, page, indx)
    decreases |page| - indx
  {
    hide LeafNeeds, GroupOps, GroupNeeds, GroupAt;
    if indx == |page| {
      LeafNeedsOne(prot, pgsize, EndSet);
    } else {
      var g, next := GroupAt(page, indx), RunEnd(page, indx, indx);
      GroupHasData(page, indx);
      GroupTakes(prot, pgsize, g);
      LeafPageTakes(prot, pgsize, page, next);
      LeafNeedsConcat(prot, pgsize, GroupOps(pgsize, g), LeafOps(pgsize, page, next));
    }
  }

  lemma {:induction false} TraversalTakes(prot: Protection, pgsize: nat, pages: seq<TreePage>)
    requires DB_MIN_PGSIZE <= pgsize <= DB_MAX_PGSIZE
    requires forall k :: 0 <= k < |pages| ==> Readable(pages[k])
    ensures LeafNeeds(prot, pgsize, TraversalOps(pgsize, pages)) == TraversalNeeds(prot, pgsize, pages)
  {
    hide LeafNeeds, LeafOps, ChainOps, ChainSpace, LeafPageNeeds, ChainNeeds;
    LeafNeedsOne(prot, pgsize, EndSet);
    if pages != [] {
      var front, last := pages[..|pages| - 1], pages[|pages| - 1];
      TraversalTakes(prot, pgsize, front);
      LeafNeedsConcat(prot, pgsize, TraversalOps(pgsize, front), PageOps(pgsize, last));
      match last
      case Leaf(entries) => LeafPageTakes(prot, pgsize, entries, 0);
      case FirstDup(chain) => ChainTakes(prot, pgsize, chain);
      case _ =>
    }
  }

  /**
   * The simulated leaf pages of a whole traversal are the next-fit packing of the lengths that its
   * records and sets have by the page layout.
   */
  lemma LeafPagesHoldTheRecords(prot: Protection, i: nat, pages: seq<TreePage>)
    requires i < NUM_PGSIZES && forall k :: 0 <= k < |pages| ==> Readable(pages[k])
    ensures DB_MIN_PGSIZE <= PageSize(i) <= DB_MAX_PGSIZE
    ensures Needs(prot, i, pages) == TraversalNeeds(prot, PageSize(i), pages)
    ensures Simulate(prot, i, pages).leaf == Pack(TraversalNeeds(prot, PageSize(i), pages), PageSize(i))
  {
    hide PageSize, LeafNeeds, Run, TraversalOps, TraversalNeeds;
    PageSizeInRange(i);
    TraversalTakes(prot, PageSize(i), pages);
    LeafIsPacked(prot, PageSize(i), TraversalOps(PageSize(i), pages));
  }

  /** The lengths of items on duplicate pages. */
  function ItemNeeds(prot: Protection, pgsize: nat, sizes: seq<uint32>): seq<nat> {
    if sizes == [] then []
    else ItemNeeds(prot, pgsize, sizes[..|sizes| - 1]) + [OnPageBytes(prot, pgsize, sizes[|sizes| - 1])]
  }

  /** So the duplicate pages of a set are the packing of its items' lengths. */
  lemma {:induction false} SetPagesHoldTheItems(prot: Protection, pgsize: nat, sizes: seq<uint32>)
    requires DB_MIN_PGSIZE <= pgsize <= DB_MAX_PGSIZE
    ensures DupNeeds(prot, pgsize, sizes) == ItemNeeds(prot, pgsize, sizes)
    ensures sizes != [] ==> SetPages(prot, pgsize, sizes) == Pages(Pack(ItemNeeds(prot, pgsize, sizes), pgsize))
  {
    hide DataNeed, OnPageBytes;
    if sizes != [] {
      SetPagesHoldTheItems(prot, pgsize, sizes[..|sizes| - 1]);
      NeedsAreBytes(prot, pgsize, sizes[|sizes| - 1], Normal);
    }
  }

  // ---------- sums ----------

  /** Bytes of items with their index entries. */
  function BytesOf(prot: Protection, pgsize: nat, sizes: seq<uint32>): nat {
    if sizes == [] then 0
    else BytesOf(prot, pgsize, sizes[..|sizes| - 1]) + OnPageBytes(prot, pgsize, sizes[|sizes| - 1])
  }

  lemma BytesOfOneMore(prot: Protection, pgsize: nat, sizes: seq<uint32>, size: uint32)
    ensures BytesOf(prot, pgsize, sizes + [size]) == BytesOf(prot, pgsize, sizes) + OnPageBytes(prot, pgsize, size)
  {
    hide OnPageBytes;
    assert (sizes + [size])[..|sizes|] == sizes;
  }

  lemma LiveBytesStep(items: seq<Item>, n: nat)
    requires n < |items|
    ensures LiveBytes(items[..n + 1]) == LiveBytes(items[..n]) + if items[n].deleted then [] else [Bytes(items[n])]
  {
    assert items[..n + 1][..n] == items[..n];
  }

  lemma NothingSums(prot: Protection, pgsize: nat)
    ensures LiveBytes([]) == [] && BytesOf(prot, pgsize, []) == 0 && Sum([]) == 0
  {
  }

  lemma {:induction false} StayingSum(prot: Protection, pgsize: nat, g: Group, n: nat)
    requires n <= |g.data|
    ensures Sum(StayingNeeds(prot, pgsize, g, n)) ==
            BytesOf(prot, pgsize, LiveBytes(g.data[..n])) + 2 * |LiveBytes(g.data[..n])|
            + if n > 0 && !g.data[0].deleted then OnPageBytes(prot, pgsize, Bytes(g.key)) - 2 else 0
  {
    hide OnPageBytes, Bytes, LiveBytes, BytesOf, Total;
    if n == 0 {
      assert g.data[..0] == [];
      NothingSums(prot, pgsize);
    } else {
      var before, sizes, x := StayingNeeds(prot, pgsize, g, n - 1), LiveBytes(g.data[..n - 1]), g.data[n - 1];
      StayingSum(prot, pgsize, g, n - 1);
      LiveBytesStep(g.data, n - 1);
      if x.deleted {
        assert before + [] == before && sizes + [] == sizes;
      } else {
        var need: nat := (if n == 1 then OnPageBytes(prot, pgsize, Bytes(g.key)) else 2) + OnPageBytes(prot, pgsize, Bytes(x));
        TotalAppend(before, need, Same);
        BytesOfOneMore(prot, pgsize, sizes, Bytes(x));
        if n == 1 { assert g.data[..0] == []; NothingSums(prot, pgsize); }
      }
    }
  }

  /**
   * The bytes of a group on leaf pages: those of its key and its one data item, of its key alone or
   * with a pointer of 14 bytes if its data is elsewhere, or those of its key and all live items with
   * 2 bytes for each live item but the first.
   */
  lemma GroupBytes(prot: Protection, pgsize: nat, g: Group)
    requires DB_MIN_PGSIZE <= pgsize <= DB_MAX_PGSIZE && |g.data| >= 1
    ensures var total, key := Sum(LeafNeeds(prot, pgsize, GroupOps(pgsize, g))), OnPageBytes(prot, pgsize, Bytes(g.key));
            var live := LiveBytes(g.data);
            if |g.data| == 1 && g.data[0].kind.Duplicate? then total == key
            else if |g.data| == 1 then total == key + OnPageBytes(prot, pgsize, Bytes(g.data[0]))
            else if SetSpace(g) >= pgsize / 4 then total == key + 14
            else total == BytesOf(prot, pgsize, live) + 2 * |live| + if g.data[0].deleted then 0 else key - 2
  {
    hide LeafNeeds, GroupOps, OnPageBytes, Bytes, SetSpace, StayingNeeds, LiveBytes, BytesOf, Total;
    GroupTakes(prot, pgsize, g);
    var needs := GroupNeeds(prot, pgsize, g);
    if |g.data| == 1 || SetSpace(g) >= pgsize / 4 {
      TotalOne(needs[0], Same);
      assert needs == [needs[0]];
    } else {
      StayingSum(prot, pgsize, g, |g.data|);
      assert g.data[..|g.data|] == g.data;
    }
  }

  lemma SpaceOfOne(prot: Protection, pgsize: nat, x: Item)
    requires DB_MIN_PGSIZE <= pgsize <= DB_MAX_PGSIZE && Bytes(x) <= Threshold(prot, pgsize)
    ensures ItemSpace(x) == OnPageBytes(prot, pgsize, Bytes(x))
  {
    hide KeyDataSpace, ItemSize, Bytes, Threshold, HeaderBytes, OvflSize, DbAlign, Pow2;
    ThresholdIsExact(prot, pgsize);
    SizeIsBytes(x);
    KeyDataSpaceValue(Bytes(x));
  }

  /** Items that stay on a page are what the space of a set counts. */
  lemma {:induction false} SpaceOfStaying(prot: Protection, pgsize: nat, items: seq<Item>)
    requires DB_MIN_PGSIZE <= pgsize <= DB_MAX_PGSIZE
    requires forall k :: 0 <= k < |items| ==> Bytes(items[k]) <= Threshold(prot, pgsize)
    ensures BytesOf(prot, pgsize, LiveBytes(items)) == Total(Live(items), ItemSpace)
  {
    hide ItemSpace, OnPageBytes, Bytes;
    if items == [] {
      NoneIsLive();
    } else {
      var front, last := items[..|items| - 1], items[|items| - 1];
      var sizes := LiveBytes(front);
      SpaceOfStaying(prot, pgsize, front);
      assert items == front + [last];
      SpaceOfOne(prot, pgsize, last);
      hide Flat, Total;
      FlatAppend(front, last, IfLive);
      if last.deleted {
        assert Live(front) + [] == Live(front) && sizes + [] == sizes;
      } else {
        TotalAppend(Live(front), last, ItemSpace);
        BytesOfOneMore(prot, pgsize, sizes, Bytes(last));
      }
    }
  }

  /** A set that stays whole on leaf pages takes its space, and 2 bytes for each live item but the first. */
  lemma StayingSetTakesItsSpace(prot: Protection, pgsize: nat, g: Group)
    requires DB_MIN_PGSIZE <= pgsize <= DB_MAX_PGSIZE && |g.data| > 1 && SetSpace(g) < pgsize / 4
    requires !g.data[0].deleted && Bytes(g.key) <= Threshold(prot, pgsize)
    requires forall k :: 0 <= k < |g.data| ==> Bytes(g.data[k]) <= Threshold(prot, pgsize)
    ensures Sum(LeafNeeds(prot, pgsize, GroupOps(pgsize, g))) == SetSpace(g) + 2 * (|Live(g.data)| - 1)
  {
    hide LeafNeeds, GroupOps, OnPageBytes, Bytes, ItemSpace, Total;
    GroupBytes(prot, pgsize, g);
    SpaceOfStaying(prot, pgsize, g.data);
    SpaceOfOne(prot, pgsize, g.key);
    LiveBytesAreSizes(g.data);
    SizesAreAsMany(Live(g.data));
  }

  /**
   * A set that is off the leaf pages and stays off them has its pointer counted once: its key on the
   * leaf page and its own pages together take what a set takes that goes off only now.
   */
  lemma PointerIsCountedOnce(prot: Protection, pgsize: nat, g: Group, chain: Chain)
    requires DB_MIN_PGSIZE <= pgsize <= DB_MAX_PGSIZE
    requires |g.data| == 1 && g.data[0].kind.Duplicate? && ChainSpace(chain) >= pgsize / 4
    ensures Sum(LeafNeeds(prot, pgsize, GroupOps(pgsize, g)))
            + Sum(LeafNeeds(prot, pgsize, ChainOps(chain, GoesOffPage(ChainSpace(chain), pgsize))))
            == OnPageBytes(prot, pgsize, Bytes(g.key)) + 14
  {
    hide LeafNeeds, GroupOps, ChainOps, OnPageBytes, ChainSpace;
    GroupBytes(prot, pgsize, g);
    ChainTakes(prot, pgsize, chain);
    TotalOne<nat>(14, Same);
  }

  // ---------- overflow pages ----------

  /** A long item on pages of its own, behind their headers of 26 bytes. */
  function LongPages(pgsize: nat, size: uint32): nat
    requires DB_MIN_PGSIZE <= pgsize
  {
    var usable: nat := pgsize - 26;
    size / usable + 1
  }

  /** The overflow pages of the items above the threshold. */
  function LongItemPages(prot: Protection, pgsize: nat, sizes: seq<uint32>): nat
    requires DB_MIN_PGSIZE <= pgsize
  {
    if sizes == [] then 0
    else
      var last := sizes[|sizes| - 1];
      LongItemPages(prot, pgsize, sizes[..|sizes| - 1]) +
      if last > Threshold(prot, pgsize) then LongPages(pgsize, last) else 0
  }

  lemma LongPagesSpill(pgsize: nat, size: uint32)
    requires DB_MIN_PGSIZE <= pgsize
    ensures LongPages(pgsize, size) == SpillPages(pgsize, size)
  {
  }

  lemma {:induction false} LongItemsOverflow(prot: Protection, pgsize: nat, sizes: seq<uint32>)
    requires DB_MIN_PGSIZE <= pgsize <= DB_MAX_PGSIZE
    ensures OvflTotal(prot, pgsize, sizes) == LongItemPages(prot, pgsize, sizes)
  {
    hide OvflSize, Threshold, LongPages, SpillPages;
    if sizes != [] {
      LongPagesSpill(pgsize, sizes[|sizes| - 1]);
      LongItemsOverflow(prot, pgsize, sizes[..|sizes| - 1]);
      ThresholdIsExact(prot, pgsize);
    }
  }

  lemma NothingSpilled(pgsize: nat)
    requires DB_MIN_PGSIZE <= pgsize
    ensures SpillTotal(pgsize, START.spilled) == 0
  {
  }

  /** The overflow pages of a whole traversal are those of the keys and data items above the threshold. */
  lemma OverflowPagesHoldTheLongItems(prot: Protection, i: nat, pages: seq<TreePage>)
    requires i < NUM_PGSIZES && forall k :: 0 <= k < |pages| ==> Readable(pages[k])
    ensures DB_MIN_PGSIZE <= PageSize(i) <= DB_MAX_PGSIZE
    ensures var ops := TraversalOps(PageSize(i), pages);
            SpillTotal(PageSize(i), Simulate(prot, i, pages).spilled)
            == LongItemPages(prot, PageSize(i), KeysCharged(ops)) + LongItemPages(prot, PageSize(i), DataCharged(ops))
  {
    hide PageSize, Run, TraversalOps, SpillTotal, OvflTotal, LongItemPages, KeysCharged, DataCharged, WellFormed;
    PageSizeInRange(i);
    var pgsize := PageSize(i);
    var ops := TraversalOps(pgsize, pages);
    TraversalShrinks(prot, pgsize, pgsize, pages);
    SpilledIsCharged(prot, pgsize, START, ops);
    LongItemsOverflow(prot, pgsize, KeysCharged(ops));
    LongItemsOverflow(prot, pgsize, DataCharged(ops));
    NothingSpilled(pgsize);
  }

  // ---------- storage ----------

  lemma OneMore(a: nat, n: nat)
    ensures a * (n + 1) == a * n + a
  {
  }

  lemma {:induction false} PagesHoldAtMost(pages: seq<nat>, pgsize: nat)
    requires SIZEOF_PAGE < pgsize && forall k :: 0 <= k < |pages| ==> pages[k] <= pgsize
    ensures Total(pages, Used) <= Usable(pgsize) * |pages|
  {
    if pages != [] {
      PagesHoldAtMost(pages[..|pages| - 1], pgsize);
      OneMore(Usable(pgsize), |pages| - 1);
    }
  }

  lemma LeafPagesHoldAtMost(prot: Protection, i: nat, pages: seq<TreePage>)
    requires i < NUM_PGSIZES && forall k :: 0 <= k < |pages| ==> Readable(pages[k])
    ensures DB_MIN_PGSIZE <= PageSize(i)
    ensures Sum(TraversalNeeds(prot, PageSize(i), pages)) <= (PageSize(i) - 26) * |LeafPages(Simulate(prot, i, pages))|
  {
    hide PageSize, Run, Total, Needs, TraversalOps, TraversalNeeds, LeafPages;
    PageSizeInRange(i);
    var result := LeafPages(Simulate(prot, i, pages));
    LeafPagesHoldTheRecords(prot, i, pages);
    if Needs(prot, i, pages) != [] {
      LeafPagesAreNearlyOptimal(prot, i, pages, []);
      PagesHoldAtMost(result, PageSize(i));
    } else {
      NothingSums(prot, PageSize(i));
    }
  }

  lemma {:induction false} SetsHoldAtMost(prot: Protection, pgsize: nat, sets: seq<seq<uint32>>)
    requires DB_MIN_PGSIZE <= pgsize <= DB_MAX_PGSIZE
    ensures BytesOfSets(prot, pgsize, sets) <= Usable(pgsize) * |PagesOfSets(prot, pgsize, sets)|
  {
    hide SetPages, DupNeeds, Total;
    if sets != [] {
      var front, last := sets[..|sets| - 1], sets[|sets| - 1];
      var pages := SetPages(prot, pgsize, last);
      SetsHoldAtMost(prot, pgsize, front);
      if last != [] {
        SetPagesAreNearlyOptimal(prot, pgsize, last, []);
        PagesHoldAtMost(pages, pgsize);
      } else {
        EmptySet(prot, pgsize);
      }
      assert Usable(pgsize) * (|PagesOfSets(prot, pgsize, front)| + |pages|)
          == Usable(pgsize) * |PagesOfSets(prot, pgsize, front)| + Usable(pgsize) * |pages|;
    }
  }

  /** The bytes of the items above the threshold. */
  function LongBytes(prot: Protection, pgsize: nat, sizes: seq<uint32>): nat {
    if sizes == [] then 0
    else
      var last := sizes[|sizes| - 1];
      LongBytes(prot, pgsize, sizes[..|sizes| - 1]) + if last > Threshold(prot, pgsize) then last else 0
  }

  lemma LongPagesHold(pgsize: nat, size: uint32)
    requires DB_MIN_PGSIZE <= pgsize
    ensures size < (pgsize - 26) * LongPages(pgsize, size)
  {
    var usable: nat := pgsize - 26;
    OneMore(usable, size / usable);
  }

  lemma {:induction false} LongItemsHoldAtMost(prot: Protection, pgsize: nat, sizes: seq<uint32>)
    requires DB_MIN_PGSIZE <= pgsize
    ensures LongBytes(prot, pgsize, sizes) <= (pgsize - 26) * LongItemPages(prot, pgsize, sizes)
  {
    hide LongPages, Threshold;
    if sizes != [] {
      var front, last := sizes[..|sizes| - 1], sizes[|sizes| - 1];
      LongItemsHoldAtMost(prot, pgsize, front);
      LongPagesHold(pgsize, last);
      assert (pgsize - 26) * (LongItemPages(prot, pgsize, front) + LongPages(pgsize, last))
          == (pgsize - 26) * LongItemPages(prot, pgsize, front) + (pgsize - 26) * LongPages(pgsize, last);
    }
  }

  lemma FourParts(a: int, b: nat, c: nat, d: nat, e: nat)
    ensures a * (b + c + d + e) == a * b + a * c + a * d + a * e
  {
  }

  /**
   * The pages counted at a size are the leaf pages, the duplicate pages and those of the long items, each
   * once, and behind their headers they have room for every byte that was inserted.
   */
  lemma StorageHoldsEverything(prot: Protection, i: nat, pages: seq<TreePage>)
    requires i < NUM_PGSIZES && forall k :: 0 <= k < |pages| ==> Readable(pages[k])
    ensures DB_MIN_PGSIZE <= PageSize(i) <= DB_MAX_PGSIZE
    ensures var pgsize := PageSize(i);
            var s, ops, sets := Simulate(prot, i, pages), TraversalOps(pgsize, pages), TraversalSets(pgsize, pages);
            var long := LongItemPages(prot, pgsize, KeysCharged(ops)) + LongItemPages(prot, pgsize, DataCharged(ops));
            && AllPagesOf(prot, i, pages) == |LeafPages(s)| + |PagesOfSets(prot, pgsize, sets)| + long
            && Sum(TraversalNeeds(prot, pgsize, pages)) + BytesOfSets(prot, pgsize, sets)
               + LongBytes(prot, pgsize, KeysCharged(ops)) + LongBytes(prot, pgsize, DataCharged(ops))
               <= (pgsize - 26) * AllPagesOf(prot, i, pages)
  {
    hide PageSize, Run, Total, TraversalOps, TraversalSets, TraversalNeeds, LeafPages, LongItemPages, LongBytes, KeysCharged,
         DataCharged, SpillTotal, BytesOfSets, PagesOfSets;
    PageSizeInRange(i);
    var pgsize := PageSize(i);
    var ops, sets := TraversalOps(pgsize, pages), TraversalSets(pgsize, pages);
    LeafPagesHoldAtMost(prot, i, pages);
    DupPagesAreOfTheSets(prot, i, pages);
    SetsHoldAtMost(prot, pgsize, sets);
    OverflowPagesHoldTheLongItems(prot, i, pages);
    LongItemsHoldAtMost(prot, pgsize, KeysCharged(ops));
    LongItemsHoldAtMost(prot, pgsize, DataCharged(ops));
    FourParts(pgsize - 26, |LeafPages(Simulate(prot, i, pages))|, |PagesOfSets(prot, pgsize, sets)|,
              LongItemPages(prot, pgsize, KeysCharged(ops)), LongItemPages(prot, pgsize, DataCharged(ops)));
  }

  lemma OnlyOneBucket(a: nat, b: nat, pgsize: nat, x: nat)
    requires a < b
    ensures !(x < (a + 1) * pgsize && b * pgsize <= x)
  {
    assert b * pgsize == (a + 1) * pgsize + (b - a - 1) * pgsize;
  }

  /** Of the pages of a long item all but one are full, and the last is counted by what it holds. */
  lemma LongPagesInBuckets(size: uint32, pgsize: nat, d: nat)
    requires DB_MIN_PGSIZE <= pgsize && d < DIST_DIVISION
    ensures var rest := size % (pgsize - 26) + 26;
            SpillShare(size, pgsize, d) ==
            if d == 10 then size / (pgsize - 26)
            else if d * pgsize <= 10 * rest < (d + 1) * pgsize then 1 else 0
  {
    hide Bucket;
    var rest: nat := size % Usable(pgsize) + SIZEOF_PAGE;
    BucketIsSharp(rest, pgsize);
    var b := Bucket(rest, pgsize);
    if b < d { OnlyOneBucket(b, d, pgsize, 10 * rest); }
    if d < b { OnlyOneBucket(d, b, pgsize, 10 * rest); }
  }
}
