/**
 * The page-size simulator: TUNER_FF_STAT and the functions that update it in place.
 *
 * Every simulated page size has its own row of counters and its own current fill levels. The ghost
 * field sims says which simulated database the counters of each row describe.
 */
module Tuners {
  import opened Sums
  import opened NextFit
  import opened Bits
  import opened TunerSpec
  import opened TunerFacts
  import opened TunerPacking
  import opened TunerRuns

  const EXIT_SUCCESS := 0
  const EXIT_FAILURE := 1
  const EXIT_DIST_OUTRANGE := -31000
  const EXIT_INSERT_ZERO_NEED := -31001
  const EXIT_INSERT_ZERO_ONPGDUP := -31002

  /** No page holds more than its size. */
  predicate SimOk(pgsize: nat, s: Sim) {
    && WithinPage(s.leaf.closed, pgsize) && s.leaf.offset <= pgsize
    && WithinPage(s.dup.closed, pgsize) && s.dup.offset <= pgsize
  }

  lemma CountAppend(pages: seq<nat>, x: nat, pgsize: nat, d: nat)
    requires pgsize > 0
    ensures Count(pages + [x], pgsize, d) == Count(pages, pgsize, d) + if Bucket(x, pgsize) == d then 1 else 0
  {
    assert (pages + [x])[..|pages|] == pages;
  }

  lemma SpillAppend(spilled: seq<uint32>, x: uint32, pgsize: nat, d: nat)
    requires SIZEOF_PAGE < pgsize
    ensures SpillCount(spilled + [x], pgsize, d) == SpillCount(spilled, pgsize, d) + SpillShare(x, pgsize, d)
  {
    assert (spilled + [x])[..|spilled|] == spilled;
  }

  lemma NoNeedNoSpill(prot: Protection, pgsize: nat, op: Op)
    requires DB_MIN_PGSIZE <= pgsize <= DB_MAX_PGSIZE && op.Pair? && PairNeed(prot, pgsize, op) == 0
    ensures Spill(prot, pgsize, op.keySize) == Spill(prot, pgsize, op.dataSize) == []
  {
    hide KeyDataSpace, OverflowSpace, OvflSize, DbAlign, Pow2;
    SpaceValues();
  }

  /** Insertions with a key, a slot, a data item or a pointer always take some bytes. */
  lemma PartsArePositive(prot: Protection, i: nat, keySize: uint32, dataSize: uint32)
    requires i < NUM_PGSIZES
    ensures DB_MIN_PGSIZE <= PageSize(i) <= DB_MAX_PGSIZE
    ensures KeyNeed(prot, PageSize(i), keySize, Normal) > 0 && KeyNeed(prot, PageSize(i), keySize, SlotOnly) > 0
    ensures DataNeed(prot, PageSize(i), dataSize, Normal) > 0 && DataNeed(prot, PageSize(i), 0, BDuplicate) > 0
  {
    hide PageSize, KeyNeed, DataNeed;
    PageSizeInRange(i);
    KeyIsAtMostQuarter(prot, PageSize(i), keySize, Normal);
    KeyIsAtMostQuarter(prot, PageSize(i), keySize, SlotOnly);
    DataIsAtMostQuarter(prot, PageSize(i), dataSize, Normal);
    DataIsAtMostQuarter(prot, PageSize(i), 0, BDuplicate);
  }

  lemma RunAtTwo(prot: Protection, i: nat, s: Sim, a: Op, b: Op)
    requires i < NUM_PGSIZES
    ensures RunAt(prot, i, s, [a] + [b]) == StepAt(prot, i, StepAt(prot, i, s, a), b)
  {
    RunAtConcat(prot, i, s, [a], [b]);
    RunAtOne(prot, i, s, a);
    RunAtOne(prot, i, StepAt(prot, i, s, a), b);
  }

  lemma SetSpaceIsPositive(g: Group)
    ensures SetSpace(g) > 0
  {
    hide Total, DbAlign, Pow2;
    Pow2Of64();
  }

  /** The insertions of the entries of one page of an off-page set. */
  function EntryOps(h: seq<Item>, isOpd: bool): seq<Op> {
    if isOpd then DupItems(Sizes(Live(h))) else SlotPairs(Sizes(Live(h)))
  }

  lemma EmptyLists()
    ensures forall isOpd :: EntryOps([], isOpd) == []
  {
  }

  lemma EntryOpsAppend(h: seq<Item>, x: Item, isOpd: bool)
    ensures EntryOps(h + [x], isOpd)
            == EntryOps(h, isOpd) + if x.deleted then []
                                    else [if isOpd then DupItem(ItemSize(x)) else Pair(0, ItemSize(x), SlotOnly, Normal)]
  {
    hide Flat, ItemSize;
    FlatAppend(h, x, IfLive);
    if x.deleted {
      assert Live(h) + [] == Live(h);
    } else {
      FlatAppend(Live(h), x, OneSize);
      FlatAppend(Sizes(Live(h)), ItemSize(x), OneDupItem);
      FlatAppend(Sizes(Live(h)), ItemSize(x), OneSlotPair);
    }
  }

  lemma ChainOpsParts(chain: Chain, isOpd: bool)
    ensures var body := Repeat(|chain|, EntryOps(chain[0], isOpd));
            ChainOps(chain, isOpd) == if isOpd then [Pair(0, 0, Nothing, BDuplicate)] + body + [EndSet] else body
  {
    hide Flat, Repeat;
  }

  lemma NoDataItems(page: seq<Slot>, from: nat)
    requires from <= |page| && from % 2 == 0
    ensures DataItems(page, from, from) == [] && Total(Live(DataItems(page, from, from)), ItemSpace) == 0
  {
  }

  lemma NextDataItem(page: seq<Slot>, from: nat, to: nat)
    requires from <= to && to + P_INDX <= |page| && from % 2 == 0 && to % 2 == 0
    ensures DataItems(page, from, to + P_INDX) == DataItems(page, from, to) + [page[to + O_INDX].item]
  {
  }

  lemma NextItemSpace(before: seq<Item>, x: Item)
    ensures Total(Live(before + [x]), ItemSpace)
            == Total(Live(before), ItemSpace) + if x.deleted then 0 else ItemSpace(x)
  {
    hide ItemSpace, Total, Flat;
    FlatAppend(before, x, IfLive);
    if x.deleted {
      assert Live(before) + [] == Live(before);
    } else {
      TotalAppend(Live(before), x, ItemSpace);
    }
  }

  lemma NoPagesNoSpace()
    ensures ChainSpace([]) == 0
  {
  }

  /** 32-bit sums of pages add up to the 32-bit sum of the chain. */
  lemma NextPageSpace(chain: seq<seq<Item>>, h: seq<Item>)
    ensures ChainSpace(chain + [h]) == (ChainSpace(chain) + Total(Live(h), ItemSpace) % UINT32_RANGE) % UINT32_RANGE
  {
    hide Total, Live, ItemSpace;
    assert (chain + [h])[..|chain|] == chain;
  }

  lemma NothingSimulated(prot: Protection, i: nat)
    requires i < NUM_PGSIZES
    ensures Simulate(prot, i, []) == START
  {
    hide PageSize;
    PageSizeInRange(i);
    RunNone(prot, PageSize(i), START);
  }

  lemma OneMoreSimulated(prot: Protection, i: nat, pages: seq<TreePage>, n: nat)
    requires i < NUM_PGSIZES && n < |pages| && forall k :: 0 <= k < |pages| ==> Readable(pages[k])
    ensures RunAt(prot, i, Simulate(prot, i, pages[..n]), PageOps(PageSize(i), pages[n]))
            == Simulate(prot, i, pages[..n + 1])
  {
    hide PageSize, PageOps, Run;
    PageSizeInRange(i);
    assert pages[..n + 1][..n] == pages[..n];
    RunConcat(prot, PageSize(i), START, TraversalOps(PageSize(i), pages[..n]), PageOps(PageSize(i), pages[n]));
  }

  class Tuner {
    const prot: Protection
    const leafDist: array2<nat>
    const ovflDist: array2<nat>
    const dupDist: array2<nat>
    const leafOffset: array<nat>
    const dupOffset: array<nat>
    ghost var sims: seq<Sim>

    ghost predicate Shape()
      reads this
    {
      && leafDist.Length0 == ovflDist.Length0 == dupDist.Length0 == NUM_PGSIZES
      && leafDist.Length1 == ovflDist.Length1 == dupDist.Length1 == DIST_DIVISION
      && leafOffset.Length == dupOffset.Length == NUM_PGSIZES && leafOffset != dupOffset
      && leafDist != ovflDist && leafDist != dupDist && ovflDist != dupDist
      && |sims| == NUM_PGSIZES
    }

    /** Row i counts the pages of the i-th simulated database, bucket by bucket. */
    ghost predicate Tied(i: nat)
      reads this, leafDist, ovflDist, dupDist, leafOffset, dupOffset
      requires Shape() && i < NUM_PGSIZES
    {
      PageSizeInRange(i);
      && leafOffset[i] == sims[i].leaf.offset && dupOffset[i] == sims[i].dup.offset
      && SimOk(PageSize(i), sims[i])
      && forall d :: 0 <= d < DIST_DIVISION ==>
           && leafDist[i, d] == Count(sims[i].leaf.closed, PageSize(i), d)
           && dupDist[i, d] == Count(sims[i].dup.closed, PageSize(i), d)
           && ovflDist[i, d] == SpillCount(sims[i].spilled, PageSize(i), d)
    }

    ghost predicate Valid()
      reads this, leafDist, ovflDist, dupDist, leafOffset, dupOffset
    {
      Shape() && forall i :: 0 <= i < NUM_PGSIZES ==> Tied(i)
    }

    /** memset of the statistics to zero */
    constructor (prot: Protection)
      ensures Valid() && this.prot == prot
      ensures forall i :: 0 <= i < NUM_PGSIZES ==> sims[i] == START
      ensures fresh(leafDist) && fresh(ovflDist) && fresh(dupDist) && fresh(leafOffset) && fresh(dupOffset)
    {
      hide Pow2, Bucket, SpillShare;
      this.prot := prot;
      leafDist := new nat[NUM_PGSIZES, DIST_DIVISION]((i, j) => 0);
      ovflDist := new nat[NUM_PGSIZES, DIST_DIVISION]((i, j) => 0);
      dupDist := new nat[NUM_PGSIZES, DIST_DIVISION]((i, j) => 0);
      leafOffset := new nat[NUM_PGSIZES](i => 0);
      dupOffset := new nat[NUM_PGSIZES](i => 0);
      sims := seq(NUM_PGSIZES, i => START);
    }

    // ---------- recording pages ----------

    /** __tuner_record_ovfl_pg: size / usable full pages and one page for the remainder. */
    method RecordOvflPg(size: uint32, i: nat) returns (ret: int)
      requires Valid() && i < NUM_PGSIZES
      modifies this`sims, ovflDist
      ensures Valid() && ret == EXIT_SUCCESS
      ensures sims == old(sims)[i := old(sims)[i].(spilled := old(sims)[i].spilled + [size])]
    {
      hide SpillCount, Count, Pow2;
      assert Tied(i);
      PageSizeInRange(i);
      var pgsize := PageSize(i);
      ghost var before := sims[i].spilled;
      SpillShares(size, pgsize);
      ovflDist[i, DIST_DIVISION - 1] := ovflDist[i, DIST_DIVISION - 1] + size / (pgsize - SIZEOF_PAGE);
      var rest := size % (pgsize - SIZEOF_PAGE);
      var dist := (rest + SIZEOF_PAGE) * (DIST_DIVISION - 1) / pgsize;
      if dist >= DIST_DIVISION {
        return EXIT_DIST_OUTRANGE;
      }
      ovflDist[i, dist] := ovflDist[i, dist] + 1;
      sims := sims[i := sims[i].(spilled := before + [size])];
      forall d | 0 <= d < DIST_DIVISION
        ensures SpillCount(before + [size], pgsize, d) == SpillCount(before, pgsize, d) + SpillShare(size, pgsize, d)
      {
        SpillAppend(before, size, pgsize, d);
      }
      forall k | 0 <= k < NUM_PGSIZES ensures Tied(k) {
        assert old(Tied(k));
      }
      return EXIT_SUCCESS;
    }

    /** __tuner_record_leaf_pg: the current leaf page joins the closed ones. */
    method RecordLeafPg(i: nat) returns (ret: int)
      requires Valid() && i < NUM_PGSIZES
      modifies this`sims, leafDist
      ensures Valid() && ret == EXIT_SUCCESS
      ensures var leaf := old(sims)[i].leaf;
              sims == old(sims)[i := old(sims)[i].(leaf := Bin(leaf.closed + [leaf.offset], leaf.offset))]
    {
      hide SpillCount, Count, Pow2;
      assert Tied(i);
      PageSizeInRange(i);
      var pgsize := PageSize(i);
      ghost var leaf := sims[i].leaf;
      BucketIsSharp(leaf.offset, pgsize);
      var dist := leafOffset[i] * (DIST_DIVISION - 1) / pgsize;
      if dist >= DIST_DIVISION {
        return EXIT_DIST_OUTRANGE;
      }
      leafDist[i, dist] := leafDist[i, dist] + 1;
      sims := sims[i := sims[i].(leaf := Bin(leaf.closed + [leaf.offset], leaf.offset))];
      forall d | 0 <= d < DIST_DIVISION
        ensures Count(leaf.closed + [leaf.offset], pgsize, d)
                == Count(leaf.closed, pgsize, d) + if dist == d then 1 else 0
      {
        CountAppend(leaf.closed, leaf.offset, pgsize, d);
      }
      forall k | 0 <= k < NUM_PGSIZES ensures Tied(k) {
        assert old(Tied(k));
      }
      return EXIT_SUCCESS;
    }

    /** __tuner_record_dup_pg: the current duplicate page joins the closed ones. */
    method RecordDupPg(i: nat) returns (ret: int)
      requires Valid() && i < NUM_PGSIZES
      modifies this`sims, dupDist
      ensures Valid() && ret == EXIT_SUCCESS
      ensures var dup := old(sims)[i].dup;
              sims == old(sims)[i := old(sims)[i].(dup := Bin(dup.closed + [dup.offset], dup.offset))]
    {
      hide SpillCount, Count, Pow2;
      assert Tied(i);
      PageSizeInRange(i);
      var pgsize := PageSize(i);
      ghost var dup := sims[i].dup;
      BucketIsSharp(dup.offset, pgsize);
      var dist := dupOffset[i] * (DIST_DIVISION - 1) / pgsize;
      if dist >= DIST_DIVISION {
        return EXIT_DIST_OUTRANGE;
      }
      dupDist[i, dist] := dupDist[i, dist] + 1;
      sims := sims[i := sims[i].(dup := Bin(dup.closed + [dup.offset], dup.offset))];
      forall d | 0 <= d < DIST_DIVISION
        ensures Count(dup.closed + [dup.offset], pgsize, d)
                == Count(dup.closed, pgsize, d) + if dist == d then 1 else 0
      {
        CountAppend(dup.closed, dup.offset, pgsize, d);
      }
      forall k | 0 <= k < NUM_PGSIZES ensures Tied(k) {
        assert old(Tied(k));
      }
      return EXIT_SUCCESS;
    }

    method SetDupOffset(i: nat, offset: nat)
      requires Valid() && i < NUM_PGSIZES && offset <= PageSize(i)
      modifies this`sims, dupOffset
      ensures Valid()
      ensures sims == old(sims)[i := old(sims)[i].(dup := Bin(old(sims)[i].dup.closed, offset))]
    {
      hide SpillCount, Count, Pow2;
      assert Tied(i);
      dupOffset[i] := offset;
      sims := sims[i := sims[i].(dup := Bin(sims[i].dup.closed, offset))];
      forall k | 0 <= k < NUM_PGSIZES ensures Tied(k) {
        assert old(Tied(k));
      }
    }

    /** __tuner_record_last_opd */
    method RecordLastOpd(i: nat) returns (ret: int)
      requires Valid() && i < NUM_PGSIZES
      modifies this`sims, dupDist, dupOffset
      ensures Valid() && ret == EXIT_SUCCESS
      ensures sims == old(sims)[i := StepAt(prot, i, old(sims)[i], EndSet)]
    {
      hide SpillCount, Count, Pow2;
      assert Tied(i);
      if dupOffset[i] != 0 {
        ret := RecordDupPg(i);
        if ret != EXIT_SUCCESS {
          return ret;
        }
      }
      SetDupOffset(i, 0);
      return EXIT_SUCCESS;
    }

    // ---------- insertions ----------

    /** The current leaf page of size i now ends at offset. */
    method SetLeafOffset(i: nat, offset: nat)
      requires Valid() && i < NUM_PGSIZES && offset <= PageSize(i)
      modifies this`sims, leafOffset
      ensures Valid()
      ensures sims == old(sims)[i := old(sims)[i].(leaf := Bin(old(sims)[i].leaf.closed, offset))]
    {
      hide SpillCount, Count, Pow2;
      assert Tied(i);
      leafOffset[i] := offset;
      sims := sims[i := sims[i].(leaf := Bin(sims[i].leaf.closed, offset))];
      forall k | 0 <= k < NUM_PGSIZES ensures Tied(k) {
        assert old(Tied(k));
      }
    }

    /** The key's part of __tuner_insert_kvpair: its bytes on the leaf page, or overflow pages. */
    method InsertKey(keySize: uint32, i: nat, inKey: Insert) returns (ret: int, needed: nat)
      requires Valid() && i < NUM_PGSIZES
      modifies this`sims, ovflDist
      ensures DB_MIN_PGSIZE <= PageSize(i) <= DB_MAX_PGSIZE
      ensures Valid() && ret == EXIT_SUCCESS && needed == KeyNeed(prot, PageSize(i), keySize, inKey)
      ensures sims == old(sims)[i := old(sims)[i].(spilled := old(sims)[i].spilled + Spill(prot, PageSize(i), keySize))]
    {
      hide Pow2, Tied, KeyDataSpace, OverflowSpace, OvflSize;
      PageSizeInRange(i);
      var pgsize := PageSize(i);
      ret, needed := EXIT_SUCCESS, 0;
      if keySize > OvflSize(prot, pgsize) {
        needed := OverflowSpace();
        ret := RecordOvflPg(keySize, i);
      } else {
        assert sims[i].spilled + [] == sims[i].spilled;
        assert sims[i := sims[i]] == sims;
        match inKey {
          case Nothing =>
          case SlotOnly => needed := INDX_SIZE;
          case Normal => needed := KeyDataSpace(keySize);
          case BDuplicate =>
        }
      }
    }

    /** The data item's part of __tuner_insert_kvpair. */
    method InsertData(dataSize: uint32, i: nat, inData: Insert) returns (ret: int, needed: nat)
      requires Valid() && i < NUM_PGSIZES
      modifies this`sims, ovflDist
      ensures DB_MIN_PGSIZE <= PageSize(i) <= DB_MAX_PGSIZE
      ensures Valid() && ret == EXIT_SUCCESS && needed == DataNeed(prot, PageSize(i), dataSize, inData)
      ensures sims == old(sims)[i := old(sims)[i].(spilled := old(sims)[i].spilled + Spill(prot, PageSize(i), dataSize))]
    {
      hide Pow2, Tied, KeyDataSpace, OverflowSpace, OvflSize;
      PageSizeInRange(i);
      var pgsize := PageSize(i);
      ret, needed := EXIT_SUCCESS, 0;
      if dataSize > OvflSize(prot, pgsize) {
        needed := OverflowSpace();
        ret := RecordOvflPg(dataSize, i);
      } else {
        assert sims[i].spilled + [] == sims[i].spilled;
        assert sims[i := sims[i]] == sims;
        match inData {
          case Nothing =>
          case BDuplicate => needed := OverflowSpace();
          case Normal => needed := KeyDataSpace(dataSize);
          case SlotOnly =>
        }
      }
    }

    lemma TiedOffsets(i: nat)
      requires Valid() && i < NUM_PGSIZES
      ensures leafOffset[i] == sims[i].leaf.offset && dupOffset[i] == sims[i].dup.offset
    {
      assert Tied(i);
    }

    /** The end of __tuner_insert_kvpair: put needed bytes on the current leaf page or on a new one. */
    method PlaceOnLeaf(needed: nat, i: nat)
      requires Valid() && i < NUM_PGSIZES && SIZEOF_PAGE + needed <= PageSize(i)
      modifies this`sims, leafDist, leafOffset
      ensures Valid()
      ensures sims == old(sims)[i := old(sims)[i].(leaf := Place(old(sims)[i].leaf, needed, PageSize(i)))]
    {
      assert Tied(i);
      hide Pow2, Tied;
      var pgsize := PageSize(i);
      if leafOffset[i] == 0 {
        SetLeafOffset(i, SIZEOF_PAGE);
      }
      TiedOffsets(i);
      if leafOffset[i] + needed > pgsize {
        var ret := RecordLeafPg(i);
        SetLeafOffset(i, needed + SIZEOF_PAGE);
      } else {
        SetLeafOffset(i, leafOffset[i] + needed);
      }
    }

    /** __tuner_insert_kvpair */
    method InsertKvpair(keySize: uint32, dataSize: uint32, i: nat, inKey: Insert, inData: Insert) returns (ret: int)
      requires Valid() && i < NUM_PGSIZES
      modifies this`sims, ovflDist, leafDist, leafOffset
      ensures DB_MIN_PGSIZE <= PageSize(i) <= DB_MAX_PGSIZE
      ensures Valid()
      ensures var op := Pair(keySize, dataSize, inKey, inData);
              && ret == (if PairNeed(prot, PageSize(i), op) == 0 then EXIT_INSERT_ZERO_NEED else EXIT_SUCCESS)
              && sims == old(sims)[i := StepAt(prot, i, old(sims)[i], op)]
    {
      hide PageSize, Tied, KeyNeed, DataNeed, Spill;
      PageSizeInRange(i);
      ghost var op := Pair(keySize, dataSize, inKey, inData);
      NeedIsAtMostHalf(prot, PageSize(i), op);
      if PairNeed(prot, PageSize(i), op) == 0 { NoNeedNoSpill(prot, PageSize(i), op); }
      var keyNeeded, dataNeeded;
      ret, keyNeeded := InsertKey(keySize, i, inKey);
      if ret != EXIT_SUCCESS {
        return ret;
      }
      ret, dataNeeded := InsertData(dataSize, i, inData);
      if ret != EXIT_SUCCESS {
        return ret;
      }
      var needed := keyNeeded + dataNeeded;
      if needed == 0 {
        assert old(sims)[i].spilled + [] + [] == old(sims)[i].spilled;
        assert old(sims)[i := old(sims)[i]] == old(sims);
        return EXIT_INSERT_ZERO_NEED;
      }
      PlaceOnLeaf(needed, i);
      return EXIT_SUCCESS;
    }

    /** The end of __tuner_insert_dupdata: put needed bytes on the current duplicate page or on a new one. */
    method PlaceOnDup(needed: nat, i: nat)
      requires Valid() && i < NUM_PGSIZES && SIZEOF_PAGE + needed <= PageSize(i)
      modifies this`sims, dupDist, dupOffset
      ensures Valid()
      ensures sims == old(sims)[i := old(sims)[i].(dup := Place(old(sims)[i].dup, needed, PageSize(i)))]
    {
      assert Tied(i);
      hide Pow2, Tied;
      var pgsize := PageSize(i);
      if dupOffset[i] == 0 {
        SetDupOffset(i, SIZEOF_PAGE);
      }
      TiedOffsets(i);
      if dupOffset[i] + needed > pgsize {
        var ret := RecordDupPg(i);
        SetDupOffset(i, needed + SIZEOF_PAGE);
      } else {
        SetDupOffset(i, dupOffset[i] + needed);
      }
    }

    /** __tuner_insert_dupdata */
    method InsertDupdata(dataSize: uint32, i: nat) returns (ret: int)
      requires Valid() && i < NUM_PGSIZES
      modifies this`sims, ovflDist, dupDist, dupOffset
      ensures Valid() && ret == EXIT_SUCCESS
      ensures sims == old(sims)[i := StepAt(prot, i, old(sims)[i], DupItem(dataSize))]
    {
      hide PageSize, Tied, DataNeed, Spill;
      PageSizeInRange(i);
      DataIsAtMostQuarter(prot, PageSize(i), dataSize, Normal);
      var needed;
      ret, needed := InsertData(dataSize, i, Normal);
      if ret != EXIT_SUCCESS {
        return ret;
      }
      if needed == 0 {
        return EXIT_INSERT_ZERO_NEED;
      }
      PlaceOnDup(needed, i);
      return EXIT_SUCCESS;
    }

    // ---------- leaf pages of the database ----------

    /** One turn of the loop of __tuner_leaf_dupdata_entries. */
    method LeafDupdataEntry(page: seq<Slot>, findx: nat, indx: nat, i: nat, isOpd: bool, ghost g: Group)
      returns (ret: int)
      requires Valid() && i < NUM_PGSIZES
      requires findx <= indx && indx + 1 < |page| && findx % 2 == indx % 2 == 0
      requires !page[findx].item.deleted && g.key == page[findx].item
      requires (indx - findx) / 2 < |g.data| && g.data[(indx - findx) / 2] == page[indx + O_INDX].item
      modifies this`sims, ovflDist, leafDist, leafOffset, dupDist, dupOffset
      ensures Valid() && ret == EXIT_SUCCESS
      ensures var k := (indx - findx) / 2;
              sims == old(sims)[i :=
                RunAt(prot, i, old(sims)[i], if isOpd then OffPageOp(g, k) else OnPageOp(g, k))]
    {
      hide PageSize, Tied, KeyNeed, DataNeed, Step, Run, ItemSize;
      ghost var s0 := sims[i];
      var keySize, inKey := 0, SlotOnly;
      PartsArePositive(prot, i, ItemSize(page[indx].item), ItemSize(page[indx + O_INDX].item));
      PartsArePositive(prot, i, 0, ItemSize(page[indx + O_INDX].item));
      RunAtOne(prot, i, s0, EndSet);
      if indx == findx {
        keySize, inKey := ItemSize(page[indx].item), Normal;
        if isOpd {
          ret := InsertKvpair(keySize, 0, i, Normal, BDuplicate);
          RunAtOne(prot, i, s0, Pair(keySize, 0, Normal, BDuplicate));
          if ret != EXIT_SUCCESS {
            return ret;
          }
        }
      }
      ret := EXIT_SUCCESS;
      ghost var d := ItemSize(page[indx + O_INDX].item);
      assert [Pair(keySize, 0, Normal, BDuplicate)] + [] == [Pair(keySize, 0, Normal, BDuplicate)];
      assert [] + [DupItem(d)] == [DupItem(d)];
      assert !isOpd || indx != findx ==> sims[i := s0] == sims;
      if !page[indx + O_INDX].item.deleted {
        var dataSize := ItemSize(page[indx + O_INDX].item);
        if isOpd {
          ret := InsertDupdata(dataSize, i);
          RunAtOne(prot, i, s0, DupItem(dataSize));
          RunAtTwo(prot, i, s0, Pair(keySize, 0, Normal, BDuplicate), DupItem(dataSize));
        } else {
          ret := InsertKvpair(keySize, dataSize, i, inKey, Normal);
          RunAtOne(prot, i, s0, Pair(keySize, dataSize, inKey, Normal));
        }
      }
    }

    /** __tuner_leaf_dupdata_entries */
    method LeafDupdataEntries(page: seq<Slot>, findx: nat, lindx: nat, i: nat, isOpd: bool) returns (ret: int)
      requires Valid() && i < NUM_PGSIZES
      requires IsLeaf(page) && findx % 2 == 0 && findx < |page| && lindx == RunEnd(page, findx, findx)
      requires !page[findx].item.deleted
      modifies this`sims, ovflDist, leafDist, leafOffset, dupDist, dupOffset
      ensures Valid() && ret == EXIT_SUCCESS
      ensures var g := GroupAt(page, findx);
              sims == old(sims)[i := RunAt(prot, i, old(sims)[i], SetPrefix(g, isOpd, |g.data|))]
    {
      hide PageSize, Tied, RunAt, RunEnd, DataItems, OffPageOp, OnPageOp;
      ghost var g, s0 := GroupAt(page, findx), sims[i];
      var indx := findx;
      RunAtOne(prot, i, s0, EndSet);
      assert sims[i := s0] == sims;
      while indx < lindx
        invariant findx <= indx <= lindx && indx % 2 == 0
        invariant Valid()
        invariant sims == old(sims)[i := RunAt(prot, i, s0, SetPrefix(g, isOpd, (indx - findx) / 2))]
      {
        ghost var k := (indx - findx) / 2;
        DataItemAt(page, findx, lindx, k);
        ret := LeafDupdataEntry(page, findx, indx, i, isOpd, g);
        if ret != EXIT_SUCCESS {
          return ret;
        }
        RunAtConcat(prot, i, s0, SetPrefix(g, isOpd, k), if isOpd then OffPageOp(g, k) else OnPageOp(g, k));
        indx := indx + P_INDX;
      }
      return EXIT_SUCCESS;
    }

    /** __tuner_leaf_dupdata */
    method LeafDupdata(page: seq<Slot>, findx: nat, lindx: nat, dupSize: uint32) returns (ret: int)
      requires Valid()
      requires IsLeaf(page) && findx % 2 == 0 && findx < |page| && lindx == RunEnd(page, findx, findx)
      requires !page[findx].item.deleted && dupSize == SetSpace(GroupAt(page, findx))
      modifies this`sims, ovflDist, leafDist, leafOffset, dupDist, dupOffset
      ensures Valid() && ret == EXIT_SUCCESS
      ensures var g := GroupAt(page, findx);
              forall k :: 0 <= k < NUM_PGSIZES ==>
                sims[k] == RunAt(prot, k, old(sims)[k], SetOps(g, GoesOffPage(dupSize, PageSize(k))))
    {
      hide PageSize, Tied, RunAt, RunEnd, DataItems, SetPrefix, SetSpace;
      ghost var g := GroupAt(page, findx);
      for i := 0 to NUM_PGSIZES
        invariant Valid()
        invariant forall k :: 0 <= k < i ==>
                    sims[k] == RunAt(prot, k, old(sims)[k], SetOps(g, GoesOffPage(dupSize, PageSize(k))))
        invariant forall k :: i <= k < NUM_PGSIZES ==> sims[k] == old(sims)[k]
      {
        var pgsize := PageSize(i);
        var isOpd := if dupSize < pgsize / 4 then false else true;
        ret := LeafDupdataEntries(page, findx, lindx, i, isOpd);
        if ret != EXIT_SUCCESS {
          return ret;
        }
        ghost var body := SetPrefix(g, isOpd, |g.data|);
        if isOpd {
          ret := RecordLastOpd(i);
          RunAtOne(prot, i, RunAt(prot, i, old(sims)[i], body), EndSet);
          RunAtConcat(prot, i, old(sims)[i], body, [EndSet]);
          if ret != EXIT_SUCCESS {
            return ret;
          }
        } else {
          assert body + [] == body;
        }
      }
      return EXIT_SUCCESS;
    }

    /** The inner loop of __tuner_leaf_page: where a set ends, and how much space it takes. */
    method SumDupSet(page: seq<Slot>, findx: nat) returns (lindx: nat, space: uint32)
      requires IsLeaf(page) && findx % 2 == 0 && findx < |page|
      ensures lindx == RunEnd(page, findx, findx) && space == SetSpace(GroupAt(page, findx))
    {
      hide ItemSpace, Total, Live, DataItems;
      SpaceIsBounded(page[findx].item);
      space := ItemSpace(page[findx].item);
      var indx := findx;
      NoDataItems(page, findx);
      while indx < |page| && page[findx].off == page[indx].off
        invariant findx <= indx <= |page| && indx % 2 == 0
        invariant RunEnd(page, findx, indx) == RunEnd(page, findx, findx)
        invariant space == ItemSpace(page[findx].item) + Total(Live(DataItems(page, findx, indx)), ItemSpace)
      {
        var x := page[indx + O_INDX].item;
        ghost var before := DataItems(page, findx, indx);
        NextDataItem(page, findx, indx);
        NextItemSpace(before, x);
        TotalSpaceIsBounded(before);
        SpaceIsBounded(x);
        if !x.deleted {
          space := (space + ItemSpace(x)) % UINT32_RANGE;
        }
        indx := indx + P_INDX;
      }
      lindx := indx;
    }

    /** A key with one data item, in __tuner_leaf_page. */
    method LeafSingle(page: seq<Slot>, indx: nat) returns (ret: int)
      requires Valid()
      requires IsLeaf(page) && indx % 2 == 0 && indx < |page| && !IsDupSet(GroupAt(page, indx))
      modifies this`sims, ovflDist, leafDist, leafOffset
      ensures Valid() && ret == EXIT_SUCCESS
      ensures forall k :: 0 <= k < NUM_PGSIZES ==>
                sims[k] == RunAt(prot, k, old(sims)[k], [SingleOp(GroupAt(page, indx))])
    {
      hide PageSize, Tied, RunAt, RunEnd, DataItems, KeyNeed, DataNeed, ItemSize;
      ghost var op := SingleOp(GroupAt(page, indx));
      DupTest(page, indx);
      var keySize, inData, dataSize := ItemSize(page[indx].item), Normal, 0;
      if page[indx + O_INDX].item.kind.Duplicate? {
        inData := Nothing;
      } else {
        dataSize := ItemSize(page[indx + O_INDX].item);
      }
      ret := EXIT_SUCCESS;
      for i := 0 to NUM_PGSIZES
        invariant Valid() && ret == EXIT_SUCCESS
        invariant forall k :: 0 <= k < i ==> sims[k] == RunAt(prot, k, old(sims)[k], [op])
        invariant forall k :: i <= k < NUM_PGSIZES ==> sims[k] == old(sims)[k]
      {
        PartsArePositive(prot, i, keySize, dataSize);
        RunAtOne(prot, i, sims[i], op);
        ret := InsertKvpair(keySize, dataSize, i, Normal, inData);
        if ret != EXIT_SUCCESS {
          break;
        }
      }
    }

    /** One turn of the scan of __tuner_leaf_page, which is not stuck. */
    method LeafGroup(page: seq<Slot>, indx: nat) returns (ret: int, next: nat)
      requires Valid()
      requires IsLeaf(page) && indx % 2 == 0 && indx < |page| && !Stuck(GroupAt(page, indx))
      modifies this`sims, ovflDist, leafDist, leafOffset, dupDist, dupOffset
      ensures Valid() && ret == EXIT_SUCCESS && next == RunEnd(page, indx, indx)
      ensures forall k :: 0 <= k < NUM_PGSIZES ==>
                sims[k] == RunAt(prot, k, old(sims)[k], GroupOps(PageSize(k), GroupAt(page, indx)))
    {
      hide PageSize, Tied, RunAt, RunEnd, DataItems, SetOps, SetSpace, SingleOp;
      DupTest(page, indx);
      if indx + P_INDX < |page| && page[indx].off == page[indx + P_INDX].off {
        var space;
        next, space := SumDupSet(page, indx);
        SetSpaceIsPositive(GroupAt(page, indx));
        if space == 0 {
          return EXIT_INSERT_ZERO_ONPGDUP, next;
        }
        ret := LeafDupdata(page, indx, next, space);
      } else {
        ret := LeafSingle(page, indx);
        next := indx + P_INDX;
      }
    }

    /** __tuner_leaf_page: it ends because no group of the page stops the scan. */
    method LeafPage(page: seq<Slot>) returns (ret: int)
      requires Valid() && IsLeaf(page) && Scannable(page, 0)
      modifies this`sims, ovflDist, leafDist, leafOffset, dupDist, dupOffset
      ensures Valid() && ret == EXIT_SUCCESS
      ensures forall k :: 0 <= k < NUM_PGSIZES ==>
                sims[k] == RunAt(prot, k, old(sims)[k], LeafOps(PageSize(k), page, 0))
    {
      hide PageSize, Tied, RunAt, RunEnd, DataItems, GroupOps;
      ret := EXIT_SUCCESS;
      var indx := 0;
      while indx < |page|
        invariant indx <= |page| && indx % 2 == 0 && Scannable(page, indx)
        invariant Valid() && ret == EXIT_SUCCESS
        invariant forall k :: 0 <= k < NUM_PGSIZES ==>
                    RunAt(prot, k, sims[k], LeafOps(PageSize(k), page, indx))
                    == RunAt(prot, k, old(sims)[k], LeafOps(PageSize(k), page, 0))
      {
        ghost var start, from := sims, indx;
        ret, indx := LeafGroup(page, indx);
        if ret != EXIT_SUCCESS {
          return ret;
        }
        forall k | 0 <= k < NUM_PGSIZES
          ensures RunAt(prot, k, sims[k], LeafOps(PageSize(k), page, indx))
                  == RunAt(prot, k, start[k], LeafOps(PageSize(k), page, from))
        {
          RunAtConcat(prot, k, start[k], GroupOps(PageSize(k), GroupAt(page, from)), LeafOps(PageSize(k), page, indx));
        }
      }
      forall k | 0 <= k < NUM_PGSIZES ensures RunAt(prot, k, sims[k], LeafOps(PageSize(k), page, indx)) == sims[k] {
        RunAtOne(prot, k, sims[k], EndSet);
      }
    }

    // ---------- off-page duplicate sets ----------

    /** __tuner_opd_data_entries */
    method OpdDataEntries(h: seq<Item>, i: nat, isOpd: bool) returns (ret: int)
      requires Valid() && i < NUM_PGSIZES
      modifies this`sims, ovflDist, leafDist, leafOffset, dupDist, dupOffset
      ensures Valid() && ret == EXIT_SUCCESS
      ensures sims == old(sims)[i := RunAt(prot, i, old(sims)[i], EntryOps(h, isOpd))]
    {
      hide PageSize, Tied, RunAt, KeyNeed, DataNeed, ItemSize, EntryOps;
      ghost var s0 := sims[i];
      RunAtOne(prot, i, s0, EndSet);
      assert sims[i := s0] == sims;
      EmptyLists();
      for indx := 0 to |h|
        invariant Valid()
        invariant sims == old(sims)[i := RunAt(prot, i, s0, EntryOps(h[..indx], isOpd))]
      {
        ghost var before, x := h[..indx], h[indx];
        assert h[..indx + 1] == before + [x];
        EntryOpsAppend(before, x, isOpd);
        if !h[indx].deleted {
          var dataSize := ItemSize(h[indx]);
          ghost var op := if isOpd then DupItem(dataSize) else Pair(0, dataSize, SlotOnly, Normal);
          RunAtConcat(prot, i, s0, EntryOps(before, isOpd), [op]);
          RunAtOne(prot, i, RunAt(prot, i, s0, EntryOps(before, isOpd)), op);
          if isOpd {
            ret := InsertDupdata(dataSize, i);
          } else {
            PartsArePositive(prot, i, 0, dataSize);
            ret := InsertKvpair(0, dataSize, i, SlotOnly, Normal);
          }
          if ret != EXIT_SUCCESS {
            return ret;
          }
        } else {
          assert EntryOps(before, isOpd) + [] == EntryOps(before, isOpd);
        }
      }
      assert h[..|h|] == h;
      return EXIT_SUCCESS;
    }

    /** The loop of __tuner_opd_data over the chain, which inserts the first page each time. */
    method OpdPages(chain: Chain, i: nat, isOpd: bool) returns (ret: int)
      requires Valid() && i < NUM_PGSIZES
      modifies this`sims, ovflDist, leafDist, leafOffset, dupDist, dupOffset
      ensures Valid() && ret == EXIT_SUCCESS
      ensures sims == old(sims)[i := RunAt(prot, i, old(sims)[i], Repeat(|chain|, EntryOps(chain[0], isOpd)))]
    {
      hide PageSize, Tied, RunAt, EntryOps;
      ghost var s0, body := sims[i], EntryOps(chain[0], isOpd);
      RunAtOne(prot, i, s0, EndSet);
      assert sims[i := s0] == sims;
      var p := 0;
      while true
        invariant 0 <= p < |chain|
        invariant Valid()
        invariant sims == old(sims)[i := RunAt(prot, i, s0, Repeat(p, body))]
        decreases |chain| - p
      {
        ret := OpdDataEntries(chain[0], i, isOpd);
        if ret != EXIT_SUCCESS {
          return ret;
        }
        RunAtConcat(prot, i, s0, Repeat(p, body), body);
        if p + 1 == |chain| {
          break;
        }
        p := p + 1;
      }
    }

    /** __tuner_opd_data */
    method OpdData(chain: Chain, i: nat, isOpd: bool) returns (ret: int)
      requires Valid() && i < NUM_PGSIZES
      modifies this`sims, ovflDist, leafDist, leafOffset, dupDist, dupOffset
      ensures Valid() && ret == EXIT_SUCCESS
      ensures sims == old(sims)[i := RunAt(prot, i, old(sims)[i], ChainOps(chain, isOpd))]
    {
      hide PageSize, Tied, RunAt, KeyNeed, DataNeed, ChainOps, EntryOps, Repeat, StepAt;
      ghost var s0, body := sims[i], Repeat(|chain|, EntryOps(chain[0], isOpd));
      ghost var pointer := Pair(0, 0, Nothing, BDuplicate);
      ChainOpsParts(chain, isOpd);
      if isOpd {
        PartsArePositive(prot, i, 0, 0);
        RunAtOne(prot, i, s0, pointer);
        ret := InsertKvpair(0, 0, i, Nothing, BDuplicate);
        if ret != EXIT_SUCCESS {
          return ret;
        }
      }
      ret := OpdPages(chain, i, isOpd);
      if ret != EXIT_SUCCESS {
        return ret;
      }
      if isOpd {
        ret := RecordLastOpd(i);
        RunAtConcat(prot, i, s0, [pointer], body);
        RunAtConcat(prot, i, s0, [pointer] + body, [EndSet]);
        RunAtOne(prot, i, RunAt(prot, i, s0, [pointer] + body), EndSet);
        if ret != EXIT_SUCCESS {
          return ret;
        }
      }
      return EXIT_SUCCESS;
    }

    /** sum_opd_page_data_entries */
    method SumOpdPageDataEntries(h: seq<Item>) returns (space: uint32)
      ensures space == Total(Live(h), ItemSpace) % UINT32_RANGE
    {
      hide ItemSpace, Total, Live;
      NoneIsLive();
      space := 0;
      for k := 0 to |h|
        invariant space == Total(Live(h[..k]), ItemSpace) % UINT32_RANGE
      {
        assert h[..k + 1] == h[..k] + [h[k]];
        NextItemSpace(h[..k], h[k]);
        if !h[k].deleted {
          space := (space + ItemSpace(h[k])) % UINT32_RANGE;
        }
      }
      assert h[..|h|] == h;
    }

    /** get_opd_size: here every page of the chain is read. */
    method GetOpdSize(chain: Chain) returns (space: uint32)
      ensures space == ChainSpace(chain)
    {
      hide ChainSpace;
      NoPagesNoSpace();
      space := 0;
      for p := 0 to |chain|
        invariant space == ChainSpace(chain[..p])
      {
        NextPageSpace(chain[..p], chain[p]);
        assert chain[..p + 1] == chain[..p] + [chain[p]];
        var pageSpace := SumOpdPageDataEntries(chain[p]);
        space := (space + pageSpace) % UINT32_RANGE;
      }
      assert chain[..|chain|] == chain;
    }

    /** __tuner_opd_page */
    method OpdPage(chain: Chain) returns (ret: int)
      requires Valid()
      modifies this`sims, ovflDist, leafDist, leafOffset, dupDist, dupOffset
      ensures Valid() && ret == EXIT_SUCCESS
      ensures forall k :: 0 <= k < NUM_PGSIZES ==>
                sims[k] == RunAt(prot, k, old(sims)[k],
                                 ChainOps(chain, GoesOffPage(ChainSpace(chain), PageSize(k))))
    {
      hide PageSize, Tied, RunAt, ChainOps, ChainSpace;
      var space := GetOpdSize(chain);
      ret := EXIT_SUCCESS;
      for i := 0 to NUM_PGSIZES
        invariant Valid() && ret == EXIT_SUCCESS
        invariant forall k :: 0 <= k < i ==>
                    sims[k] == RunAt(prot, k, old(sims)[k],
                                     ChainOps(chain, GoesOffPage(ChainSpace(chain), PageSize(k))))
        invariant forall k :: i <= k < NUM_PGSIZES ==> sims[k] == old(sims)[k]
      {
        var pgsize := PageSize(i);
        var isOpd := if space < pgsize / 4 then false else true;
        ret := OpdData(chain, i, isOpd);
        if ret != EXIT_SUCCESS {
          break;
        }
      }
    }

    // ---------- whole traversals ----------

    /** __tuner_ff_stat_callback */
    method Callback(p: TreePage) returns (ret: int)
      requires Valid() && Readable(p)
      modifies this`sims, ovflDist, leafDist, leafOffset, dupDist, dupOffset
      ensures Valid() && ret == (if p.Unknown? then EXIT_FAILURE else EXIT_SUCCESS)
      ensures forall k :: 0 <= k < NUM_PGSIZES ==>
                sims[k] == RunAt(prot, k, old(sims)[k], PageOps(PageSize(k), p))
    {
      hide PageSize, Tied, RunAt, LeafOps, ChainOps, ChainSpace;
      ret := EXIT_SUCCESS;
      match p {
        case Leaf(entries) => ret := LeafPage(entries);
        case FirstDup(chain) => ret := OpdPage(chain);
        case LaterDup =>
        case NoRecords =>
        case Unknown => ret := EXIT_FAILURE;
      }
      forall k | 0 <= k < NUM_PGSIZES ensures RunAt(prot, k, old(sims)[k], []) == old(sims)[k] {
        RunAtOne(prot, k, old(sims)[k], EndSet);
      }
    }

    /** The last simulated pages of one size. */
    method FlushSize(i: nat) returns (ret: int)
      requires Valid() && i < NUM_PGSIZES
      modifies this`sims, leafDist, dupDist
      ensures Valid() && ret == EXIT_SUCCESS
      ensures sims == old(sims)[i := Flush(old(sims)[i])]
    {
      hide Tied, PageSize;
      ret := EXIT_SUCCESS;
      TiedOffsets(i);
      if leafOffset[i] > 0 {
        ret := RecordLeafPg(i);
      }
      if ret == EXIT_SUCCESS {
        TiedOffsets(i);
        if dupOffset[i] > 0 {
          ret := RecordDupPg(i);
        }
      }
    }

    /** __tuner_generate_fillfactor_stats: all pages, then the last page of every simulated size. */
    method Generate(pages: seq<TreePage>) returns (ret: int)
      requires Valid() && forall k :: 0 <= k < |pages| ==> Readable(pages[k])
      requires forall k :: 0 <= k < NUM_PGSIZES ==> sims[k] == START
      modifies this`sims, ovflDist, leafDist, leafOffset, dupDist, dupOffset
      ensures Valid()
      ensures ret == if (exists k :: 0 <= k < |pages| && pages[k].Unknown?) then EXIT_FAILURE else EXIT_SUCCESS
      ensures ret == EXIT_SUCCESS ==>
                forall k :: 0 <= k < NUM_PGSIZES ==> sims[k] == Flush(Simulate(prot, k, pages))
    {
      hide PageSize, Tied, RunAt, PageOps, Simulate, Flush;
      ret := EXIT_SUCCESS;
      forall k | 0 <= k < NUM_PGSIZES ensures sims[k] == Simulate(prot, k, pages[..0]) {
        NothingSimulated(prot, k);
      }
      for n := 0 to |pages|
        invariant Valid() && ret == EXIT_SUCCESS
        invariant forall k :: 0 <= k < n ==> !pages[k].Unknown?
        invariant forall k :: 0 <= k < NUM_PGSIZES ==> sims[k] == Simulate(prot, k, pages[..n])
      {
        ret := Callback(pages[n]);
        if ret != EXIT_SUCCESS {
          return ret;
        }
        forall k | 0 <= k < NUM_PGSIZES ensures sims[k] == Simulate(prot, k, pages[..n + 1]) {
          OneMoreSimulated(prot, k, pages, n);
        }
      }
      assert pages[..|pages|] == pages;
      for i := 0 to NUM_PGSIZES
        invariant Valid() && ret == EXIT_SUCCESS
        invariant forall k :: 0 <= k < i ==> sims[k] == Flush(Simulate(prot, k, pages))
        invariant forall k :: i <= k < NUM_PGSIZES ==> sims[k] == Simulate(prot, k, pages)
      {
        ret := FlushSize(i);
        if ret != EXIT_SUCCESS {
          break;
        }
      }
    }

    // ---------- totals ----------

    /** One row of counters, added up. */
    method RowTotals(i: nat) returns (ovfl: nat, leaf: nat, dup: nat)
      requires Valid() && i < NUM_PGSIZES
      ensures DB_MIN_PGSIZE <= PageSize(i)
      ensures ovfl == SpillTotal(PageSize(i), sims[i].spilled)
      ensures leaf == |sims[i].leaf.closed| && dup == |sims[i].dup.closed|
    {
      hide Pow2, Count, SpillCount;
      assert Tied(i);
      PageSizeInRange(i);
      ghost var pgsize, s := PageSize(i), sims[i];
      ovfl, leaf, dup := 0, 0, 0;
      for j := 0 to DIST_DIVISION
        invariant ovfl == SpillBelow(s.spilled, pgsize, j)
        invariant leaf == CountBelow(s.leaf.closed, pgsize, j) && dup == CountBelow(s.dup.closed, pgsize, j)
      {
        ovfl := ovfl + ovflDist[i, j];
        leaf := leaf + leafDist[i, j];
        dup := dup + dupDist[i, j];
      }
      BucketsCountAllSpills(s.spilled, pgsize);
      BucketsCountAllPages(s.leaf.closed, pgsize);
      BucketsCountAllPages(s.dup.closed, pgsize);
    }

    /** The totals at the head of __tuner_print_btree_fillfactor. */
    method Totals() returns (ovfl: array<nat>, pages: array<nat>, space: array<nat>)
      requires Valid()
      ensures fresh(ovfl) && fresh(pages) && fresh(space)
      ensures ovfl.Length == pages.Length == space.Length == NUM_PGSIZES
      ensures forall k :: 0 <= k < NUM_PGSIZES ==>
                && DB_MIN_PGSIZE <= PageSize(k)
                && ovfl[k] == SpillTotal(PageSize(k), sims[k].spilled)
                && pages[k] == ovfl[k] + |sims[k].leaf.closed| + |sims[k].dup.closed|
                && space[k] == PageSize(k) * pages[k]
    {
      hide Pow2, Tied, SpillTotal;
      ovfl, pages, space := new nat[NUM_PGSIZES], new nat[NUM_PGSIZES], new nat[NUM_PGSIZES];
      for i := 0 to NUM_PGSIZES
        invariant forall k :: 0 <= k < i ==>
                    && DB_MIN_PGSIZE <= PageSize(k)
                    && ovfl[k] == SpillTotal(PageSize(k), sims[k].spilled)
                    && pages[k] == ovfl[k] + |sims[k].leaf.closed| + |sims[k].dup.closed|
                    && space[k] == PageSize(k) * pages[k]
      {
        var o, l, d := RowTotals(i);
        ovfl[i] := o;
        pages[i] := o + l + d;
        space[i] := PageSize(i) * pages[i];
      }
    }
  }

  /** More overflow pages are saved from the previous size than two percent of this size's pages. */
  predicate SavesMuch(prot: Protection, k: nat, pages: seq<TreePage>)
    requires 0 < k < NUM_PGSIZES && forall k :: 0 <= k < |pages| ==> Readable(pages[k])
  {
    50 * (OvflPagesOf(prot, k - 1, pages) - OvflPagesOf(prot, k, pages)) > AllPagesOf(prot, k, pages)
  }

  /** Counts of overflow pages and of all pages at the eight sizes, and the storage they mean. */
  ghost predicate AreTotals(prot: Protection, pages: seq<TreePage>, ovfl: seq<nat>, all: seq<nat>, bytes: seq<nat>)
    requires forall k :: 0 <= k < |pages| ==> Readable(pages[k])
  {
    && |ovfl| == |all| == NUM_PGSIZES && IsSpace(prot, pages, bytes)
    && (forall k :: 0 <= k < NUM_PGSIZES ==> ovfl[k] == OvflPagesOf(prot, k, pages))
    && (forall k :: 0 <= k < NUM_PGSIZES ==> all[k] == AllPagesOf(prot, k, pages))
  }

  lemma OvflDecreases(prot: Protection, k: nat, pages: seq<TreePage>)
    requires k < NUM_PGSIZES && forall k :: 0 <= k < |pages| ==> Readable(pages[k])
    ensures k > 0 ==> OvflPagesOf(prot, k, pages) <= OvflPagesOf(prot, k - 1, pages)
    ensures OvflPagesOf(prot, k, pages) <= OvflPagesOf(prot, 0, pages)
  {
    hide Simulate, PageSize;
    if k > 0 { OverflowNeverIncreases(prot, k - 1, k, pages); }
    OverflowNeverIncreases(prot, 0, k, pages);
  }

  lemma TotalsAreOfTheRun(prot: Protection, pages: seq<TreePage>, sims: seq<Sim>,
                          ovfl: seq<nat>, all: seq<nat>, bytes: seq<nat>)
    requires forall k :: 0 <= k < |pages| ==> Readable(pages[k])
    requires |sims| == |ovfl| == |all| == |bytes| == NUM_PGSIZES
    requires forall k :: 0 <= k < NUM_PGSIZES ==> sims[k] == Flush(Simulate(prot, k, pages))
    requires forall k :: 0 <= k < NUM_PGSIZES ==>
               && DB_MIN_PGSIZE <= PageSize(k)
               && ovfl[k] == SpillTotal(PageSize(k), sims[k].spilled)
               && all[k] == ovfl[k] + |sims[k].leaf.closed| + |sims[k].dup.closed|
               && bytes[k] == PageSize(k) * all[k]
    ensures AreTotals(prot, pages, ovfl, all, bytes) && Decreasing(ovfl)
  {
    hide Simulate, PageSize, SpillTotal;
    forall k | 0 <= k < NUM_PGSIZES
      ensures ovfl[k] == OvflPagesOf(prot, k, pages) && all[k] == AllPagesOf(prot, k, pages)
    {
      FlushAddsTheLastLeaf(prot, k, pages);
    }
    forall k | 0 < k < |ovfl| ensures ovfl[k] <= ovfl[k - 1] {
      OvflDecreases(prot, k, pages);
    }
  }

  lemma SpaceChoiceInRange(bytes: seq<nat>, best: nat)
    requires |bytes| == NUM_PGSIZES && LeastSpace(bytes, NUM_PGSIZES, best)
    ensures best < NUM_PGSIZES
  {
  }

  /** The choice, read off the simulated databases; no subtraction in it wraps. */
  lemma ChoiceIsOfTheRun(prot: Protection, pages: seq<TreePage>, ovfl: seq<nat>, all: seq<nat>, bytes: seq<nat>, best: nat)
    requires forall k :: 0 <= k < |pages| ==> Readable(pages[k])
    requires AreTotals(prot, pages, ovfl, all, bytes) && Decreasing(ovfl)
    requires if ovfl[0] == 0 then LeastSpace(bytes, NUM_PGSIZES, best)
             else LastBigDrop(ovfl, all, NUM_PGSIZES, best)
    ensures OvflPagesOf(prot, 0, pages) == 0 ==>
              && (forall k :: 0 <= k < NUM_PGSIZES ==> OvflPagesOf(prot, k, pages) == 0)
              && IsSpace(prot, pages, bytes) && LeastSpace(bytes, NUM_PGSIZES, best)
    ensures best < NUM_PGSIZES
    ensures OvflPagesOf(prot, 0, pages) > 0 ==>
              && (best > 0 ==> SavesMuch(prot, best, pages))
              && (forall k :: best < k < NUM_PGSIZES ==> !SavesMuch(prot, k, pages))
  {
    hide OvflPagesOf, AllPagesOf, LeastSpace;
    if OvflPagesOf(prot, 0, pages) == 0 {
      forall k | 0 <= k < NUM_PGSIZES ensures OvflPagesOf(prot, k, pages) == 0 {
        OvflDecreases(prot, k, pages);
      }
      SpaceChoiceInRange(bytes, best);
    } else {
      forall k | best < k < NUM_PGSIZES ensures !SavesMuch(prot, k, pages) {
        assert !BigDrop(ovfl, all, k);
      }
    }
  }

  /**
   * __tuner_analyze_btree: simulate, total, choose. The overflow counts never increase with the
   * page size, so the unsigned differences are exact.
   */
  method AnalyzeBtree(prot: Protection, pages: seq<TreePage>) returns (ret: int, best: nat, ghost space: seq<nat>)
    requires forall k :: 0 <= k < |pages| ==> Readable(pages[k])
    ensures ret == if (exists k :: 0 <= k < |pages| && pages[k].Unknown?) then EXIT_FAILURE else EXIT_SUCCESS
    ensures best < NUM_PGSIZES
    ensures ret == EXIT_SUCCESS && OvflPagesOf(prot, 0, pages) == 0 ==>
              && (forall k :: 0 <= k < NUM_PGSIZES ==> OvflPagesOf(prot, k, pages) == 0)
              && IsSpace(prot, pages, space) && LeastSpace(space, NUM_PGSIZES, best)
    ensures ret == EXIT_SUCCESS && OvflPagesOf(prot, 0, pages) > 0 ==>
              && (best > 0 ==> SavesMuch(prot, best, pages))
              && (forall k :: best < k < NUM_PGSIZES ==> !SavesMuch(prot, k, pages))
  {
    hide PageSize, OvflPagesOf, AllPagesOf, IsSpace, LeastSpace, LastBigDrop, SpillTotal;
    hide Simulate, Flush, AreTotals, Decreasing, SavesMuch, Tuner.Tied;
    var stats := new Tuner(prot);
    ret := stats.Generate(pages);
    if ret != EXIT_SUCCESS {
      return ret, 0, [];
    }
    var ovfl, all, bytes := stats.Totals();
    TotalsAreOfTheRun(prot, pages, stats.sims, ovfl[..], all[..], bytes[..]);
    best := Choose(ovfl, all, bytes);
    space := bytes[..];
    ChoiceIsOfTheRun(prot, pages, ovfl[..], all[..], space, best);
  }
}
