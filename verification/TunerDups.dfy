/** The simulated duplicate pages: each off-page set is packed by itself. */
module TunerDups {
  import opened Sums
  import opened NextFit
  import opened Bits
  import opened TunerSpec
  import opened TunerFacts

  // ---------- one set ----------

  function DupNeeds(prot: Protection, pgsize: nat, sizes: seq<uint32>): seq<nat>
    requires DB_MIN_PGSIZE <= pgsize <= DB_MAX_PGSIZE
  {
    if sizes == [] then []
    else DupNeeds(prot, pgsize, sizes[..|sizes| - 1]) + [DataNeed(prot, pgsize, sizes[|sizes| - 1], Normal)]
  }

  lemma {:induction false} DupNeedsFit(prot: Protection, pgsize: nat, sizes: seq<uint32>)
    requires DB_MIN_PGSIZE <= pgsize <= DB_MAX_PGSIZE
    ensures |DupNeeds(prot, pgsize, sizes)| == |sizes|
    ensures Fitting(DupNeeds(prot, pgsize, sizes), pgsize)
  {
    if sizes != [] {
      hide DataNeed;
      DupNeedsFit(prot, pgsize, sizes[..|sizes| - 1]);
      DataIsAtMostQuarter(prot, pgsize, sizes[|sizes| - 1], Normal);
    }
  }

  /** A bin with other closed pages in front. */
  function Behind(closed: seq<nat>, b: Bin): Bin {
    Bin(closed + b.closed, b.offset)
  }

  lemma PlaceBehind(closed: seq<nat>, b: Bin, need: nat, pgsize: nat)
    ensures Place(Behind(closed, b), need, pgsize) == Behind(closed, Place(b, need, pgsize))
  {
    var start := if b.offset == 0 then SIZEOF_PAGE else b.offset;
    assert closed + b.closed + [start] == closed + (b.closed + [start]);
  }

  lemma PackAppend(needs: seq<nat>, need: nat, pgsize: nat)
    ensures Pack(needs + [need], pgsize) == Place(Pack(needs, pgsize), need, pgsize)
  {
    assert (needs + [need])[..|needs|] == needs;
  }

  lemma DupItemsLast(prot: Protection, pgsize: nat, s: Sim, front: seq<uint32>, last: uint32)
    requires DB_MIN_PGSIZE <= pgsize <= DB_MAX_PGSIZE
    ensures var need := DataNeed(prot, pgsize, last, Normal);
            && Run(prot, pgsize, s, DupItems(front + [last])).dup
               == Place(Run(prot, pgsize, s, DupItems(front)).dup, need, pgsize)
            && DupNeeds(prot, pgsize, front + [last]) == DupNeeds(prot, pgsize, front) + [need]
  {
    hide DataNeed, Run, Spill, Flat, Place;
    FlatAppend(front, last, OneDupItem);
    RunConcat(prot, pgsize, s, DupItems(front), [DupItem(last)]);
    RunOne(prot, pgsize, Run(prot, pgsize, s, DupItems(front)), DupItem(last));
    assert (front + [last])[..|front|] == front;
  }

  lemma {:induction false} DupItemsArePacked(prot: Protection, pgsize: nat, s: Sim, sizes: seq<uint32>)
    requires DB_MIN_PGSIZE <= pgsize <= DB_MAX_PGSIZE && s.dup.offset == 0
    ensures Run(prot, pgsize, s, DupItems(sizes)).dup
            == Behind(s.dup.closed, Pack(DupNeeds(prot, pgsize, sizes), pgsize))
  {
    if sizes == [] {
      hide DataNeed, Place, Step;
      assert s.dup.closed + [] == s.dup.closed;
    } else {
      hide *;
      var front, last := sizes[..|sizes| - 1], sizes[|sizes| - 1];
      DupItemsArePacked(prot, pgsize, s, front);
      DupItemsLast(prot, pgsize, s, front, last);
      assert sizes == front + [last];
      var b, need := Pack(DupNeeds(prot, pgsize, front), pgsize), DataNeed(prot, pgsize, last, Normal);
      PlaceBehind(s.dup.closed, b, need, pgsize);
      PackAppend(DupNeeds(prot, pgsize, front), need, pgsize);
    }
  }

  /** The duplicate pages of one off-page set. */
  function SetPages(prot: Protection, pgsize: nat, sizes: seq<uint32>): seq<nat>
    requires DB_MIN_PGSIZE <= pgsize <= DB_MAX_PGSIZE
  {
    if sizes == [] then [] else Pages(Pack(DupNeeds(prot, pgsize, sizes), pgsize))
  }

  lemma NothingPacked(prot: Protection, pgsize: nat)
    requires DB_MIN_PGSIZE <= pgsize <= DB_MAX_PGSIZE
    ensures Pack(DupNeeds(prot, pgsize, []), pgsize) == EMPTY
  {
  }

  lemma LastIsOpen(needs: seq<nat>, pgsize: nat)
    requires SIZEOF_PAGE < pgsize && Fitting(needs, pgsize) && needs != []
    ensures Pack(needs, pgsize).offset > 0
  {
    hide Pack;
    PackKeeps(needs, pgsize);
    var b := Pack(needs, pgsize);
    assert Pages(b)[|b.closed|] == b.offset;
  }

  /** Items and then the end of their set, onto pages that no other set shares. */
  lemma ItemsArePackedAlone(prot: Protection, pgsize: nat, s: Sim, sizes: seq<uint32>)
    requires DB_MIN_PGSIZE <= pgsize <= DB_MAX_PGSIZE && s.dup.offset == 0
    ensures Run(prot, pgsize, s, DupItems(sizes) + [EndSet]).dup
            == Bin(s.dup.closed + SetPages(prot, pgsize, sizes), 0)
  {
    hide Run, DupNeeds, DupItems, Pack, Place;
    var before, needs := Run(prot, pgsize, s, DupItems(sizes)), DupNeeds(prot, pgsize, sizes);
    DupItemsArePacked(prot, pgsize, s, sizes);
    RunAppend(prot, pgsize, s, DupItems(sizes), EndSet);
    DupNeedsFit(prot, pgsize, sizes);
    if sizes == [] {
      NothingPacked(prot, pgsize);
    } else {
      PackKeeps(needs, pgsize);
      LastIsOpen(needs, pgsize);
      assert s.dup.closed + Pack(needs, pgsize).closed + [Pack(needs, pgsize).offset]
             == s.dup.closed + Pages(Pack(needs, pgsize));
    }
  }

  lemma {:induction false} DupNeedsAreQuarters(prot: Protection, pgsize: nat, sizes: seq<uint32>)
    requires DB_MIN_PGSIZE <= pgsize <= DB_MAX_PGSIZE
    ensures forall k :: 0 <= k < |DupNeeds(prot, pgsize, sizes)| ==>
              4 * DupNeeds(prot, pgsize, sizes)[k] <= Usable(pgsize)
  {
    if sizes != [] {
      hide DataNeed;
      DupNeedsAreQuarters(prot, pgsize, sizes[..|sizes| - 1]);
      DataIsAtMostQuarter(prot, pgsize, sizes[|sizes| - 1], Normal);
    }
  }

  /**
   * The duplicate pages of a set that is not empty: they hold exactly its bytes, all but the last are
   * more than three quarters full, and they are at most twice those of any packing of its items,
   * less one.
   */
  lemma SetPagesAreNearlyOptimal(prot: Protection, pgsize: nat, sizes: seq<uint32>, packing: seq<seq<nat>>)
    requires DB_MIN_PGSIZE <= pgsize <= DB_MAX_PGSIZE && sizes != []
    ensures var result, needs := SetPages(prot, pgsize, sizes), DupNeeds(prot, pgsize, sizes);
            && Total(result, Used) == Sum(needs)
            && Dense(result, pgsize)
            && (forall k :: 0 <= k < |result| - 1 ==> 4 * Used(result[k]) > 3 * Usable(pgsize))
            && (IsPacking(packing, needs, pgsize) ==> |result| <= 2 * |packing| - 1)
  {
    hide DupNeeds, Pack, Total;
    var needs := DupNeeds(prot, pgsize, sizes);
    DupNeedsFit(prot, pgsize, sizes);
    DupNeedsAreQuarters(prot, pgsize, sizes);
    PackKeeps(needs, pgsize);
    ClosedPagesAreFull(needs, pgsize, Usable(pgsize) / 4);
    if IsPacking(packing, needs, pgsize) {
      AtMostTwiceOptimal(needs, pgsize, packing);
    }
  }

  // ---------- the sets of a traversal ----------

  /** Insertions of pairs only. */
  predicate OnlyPairs(ops: seq<Op>) {
    forall k :: 0 <= k < |ops| ==> ops[k].Pair?
  }

  lemma {:induction false} PairsKeepDup(prot: Protection, pgsize: nat, s: Sim, ops: seq<Op>)
    requires DB_MIN_PGSIZE <= pgsize <= DB_MAX_PGSIZE && OnlyPairs(ops)
    ensures Run(prot, pgsize, s, ops).dup == s.dup
  {
    if ops != [] {
      PairsKeepDup(prot, pgsize, s, ops[..|ops| - 1]);
    }
  }

  lemma {:induction false} OnPageIsPairs(g: Group, n: nat)
    requires n <= |g.data|
    ensures OnlyPairs(SetPrefix(g, false, n))
  {
    if n > 0 { OnPageIsPairs(g, n - 1); }
  }

  lemma {:induction false} SlotPairsArePairs(sizes: seq<uint32>, n: nat)
    ensures OnlyPairs(SlotPairs(sizes)) && OnlyPairs(Repeat(n, SlotPairs(sizes)))
    decreases |sizes|, n
  {
    if n > 0 {
      SlotPairsArePairs(sizes, n - 1);
    } else if sizes != [] {
      SlotPairsArePairs(sizes[..|sizes| - 1], 0);
    }
  }

  lemma {:induction false} RepeatedItems(n: nat, sizes: seq<uint32>)
    ensures Repeat(n, DupItems(sizes)) == DupItems(Copies(n, sizes))
  {
    hide Flat;
    if n == 0 {
      FlatOne(0 as uint32, OneDupItem);
    } else {
      RepeatedItems(n - 1, sizes);
      FlatConcat(Copies(n - 1, sizes), sizes, OneDupItem);
    }
  }

  /** A pair in front puts nothing on duplicate pages. */
  lemma PackedAfterPair(prot: Protection, pgsize: nat, s: Sim, first: Op, sizes: seq<uint32>)
    requires DB_MIN_PGSIZE <= pgsize <= DB_MAX_PGSIZE && s.dup.offset == 0 && first.Pair?
    ensures Run(prot, pgsize, s, [first] + DupItems(sizes) + [EndSet]).dup
            == Bin(s.dup.closed + SetPages(prot, pgsize, sizes), 0)
  {
    hide Run, DupItems, SetPages;
    var rest := DupItems(sizes) + [EndSet];
    PairsKeepDup(prot, pgsize, s, [first]);
    ItemsArePackedAlone(prot, pgsize, Run(prot, pgsize, s, [first]), sizes);
    RunConcat(prot, pgsize, s, [first], rest);
    assert [first] + DupItems(sizes) + [EndSet] == [first] + rest;
  }

  /** The items of a group that go to duplicate pages. */
  function GroupSets(pgsize: nat, g: Group): seq<seq<uint32>> {
    if IsDupSet(g) && GoesOffPage(SetSpace(g), pgsize) then [Sizes(Live(g.data))] else []
  }

  /** The items of an off-page set that go to duplicate pages: those of the first page, for each page. */
  function ChainSets(pgsize: nat, chain: Chain): seq<seq<uint32>> {
    if GoesOffPage(ChainSpace(chain), pgsize) then [Copies(|chain|, Sizes(Live(chain[0])))] else []
  }

  function LeafSets(pgsize: nat, page: seq<Slot>, indx: nat): seq<seq<uint32>>
    requires IsLeaf(page) && indx % 2 == 0 && indx <= |page|
    decreases |page| - indx
  {
    if indx == |page| then []
    else GroupSets(pgsize, GroupAt(page, indx)) + LeafSets(pgsize, page, RunEnd(page, indx, indx))
  }

  function PageSets(pgsize: nat, p: TreePage): seq<seq<uint32>>
    requires Readable(p)
  {
    match p
    case Leaf(entries) => LeafSets(pgsize, entries, 0)
    case FirstDup(chain) => ChainSets(pgsize, chain)
    case _ => []
  }

  /** All sets that go to duplicate pages at this page size, in the order of the traversal. */
  function TraversalSets(pgsize: nat, pages: seq<TreePage>): seq<seq<uint32>>
    requires forall k :: 0 <= k < |pages| ==> Readable(pages[k])
  {
    if pages == [] then []
    else TraversalSets(pgsize, pages[..|pages| - 1]) + PageSets(pgsize, pages[|pages| - 1])
  }

  /** The pages of these sets, one set after the other. */
  function PagesOfSets(prot: Protection, pgsize: nat, sets: seq<seq<uint32>>): seq<nat>
    requires DB_MIN_PGSIZE <= pgsize <= DB_MAX_PGSIZE
  {
    if sets == [] then []
    else PagesOfSets(prot, pgsize, sets[..|sets| - 1]) + SetPages(prot, pgsize, sets[|sets| - 1])
  }

  lemma {:induction false} PagesOfSetsConcat(prot: Protection, pgsize: nat, a: seq<seq<uint32>>, b: seq<seq<uint32>>)
    requires DB_MIN_PGSIZE <= pgsize <= DB_MAX_PGSIZE
    ensures PagesOfSets(prot, pgsize, a + b) == PagesOfSets(prot, pgsize, a) + PagesOfSets(prot, pgsize, b)
  {
    hide SetPages;
    if b == [] {
      assert a + b == a;
    } else {
      var n := |b| - 1;
      assert (a + b)[..|a + b| - 1] == a + b[..n];
      PagesOfSetsConcat(prot, pgsize, a, b[..n]);
    }
  }

  lemma PagesOfOneSet(prot: Protection, pgsize: nat, sizes: seq<uint32>)
    requires DB_MIN_PGSIZE <= pgsize <= DB_MAX_PGSIZE
    ensures PagesOfSets(prot, pgsize, [sizes]) == SetPages(prot, pgsize, sizes)
    ensures PagesOfSets(prot, pgsize, []) == []
  {
    hide SetPages;
    assert [sizes][..0] == [];
  }

  /** From s to t the pages of these sets were closed, and no page is open. */
  predicate ClosesSets(prot: Protection, pgsize: nat, s: Sim, t: Sim, sets: seq<seq<uint32>>)
    requires DB_MIN_PGSIZE <= pgsize <= DB_MAX_PGSIZE
  {
    t.dup == Bin(s.dup.closed + PagesOfSets(prot, pgsize, sets), 0)
  }

  lemma ClosesBoth(prot: Protection, pgsize: nat, s: Sim, t: Sim, u: Sim, a: seq<seq<uint32>>, b: seq<seq<uint32>>)
    requires DB_MIN_PGSIZE <= pgsize <= DB_MAX_PGSIZE
    requires ClosesSets(prot, pgsize, s, t, a) && ClosesSets(prot, pgsize, t, u, b)
    ensures ClosesSets(prot, pgsize, s, u, a + b)
  {
    hide PagesOfSets;
    PagesOfSetsConcat(prot, pgsize, a, b);
    var x, y, z := s.dup.closed, PagesOfSets(prot, pgsize, a), PagesOfSets(prot, pgsize, b);
    assert x + y + z == x + (y + z);
  }

  lemma ClosesNone(prot: Protection, pgsize: nat, s: Sim, t: Sim)
    requires DB_MIN_PGSIZE <= pgsize <= DB_MAX_PGSIZE && s.dup.offset == 0 && t.dup == s.dup
    ensures ClosesSets(prot, pgsize, s, t, [])
  {
    assert s.dup.closed + [] == s.dup.closed;
  }

  /** A set that goes off a leaf page is packed by itself, behind its key's pointer on the leaf page. */
  lemma SetIsPackedAlone(prot: Protection, pgsize: nat, s: Sim, g: Group)
    requires DB_MIN_PGSIZE <= pgsize <= DB_MAX_PGSIZE && s.dup.offset == 0 && |g.data| >= 1
    ensures Run(prot, pgsize, s, SetOps(g, true)).dup
            == Bin(s.dup.closed + SetPages(prot, pgsize, Sizes(Live(g.data))), 0)
  {
    hide Run, SetPages, SetPrefix, DupItems, Flat, ItemSize;
    OffPagePrefix(g, |g.data|);
    assert g.data[..|g.data|] == g.data;
    PackedAfterPair(prot, pgsize, s, Pair(ItemSize(g.key), 0, Normal, BDuplicate), Sizes(Live(g.data)));
  }

  /** So is a set that stays off the leaf pages, its first page's items once for each of its pages. */
  lemma ChainIsPackedAlone(prot: Protection, pgsize: nat, s: Sim, chain: Chain)
    requires DB_MIN_PGSIZE <= pgsize <= DB_MAX_PGSIZE && s.dup.offset == 0
    ensures Run(prot, pgsize, s, ChainOps(chain, true)).dup
            == Bin(s.dup.closed + SetPages(prot, pgsize, Copies(|chain|, Sizes(Live(chain[0])))), 0)
  {
    hide Run, SetPages, DupItems, Flat, Repeat, Copies;
    RepeatedItems(|chain|, Sizes(Live(chain[0])));
    PackedAfterPair(prot, pgsize, s, Pair(0, 0, Nothing, BDuplicate), Copies(|chain|, Sizes(Live(chain[0]))));
  }

  lemma SingleIsPair(g: Group)
    requires |g.data| >= 1
    ensures SingleOp(g).Pair?
  {
  }

  lemma GroupClosesSets(prot: Protection, pgsize: nat, s: Sim, g: Group)
    requires DB_MIN_PGSIZE <= pgsize <= DB_MAX_PGSIZE && |g.data| >= 1 && s.dup.offset == 0
    ensures ClosesSets(prot, pgsize, s, Run(prot, pgsize, s, GroupOps(pgsize, g)), GroupSets(pgsize, g))
  {
    hide Run, SetPrefix, SetSpace, SingleOp, SetPages, PagesOfSets, Sizes, Live;
    if !IsDupSet(g) {
      SingleIsPair(g);
      PairsKeepDup(prot, pgsize, s, [SingleOp(g)]);
      ClosesNone(prot, pgsize, s, Run(prot, pgsize, s, [SingleOp(g)]));
    } else if GoesOffPage(SetSpace(g), pgsize) {
      SetIsPackedAlone(prot, pgsize, s, g);
      PagesOfOneSet(prot, pgsize, Sizes(Live(g.data)));
    } else {
      var ops := SetPrefix(g, false, |g.data|);
      OnPageIsPairs(g, |g.data|);
      assert ops + [] == ops;
      PairsKeepDup(prot, pgsize, s, ops);
      ClosesNone(prot, pgsize, s, Run(prot, pgsize, s, ops));
    }
  }

  lemma GroupHasData(page: seq<Slot>, indx: nat)
    requires IsLeaf(page) && indx % 2 == 0 && indx < |page|
    ensures |GroupAt(page, indx).data| >= 1 && RunEnd(page, indx, indx) > indx
  {
  }

  lemma {:induction false} LeafClosesSets(prot: Protection, pgsize: nat, s: Sim, page: seq<Slot>, indx: nat)
    requires DB_MIN_PGSIZE <= pgsize <= DB_MAX_PGSIZE && s.dup.offset == 0
    requires IsLeaf(page) && indx % 2 == 0 && indx <= |page|
    ensures ClosesSets(prot, pgsize, s, Run(prot, pgsize, s, LeafOps(pgsize, page, indx)), LeafSets(pgsize, page, indx))
    decreases |page| - indx
  {
    hide Run, GroupOps, GroupAt, GroupSets, PagesOfSets;
    if indx == |page| {
      RunNone(prot, pgsize, s);
      ClosesNone(prot, pgsize, s, s);
    } else {
      var g, next := GroupAt(page, indx), RunEnd(page, indx, indx);
      GroupHasData(page, indx);
      var t := Run(prot, pgsize, s, GroupOps(pgsize, g));
      GroupClosesSets(prot, pgsize, s, g);
      LeafClosesSets(prot, pgsize, t, page, next);
      RunConcat(prot, pgsize, s, GroupOps(pgsize, g), LeafOps(pgsize, page, next));
      ClosesBoth(prot, pgsize, s, t, Run(prot, pgsize, t, LeafOps(pgsize, page, next)),
                 GroupSets(pgsize, g), LeafSets(pgsize, page, next));
    }
  }

  lemma ChainClosesSets(prot: Protection, pgsize: nat, s: Sim, chain: Chain)
    requires DB_MIN_PGSIZE <= pgsize <= DB_MAX_PGSIZE && s.dup.offset == 0
    ensures ClosesSets(prot, pgsize, s,
                       Run(prot, pgsize, s, ChainOps(chain, GoesOffPage(ChainSpace(chain), pgsize))),
                       ChainSets(pgsize, chain))
  {
    hide Run, SetPages, PagesOfSets, Sizes, Live, ChainSpace, Repeat, SlotPairs, Copies, DupItems;
    var first := Sizes(Live(chain[0]));
    if GoesOffPage(ChainSpace(chain), pgsize) {
      ChainIsPackedAlone(prot, pgsize, s, chain);
      PagesOfOneSet(prot, pgsize, Copies(|chain|, first));
    } else {
      SlotPairsArePairs(first, |chain|);
      PairsKeepDup(prot, pgsize, s, Repeat(|chain|, SlotPairs(first)));
      ClosesNone(prot, pgsize, s, Run(prot, pgsize, s, Repeat(|chain|, SlotPairs(first))));
    }
  }

  lemma PageClosesSets(prot: Protection, pgsize: nat, s: Sim, p: TreePage)
    requires DB_MIN_PGSIZE <= pgsize <= DB_MAX_PGSIZE && Readable(p) && s.dup.offset == 0
    ensures ClosesSets(prot, pgsize, s, Run(prot, pgsize, s, PageOps(pgsize, p)), PageSets(pgsize, p))
  {
    hide Run, LeafOps, ChainOps, LeafSets, ChainSets, ChainSpace, PagesOfSets;
    match p
    case Leaf(entries) => LeafClosesSets(prot, pgsize, s, entries, 0);
    case FirstDup(chain) => ChainClosesSets(prot, pgsize, s, chain);
    case _ =>
      RunNone(prot, pgsize, s);
      ClosesNone(prot, pgsize, s, s);
  }

  lemma {:induction false} TraversalClosesSets(prot: Protection, pgsize: nat, pages: seq<TreePage>)
    requires DB_MIN_PGSIZE <= pgsize <= DB_MAX_PGSIZE
    requires forall k :: 0 <= k < |pages| ==> Readable(pages[k])
    ensures ClosesSets(prot, pgsize, START, Run(prot, pgsize, START, TraversalOps(pgsize, pages)),
                       TraversalSets(pgsize, pages))
  {
    hide Run, PageOps, PageSets, PagesOfSets;
    if pages == [] {
      RunNone(prot, pgsize, START);
      ClosesNone(prot, pgsize, START, START);
    } else {
      var front, last := pages[..|pages| - 1], pages[|pages| - 1];
      var s := Run(prot, pgsize, START, TraversalOps(pgsize, front));
      TraversalClosesSets(prot, pgsize, front);
      PageClosesSets(prot, pgsize, s, last);
      RunConcat(prot, pgsize, START, TraversalOps(pgsize, front), PageOps(pgsize, last));
      ClosesBoth(prot, pgsize, START, s, Run(prot, pgsize, s, PageOps(pgsize, last)),
                 TraversalSets(pgsize, front), PageSets(pgsize, last));
    }
  }

  /** So the last flush never finds an open duplicate page. */
  lemma NoOpenDupPage(prot: Protection, pgsize: nat, pages: seq<TreePage>)
    requires DB_MIN_PGSIZE <= pgsize <= DB_MAX_PGSIZE
    requires forall k :: 0 <= k < |pages| ==> Readable(pages[k])
    ensures Run(prot, pgsize, START, TraversalOps(pgsize, pages)).dup.offset == 0
  {
    hide Run, TraversalOps, TraversalSets, PagesOfSets;
    TraversalClosesSets(prot, pgsize, pages);
  }

  /** The duplicate pages of a whole traversal are those of its off-page sets, in order, each set packed by itself. */
  lemma DupPagesAreOfTheSets(prot: Protection, i: nat, pages: seq<TreePage>)
    requires i < NUM_PGSIZES && forall k :: 0 <= k < |pages| ==> Readable(pages[k])
    ensures DB_MIN_PGSIZE <= PageSize(i) <= DB_MAX_PGSIZE
    ensures Simulate(prot, i, pages).dup
            == Bin(PagesOfSets(prot, PageSize(i), TraversalSets(PageSize(i), pages)), 0)
  {
    hide Run, PagesOfSets, TraversalSets, PageSize;
    PageSizeInRange(i);
    TraversalClosesSets(prot, PageSize(i), pages);
    var closed := PagesOfSets(prot, PageSize(i), TraversalSets(PageSize(i), pages));
    assert [] + closed == closed;
  }

  // ---------- all sets together ----------

  /** Bytes that these sets put on duplicate pages. */
  function BytesOfSets(prot: Protection, pgsize: nat, sets: seq<seq<uint32>>): nat
    requires DB_MIN_PGSIZE <= pgsize <= DB_MAX_PGSIZE
  {
    if sets == [] then 0
    else BytesOfSets(prot, pgsize, sets[..|sets| - 1]) + Sum(DupNeeds(prot, pgsize, sets[|sets| - 1]))
  }

  /** For each set, some way of putting its items onto pages of its own. */
  ghost predicate ArePackings(prot: Protection, pgsize: nat, packings: seq<seq<seq<nat>>>, sets: seq<seq<uint32>>)
    requires DB_MIN_PGSIZE <= pgsize <= DB_MAX_PGSIZE
  {
    |packings| == |sets| &&
    forall k :: 0 <= k < |sets| ==> IsPacking(packings[k], DupNeeds(prot, pgsize, sets[k]), pgsize)
  }

  /** Twice the pages of each packing, less one, for the sets that are not empty. */
  function TwiceLessOne(packings: seq<seq<seq<nat>>>, sets: seq<seq<uint32>>): int
    requires |packings| == |sets|
  {
    if sets == [] then 0
    else
      var n := |sets| - 1;
      TwiceLessOne(packings[..n], sets[..n]) + if sets[n] == [] then 0 else 2 * |packings[n]| - 1
  }

  lemma EmptySet(prot: Protection, pgsize: nat)
    requires DB_MIN_PGSIZE <= pgsize <= DB_MAX_PGSIZE
    ensures SetPages(prot, pgsize, []) == [] && Sum(DupNeeds(prot, pgsize, [])) == 0
    ensures var none: seq<nat> := []; Total(none, Used) == 0
  {
  }

  lemma {:induction false} SetsConserveBytes(prot: Protection, pgsize: nat, sets: seq<seq<uint32>>)
    requires DB_MIN_PGSIZE <= pgsize <= DB_MAX_PGSIZE
    ensures Total(PagesOfSets(prot, pgsize, sets), Used) == BytesOfSets(prot, pgsize, sets)
  {
    hide DupNeeds, SetPages, Sum;
    if sets == [] {
      EmptySet(prot, pgsize);
    } else {
      var n := |sets| - 1;
      SetsConserveBytes(prot, pgsize, sets[..n]);
      TotalConcat(PagesOfSets(prot, pgsize, sets[..n]), SetPages(prot, pgsize, sets[n]), Used);
      if sets[n] == [] {
        EmptySet(prot, pgsize);
      } else {
        SetPagesAreNearlyOptimal(prot, pgsize, sets[n], []);
      }
    }
  }

  lemma {:induction false} SetsAreNearlyOptimal(prot: Protection, pgsize: nat, sets: seq<seq<uint32>>, packings: seq<seq<seq<nat>>>)
    requires DB_MIN_PGSIZE <= pgsize <= DB_MAX_PGSIZE && ArePackings(prot, pgsize, packings, sets)
    ensures |PagesOfSets(prot, pgsize, sets)| <= TwiceLessOne(packings, sets)
  {
    hide IsPacking, DupNeeds, SetPages;
    if sets != [] {
      var n := |sets| - 1;
      SetsAreNearlyOptimal(prot, pgsize, sets[..n], packings[..n]);
      if sets[n] == [] {
        EmptySet(prot, pgsize);
      } else {
        SetPagesAreNearlyOptimal(prot, pgsize, sets[n], packings[n]);
      }
    }
  }

  lemma APackingForEachSet(prot: Protection, pgsize: nat, packings: seq<seq<seq<nat>>>, sets: seq<seq<uint32>>)
    requires DB_MIN_PGSIZE <= pgsize <= DB_MAX_PGSIZE && ArePackings(prot, pgsize, packings, sets)
    ensures |packings| == |sets|
  {
  }

  /**
   * The duplicate pages of a whole traversal hold exactly the bytes of its off-page sets, and are at
   * most twice as many, less one for each set, as any packings that keep the sets apart would need.
   */
  lemma DupPagesAreNearlyOptimal(prot: Protection, i: nat, pages: seq<TreePage>, packings: seq<seq<seq<nat>>>)
    requires i < NUM_PGSIZES && forall k :: 0 <= k < |pages| ==> Readable(pages[k])
    ensures DB_MIN_PGSIZE <= PageSize(i) <= DB_MAX_PGSIZE
    ensures var closed, sets := Simulate(prot, i, pages).dup.closed, TraversalSets(PageSize(i), pages);
            && Total(closed, Used) == BytesOfSets(prot, PageSize(i), sets)
            && (ArePackings(prot, PageSize(i), packings, sets) ==> |closed| <= TwiceLessOne(packings, sets))
  {
    hide Simulate, TraversalSets, PageSize, ArePackings, BytesOfSets, PagesOfSets, Total;
    PageSizeInRange(i);
    var sets := TraversalSets(PageSize(i), pages);
    DupPagesAreOfTheSets(prot, i, pages);
    SetsConserveBytes(prot, PageSize(i), sets);
    if ArePackings(prot, PageSize(i), packings, sets) {
      SetsAreNearlyOptimal(prot, PageSize(i), sets, packings);
      APackingForEachSet(prot, PageSize(i), packings, sets);
    }
  }
}
