/** What the simulator's insertions add up to, for one page size and across page sizes. */
module TunerFacts {
  import opened Sums
  import opened NextFit
  import opened Bits
  import opened TunerSpec

  // ---------- keys and data items charged ----------

  function KeyCharge(op: Op): seq<uint32> {
    if op.Pair? && op.inKey.Normal? then [op.keySize] else []
  }

  /** Sizes of the keys inserted. */
  function KeysCharged(ops: seq<Op>): seq<uint32> {
    Flat(ops, KeyCharge)
  }

  function DataCharge(op: Op): seq<uint32> {
    match op
    case Pair(_, dataSize, _, inData) => if inData.Normal? then [dataSize] else []
    case DupItem(size) => [size]
    case EndSet => []
  }

  /** Sizes of the data items inserted, on leaf pages or on duplicate pages. */
  function DataCharged(ops: seq<Op>): seq<uint32> {
    Flat(ops, DataCharge)
  }

  /** An insertion that brings no key or no data item gives its size as zero. */
  predicate WellFormed(ops: seq<Op>) {
    forall k :: 0 <= k < |ops| && ops[k].Pair? ==>
      (ops[k].inKey.Normal? || ops[k].keySize == 0) && (ops[k].inData.Normal? || ops[k].dataSize == 0)
  }

  lemma ChargedConcat(a: seq<Op>, b: seq<Op>)
    ensures KeysCharged(a + b) == KeysCharged(a) + KeysCharged(b)
    ensures DataCharged(a + b) == DataCharged(a) + DataCharged(b)
  {
    FlatConcat(a, b, KeyCharge);
    FlatConcat(a, b, DataCharge);
  }

  lemma ChargedOne(op: Op)
    ensures KeysCharged([op]) == KeyCharge(op) && DataCharged([op]) == DataCharge(op)
    ensures KeysCharged([]) == DataCharged([]) == []
  {
    FlatOne(op, KeyCharge);
    FlatOne(op, DataCharge);
  }

  /** What a prefix, a middle part and an end charge together. */
  lemma ChargedAround(first: Op, body: seq<Op>, last: Op)
    ensures KeysCharged([first] + body + [last]) == KeyCharge(first) + KeysCharged(body) + KeyCharge(last)
    ensures DataCharged([first] + body + [last]) == DataCharge(first) + DataCharged(body) + DataCharge(last)
  {
    hide KeysCharged, DataCharged;
    ChargedOne(first);
    ChargedOne(last);
    ChargedConcat([first], body);
    ChargedConcat([first] + body, [last]);
  }

  lemma {:induction false} DupItemsCharge(sizes: seq<uint32>)
    ensures KeysCharged(DupItems(sizes)) == [] && DataCharged(DupItems(sizes)) == sizes
  {
    hide KeysCharged, DataCharged;
    ChargedOne(EndSet);
    if sizes != [] {
      var front, last := sizes[..|sizes| - 1], sizes[|sizes| - 1];
      DupItemsCharge(front);
      ChargedConcat(DupItems(front), [DupItem(last)]);
      ChargedOne(DupItem(last));
    }
  }

  lemma {:induction false} SlotPairsCharge(sizes: seq<uint32>)
    ensures KeysCharged(SlotPairs(sizes)) == [] && DataCharged(SlotPairs(sizes)) == sizes
  {
    hide KeysCharged, DataCharged;
    ChargedOne(EndSet);
    if sizes != [] {
      var front, last := sizes[..|sizes| - 1], Pair(0, sizes[|sizes| - 1], SlotOnly, Normal);
      SlotPairsCharge(front);
      ChargedConcat(SlotPairs(front), [last]);
      ChargedOne(last);
    }
  }

  lemma {:induction false} ListsAreWellFormed(sizes: seq<uint32>)
    ensures WellFormed(DupItems(sizes)) && WellFormed(SlotPairs(sizes))
  {
    if sizes != [] {
      ListsAreWellFormed(sizes[..|sizes| - 1]);
    }
  }

  /**
   * On the leaf page the key is inserted with the first data item, if that is live, and every
   * live data item is inserted once.
   */
  lemma {:induction false} OnPageCharge(g: Group, n: nat)
    requires n <= |g.data|
    ensures KeysCharged(SetPrefix(g, false, n)) == if n > 0 && !g.data[0].deleted then [ItemSize(g.key)] else []
    ensures DataCharged(SetPrefix(g, false, n)) == Sizes(Live(g.data[..n]))
  {
    hide Flat, ItemSize, KeysCharged, DataCharged;
    ChargedOne(EndSet);
    FlatOne(g.key, IfLive);
    FlatOne(g.key, OneSize);
    if n > 0 {
      OnPageCharge(g, n - 1);
      var x, before := g.data[n - 1], SetPrefix(g, false, n - 1);
      ChargedConcat(before, OnPageOp(g, n - 1));
      assert g.data[..n] == g.data[..n - 1] + [x];
      FlatAppend(g.data[..n - 1], x, IfLive);
      if !x.deleted {
        ChargedOne(OnPageOp(g, n - 1)[0]);
        FlatAppend(Live(g.data[..n - 1]), x, OneSize);
      } else {
        assert Live(g.data[..n]) == Live(g.data[..n - 1]);
      }
    } else {
      assert g.data[..0] == [];
    }
  }

  lemma {:induction false} OnPageWellFormed(g: Group, n: nat)
    requires n <= |g.data|
    ensures WellFormed(SetPrefix(g, false, n))
  {
    if n > 0 {
      OnPageWellFormed(g, n - 1);
    }
  }

  /** Is the key of a group inserted at this page size? */
  predicate KeyIsCharged(pgsize: nat, g: Group)
    requires |g.data| >= 1
  {
    !IsDupSet(g) || GoesOffPage(SetSpace(g), pgsize) || !g.data[0].deleted
  }

  /** The data items of a group that this scan inserts; a pointer to an off-page set is not one. */
  function GroupData(g: Group): seq<Item>
    requires |g.data| >= 1
  {
    if !IsDupSet(g) && g.data[0].kind.Duplicate? then [] else Live(g.data)
  }

  /** Off the page the key comes first, with a pointer, and every live data item follows. */
  lemma {:induction false} OffPagePrefix(g: Group, n: nat)
    requires 0 < n <= |g.data|
    ensures SetPrefix(g, true, n)
            == [Pair(ItemSize(g.key), 0, Normal, BDuplicate)] + DupItems(Sizes(Live(g.data[..n])))
  {
    hide Flat, ItemSize;
    var x := g.data[n - 1];
    FlatOne(x, IfLive);
    FlatOne(x, OneSize);
    FlatOne(ItemSize(x), OneDupItem);
    assert g.data[..n] == g.data[..n - 1] + [x];
    if n == 1 {
      assert g.data[..1] == [x];
    } else {
      OffPagePrefix(g, n - 1);
      FlatAppend(g.data[..n - 1], x, IfLive);
      if !x.deleted {
        FlatAppend(Live(g.data[..n - 1]), x, OneSize);
        FlatAppend(Sizes(Live(g.data[..n - 1])), ItemSize(x), OneDupItem);
      } else {
        assert Live(g.data[..n]) == Live(g.data[..n - 1]);
      }
    }
  }

  lemma OffPageCharge(g: Group)
    requires |g.data| >= 1
    ensures KeysCharged(SetOps(g, true)) == [ItemSize(g.key)]
    ensures DataCharged(SetOps(g, true)) == Sizes(Live(g.data))
    ensures WellFormed(SetOps(g, true))
  {
    hide KeysCharged, DataCharged, Flat, ItemSize, SetPrefix;
    OffPagePrefix(g, |g.data|);
    assert g.data[..|g.data|] == g.data;
    var sizes, first := Sizes(Live(g.data)), Pair(ItemSize(g.key), 0, Normal, BDuplicate);
    DupItemsCharge(sizes);
    ListsAreWellFormed(sizes);
    ChargedAround(first, DupItems(sizes), EndSet);
  }

  /**
   * Whichever way a group goes, its live data items are charged once each, in order; its key is
   * charged once, except that a set staying on the page loses it when its first item is deleted.
   */
  lemma GroupIsChargedOnce(pgsize: nat, g: Group)
    requires |g.data| >= 1 && !Stuck(g)
    ensures KeysCharged(GroupOps(pgsize, g)) == if KeyIsCharged(pgsize, g) then [ItemSize(g.key)] else []
    ensures DataCharged(GroupOps(pgsize, g)) == Sizes(GroupData(g))
    ensures WellFormed(GroupOps(pgsize, g))
  {
    hide KeysCharged, DataCharged, SetSpace, Flat, ItemSize;
    if !IsDupSet(g) {
      ChargedOne(SingleOp(g));
      assert g.data == [g.data[0]];
      FlatOne(g.data[0], IfLive);
      FlatOne(g.data[0], OneSize);
    } else if GoesOffPage(SetSpace(g), pgsize) {
      OffPageCharge(g);
    } else {
      assert SetOps(g, false) == SetPrefix(g, false, |g.data|);
      OnPageCharge(g, |g.data|);
      OnPageWellFormed(g, |g.data|);
      assert g.data[..|g.data|] == g.data;
    }
  }

  // ---------- a leaf page ----------

  /** The groups of a page, in order. */
  function Groups(page: seq<Slot>, indx: nat): seq<Group>
    requires IsLeaf(page) && indx % 2 == 0 && indx <= |page|
    decreases |page| - indx
  {
    if indx == |page| then []
    else [GroupAt(page, indx)] + Groups(page, RunEnd(page, indx, indx))
  }

  function AllData(gs: seq<Group>): seq<Item> {
    if gs == [] then [] else gs[0].data + AllData(gs[1..])
  }

  function AllKeys(gs: seq<Group>): seq<Item> {
    if gs == [] then [] else [gs[0].key] + AllKeys(gs[1..])
  }

  lemma {:induction false} DataItemsSplit(page: seq<Slot>, a: nat, b: nat, c: nat)
    requires a <= b <= c <= |page| && a % 2 == 0 && b % 2 == 0 && c % 2 == 0
    ensures DataItems(page, a, c) == DataItems(page, a, b) + DataItems(page, b, c)
  {
    if b < c {
      DataItemsSplit(page, a, b, c - P_INDX);
    }
  }

  /** The groups partition the page: together they hold all its data entries, in page order. */
  lemma {:induction false} GroupsPartitionThePage(page: seq<Slot>, indx: nat)
    requires IsLeaf(page) && indx % 2 == 0 && indx <= |page|
    ensures AllData(Groups(page, indx)) == DataItems(page, indx, |page|)
    decreases |page| - indx
  {
    if indx < |page| {
      var next := RunEnd(page, indx, indx);
      GroupsPartitionThePage(page, next);
      DataItemsSplit(page, indx, next, |page|);
      assert Groups(page, indx)[1..] == Groups(page, next);
    }
  }

  /** Groups that a scan meets on a page. */
  predicate AreGroups(gs: seq<Group>) {
    forall k :: 0 <= k < |gs| ==> |gs[k].data| >= 1
  }

  /** The keys that these groups insert at this page size. */
  function GroupKeys(pgsize: nat, gs: seq<Group>): seq<Item>
    requires AreGroups(gs)
  {
    if gs == [] then []
    else (if KeyIsCharged(pgsize, gs[0]) then [gs[0].key] else []) + GroupKeys(pgsize, gs[1..])
  }

  /** The data items that these groups insert. */
  function GroupsData(gs: seq<Group>): seq<Item>
    requires AreGroups(gs)
  {
    if gs == [] then [] else GroupData(gs[0]) + GroupsData(gs[1..])
  }

  lemma {:induction false} GroupsOfPage(page: seq<Slot>, indx: nat)
    requires IsLeaf(page) && indx % 2 == 0 && indx <= |page|
    ensures AreGroups(Groups(page, indx))
    decreases |page| - indx
  {
    if indx < |page| {
      hide GroupAt;
      GroupsOfPage(page, RunEnd(page, indx, indx));
    }
  }

  lemma GroupsStep(pgsize: nat, page: seq<Slot>, indx: nat)
    requires IsLeaf(page) && indx % 2 == 0 && indx < |page|
    ensures AreGroups(Groups(page, indx)) && AreGroups(Groups(page, RunEnd(page, indx, indx)))
    ensures var g, rest := GroupAt(page, indx), Groups(page, RunEnd(page, indx, indx));
            && GroupKeys(pgsize, Groups(page, indx)) == (if KeyIsCharged(pgsize, g) then [g.key] else []) + GroupKeys(pgsize, rest)
            && GroupsData(Groups(page, indx)) == GroupData(g) + GroupsData(rest)
  {
    hide GroupAt, KeyIsCharged, GroupData;
    GroupsOfPage(page, indx);
    GroupsOfPage(page, RunEnd(page, indx, indx));
    assert Groups(page, indx)[1..] == Groups(page, RunEnd(page, indx, indx));
  }

  lemma {:induction false} SizesAreAsMany(items: seq<Item>)
    ensures |Sizes(items)| == |items|
  {
    if items != [] { SizesAreAsMany(items[..|items| - 1]); }
  }

  lemma NoSizes()
    ensures Sizes([]) == []
  {
  }

  /**
   * On every page whose scan ends, and at every page size, each group's key is charged exactly once
   * and each of its live data items is charged exactly once, in page order. Not charged are a key
   * whose set stays on the page with its first item deleted, and a pointer to an off-page set.
   */
  lemma {:induction false} LeafCharge(pgsize: nat, page: seq<Slot>, indx: nat)
    requires IsLeaf(page) && indx % 2 == 0 && indx <= |page| && Scannable(page, indx)
    ensures AreGroups(Groups(page, indx))
    ensures KeysCharged(LeafOps(pgsize, page, indx)) == Sizes(GroupKeys(pgsize, Groups(page, indx)))
    ensures DataCharged(LeafOps(pgsize, page, indx)) == Sizes(GroupsData(Groups(page, indx)))
    decreases |page| - indx
  {
    hide GroupOps, KeysCharged, DataCharged, Flat, KeyIsCharged, GroupData, Stuck;
    GroupsOfPage(page, indx);
    if indx == |page| {
      ChargedOne(EndSet);
      NoSizes();
    } else {
      var g, next := GroupAt(page, indx), RunEnd(page, indx, indx);
      LeafCharge(pgsize, page, next);
      GroupIsChargedOnce(pgsize, g);
      ChargedConcat(GroupOps(pgsize, g), LeafOps(pgsize, page, next));
      GroupsStep(pgsize, page, indx);
      FlatConcat(GroupData(g), GroupsData(Groups(page, next)), OneSize);
      FlatConcat(if KeyIsCharged(pgsize, g) then [g.key] else [], GroupKeys(pgsize, Groups(page, next)), OneSize);
      FlatOne(g.key, OneSize);
    }
  }

  /** No deleted item on the page. */
  predicate NothingDeleted(page: seq<Slot>) {
    forall k :: 0 <= k < |page| ==> !page[k].item.deleted
  }

  /** A pointer to an off-page set is the only data item of its key. */
  ghost predicate PointersAreSingle(page: seq<Slot>, indx: nat)
    requires IsLeaf(page) && indx % 2 == 0 && indx <= |page|
    decreases |page| - indx
  {
    indx < |page| ==>
      var g := GroupAt(page, indx);
      && (IsDupSet(g) ==> forall k :: 0 <= k < |g.data| ==> !g.data[k].kind.Duplicate?)
      && PointersAreSingle(page, RunEnd(page, indx, indx))
  }

  function UnlessPointer(x: Item): seq<Item> {
    if x.kind.Duplicate? then [] else [x]
  }

  /** The items that are not pointers to off-page sets. */
  function WithoutPointers(items: seq<Item>): seq<Item> {
    Flat(items, UnlessPointer)
  }

  lemma {:induction false} LiveOfLive(items: seq<Item>)
    requires forall k :: 0 <= k < |items| ==> !items[k].deleted
    ensures Live(items) == items
  {
    if items != [] {
      LiveOfLive(items[..|items| - 1]);
    }
  }

  lemma {:induction false} NoPointers(items: seq<Item>)
    requires forall k :: 0 <= k < |items| ==> !items[k].kind.Duplicate?
    ensures WithoutPointers(items) == items
  {
    if items != [] {
      NoPointers(items[..|items| - 1]);
    }
  }

  lemma {:induction false} LiveData(page: seq<Slot>, from: nat, to: nat)
    requires NothingDeleted(page) && from <= to <= |page| && from % 2 == 0 && to % 2 == 0
    ensures forall k :: 0 <= k < |DataItems(page, from, to)| ==> !DataItems(page, from, to)[k].deleted
  {
    if from < to {
      LiveData(page, from, to - P_INDX);
    }
  }

  lemma LiveGroup(pgsize: nat, page: seq<Slot>, indx: nat)
    requires IsLeaf(page) && NothingDeleted(page) && indx % 2 == 0 && indx < |page|
    ensures var g := GroupAt(page, indx);
            && !Stuck(g) && KeyIsCharged(pgsize, g)
            && GroupData(g) == if !IsDupSet(g) && g.data[0].kind.Duplicate? then [] else g.data
  {
    LiveData(page, indx, RunEnd(page, indx, indx));
    LiveOfLive(GroupAt(page, indx).data);
  }

  lemma PointerGroup(g: Group)
    requires |g.data| >= 1
    requires IsDupSet(g) ==> forall k :: 0 <= k < |g.data| ==> !g.data[k].kind.Duplicate?
    ensures WithoutPointers(g.data) == if !IsDupSet(g) && g.data[0].kind.Duplicate? then [] else g.data
  {
    if IsDupSet(g) {
      NoPointers(g.data);
    } else {
      assert g.data == [g.data[0]];
      FlatOne(g.data[0], UnlessPointer);
    }
  }

  lemma NoDataLeft(page: seq<Slot>)
    requires |page| % 2 == 0
    ensures WithoutPointers(DataItems(page, |page|, |page|)) == []
  {
  }

  lemma {:induction false} AllAreCharged(pgsize: nat, page: seq<Slot>, indx: nat)
    requires IsLeaf(page) && NothingDeleted(page) && indx % 2 == 0 && indx <= |page|
    ensures Scannable(page, indx) && AreGroups(Groups(page, indx))
    ensures GroupKeys(pgsize, Groups(page, indx)) == AllKeys(Groups(page, indx))
    ensures PointersAreSingle(page, indx) ==>
              GroupsData(Groups(page, indx)) == WithoutPointers(DataItems(page, indx, |page|))
    decreases |page| - indx
  {
    hide Flat, KeyIsCharged, GroupData, Stuck, NothingDeleted, DataItems;
    GroupsOfPage(page, indx);
    if indx == |page| {
      NoDataLeft(page);
    } else {
      var g, next := GroupAt(page, indx), RunEnd(page, indx, indx);
      AllAreCharged(pgsize, page, next);
      LiveGroup(pgsize, page, indx);
      GroupsStep(pgsize, page, indx);
      assert Groups(page, indx)[1..] == Groups(page, next);
      if PointersAreSingle(page, indx) {
        PointerGroup(g);
        DataItemsSplit(page, indx, next, |page|);
        FlatConcat(g.data, DataItems(page, next, |page|), UnlessPointer);
      }
    }
  }

  /**
   * On a page with no deleted item the scan ends, and at every page size it charges the key of each
   * group exactly once. A pointer to an off-page set stands alone under its key on the pages of a
   * database, and then each other data item of the page is charged exactly once, in order.
   */
  lemma {:induction false} LeafIsChargedOnce(pgsize: nat, page: seq<Slot>, indx: nat)
    requires IsLeaf(page) && NothingDeleted(page) && indx % 2 == 0 && indx <= |page|
    ensures Scannable(page, indx)
    ensures KeysCharged(LeafOps(pgsize, page, indx)) == Sizes(AllKeys(Groups(page, indx)))
    ensures PointersAreSingle(page, indx) ==>
              DataCharged(LeafOps(pgsize, page, indx)) == Sizes(WithoutPointers(DataItems(page, indx, |page|)))
    decreases |page| - indx
  {
    AllAreCharged(pgsize, page, indx);
    hide LeafOps, KeysCharged, DataCharged, Flat, Groups, GroupKeys, GroupsData, AllKeys;
    LeafCharge(pgsize, page, indx);
  }

  // ---------- overflow pages ----------

  /** Pages that one overflow item takes. */
  function SpillPages(pgsize: nat, size: uint32): nat
    requires SIZEOF_PAGE < pgsize
  {
    size / Usable(pgsize) + 1
  }

  /** Overflow pages of these spilled items. */
  function SpillTotal(pgsize: nat, sizes: seq<uint32>): nat
    requires SIZEOF_PAGE < pgsize
  {
    if sizes == [] then 0
    else SpillTotal(pgsize, sizes[..|sizes| - 1]) + SpillPages(pgsize, sizes[|sizes| - 1])
  }

  function OvflPages(prot: Protection, pgsize: nat, size: uint32): nat
    requires DB_MIN_PGSIZE <= pgsize <= DB_MAX_PGSIZE
  {
    if size > OvflSize(prot, pgsize) then SpillPages(pgsize, size) else 0
  }

  /** Overflow pages needed for items of these sizes, most of which may stay on their pages. */
  function OvflTotal(prot: Protection, pgsize: nat, sizes: seq<uint32>): nat
    requires DB_MIN_PGSIZE <= pgsize <= DB_MAX_PGSIZE
  {
    if sizes == [] then 0
    else OvflTotal(prot, pgsize, sizes[..|sizes| - 1]) + OvflPages(prot, pgsize, sizes[|sizes| - 1])
  }

  lemma {:induction false} SpillTotalConcat(pgsize: nat, a: seq<uint32>, b: seq<uint32>)
    requires SIZEOF_PAGE < pgsize
    ensures SpillTotal(pgsize, a + b) == SpillTotal(pgsize, a) + SpillTotal(pgsize, b)
  {
    if b == [] {
      assert a + b == a;
    } else {
      assert (a + b)[..|a + b| - 1] == a + b[..|b| - 1];
      SpillTotalConcat(pgsize, a, b[..|b| - 1]);
    }
  }

  lemma {:induction false} OvflTotalConcat(prot: Protection, pgsize: nat, a: seq<uint32>, b: seq<uint32>)
    requires DB_MIN_PGSIZE <= pgsize <= DB_MAX_PGSIZE
    ensures OvflTotal(prot, pgsize, a + b) == OvflTotal(prot, pgsize, a) + OvflTotal(prot, pgsize, b)
  {
    if b == [] {
      assert a + b == a;
    } else {
      assert (a + b)[..|a + b| - 1] == a + b[..|b| - 1];
      OvflTotalConcat(prot, pgsize, a, b[..|b| - 1]);
    }
  }

  lemma SpillIsOvfl(prot: Protection, pgsize: nat, size: uint32)
    requires DB_MIN_PGSIZE <= pgsize <= DB_MAX_PGSIZE
    ensures SpillTotal(pgsize, Spill(prot, pgsize, size)) == OvflPages(prot, pgsize, size)
    ensures OvflTotal(prot, pgsize, [size]) == OvflPages(prot, pgsize, size)
    ensures OvflPages(prot, pgsize, 0) == 0
  {
    hide OvflSize;
    OvflSizeValue(prot, pgsize);
    assert [size][..0] == [];
  }

  /** The overflow pages of the items that these insertions charge. */
  function Charged(prot: Protection, pgsize: nat, ops: seq<Op>): nat
    requires DB_MIN_PGSIZE <= pgsize <= DB_MAX_PGSIZE
  {
    OvflTotal(prot, pgsize, KeysCharged(ops)) + OvflTotal(prot, pgsize, DataCharged(ops))
  }

  lemma ChargedAppend(prot: Protection, pgsize: nat, a: seq<Op>, b: seq<Op>)
    requires DB_MIN_PGSIZE <= pgsize <= DB_MAX_PGSIZE
    ensures Charged(prot, pgsize, a + b) == Charged(prot, pgsize, a) + Charged(prot, pgsize, b)
  {
    ChargedConcat(a, b);
    OvflTotalConcat(prot, pgsize, KeysCharged(a), KeysCharged(b));
    OvflTotalConcat(prot, pgsize, DataCharged(a), DataCharged(b));
  }

  lemma OvflTotalEmpty(prot: Protection, pgsize: nat)
    requires DB_MIN_PGSIZE <= pgsize <= DB_MAX_PGSIZE
    ensures OvflTotal(prot, pgsize, []) == 0
  {
  }

  lemma ChargedOp(prot: Protection, pgsize: nat, s: Sim, op: Op)
    requires DB_MIN_PGSIZE <= pgsize <= DB_MAX_PGSIZE && WellFormed([op])
    ensures SpillTotal(pgsize, Step(prot, pgsize, s, op).spilled)
            == SpillTotal(pgsize, s.spilled) + Charged(prot, pgsize, [op])
  {
    hide OvflSize, KeyDataSpace, Place, SpillTotal, OvflTotal, DbAlign, Pow2, KeysCharged, DataCharged;
    ChargedOne(op);
    OvflTotalEmpty(prot, pgsize);
    assert [op][0] == op;
    match op
    case Pair(k, d, _, _) =>
      SpillIsOvfl(prot, pgsize, k);
      SpillIsOvfl(prot, pgsize, d);
      SpaceValues();
      SpillTotalConcat(pgsize, s.spilled, Spill(prot, pgsize, k));
      SpillTotalConcat(pgsize, s.spilled + Spill(prot, pgsize, k), Spill(prot, pgsize, d));
      OvflSizeValue(prot, pgsize);
    case DupItem(d) =>
      SpillIsOvfl(prot, pgsize, d);
      SpillTotalConcat(pgsize, s.spilled, Spill(prot, pgsize, d));
    case EndSet =>
  }

  lemma NothingCharged(prot: Protection, pgsize: nat)
    requires DB_MIN_PGSIZE <= pgsize <= DB_MAX_PGSIZE
    ensures Charged(prot, pgsize, []) == 0
  {
    ChargedOne(EndSet);
  }

  /** The simulated overflow pages are those of the charged items, by whatever route they came. */
  lemma {:induction false} SpilledIsCharged(prot: Protection, pgsize: nat, s: Sim, ops: seq<Op>)
    requires DB_MIN_PGSIZE <= pgsize <= DB_MAX_PGSIZE && WellFormed(ops)
    ensures SpillTotal(pgsize, Run(prot, pgsize, s, ops).spilled)
            == SpillTotal(pgsize, s.spilled) + Charged(prot, pgsize, ops)
  {
    hide Step, Charged, SpillTotal, Run;
    RunNone(prot, pgsize, s);
    if ops != [] {
      var front, last := ops[..|ops| - 1], ops[|ops| - 1];
      SpilledIsCharged(prot, pgsize, s, front);
      ChargedOp(prot, pgsize, Run(prot, pgsize, s, front), last);
      ChargedAppend(prot, pgsize, front, [last]);
      RunConcat(prot, pgsize, s, front, [last]);
      RunOne(prot, pgsize, Run(prot, pgsize, s, front), last);
      assert ops == front + [last];
    } else {
      NothingCharged(prot, pgsize);
    }
  }

  // ---------- across page sizes ----------

  lemma DivMono(x: nat, a: nat, b: nat)
    requires 0 < a <= b
    ensures x / b <= x / a
  {
    var q := x / b;
    DivAtLeast(x, b, q);
    DivAtLeast(x, a, q);
    MulMono(q, a, b);
  }

  lemma OvflPagesShrink(prot: Protection, small: nat, large: nat, size: uint32)
    requires DB_MIN_PGSIZE <= small <= large <= DB_MAX_PGSIZE
    ensures OvflPages(prot, large, size) <= OvflPages(prot, small, size)
  {
    hide OvflSize;
    OvflSizeValue(prot, small);
    OvflSizeValue(prot, large);
    DivMono(size, Usable(small), Usable(large));
  }

  lemma {:induction false} OvflTotalShrinks(prot: Protection, small: nat, large: nat, sizes: seq<uint32>)
    requires DB_MIN_PGSIZE <= small <= large <= DB_MAX_PGSIZE
    ensures OvflTotal(prot, large, sizes) <= OvflTotal(prot, small, sizes)
  {
    if sizes != [] {
      OvflTotalShrinks(prot, small, large, sizes[..|sizes| - 1]);
      OvflPagesShrink(prot, small, large, sizes[|sizes| - 1]);
    }
  }

  /** A group may go off its page at the small size and stay at the large one, and yet never charge more there. */
  lemma GroupShrinks(prot: Protection, small: nat, large: nat, g: Group)
    requires DB_MIN_PGSIZE <= small <= large <= DB_MAX_PGSIZE
    requires |g.data| >= 1 && !Stuck(g)
    ensures Charged(prot, large, GroupOps(large, g)) <= Charged(prot, small, GroupOps(small, g))
    ensures WellFormed(GroupOps(large, g)) && WellFormed(GroupOps(small, g))
  {
    GroupIsChargedOnce(small, g);
    GroupIsChargedOnce(large, g);
    hide GroupOps, OvflTotal;
    assert KeyIsCharged(large, g) ==> KeyIsCharged(small, g) by {
      assert small / 4 <= large / 4;
    }
    OvflTotalShrinks(prot, small, large, [ItemSize(g.key)]);
    OvflTotalShrinks(prot, small, large, Sizes(GroupData(g)));
    OvflTotalEmpty(prot, large);
  }

  lemma WellFormedConcat(a: seq<Op>, b: seq<Op>)
    requires WellFormed(a) && WellFormed(b)
    ensures WellFormed(a + b)
  {
  }

  lemma {:induction false} LeafShrinks(prot: Protection, small: nat, large: nat, page: seq<Slot>, indx: nat)
    requires DB_MIN_PGSIZE <= small <= large <= DB_MAX_PGSIZE
    requires IsLeaf(page) && indx % 2 == 0 && indx <= |page| && Scannable(page, indx)
    ensures Charged(prot, large, LeafOps(large, page, indx)) <= Charged(prot, small, LeafOps(small, page, indx))
    ensures WellFormed(LeafOps(large, page, indx)) && WellFormed(LeafOps(small, page, indx))
    decreases |page| - indx
  {
    if indx < |page| {
      var g, next := GroupAt(page, indx), RunEnd(page, indx, indx);
      LeafShrinks(prot, small, large, page, next);
      GroupShrinks(prot, small, large, g);
      hide GroupOps, GroupAt, Charged, WellFormed;
      ChargedAppend(prot, small, GroupOps(small, g), LeafOps(small, page, next));
      ChargedAppend(prot, large, GroupOps(large, g), LeafOps(large, page, next));
      WellFormedConcat(GroupOps(small, g), LeafOps(small, page, next));
      WellFormedConcat(GroupOps(large, g), LeafOps(large, page, next));
    }
  }

  function Copies(n: nat, s: seq<uint32>): seq<uint32> {
    if n == 0 then [] else Copies(n - 1, s) + s
  }

  lemma {:induction false} RepeatCharge(n: nat, ops: seq<Op>)
    requires KeysCharged(ops) == []
    ensures KeysCharged(Repeat(n, ops)) == []
    ensures DataCharged(Repeat(n, ops)) == Copies(n, DataCharged(ops))
  {
    hide KeysCharged, DataCharged;
    ChargedOne(EndSet);
    if n > 0 {
      RepeatCharge(n - 1, ops);
      ChargedConcat(Repeat(n - 1, ops), ops);
    }
  }

  lemma {:induction false} RepeatIsWellFormed(n: nat, ops: seq<Op>)
    requires WellFormed(ops)
    ensures WellFormed(Repeat(n, ops))
  {
    if n > 0 { RepeatIsWellFormed(n - 1, ops); }
  }

  /** The pointer before an off-page set and the end after it charge nothing. */
  lemma OffPageFrame(body: seq<Op>)
    requires WellFormed(body)
    ensures var ops := [Pair(0, 0, Nothing, BDuplicate)] + body + [EndSet];
            KeysCharged(ops) == KeysCharged(body) && DataCharged(ops) == DataCharged(body) && WellFormed(ops)
  {
    hide KeysCharged, DataCharged;
    ChargedAround(Pair(0, 0, Nothing, BDuplicate), body, EndSet);
  }

  /** An off-page set charges its first page's live items once for each page of the chain. */
  lemma ChainCharge(chain: Chain, offPage: bool)
    ensures KeysCharged(ChainOps(chain, offPage)) == []
    ensures DataCharged(ChainOps(chain, offPage)) == Copies(|chain|, Sizes(Live(chain[0])))
    ensures WellFormed(ChainOps(chain, offPage))
  {
    hide KeysCharged, DataCharged, Flat, Repeat, WellFormed, Copies;
    var first := Sizes(Live(chain[0]));
    ListsAreWellFormed(first);
    if offPage {
      DupItemsCharge(first);
      RepeatCharge(|chain|, DupItems(first));
      RepeatIsWellFormed(|chain|, DupItems(first));
      OffPageFrame(Repeat(|chain|, DupItems(first)));
    } else {
      SlotPairsCharge(first);
      RepeatCharge(|chain|, SlotPairs(first));
      RepeatIsWellFormed(|chain|, SlotPairs(first));
    }
  }

  /** The live data of all pages of a chain. */
  function WholeChain(chain: seq<seq<Item>>): seq<uint32> {
    if chain == [] then [] else Sizes(Live(chain[0])) + WholeChain(chain[1..])
  }

  lemma NoCopies(s: seq<uint32>)
    ensures Copies(0, s) == []
  {
  }

  lemma CopiesNext(n: nat, s: seq<uint32>)
    ensures Copies(n + 1, s) == Copies(n, s) + s
  {
  }

  lemma Regroup(a: seq<uint32>, b: seq<uint32>, c: seq<uint32>)
    ensures a + (b + c) == a + b + c
  {
  }

  lemma SameAfter(first: seq<uint32>, a: seq<uint32>, b: seq<uint32>)
    ensures first + a == first + b <==> a == b
  {
    assert (first + a)[|first|..] == a && (first + b)[|first|..] == b;
  }

  lemma Around(s: seq<uint32>)
    ensures s + [] == [] + s
  {
  }

  lemma {:induction false} CopiesFront(n: nat, s: seq<uint32>)
    ensures s + Copies(n, s) == Copies(n + 1, s)
  {
    hide Copies;
    NoCopies(s);
    CopiesNext(n, s);
    if n > 0 {
      CopiesFront(n - 1, s);
      CopiesNext(n - 1, s);
      Regroup(s, Copies(n - 1, s), s);
    } else {
      Around(s);
    }
  }

  /**
   * The data of an off-page set is charged as it is exactly if what follows the first page repeats
   * that page over and over, as it does when there is nothing after the first page.
   */
  lemma ChainIsExactWhenItRepeats(chain: Chain, offPage: bool)
    ensures DataCharged(ChainOps(chain, offPage)) == WholeChain(chain)
            <==> WholeChain(chain[1..]) == Copies(|chain| - 1, Sizes(Live(chain[0])))
    ensures |chain| == 1 ==> DataCharged(ChainOps(chain, offPage)) == WholeChain(chain)
  {
    hide DataCharged, ChainOps, Sizes, Live, Copies;
    var first := Sizes(Live(chain[0]));
    ChainCharge(chain, offPage);
    CopiesFront(|chain| - 1, first);
    SameAfter(first, WholeChain(chain[1..]), Copies(|chain| - 1, first));
    NoCopies(first);
  }

  /** Two pages of one item each: the first item is charged twice and the second never. */
  lemma SecondPageIsMissed(a: Item, b: Item, offPage: bool)
    requires !a.deleted && !b.deleted && ItemSize(a) != ItemSize(b)
    ensures DataCharged(ChainOps([[a], [b]], offPage)) == [ItemSize(a), ItemSize(a)]
    ensures WholeChain([[a], [b]]) == [ItemSize(a), ItemSize(b)]
  {
    hide DataCharged, ChainOps, Flat, ItemSize;
    var chain: Chain := [[a], [b]];
    ChainCharge(chain, offPage);
    FlatOne(a, IfLive);
    FlatOne(a, OneSize);
    FlatOne(b, IfLive);
    FlatOne(b, OneSize);
    assert Copies(1, [ItemSize(a)]) == [] + [ItemSize(a)];
    assert Copies(2, [ItemSize(a)]) == Copies(1, [ItemSize(a)]) + [ItemSize(a)];
    var second := [[b]];
    assert chain[1..] == second && second[1..] == [];
    assert WholeChain(second) == [ItemSize(b)] + [];
  }

  lemma PageShrinks(prot: Protection, small: nat, large: nat, p: TreePage)
    requires DB_MIN_PGSIZE <= small <= large <= DB_MAX_PGSIZE && Readable(p)
    ensures Charged(prot, large, PageOps(large, p)) <= Charged(prot, small, PageOps(small, p))
    ensures WellFormed(PageOps(large, p)) && WellFormed(PageOps(small, p))
  {
    match p
    case Leaf(entries) =>
      LeafShrinks(prot, small, large, entries, 0);
    case FirstDup(chain) =>
      ChainCharge(chain, GoesOffPage(ChainSpace(chain), small));
      ChainCharge(chain, GoesOffPage(ChainSpace(chain), large));
      OvflTotalEmpty(prot, large);
      OvflTotalShrinks(prot, small, large, Copies(|chain|, Sizes(Live(chain[0]))));
    case _ =>
      assert KeysCharged([]) == [] && DataCharged([]) == [];
      OvflTotalEmpty(prot, large);
  }

  lemma {:induction false} TraversalShrinks(prot: Protection, small: nat, large: nat, pages: seq<TreePage>)
    requires DB_MIN_PGSIZE <= small <= large <= DB_MAX_PGSIZE
    requires forall k :: 0 <= k < |pages| ==> Readable(pages[k])
    ensures Charged(prot, large, TraversalOps(large, pages)) <= Charged(prot, small, TraversalOps(small, pages))
    ensures WellFormed(TraversalOps(large, pages)) && WellFormed(TraversalOps(small, pages))
  {
    if pages == [] {
      PageShrinks(prot, small, large, NoRecords);
    } else {
      var n := |pages| - 1;
      TraversalShrinks(prot, small, large, pages[..n]);
      PageShrinks(prot, small, large, pages[n]);
      hide PageOps, Charged, WellFormed;
      ChargedAppend(prot, small, TraversalOps(small, pages[..n]), PageOps(small, pages[n]));
      ChargedAppend(prot, large, TraversalOps(large, pages[..n]), PageOps(large, pages[n]));
      WellFormedConcat(TraversalOps(small, pages[..n]), PageOps(small, pages[n]));
      WellFormedConcat(TraversalOps(large, pages[..n]), PageOps(large, pages[n]));
    }
  }

  /** The simulated database after a traversal. */
  function Simulate(prot: Protection, i: nat, pages: seq<TreePage>): Sim
    requires i < NUM_PGSIZES && forall k :: 0 <= k < |pages| ==> Readable(pages[k])
  {
    PageSizeInRange(i);
    Run(prot, PageSize(i), START, TraversalOps(PageSize(i), pages))
  }

  /** Over any traversal the overflow pages never increase with the page size. */
  lemma OverflowNeverIncreases(prot: Protection, i: nat, j: nat, pages: seq<TreePage>)
    requires i <= j < NUM_PGSIZES && forall k :: 0 <= k < |pages| ==> Readable(pages[k])
    ensures DB_MIN_PGSIZE <= PageSize(i) <= PageSize(j) <= DB_MAX_PGSIZE
    ensures SpillTotal(PageSize(j), Simulate(prot, j, pages).spilled)
            <= SpillTotal(PageSize(i), Simulate(prot, i, pages).spilled)
  {
    PageSizeInRange(i);
    PageSizeInRange(j);
    Pow2Mono(i, j);
    var small, large := PageSize(i), PageSize(j);
    TraversalShrinks(prot, small, large, pages);
    SpilledIsCharged(prot, small, START, TraversalOps(small, pages));
    SpilledIsCharged(prot, large, START, TraversalOps(large, pages));
  }

  // ---------- the 16-bit cast ----------

  /** The space of an item is what it takes on a page exactly below 65530 bytes. */
  lemma SpaceIsExactBelowTheCast(size: uint32)
    ensures size < KeyDataSpace(size) <==> size < 65530
    ensures size < 65530 ==> KeyDataSpace(size) % 4 == 2 && size + 3 + INDX_SIZE <= KeyDataSpace(size) < size + 7 + INDX_SIZE
  {
    hide KeyDataSpace;
    KeyDataSpaceValue(size);
  }

  /** The space of an item without the cast. */
  function FullSpace(x: Item): nat {
    (ItemSize(x) + 6) / 4 * 4 + INDX_SIZE
  }

  /** Items that the cast leaves as they are. */
  predicate BelowTheCast(items: seq<Item>) {
    forall k :: 0 <= k < |items| ==> ItemSize(items[k]) < 65530
  }

  lemma SpaceIsFull(x: Item)
    ensures ItemSpace(x) <= FullSpace(x)
    ensures ItemSpace(x) == FullSpace(x) <==> ItemSize(x) < 65530
  {
    hide KeyDataSpace;
    KeyDataSpaceValue(ItemSize(x));
  }

  lemma {:induction false} TotalIsFull(items: seq<Item>)
    ensures Total(items, ItemSpace) <= Total(items, FullSpace)
    ensures Total(items, ItemSpace) == Total(items, FullSpace) <==> BelowTheCast(items)
  {
    hide ItemSpace, FullSpace, ItemSize;
    if items != [] {
      TotalIsFull(items[..|items| - 1]);
      SpaceIsFull(items[|items| - 1]);
    }
  }

  function FullSetSpace(g: Group): nat {
    FullSpace(g.key) + Total(Live(g.data), FullSpace)
  }

  function FullChainSpace(chain: seq<seq<Item>>): nat {
    if chain == [] then 0
    else FullChainSpace(chain[..|chain| - 1]) + Total(Live(chain[|chain| - 1]), FullSpace)
  }

  /**
   * The space computed for a set on a leaf page never exceeds its true space, and is the true one
   * exactly if its key and live data items are all below 65530 bytes; such a set goes off the page
   * exactly if its true space is a quarter of the page or more.
   */
  lemma SetSpaceIsFull(g: Group, pgsize: nat)
    ensures SetSpace(g) <= FullSetSpace(g)
    ensures SetSpace(g) == FullSetSpace(g) <==> BelowTheCast([g.key] + Live(g.data))
    ensures BelowTheCast([g.key] + Live(g.data)) ==>
              (GoesOffPage(SetSpace(g), pgsize) <==> FullSetSpace(g) >= pgsize / 4)
  {
    hide ItemSpace, FullSpace, ItemSize, Total, Live;
    SpaceIsFull(g.key);
    TotalIsFull(Live(g.data));
    var all := [g.key] + Live(g.data);
    assert all[0] == g.key && forall k :: 0 <= k < |Live(g.data)| ==> all[k + 1] == Live(g.data)[k];
  }

  /** The items of all these pages. */
  function ChainItems(chain: seq<seq<Item>>): seq<Item> {
    if chain == [] then [] else ChainItems(chain[..|chain| - 1]) + Live(chain[|chain| - 1])
  }

  lemma NoTotals()
    ensures Total([], ItemSpace) == 0 && Total([], FullSpace) == 0
  {
  }

  lemma {:induction false} ChainTotals(chain: seq<seq<Item>>)
    ensures ChainBytes(chain) == Total(ChainItems(chain), ItemSpace)
    ensures FullChainSpace(chain) == Total(ChainItems(chain), FullSpace)
  {
    hide ItemSpace, FullSpace, Live, Total;
    if chain == [] {
      NoTotals();
    } else {
      ChainTotals(chain[..|chain| - 1]);
      TotalConcat(ChainItems(chain[..|chain| - 1]), Live(chain[|chain| - 1]), ItemSpace);
      TotalConcat(ChainItems(chain[..|chain| - 1]), Live(chain[|chain| - 1]), FullSpace);
    }
  }

  /** The same for an off-page set, whose space must also fit 32 bits. */
  lemma ChainSpaceIsFull(chain: seq<seq<Item>>, pgsize: nat)
    ensures ChainSpace(chain) <= FullChainSpace(chain)
    ensures ChainSpace(chain) == FullChainSpace(chain) <==>
              BelowTheCast(ChainItems(chain)) && FullChainSpace(chain) < UINT32_RANGE
    ensures BelowTheCast(ChainItems(chain)) && FullChainSpace(chain) < UINT32_RANGE ==>
              (GoesOffPage(ChainSpace(chain), pgsize) <==> FullChainSpace(chain) >= pgsize / 4)
  {
    hide BelowTheCast, ChainItems, ChainBytes, FullChainSpace, Total;
    ChainTotals(chain);
    TotalIsFull(ChainItems(chain));
    var n := ChainBytes(chain);
    assert n % UINT32_RANGE == n <==> n < UINT32_RANGE;
  }

  /** A key of one byte and two data items of 65530 bytes. */
  const LARGE := Item(Overflow, 12, 65530, false)
  const LARGE_SET := Group(Item(KeyData, 1, 0, false), [LARGE, LARGE])

  /** A set of more than 128 kilobytes that looks small enough to stay on a page of any of the eight sizes. */
  lemma CastKeepsLargeSet(i: nat)
    requires i < NUM_PGSIZES
    ensures FullSetSpace(LARGE_SET) >= PageSize(i) && !GoesOffPage(SetSpace(LARGE_SET), PageSize(i))
  {
    hide KeyDataSpace, Pow2, Flat, Total;
    var data := LARGE_SET.data;
    PageSizes();
    PageSizeInRange(i);
    FlatOne(LARGE, IfLive);
    FlatAppend([LARGE], LARGE, IfLive);
    assert [LARGE] + [LARGE] == data;
    assert Live(data) == data;
    TotalOne(LARGE, ItemSpace);
    TotalAppend([LARGE], LARGE, ItemSpace);
    TotalOne(LARGE, FullSpace);
    TotalAppend([LARGE], LARGE, FullSpace);
    KeyDataSpaceValue(65530);
    KeyDataSpaceValue(1);
  }
}
