/** Building translation tables through the recursive slot (aarch64/src/vm.rs). */
module PageMap {
  import opened Prelude
  import opened PageTable

  // ----- The shape of the tables -----

  /** A path that names a place for a table below a root: at most three slots,
      never through the root's recursive slot. */
  ghost predicate InDomain(roots: set<nat>, r: nat, p: seq<nat>) {
    r in roots && |p| <= 3 && (p != [] ==> p[0] != RECURSIVE_SLOT)
  }

  ghost predicate Unique(mem: Mem, roots: set<nat>, r: nat, p: seq<nat>, r': nat, p': seq<nat>) {
    InDomain(roots, r, p) && InDomain(roots, r', p') ==>
      NodeAt(mem, r, p).Some? && NodeAt(mem, r, p) == NodeAt(mem, r', p') ==> r == r' && p == p'
  }

  ghost predicate InUse(mem: Mem, roots: set<nat>, spare: set<nat>, r: nat, p: seq<nat>) {
    InDomain(roots, r, p) && NodeAt(mem, r, p).Some? ==> NodeAt(mem, r, p).value !in spare
  }

  /** No table page hangs under two parents or two roots, and none is spare. */
  ghost predicate Forest(mem: Mem, roots: set<nat>, spare: set<nat>) {
    && (forall r: nat, p: seq<nat>, r': nat, p': seq<nat> :: Unique(mem, roots, r, p, r', p'))
    && (forall r: nat, p: seq<nat> :: InUse(mem, roots, spare, r, p))
  }

  // `mem'` differs from `mem` at most in slot `i` of table `t` and on spare pages.
  ghost predicate OnlySlot(mem: Mem, mem': Mem, t: nat, i: nat, spare: set<nat>) {
    forall f: nat, j: nat {:trigger Read(mem', f, j)} ::
      (f == t && j == i) || f in spare || Read(mem', f, j) == Read(mem, f, j)
  }

  /** Writing one slot moves no table except those below that slot. */
  lemma {:induction false} SlotFrame(mem: Mem, mem': Mem, roots: set<nat>, spare: set<nat>,
                                     r0: nat, p0: seq<nat>, i: nat, r: nat, p: seq<nat>)
    requires Forest(mem, roots, spare) && InDomain(roots, r0, p0) && NodeAt(mem, r0, p0).Some?
    requires OnlySlot(mem, mem', NodeAt(mem, r0, p0).value, i, spare)
    requires InDomain(roots, r, p) && !(r == r0 && p0 + [i] <= p)
    ensures NodeAt(mem', r, p) == NodeAt(mem, r, p)
    decreases |p|
  {
    if p != [] {
      var q, last := p[..|p| - 1], p[|p| - 1];
      NotUnder(p0 + [i], q, last);
      assert p == q + [last];
      SlotFrame(mem, mem', roots, spare, r0, p0, i, r, q);
      assert Unique(mem, roots, r, q, r0, p0) && InUse(mem, roots, spare, r, q);
    }
  }

  lemma NotUnder(a: seq<nat>, q: seq<nat>, last: nat)
    ensures a <= q ==> a <= q + [last]
    ensures a == q + [last] ==> a <= q + [last]
  {
  }

  // ----- Translations -----

  datatype Leaf = Leaf(entry: Entry, level: nat)

  /** The translation of an address with indices `idx` from table `t` on: the
      first valid entry that is not a table.  A descriptor that names a table past
      the end of physical memory leads nowhere. */
  function LeafFrom(mem: Mem, t: nat, idx: seq<nat>, level: Level): Option<Leaf>
    requires |idx| == 4
    decreases 4 - level
  {
    var e := Read(mem, t, idx[level]);
    if !e.valid then None
    else if e.IsTable(level) then if e.frame < FRAMES then LeafFrom(mem, e.frame, idx, level + 1) else None
    else Some(Leaf(e, level))
  }

  function LeafAt(mem: Mem, root: nat, va: nat): Option<Leaf> {
    LeafFrom(mem, root, Indices(va), 0)
  }

  // Indices outside the recursive window of a root.
  predicate Ordinary(idx: seq<nat>) {
    |idx| == 4 && idx[0] != RECURSIVE_SLOT
  }

  lemma PathStep(mem: Mem, r: nat, idx: seq<nat>, level: Level)
    requires |idx| == 4
    ensures NodeAt(mem, r, idx[..level + 1]) ==
            if NodeAt(mem, r, idx[..level]).Some?
            then Child(mem, NodeAt(mem, r, idx[..level]).value, idx[level]) else None
  {
    assert idx[..level + 1] == idx[..level] + [idx[level]];
    NodeStep(mem, r, idx[..level], idx[level]);
  }

  /** Writing one slot changes no translation except those that go through it. */
  lemma {:induction false} LeafFrame(mem: Mem, mem': Mem, roots: set<nat>, spare: set<nat>,
                                     r0: nat, p0: seq<nat>, i: nat, r: nat, idx: seq<nat>, level: Level, t: nat)
    requires Forest(mem, roots, spare) && InDomain(roots, r0, p0) && NodeAt(mem, r0, p0).Some?
    requires OnlySlot(mem, mem', NodeAt(mem, r0, p0).value, i, spare)
    requires r in roots && Ordinary(idx) && !(r == r0 && p0 + [i] <= idx)
    requires NodeAt(mem, r, idx[..level]) == Some(t)
    ensures LeafFrom(mem', t, idx, level) == LeafFrom(mem, t, idx, level)
    decreases 4 - level
  {
    var p := idx[..level];
    assert Unique(mem, roots, r, p, r0, p0) && InUse(mem, roots, spare, r, p);
    assert p == p0 && idx[level] == i ==> p0 + [i] <= idx;
    var e := Read(mem, t, idx[level]);
    if e.valid && e.IsTable(level) && e.frame < FRAMES {
      PathStep(mem, r, idx, level);
      LeafFrame(mem, mem', roots, spare, r0, p0, i, r, idx, level + 1, e.frame);
    }
  }

  lemma {:induction false} LeafVia(mem: Mem, r: nat, idx: seq<nat>, level: Level, t: nat)
    requires |idx| == 4 && NodeAt(mem, r, idx[..level]) == Some(t)
    ensures LeafFrom(mem, r, idx, 0) == LeafFrom(mem, t, idx, level)
  {
    if level > 0 {
      PathStep(mem, r, idx, level - 1);
      LeafVia(mem, r, idx, level - 1, NodeAt(mem, r, idx[..level - 1]).value);
    }
  }

  ghost predicate SameLeaf(mem: Mem, mem': Mem, roots: set<nat>, r: nat, idx: seq<nat>) {
    r in roots && Ordinary(idx) ==> LeafFrom(mem', r, idx, 0) == LeafFrom(mem, r, idx, 0)
  }

  ghost predicate SameLeaves(mem: Mem, mem': Mem, roots: set<nat>) {
    forall r: nat, idx: seq<nat> :: SameLeaf(mem, mem', roots, r, idx)
  }

  ghost predicate SameRootSlots(mem: Mem, mem': Mem, roots: set<nat>) {
    forall r: nat :: r in roots ==> Read(mem', r, RECURSIVE_SLOT) == Read(mem, r, RECURSIVE_SLOT)
  }

  lemma LeavesTwice(mem: Mem, mem': Mem, mem'': Mem, roots: set<nat>)
    requires SameLeaves(mem, mem', roots) && SameLeaves(mem', mem'', roots)
    ensures SameLeaves(mem, mem'', roots)
  {
    forall r: nat, idx: seq<nat> ensures SameLeaf(mem, mem'', roots, r, idx) {
      assert SameLeaf(mem, mem', roots, r, idx) && SameLeaf(mem', mem'', roots, r, idx);
    }
  }

  // ----- The three kinds of write -----

  ghost predicate Shrunk(mem: Mem, mem': Mem, roots: set<nat>, r: nat, p: seq<nat>) {
    InDomain(roots, r, p) ==> NodeAt(mem', r, p).None? || NodeAt(mem', r, p) == NodeAt(mem, r, p)
  }

  lemma ShrunkForest(mem: Mem, mem': Mem, roots: set<nat>, spare: set<nat>)
    requires Forest(mem, roots, spare)
    requires forall r: nat, p: seq<nat> :: Shrunk(mem, mem', roots, r, p)
    ensures Forest(mem', roots, spare)
  {
    forall r: nat, p: seq<nat>, r': nat, p': seq<nat> ensures Unique(mem', roots, r, p, r', p') {
      assert Shrunk(mem, mem', roots, r, p) && Shrunk(mem, mem', roots, r', p') && Unique(mem, roots, r, p, r', p');
    }
    forall r: nat, p: seq<nat> ensures InUse(mem', roots, spare, r, p) {
      assert Shrunk(mem, mem', roots, r, p) && InUse(mem, roots, spare, r, p);
    }
  }

  /** Writing a root's recursive slot moves no table and changes no ordinary translation. */
  lemma RootSlotWrite(mem: Mem, roots: set<nat>, spare: set<nat>, root: nat, e: Entry)
    requires Forest(mem, roots, spare) && root in roots
    ensures var mem' := Write(mem, root, RECURSIVE_SLOT, e);
            Forest(mem', roots, spare) && SameLeaves(mem, mem', roots)
            && forall r: nat, p: seq<nat> :: InDomain(roots, r, p) ==> NodeAt(mem', r, p) == NodeAt(mem, r, p)
  {
    var mem' := Write(mem, root, RECURSIVE_SLOT, e);
    forall r: nat, p: seq<nat> | InDomain(roots, r, p) ensures NodeAt(mem', r, p) == NodeAt(mem, r, p) {
      SlotFrame(mem, mem', roots, spare, root, [], RECURSIVE_SLOT, r, p);
    }
    forall r: nat, p: seq<nat> ensures Shrunk(mem, mem', roots, r, p) {
    }
    ShrunkForest(mem, mem', roots, spare);
    forall r: nat, idx: seq<nat> | r in roots && Ordinary(idx) ensures SameLeaf(mem, mem', roots, r, idx) {
      LeafFrame(mem, mem', roots, spare, root, [], RECURSIVE_SLOT, r, idx, 0, r);
    }
  }

  // Memory after hanging the cleared page `f` in slot `i` of table `t`.
  function Hang(mem: Mem, t: nat, i: nat, f: nat): Mem {
    Clear(Write(mem, t, i, TableEntry(f)), f)
  }

  // Where a new table may be hung.
  ghost predicate Vacant(mem: Mem, roots: set<nat>, r: nat, p: seq<nat>, i: nat) {
    InDomain(roots, r, p + [i]) && InDomain(roots, r, p) && NodeAt(mem, r, p).Some?
    && !Read(mem, NodeAt(mem, r, p).value, i).valid
  }

  // The new table is found at its own path, and nothing below it.
  lemma HangBelow(mem: Mem, mem': Mem, r0: nat, p0: seq<nat>, i: nat, f: nat, p: seq<nat>)
    requires NodeAt(mem, r0, p0 + [i]).None? && NodeAt(mem', r0, p0 + [i]) == Some(f) && p0 + [i] <= p
    requires forall j: nat :: !Read(mem', f, j).valid
    ensures NodeAt(mem, r0, p).None? && NodeAt(mem', r0, p) == if p == p0 + [i] then Some(f) else None
  {
    var k := |p0| + 1;
    assert p[..k] == p0 + [i];
    NoNodeBelow(mem, r0, p, k);
    if k < |p| {
      NodeStep(mem', r0, p[..k], p[k]);
      assert p[..k] + [p[k]] == p[..k + 1];
      NoNodeBelow(mem', r0, p, k + 1);
    }
  }

  lemma HangNode(mem: Mem, roots: set<nat>, spare: set<nat>, r0: nat, p0: seq<nat>, i: nat, f: nat, r: nat, p: seq<nat>)
    requires Forest(mem, roots, spare) && f in spare && f < FRAMES && Vacant(mem, roots, r0, p0, i)
    requires InDomain(roots, r, p)
    ensures NodeAt(Hang(mem, NodeAt(mem, r0, p0).value, i, f), r, p) ==
            if r == r0 && p == p0 + [i] then Some(f) else NodeAt(mem, r, p)
  {
    var t := NodeAt(mem, r0, p0).value;
    var mem' := Hang(mem, t, i, f);
    assert InUse(mem, roots, spare, r0, p0);
    if r == r0 && p0 + [i] <= p {
      SlotFrame(mem, mem', roots, spare, r0, p0, i, r0, p0);
      NodeStep(mem, r0, p0, i);
      NodeStep(mem', r0, p0, i);
      HangBelow(mem, mem', r0, p0, i, f, p);
    } else {
      SlotFrame(mem, mem', roots, spare, r0, p0, i, r, p);
    }
  }

  lemma HangLeaf(mem: Mem, roots: set<nat>, spare: set<nat>, r0: nat, p0: seq<nat>, i: nat, f: nat, r: nat,
                 idx: seq<nat>)
    requires Forest(mem, roots, spare) && f in spare && f < FRAMES && Vacant(mem, roots, r0, p0, i) && r in roots
    requires Ordinary(idx)
    ensures LeafFrom(Hang(mem, NodeAt(mem, r0, p0).value, i, f), r, idx, 0) == LeafFrom(mem, r, idx, 0)
  {
    var t := NodeAt(mem, r0, p0).value;
    var mem' := Hang(mem, t, i, f);
    if r == r0 && p0 + [i] <= idx {
      assert idx[..|p0|] == p0 && idx[..|p0| + 1] == p0 + [i];
      HangNode(mem, roots, spare, r0, p0, i, f, r0, p0 + [i]);
      LeafVia(mem, r0, idx, |p0|, t);
      LeafVia(mem', r0, idx, |p0| + 1, f);
    } else {
      LeafFrame(mem, mem', roots, spare, r0, p0, i, r, idx, 0, r);
    }
  }

  // Where the tables are after hanging page `f` at path `q` of root `r0`.
  ghost predicate HungAt(mem: Mem, mem': Mem, roots: set<nat>, r0: nat, q: seq<nat>, f: nat, r: nat, p: seq<nat>) {
    InDomain(roots, r, p) ==> NodeAt(mem', r, p) == if r == r0 && p == q then Some(f) else NodeAt(mem, r, p)
  }

  lemma HangForest(mem: Mem, mem': Mem, roots: set<nat>, spare: set<nat>, r0: nat, q: seq<nat>, f: nat)
    requires Forest(mem, roots, spare) && f in spare
    requires forall r: nat, p: seq<nat> :: HungAt(mem, mem', roots, r0, q, f, r, p)
    ensures Forest(mem', roots, spare - {f})
  {
    var spare' := spare - {f};
    forall r: nat, p: seq<nat>, r': nat, p': seq<nat> ensures Unique(mem', roots, r, p, r', p') {
      assert HungAt(mem, mem', roots, r0, q, f, r, p) && HungAt(mem, mem', roots, r0, q, f, r', p');
      assert Unique(mem, roots, r, p, r', p') && InUse(mem, roots, spare, r, p) && InUse(mem, roots, spare, r', p');
    }
    forall r: nat, p: seq<nat> ensures InUse(mem', roots, spare', r, p) {
      assert HungAt(mem, mem', roots, r0, q, f, r, p) && InUse(mem, roots, spare, r, p);
    }
  }

  /** Hanging a cleared spare page in an empty slot changes no translation. */
  lemma HangKeeps(mem: Mem, roots: set<nat>, spare: set<nat>, r0: nat, p0: seq<nat>, i: nat, f: nat)
    requires Forest(mem, roots, spare) && f in spare && f < FRAMES && Vacant(mem, roots, r0, p0, i)
    ensures var mem' := Hang(mem, NodeAt(mem, r0, p0).value, i, f);
            Forest(mem', roots, spare - {f}) && SameLeaves(mem, mem', roots) && SameRootSlots(mem, mem', roots)
            && NodeAt(mem', r0, p0 + [i]) == Some(f)
  {
    var t, q := NodeAt(mem, r0, p0).value, p0 + [i];
    var mem' := Hang(mem, t, i, f);
    forall r: nat, p: seq<nat> ensures HungAt(mem, mem', roots, r0, q, f, r, p) {
      if InDomain(roots, r, p) { HangNode(mem, roots, spare, r0, p0, i, f, r, p); }
    }
    assert HungAt(mem, mem', roots, r0, q, f, r0, q);
    HangForest(mem, mem', roots, spare, r0, q, f);
    forall r: nat, idx: seq<nat> ensures SameLeaf(mem, mem', roots, r, idx) {
      if r in roots && Ordinary(idx) { HangLeaf(mem, roots, spare, r0, p0, i, f, r, idx); }
    }
    HangRoots(mem, roots, spare, r0, p0, i, f);
  }

  lemma HangRoots(mem: Mem, roots: set<nat>, spare: set<nat>, r0: nat, p0: seq<nat>, i: nat, f: nat)
    requires Forest(mem, roots, spare) && f in spare && f < FRAMES && Vacant(mem, roots, r0, p0, i)
    ensures SameRootSlots(mem, Hang(mem, NodeAt(mem, r0, p0).value, i, f), roots)
  {
    forall r: nat | r in roots
      ensures Read(Hang(mem, NodeAt(mem, r0, p0).value, i, f), r, RECURSIVE_SLOT) == Read(mem, r, RECURSIVE_SLOT)
    {
      assert Unique(mem, roots, r, [], r0, p0) && InUse(mem, roots, spare, r, []);
    }
  }

  // Where a leaf of level |p| may be written.
  ghost predicate LeafSlot(mem: Mem, roots: set<nat>, r: nat, p: seq<nat>, e: Entry) {
    InDomain(roots, r, p) && p != [] && NodeAt(mem, r, p).Some? && e.valid && (|p| < 3 ==> !e.page)
  }

  /** Writing a leaf gives it to the addresses of its slot and changes no other translation. */
  lemma LeafWrite(mem: Mem, roots: set<nat>, spare: set<nat>, r0: nat, p0: seq<nat>, i: nat, e: Entry)
    requires Forest(mem, roots, spare) && LeafSlot(mem, roots, r0, p0, e)
    ensures var mem' := Write(mem, NodeAt(mem, r0, p0).value, i, e);
            Forest(mem', roots, spare) && SameRootSlots(mem, mem', roots)
            && forall r: nat, idx: seq<nat> :: r in roots && Ordinary(idx) ==>
                 LeafFrom(mem', r, idx, 0) ==
                 if r == r0 && p0 + [i] <= idx then Some(Leaf(e, |p0|)) else LeafFrom(mem, r, idx, 0)
  {
    var mem' := Write(mem, NodeAt(mem, r0, p0).value, i, e);
    forall r: nat, p: seq<nat> ensures Shrunk(mem, mem', roots, r, p) {
      LeafWriteNode(mem, roots, spare, r0, p0, i, e, r, p);
    }
    ShrunkForest(mem, mem', roots, spare);
    forall r: nat, idx: seq<nat> | r in roots && Ordinary(idx)
      ensures LeafFrom(mem', r, idx, 0) ==
              if r == r0 && p0 + [i] <= idx then Some(Leaf(e, |p0|)) else LeafFrom(mem, r, idx, 0)
    {
      if r == r0 && p0 + [i] <= idx {
        assert idx[..|p0|] == p0;
        SlotFrame(mem, mem', roots, spare, r0, p0, i, r0, p0);
        LeafVia(mem', r0, idx, |p0|, NodeAt(mem, r0, p0).value);
      } else {
        LeafFrame(mem, mem', roots, spare, r0, p0, i, r, idx, 0, r);
      }
    }
    forall r: nat | r in roots ensures Read(mem', r, RECURSIVE_SLOT) == Read(mem, r, RECURSIVE_SLOT) {
      assert Unique(mem, roots, r, [], r0, p0);
    }
  }

  lemma LeafWriteNode(mem: Mem, roots: set<nat>, spare: set<nat>, r0: nat, p0: seq<nat>, i: nat, e: Entry, r: nat,
                      p: seq<nat>)
    requires Forest(mem, roots, spare) && LeafSlot(mem, roots, r0, p0, e)
    ensures Shrunk(mem, Write(mem, NodeAt(mem, r0, p0).value, i, e), roots, r, p)
  {
    var mem' := Write(mem, NodeAt(mem, r0, p0).value, i, e);
    if InDomain(roots, r, p) {
      if r == r0 && p0 + [i] <= p {
        SlotFrame(mem, mem', roots, spare, r0, p0, i, r0, p0);
        NodeStep(mem', r0, p0, i);
        assert p[..|p0| + 1] == p0 + [i];
        NoNodeBelow(mem', r0, p, |p0| + 1);
      } else {
        SlotFrame(mem, mem', roots, spare, r0, p0, i, r, p);
      }
    }
  }

  // ----- The builder -----

  datatype MapError =
    | AllocationFailed
    | EntryIsNotTable
    | PhysRangeIsZero
    | PhysRangeIsNotOnPageBoundary
    | MappingRecursiveIndex
    | DataAbort  // a recursive address that does not reach a page
    | Overflow   // address arithmetic past 64 bits

  /** Table memory and the pages the allocator will hand out, in order. */
  datatype Vm = Vm(mem: Mem, free: seq<nat>)

  datatype PageSize = Page4K | Page2M | Page1G {
    // The level whose entries map pages of this size.
    function Level(): Level { match this case Page4K => 3 case Page2M => 2 case Page1G => 1 }
  }

  // The table a recursive address reaches through the live root.
  function Resolve(mem: Mem, live: nat, kernel: bool, va: nat, level: Level): Result<nat, MapError> {
    match HwWalk(mem, live, kernel, RecursiveTableAddr(kernel, va, level))
    case Page(e) => Ok(e.frame)
    case _ => Err(DataAbort)
  }

  function NextMut(vm: Vm, live: nat, kernel: bool, t: nat, level: Level, va: nat): (Vm, Result<nat, MapError>)
    requires level < 3
  {
    var i := VaIndex(va, level);
    var e := Read(vm.mem, t, i);
    if level == 0 && i == RECURSIVE_SLOT then (vm, Err(MappingRecursiveIndex))
    else if e.valid && !e.IsTable(level) then (vm, Err(EntryIsNotTable))
    else if e.valid then (vm, Resolve(vm.mem, live, kernel, va, level + 1))
    else if vm.free == [] then (vm, Err(AllocationFailed))
    else
      var mem := Write(vm.mem, t, i, TableEntry(vm.free[0]));
      var next := Resolve(mem, live, kernel, va, level + 1);
      (Vm(if next.Ok? then Clear(mem, next.value) else mem, vm.free[1..]), next)
  }

  function Descend(vm: Vm, live: nat, kernel: bool, t: nat, level: Level, depth: Level, va: nat): (Vm, Result<nat,
                   MapError>)
    requires level <= depth
    decreases depth - level
  {
    if level == depth then (vm, Ok(t))
    else
      var (vm1, next) := NextMut(vm, live, kernel, t, level, va);
      if next.Err? then (vm1, next) else Descend(vm1, live, kernel, next.value, level + 1, depth, va)
  }

  function LeafEntry(entry: Entry, size: PageSize): Entry {
    if size.Page4K? then entry.(page := true) else entry
  }

  // The live root's recursive slot names `target`.
  function AimAt(vm: Vm, live: nat, target: nat): Vm {
    Vm(Write(vm.mem, live, RECURSIVE_SLOT, TableEntry(target)), vm.free)
  }

  function MapTo(vm: Vm, live: nat, target: nat, kernel: bool, entry: Entry, va: nat, size: PageSize): (Vm, Result<(),
                 MapError>) {
    var saved := Read(vm.mem, live, RECURSIVE_SLOT);
    var (vm1, dest) := Descend(AimAt(vm, live, target), live, kernel, target, 0, size.Level(), va);
    if dest.Err? then (Vm(Write(vm1.mem, live, RECURSIVE_SLOT, saved), vm1.free), Err(dest.error))
    else
      var mem := Write(vm1.mem, dest.value, VaIndex(va, size.Level()), LeafEntry(entry, size));
      (Vm(Write(mem, live, RECURSIVE_SLOT, saved), vm1.free), Ok(()))
  }

  // ----- What the builder keeps -----

  // Pages that are no table: those set aside by a caller, and the allocator's.
  ghost function Spare(held: set<nat>, free: seq<nat>): set<nat> {
    held + (set f: nat | f in free)
  }

  ghost predicate Stocked(held: set<nat>, free: seq<nat>) {
    && (forall f :: f in free ==> f < FRAMES && f !in held)
    && (forall i, j :: 0 <= i < j < |free| ==> free[i] != free[j])
  }

  lemma TakePage(held: set<nat>, free: seq<nat>)
    requires Stocked(held, free) && free != []
    ensures Stocked(held, free[1..]) && Spare(held, free[1..]) == Spare(held, free) - {free[0]}
  {
    forall f: nat ensures f in free[1..] <==> f in free && f != free[0] {
      if f in free && f != free[0] {
        var i :| 0 <= i < |free| && free[i] == f;
        assert free[1..][i - 1] == f;
      }
    }
  }

  /** Every root points at itself, the tables form a forest and the stock is sound. */
  ghost predicate Good(vm: Vm, roots: set<nat>, held: set<nat>) {
    && Forest(vm.mem, roots, Spare(held, vm.free))
    && Stocked(held, vm.free)
    && forall r: nat :: r in roots ==> SelfMapped(vm.mem, r)
  }

  // Inside `map_to`: the live root's recursive slot names the target.
  ghost predicate Aimed(vm: Vm, roots: set<nat>, held: set<nat>, live: nat, target: nat) {
    && Forest(vm.mem, roots, Spare(held, vm.free))
    && Stocked(held, vm.free)
    && live in roots && target in roots
    && SelfMapped(vm.mem, target)
    && Read(vm.mem, live, RECURSIVE_SLOT) == TableEntry(target)
  }

  ghost predicate Quiet(vm: Vm, vm': Vm, roots: set<nat>) {
    SameLeaves(vm.mem, vm'.mem, roots) && SameRootSlots(vm.mem, vm'.mem, roots)
  }

  lemma ResolveFinds(mem: Mem, live: nat, target: nat, kernel: bool, va: nat, level: Level, t: nat)
    requires Read(mem, live, RECURSIVE_SLOT) == TableEntry(target) && SelfMapped(mem, target)
    requires NodeAt(mem, target, Indices(va)[..level]) == Some(t)
    ensures Resolve(mem, live, kernel, va, level) == Ok(t)
  {
    RecursiveWalkFindsTable(mem, live, target, kernel, va, level, t);
  }

  // The step that creates a table resolves to the page it hung, and clears that page.
  lemma NextMutCreates(vm: Vm, roots: set<nat>, held: set<nat>, live: nat, target: nat, kernel: bool, va: nat,
                       level: Level, t: nat)
    requires Aimed(vm, roots, held, live, target) && level < 3 && Ordinary(Indices(va))
    requires NodeAt(vm.mem, target, Indices(va)[..level]) == Some(t)
    requires !Read(vm.mem, t, Indices(va)[level]).valid && vm.free != []
    ensures NextMut(vm, live, kernel, t, level, va)
         == (Vm(Hang(vm.mem, t, Indices(va)[level], vm.free[0]), vm.free[1..]), Ok(vm.free[0]))
  {
    var idx := Indices(va);
    var f := vm.free[0];
    assert f in vm.free;
    var spare := Spare(held, vm.free);
    var mem := Write(vm.mem, t, idx[level], TableEntry(f));
    assert Unique(vm.mem, roots, live, [], target, idx[..level])
           && Unique(vm.mem, roots, target, [], target, idx[..level]);
    SlotFrame(vm.mem, mem, roots, spare, target, idx[..level], idx[level], target, idx[..level]);
    PathStep(mem, target, idx, level);
    ResolveFinds(mem, live, target, kernel, va, level + 1, f);
  }

  ghost predicate Stands(vm: Vm, target: nat, idx: seq<nat>, level: nat, t: nat) {
    level <= |idx| && NodeAt(vm.mem, target, idx[..level]) == Some(t)
  }

  lemma NextMutKeeps(vm: Vm, roots: set<nat>, held: set<nat>, live: nat, target: nat, kernel: bool, va: nat,
                     level: Level, t: nat)
    requires Aimed(vm, roots, held, live, target) && level < 3 && Ordinary(Indices(va))
    requires Stands(vm, target, Indices(va), level, t)
    ensures var (vm', next) := NextMut(vm, live, kernel, t, level, va);
            && Aimed(vm', roots, held, live, target) && Quiet(vm, vm', roots)
            && (next.Ok? ==> Stands(vm', target, Indices(va), level + 1, next.value))
  {
    var idx := Indices(va);
    var e := Read(vm.mem, t, idx[level]);
    PathStep(vm.mem, target, idx, level);
    if e.valid && e.page {
      if e.frame < FRAMES {
        ResolveFinds(vm.mem, live, target, kernel, va, level + 1, e.frame);
      } else {
        ResolveFails(vm.mem, live, target, kernel, va, level + 1);
      }
    } else if !e.valid && vm.free != [] {
      assert vm.free[0] in vm.free;
      NextMutCreates(vm, roots, held, live, target, kernel, va, level, t);
      TakePage(held, vm.free);
      assert idx[..level] + [idx[level]] == idx[..level + 1];
      HangKeeps(vm.mem, roots, Spare(held, vm.free), target, idx[..level], idx[level], vm.free[0]);
    }
  }

  lemma {:induction false} DescendKeeps(vm: Vm, roots: set<nat>, held: set<nat>, live: nat, target: nat, kernel: bool,
                                        va: nat, level: Level, depth: Level, t: nat)
    requires Aimed(vm, roots, held, live, target) && level <= depth && Ordinary(Indices(va))
    requires Stands(vm, target, Indices(va), level, t)
    ensures var (vm', dest) := Descend(vm, live, kernel, t, level, depth, va);
            && Aimed(vm', roots, held, live, target) && Quiet(vm, vm', roots)
            && (dest.Ok? ==> Stands(vm', target, Indices(va), depth, dest.value))
    decreases depth - level
  {
    if level < depth {
      NextMutKeeps(vm, roots, held, live, target, kernel, va, level, t);
      var (vm1, next) := NextMut(vm, live, kernel, t, level, va);
      if next.Ok? {
        DescendKeeps(vm1, roots, held, live, target, kernel, va, level + 1, depth, next.value);
        var (vm2, dest) := Descend(vm1, live, kernel, next.value, level + 1, depth, va);
        LeavesTwice(vm.mem, vm1.mem, vm2.mem, roots);
      }
    }
  }

  // Pages leave the stock and none enters it.
  ghost predicate Fewer(free: seq<nat>, free': seq<nat>) {
    forall f: nat :: f in free' ==> f in free
  }

  lemma {:induction false} DescendTakes(vm: Vm, live: nat, kernel: bool, t: nat, level: Level, depth: Level, va: nat)
    requires level <= depth
    ensures Fewer(vm.free, Descend(vm, live, kernel, t, level, depth, va).0.free)
    decreases depth - level
  {
    if level < depth {
      var (vm1, next) := NextMut(vm, live, kernel, t, level, va);
      if next.Ok? { DescendTakes(vm1, live, kernel, next.value, level + 1, depth, va); }
    }
  }

  // ----- Which pages the tables live on -----

  ghost predicate IsTablePage(mem: Mem, roots: set<nat>, f: nat) {
    exists r: nat, p: seq<nat> :: InDomain(roots, r, p) && NodeAt(mem, r, p) == Some(f)
  }

  /** Tables, and pages that may become tables. */
  ghost predicate Owned(vm: Vm, roots: set<nat>, f: nat) {
    f in vm.free || IsTablePage(vm.mem, roots, f)
  }

  ghost predicate SameOwned(vm: Vm, vm': Vm, roots: set<nat>) {
    forall f: nat :: Owned(vm, roots, f) <==> Owned(vm', roots, f)
  }

  ghost predicate DescriptorOk(mem: Mem, roots: set<nat>, r: nat, p: seq<nat>, i: nat) {
    InDomain(roots, r, p) && |p| < 3 && (p == [] ==> i != RECURSIVE_SLOT) && NodeAt(mem, r, p).Some? ==>
      var e := Read(mem, NodeAt(mem, r, p).value, i);
      e.valid && e.page ==> !ForUser(e) && !HwFetches(e) && e.frame < FRAMES
  }

  /** Every descriptor that leads to a table denies the user, and leads to memory. */
  ghost predicate KernelOnly(mem: Mem, roots: set<nat>) {
    forall r: nat, p: seq<nat>, i: nat :: DescriptorOk(mem, roots, r, p, i)
  }

  ghost predicate SameTables(vm: Vm, vm': Vm, roots: set<nat>) {
    SameOwned(vm, vm', roots) && (KernelOnly(vm.mem, roots) ==> KernelOnly(vm'.mem, roots))
  }

  ghost predicate SameNode(mem: Mem, mem': Mem, roots: set<nat>, r: nat, p: seq<nat>) {
    InDomain(roots, r, p) ==> NodeAt(mem', r, p) == NodeAt(mem, r, p)
  }

  lemma SameNodesOwned(vm: Vm, vm': Vm, roots: set<nat>)
    requires vm'.free == vm.free && forall r: nat, p: seq<nat> :: SameNode(vm.mem, vm'.mem, roots, r, p)
    ensures SameOwned(vm, vm', roots)
  {
    forall f: nat ensures IsTablePage(vm.mem, roots, f) <==> IsTablePage(vm'.mem, roots, f) {
      if IsTablePage(vm.mem, roots, f) {
        var r: nat, p: seq<nat> :| InDomain(roots, r, p) && NodeAt(vm.mem, r, p) == Some(f);
        assert SameNode(vm.mem, vm'.mem, roots, r, p);
      }
      if IsTablePage(vm'.mem, roots, f) {
        var r: nat, p: seq<nat> :| InDomain(roots, r, p) && NodeAt(vm'.mem, r, p) == Some(f);
        assert SameNode(vm.mem, vm'.mem, roots, r, p);
      }
    }
  }

  lemma RootSlotTables(vm: Vm, roots: set<nat>, held: set<nat>, root: nat, e: Entry)
    requires Forest(vm.mem, roots, Spare(held, vm.free)) && root in roots
    ensures SameTables(vm, Vm(Write(vm.mem, root, RECURSIVE_SLOT, e), vm.free), roots)
  {
    var mem' := Write(vm.mem, root, RECURSIVE_SLOT, e);
    RootSlotWrite(vm.mem, roots, Spare(held, vm.free), root, e);
    forall r: nat, p: seq<nat> ensures SameNode(vm.mem, mem', roots, r, p) {}
    SameNodesOwned(vm, Vm(mem', vm.free), roots);
    if KernelOnly(vm.mem, roots) {
      forall r: nat, p: seq<nat>, i: nat ensures DescriptorOk(mem', roots, r, p, i) {
        assert DescriptorOk(vm.mem, roots, r, p, i) && SameNode(vm.mem, mem', roots, r, p)
               && Unique(vm.mem, roots, r, p, root, []);
      }
    }
  }

  // Hanging the allocator's next page only moves it from the stock to the tables.
  lemma HangOwned(vm: Vm, roots: set<nat>, held: set<nat>, r0: nat, p0: seq<nat>, i: nat)
    requires Forest(vm.mem, roots, Spare(held, vm.free)) && vm.free != [] && vm.free[0] < FRAMES
    requires Vacant(vm.mem, roots, r0, p0, i)
    ensures SameOwned(vm, Vm(Hang(vm.mem, NodeAt(vm.mem, r0, p0).value, i, vm.free[0]), vm.free[1..]), roots)
  {
    var f0, q := vm.free[0], p0 + [i];
    var vm' := Vm(Hang(vm.mem, NodeAt(vm.mem, r0, p0).value, i, f0), vm.free[1..]);
    NodeStep(vm.mem, r0, p0, i);
    forall r: nat, p: seq<nat> ensures HungAt(vm.mem, vm'.mem, roots, r0, q, f0, r, p) {
      if InDomain(roots, r, p) { HangNode(vm.mem, roots, Spare(held, vm.free), r0, p0, i, f0, r, p); }
    }
    forall f: nat ensures Owned(vm, roots, f) <==> Owned(vm', roots, f) {
      assert f in vm.free <==> f == f0 || f in vm.free[1..];
      assert HungAt(vm.mem, vm'.mem, roots, r0, q, f0, r0, q);
      if IsTablePage(vm.mem, roots, f) {
        var r: nat, p: seq<nat> :| InDomain(roots, r, p) && NodeAt(vm.mem, r, p) == Some(f);
        assert HungAt(vm.mem, vm'.mem, roots, r0, q, f0, r, p);
      }
      if IsTablePage(vm'.mem, roots, f) {
        var r: nat, p: seq<nat> :| InDomain(roots, r, p) && NodeAt(vm'.mem, r, p) == Some(f);
        assert HungAt(vm.mem, vm'.mem, roots, r0, q, f0, r, p);
      }
    }
  }

  lemma HangKernelOnly(mem: Mem, roots: set<nat>, spare: set<nat>, r0: nat, p0: seq<nat>, i0: nat, f: nat)
    requires Forest(mem, roots, spare) && f in spare && f < FRAMES && Vacant(mem, roots, r0, p0, i0)
    requires KernelOnly(mem, roots)
    ensures KernelOnly(Hang(mem, NodeAt(mem, r0, p0).value, i0, f), roots)
  {
    var t := NodeAt(mem, r0, p0).value;
    var mem' := Hang(mem, t, i0, f);
    forall r: nat, p: seq<nat>, i: nat ensures DescriptorOk(mem', roots, r, p, i) {
      assert DescriptorOk(mem, roots, r, p, i);
      if InDomain(roots, r, p) {
        HangNode(mem, roots, spare, r0, p0, i0, f, r, p);
        assert InUse(mem, roots, spare, r, p);
      }
    }
  }

  lemma NextMutTables(vm: Vm, roots: set<nat>, held: set<nat>, live: nat, target: nat, kernel: bool, va: nat,
                      level: Level, t: nat)
    requires Aimed(vm, roots, held, live, target) && level < 3 && Ordinary(Indices(va))
    requires Stands(vm, target, Indices(va), level, t)
    ensures SameTables(vm, NextMut(vm, live, kernel, t, level, va).0, roots)
  {
    var idx := Indices(va);
    if !Read(vm.mem, t, idx[level]).valid && vm.free != [] {
      NextMutCreates(vm, roots, held, live, target, kernel, va, level, t);
      assert idx[..level] + [idx[level]] == idx[..level + 1] && vm.free[0] in vm.free;
      HangOwned(vm, roots, held, target, idx[..level], idx[level]);
      if KernelOnly(vm.mem, roots) {
        HangKernelOnly(vm.mem, roots, Spare(held, vm.free), target, idx[..level], idx[level], vm.free[0]);
      }
    }
  }

  lemma {:induction false} DescendTables(vm: Vm, roots: set<nat>, held: set<nat>, live: nat, target: nat, kernel: bool,
                                        va: nat, level: Level, depth: Level, t: nat)
    requires Aimed(vm, roots, held, live, target) && level <= depth && Ordinary(Indices(va))
    requires Stands(vm, target, Indices(va), level, t)
    ensures SameTables(vm, Descend(vm, live, kernel, t, level, depth, va).0, roots)
    decreases depth - level
  {
    if level < depth {
      NextMutTables(vm, roots, held, live, target, kernel, va, level, t);
      NextMutKeeps(vm, roots, held, live, target, kernel, va, level, t);
      var (vm1, next) := NextMut(vm, live, kernel, t, level, va);
      if next.Ok? { DescendTables(vm1, roots, held, live, target, kernel, va, level + 1, depth, next.value); }
    }
  }

  // A page-level leaf moves no table.
  lemma LeafTables(vm: Vm, roots: set<nat>, held: set<nat>, target: nat, p0: seq<nat>, t: nat, i: nat, e: Entry)
    requires Forest(vm.mem, roots, Spare(held, vm.free)) && InDomain(roots, target, p0) && |p0| == 3
    requires NodeAt(vm.mem, target, p0) == Some(t)
    ensures SameTables(vm, Vm(Write(vm.mem, t, i, e), vm.free), roots)
  {
    var mem' := Write(vm.mem, t, i, e);
    forall r: nat, p: seq<nat> ensures SameNode(vm.mem, mem', roots, r, p) {
      if InDomain(roots, r, p) { SlotFrame(vm.mem, mem', roots, Spare(held, vm.free), target, p0, i, r, p); }
    }
    SameNodesOwned(vm, Vm(mem', vm.free), roots);
    if KernelOnly(vm.mem, roots) {
      forall r: nat, p: seq<nat>, j: nat ensures DescriptorOk(mem', roots, r, p, j) {
        assert DescriptorOk(vm.mem, roots, r, p, j) && SameNode(vm.mem, mem', roots, r, p)
               && Unique(vm.mem, roots, r, p, target, p0);
      }
    }
  }

  /** Mapping a 4K page keeps the set of tables and stock pages, and every table out
      of the user's reach. */
  lemma MapToTables(vm: Vm, roots: set<nat>, held: set<nat>, live: nat, target: nat, kernel: bool, entry: Entry,
                    va: nat)
    requires Good(vm, roots, held) && live in roots && target in roots && entry.valid && !entry.page
    ensures SameTables(vm, MapTo(vm, live, target, kernel, entry, va, Page4K).0, roots)
  {
    var aimed := AimAt(vm, live, target);
    var idx := Indices(va);
    var saved := Read(vm.mem, live, RECURSIVE_SLOT);
    RootSlotTables(vm, roots, held, live, TableEntry(target));
    AimKeeps(vm, roots, held, live, target);
    if !Ordinary(idx) {
      assert Descend(aimed, live, kernel, target, 0, 3, va) == (aimed, Err(MappingRecursiveIndex));
      RootSlotTables(aimed, roots, held, live, saved);
    } else {
      DescendTables(aimed, roots, held, live, target, kernel, va, 0, 3, target);
      DescendKeeps(aimed, roots, held, live, target, kernel, va, 0, 3, target);
      var (vm1, dest) := Descend(aimed, live, kernel, target, 0, 3, va);
      if dest.Err? {
        RootSlotTables(vm1, roots, held, live, saved);
      } else {
        LeafTables(vm1, roots, held, target, idx[..3], dest.value, idx[3], LeafEntry(entry, Page4K));
        LeafWrite(vm1.mem, roots, Spare(held, vm1.free), target, idx[..3], idx[3], LeafEntry(entry, Page4K));
        RootSlotTables(Vm(Write(vm1.mem, dest.value, idx[3], LeafEntry(entry, Page4K)), vm1.free),
                       roots, held, live, saved);
      }
    }
  }

  // Only an empty stock fails an allocation.
  lemma {:induction false} DescendExhausts(vm: Vm, live: nat, kernel: bool, t: nat, level: Level, depth: Level, va: nat)
    requires level <= depth
    ensures Descend(vm, live, kernel, t, level, depth, va).1 == Err(AllocationFailed) ==>
      Descend(vm, live, kernel, t, level, depth, va).0.free == []
    decreases depth - level
  {
    if level < depth {
      var (vm1, next) := NextMut(vm, live, kernel, t, level, va);
      if next.Ok? { DescendExhausts(vm1, live, kernel, next.value, level + 1, depth, va); }
    }
  }

  // ----- When the builder succeeds -----

  /** How many of the tables on the way to `depth` already exist. */
  function Reached(mem: Mem, root: nat, idx: seq<nat>, depth: nat): (l: nat)
    requires depth <= |idx|
    ensures l <= depth
  {
    if depth == 0 || NodeAt(mem, root, idx[..depth]).Some? then depth else Reached(mem, root, idx, depth - 1)
  }

  lemma {:induction false} ReachedIs(mem: Mem, root: nat, idx: seq<nat>, level: nat, depth: nat)
    requires level < depth <= |idx|
    requires NodeAt(mem, root, idx[..level]).Some? && NodeAt(mem, root, idx[..level + 1]).None?
    ensures Reached(mem, root, idx, depth) == level
  {
    assert idx[..depth][..level + 1] == idx[..level + 1];
    NoNodeBelow(mem, root, idx[..depth], level + 1);
    if depth > level + 1 { ReachedIs(mem, root, idx, level, depth - 1); }
  }

  lemma {:induction false} ReachedFrame(mem: Mem, mem': Mem, root: nat, idx: seq<nat>, depth: nat)
    requires depth <= |idx|
    requires forall l :: 0 <= l <= depth ==> NodeAt(mem', root, idx[..l]) == NodeAt(mem, root, idx[..l])
    ensures Reached(mem', root, idx, depth) == Reached(mem, root, idx, depth)
  {
    if depth > 0 { ReachedFrame(mem, mem', root, idx, depth - 1); }
  }

  // A block mapping already covers the address above the wanted level.
  predicate Covered(leaf: Option<Leaf>, depth: nat) {
    leaf.Some? && leaf.value.level < depth
  }

  // The first missing table has a descriptor, which names no memory.
  function Lost(mem: Mem, root: nat, idx: seq<nat>, depth: Level): bool
    requires |idx| == 4
  {
    var l := Reached(mem, root, idx, depth);
    l < depth && NodeAt(mem, root, idx[..l]).Some? &&
    var e := Read(mem, NodeAt(mem, root, idx[..l]).value, idx[l]);
    e.valid && e.page
  }

  /** The verdict on mapping an address, from the tables and the stock alone. */
  function Verdict(vm: Vm, root: nat, idx: seq<nat>, depth: Level): Option<MapError>
    requires |idx| == 4
  {
    if idx[0] == RECURSIVE_SLOT then Some(MappingRecursiveIndex)
    else if Covered(LeafFrom(vm.mem, root, idx, 0), depth) then Some(EntryIsNotTable)
    else if Lost(vm.mem, root, idx, depth) then Some(DataAbort)
    else if depth - Reached(vm.mem, root, idx, depth) > |vm.free| then Some(AllocationFailed)
    else None
  }

  // What is left of the allocator's pages after a mapping to `depth`.
  function Stock(vm: Vm, root: nat, idx: seq<nat>, depth: Level): (rest: seq<nat>)
    requires |idx| == 4 && Verdict(vm, root, idx, depth).None?
  {
    vm.free[depth - Reached(vm.mem, root, idx, depth)..]
  }

  ghost predicate Judged(verdict: Option<MapError>, dest: Result<nat, MapError>) {
    match verdict case Some(e) => dest == Err(e) case None => dest.Ok?
  }

  // The verdict on the rest of the descent agrees with the verdict on the whole.
  ghost predicate Foreseen(vm: Vm, target: nat, idx: seq<nat>, depth: Level, vm': Vm, dest: Result<nat, MapError>)
    requires |idx| == 4
  {
    && Judged(Verdict(vm, target, idx, depth), dest)
    && (dest.Ok? ==> Verdict(vm, target, idx, depth).None? && vm'.free == Stock(vm, target, idx, depth))
  }

  lemma {:induction false} DescendVerdict(vm: Vm, roots: set<nat>, held: set<nat>, live: nat, target: nat, kernel: bool,
                                          va: nat, level: Level, depth: Level, t: nat)
    requires Aimed(vm, roots, held, live, target) && level <= depth && Ordinary(Indices(va))
    requires Stands(vm, target, Indices(va), level, t)
    ensures var (vm', dest) := Descend(vm, live, kernel, t, level, depth, va);
            Foreseen(vm, target, Indices(va), depth, vm', dest)
    decreases depth - level
  {
    var idx := Indices(va);
    var e := Read(vm.mem, t, idx[level]);
    if level == depth {
      DescendArrived(vm, target, idx, depth, t);
    } else if e.valid && e.page && e.frame < FRAMES {
      PathStep(vm.mem, target, idx, level);
      ResolveFinds(vm.mem, live, target, kernel, va, level + 1, e.frame);
      assert Descend(vm, live, kernel, t, level, depth, va) == Descend(vm, live, kernel, e.frame, level + 1, depth, va);
      DescendVerdict(vm, roots, held, live, target, kernel, va, level + 1, depth, e.frame);
    } else if e.valid {
      DescendStops(vm, roots, held, live, target, kernel, va, level, depth, t);
    } else {
      DescendMissing(vm, roots, held, live, target, kernel, va, level, depth, t);
    }
  }

  // A block above the wanted level, or a descriptor that names no memory.
  lemma DescendStops(vm: Vm, roots: set<nat>, held: set<nat>, live: nat, target: nat, kernel: bool,
                     va: nat, level: Level, depth: Level, t: nat)
    requires Aimed(vm, roots, held, live, target) && level < depth && Ordinary(Indices(va))
    requires Stands(vm, target, Indices(va), level, t)
    requires var e := Read(vm.mem, t, Indices(va)[level]); e.valid && !(e.page && e.frame < FRAMES)
    ensures var (vm', dest) := Descend(vm, live, kernel, t, level, depth, va);
            Foreseen(vm, target, Indices(va), depth, vm', dest)
  {
    var idx := Indices(va);
    LeafVia(vm.mem, target, idx, level, t);
    PathStep(vm.mem, target, idx, level);
    ReachedIs(vm.mem, target, idx, level, depth);
    if Read(vm.mem, t, idx[level]).page { ResolveFails(vm.mem, live, target, kernel, va, level + 1); }
  }

  lemma ResolveFails(mem: Mem, live: nat, target: nat, kernel: bool, va: nat, level: Level)
    requires Read(mem, live, RECURSIVE_SLOT) == TableEntry(target) && SelfMapped(mem, target)
    requires NodeAt(mem, target, Indices(va)[..level]).None?
    ensures Resolve(mem, live, kernel, va, level) == Err(DataAbort)
  {
    var w := HwWalk(mem, live, kernel, RecursiveTableAddr(kernel, va, level));
    if w.Page? { RecursiveWalkFindsTable(mem, live, target, kernel, va, level, w.entry.frame); }
  }

  lemma DescendArrived(vm: Vm, target: nat, idx: seq<nat>, depth: Level, t: nat)
    requires Ordinary(idx) && Stands(vm, target, idx, depth, t)
    ensures Foreseen(vm, target, idx, depth, vm, Ok(t))
  {
    LeafVia(vm.mem, target, idx, depth, t);
    LeafLevel(vm.mem, t, idx, depth);
  }

  lemma DescendMissing(vm: Vm, roots: set<nat>, held: set<nat>, live: nat, target: nat, kernel: bool,
                       va: nat, level: Level, depth: Level, t: nat)
    requires Aimed(vm, roots, held, live, target) && level < depth && Ordinary(Indices(va))
    requires Stands(vm, target, Indices(va), level, t) && !Read(vm.mem, t, Indices(va)[level]).valid
    ensures var (vm', dest) := Descend(vm, live, kernel, t, level, depth, va);
            Foreseen(vm, target, Indices(va), depth, vm', dest)
  {
    var idx := Indices(va);
    LeafVia(vm.mem, target, idx, level, t);
    PathStep(vm.mem, target, idx, level);
    ReachedIs(vm.mem, target, idx, level, depth);
    if vm.free != [] { DescendCreates(vm, roots, held, live, target, kernel, va, level, depth, t); }
  }

  lemma {:induction false} LeafLevel(mem: Mem, t: nat, idx: seq<nat>, level: Level)
    requires |idx| == 4
    ensures LeafFrom(mem, t, idx, level).Some? ==> LeafFrom(mem, t, idx, level).value.level >= level
    decreases 4 - level
  {
    var e := Read(mem, t, idx[level]);
    if e.valid && e.IsTable(level) && e.frame < FRAMES { LeafLevel(mem, e.frame, idx, level + 1); }
  }

  // After a first missing table every deeper one is missing too: one page each.
  lemma {:induction false} DescendCreates(vm: Vm, roots: set<nat>, held: set<nat>, live: nat, target: nat, kernel: bool,
                                          va: nat, level: Level, depth: Level, t: nat)
    requires Aimed(vm, roots, held, live, target) && level < depth && Ordinary(Indices(va))
    requires Stands(vm, target, Indices(va), level, t)
    requires !Read(vm.mem, t, Indices(va)[level]).valid && vm.free != []
    ensures var (vm', dest) := Descend(vm, live, kernel, t, level, depth, va);
            if depth - level > |vm.free| then dest == Err(AllocationFailed)
            else dest.Ok? && vm'.free == vm.free[depth - level..]
    decreases depth - level
  {
    NextMutKeeps(vm, roots, held, live, target, kernel, va, level, t);
    NextMutCreates(vm, roots, held, live, target, kernel, va, level, t);
    var (vm1, next) := NextMut(vm, live, kernel, t, level, va);
    assert !Read(vm1.mem, next.value, Indices(va)[level + 1]).valid;
    if level + 1 < depth && vm1.free != [] {
      DescendCreates(vm1, roots, held, live, target, kernel, va, level + 1, depth, next.value);
    }
  }

  // ----- One page -----

  // The addresses that share every index of `va` up to `level`.
  predicate SamePage(va: nat, x: nat, level: Level) {
    Indices(x)[..level + 1] == Indices(va)[..level + 1]
  }

  // The live root's slot is put back: the roots point at themselves again.
  lemma RestoreKeeps(vm: Vm, vm1: Vm, roots: set<nat>, held: set<nat>, live: nat, target: nat)
    requires Good(vm, roots, held) && live in roots
    requires Forest(vm1.mem, roots, Spare(held, vm1.free)) && Stocked(held, vm1.free)
    requires SameRootSlots(AimAt(vm, live, target).mem, vm1.mem, roots)
    ensures var mem' := Write(vm1.mem, live, RECURSIVE_SLOT, Read(vm.mem, live, RECURSIVE_SLOT));
            Good(Vm(mem', vm1.free), roots, held) && SameLeaves(vm1.mem, mem', roots)
  {
    RootSlotWrite(vm1.mem, roots, Spare(held, vm1.free), live, Read(vm.mem, live, RECURSIVE_SLOT));
  }

  lemma AimKeeps(vm: Vm, roots: set<nat>, held: set<nat>, live: nat, target: nat)
    requires Good(vm, roots, held) && live in roots && target in roots
    ensures Aimed(AimAt(vm, live, target), roots, held, live, target)
    ensures SameLeaves(vm.mem, AimAt(vm, live, target).mem, roots)
  {
    RootSlotWrite(vm.mem, roots, Spare(held, vm.free), live, TableEntry(target));
  }

  /** `map_to` succeeds exactly when the verdict says so, taking one page per missing table. */
  lemma MapToVerdict(vm: Vm, roots: set<nat>, held: set<nat>, live: nat, target: nat, kernel: bool, entry: Entry,
                     va: nat, size: PageSize)
    requires Good(vm, roots, held) && live in roots && target in roots
    ensures var (vm', res) := MapTo(vm, live, target, kernel, entry, va, size);
            && res == (match Verdict(vm, target, Indices(va), size.Level()) case Some(e) => Err(e) case None => Ok(()))
            && (res.Ok? ==> vm'.free == Stock(vm, target, Indices(va), size.Level()))
  {
    var idx, d := Indices(va), size.Level();
    if idx[0] != RECURSIVE_SLOT {
      AimKeeps(vm, roots, held, live, target);
      AimVerdict(vm, roots, held, live, target, idx, d);
      DescendVerdict(AimAt(vm, live, target), roots, held, live, target, kernel, va, 0, d, target);
    }
  }

  // Aiming the live root's slot changes neither the verdict nor what it costs.
  lemma AimVerdict(vm: Vm, roots: set<nat>, held: set<nat>, live: nat, target: nat, idx: seq<nat>, d: Level)
    requires Good(vm, roots, held) && live in roots && target in roots && Ordinary(idx)
    ensures Verdict(AimAt(vm, live, target), target, idx, d) == Verdict(vm, target, idx, d)
    ensures Verdict(vm, target, idx, d).None? ==>
      Stock(AimAt(vm, live, target), target, idx, d) == Stock(vm, target, idx, d)
  {
    var aimed := AimAt(vm, live, target);
    RootSlotWrite(vm.mem, roots, Spare(held, vm.free), live, TableEntry(target));
    assert SameLeaf(vm.mem, aimed.mem, roots, target, idx);
    forall l | 0 <= l <= d ensures NodeAt(aimed.mem, target, idx[..l]) == NodeAt(vm.mem, target, idx[..l]) {
      assert InDomain(roots, target, idx[..l]);
    }
    ReachedFrame(vm.mem, aimed.mem, target, idx, d);
  }

  /** The translation `map_to` leaves behind. */
  ghost function Mapped(vm: Vm, target: nat, leaf: Leaf, idx: seq<nat>, r: nat, x: seq<nat>): Option<Leaf>
    requires leaf.level < 4 && |idx| == 4 && |x| == 4
  {
    if r == target && x[..leaf.level + 1] == idx[..leaf.level + 1] then Some(leaf) else LeafFrom(vm.mem, r, x, 0)
  }

  ghost predicate MappedAll(vm: Vm, mem': Mem, roots: set<nat>, target: nat, leaf: Leaf, idx: seq<nat>)
    requires leaf.level < 4 && |idx| == 4
  {
    forall r: nat, x: seq<nat> :: r in roots && Ordinary(x) ==>
      LeafFrom(mem', r, x, 0) == Mapped(vm, target, leaf, idx, r, x)
  }

  // The entry is written into the table found, and the live root's slot is put back.
  lemma MapToWrites(vm: Vm, vm1: Vm, roots: set<nat>, held: set<nat>, live: nat, target: nat, t: nat, leaf: Leaf,
                    idx: seq<nat>)
    requires Good(vm, roots, held) && live in roots && Aimed(vm1, roots, held, live, target)
    requires SameRootSlots(AimAt(vm, live, target).mem, vm1.mem, roots) && SameLeaves(vm.mem, vm1.mem, roots)
    requires 1 <= leaf.level < 4 && leaf.entry.valid && (leaf.level < 3 ==> !leaf.entry.page)
    requires Ordinary(idx) && Stands(vm1, target, idx, leaf.level, t)
    ensures var mem' := Write(Write(vm1.mem, t, idx[leaf.level], leaf.entry), live, RECURSIVE_SLOT,
                              Read(vm.mem, live, RECURSIVE_SLOT));
            Good(Vm(mem', vm1.free), roots, held) && MappedAll(vm, mem', roots, target, leaf, idx)
  {
    var d := leaf.level;
    LeafWrite(vm1.mem, roots, Spare(held, vm1.free), target, idx[..d], idx[d], leaf.entry);
    var vm2 := Vm(Write(vm1.mem, t, idx[d], leaf.entry), vm1.free);
    RestoreKeeps(vm, vm2, roots, held, live, target);
    var mem' := Write(vm2.mem, live, RECURSIVE_SLOT, Read(vm.mem, live, RECURSIVE_SLOT));
    assert idx[..d] + [idx[d]] == idx[..d + 1];
    forall r: nat, x: seq<nat> | r in roots && Ordinary(x)
      ensures LeafFrom(mem', r, x, 0) == Mapped(vm, target, leaf, idx, r, x)
    {
      assert SameLeaf(vm.mem, vm1.mem, roots, r, x) && SameLeaf(vm2.mem, mem', roots, r, x);
      assert idx[..d + 1] <= x <==> x[..d + 1] == idx[..d + 1];
    }
  }

  lemma MapToKeeps(vm: Vm, roots: set<nat>, held: set<nat>, live: nat, target: nat, kernel: bool, entry: Entry, va: nat,
                   size: PageSize)
    requires Good(vm, roots, held) && live in roots && target in roots && entry.valid && !entry.page
    requires Ordinary(Indices(va))
    ensures var (vm', res) := MapTo(vm, live, target, kernel, entry, va, size);
            && Good(vm', roots, held)
            && (res.Err? ==> SameLeaves(vm.mem, vm'.mem, roots))
            && (res.Ok? ==>
                MappedAll(vm, vm'.mem, roots, target, Leaf(LeafEntry(entry, size), size.Level()), Indices(va)))
  {
    var (vm', res) := MapTo(vm, live, target, kernel, entry, va, size);
    var aimed := AimAt(vm, live, target);
    var idx, d := Indices(va), size.Level();
    var e := LeafEntry(entry, size);
    AimKeeps(vm, roots, held, live, target);
    DescendKeeps(aimed, roots, held, live, target, kernel, va, 0, d, target);
    var (vm1, dest) := Descend(aimed, live, kernel, target, 0, d, va);
    LeavesTwice(vm.mem, aimed.mem, vm1.mem, roots);
    if dest.Err? {
      RestoreKeeps(vm, vm1, roots, held, live, target);
      LeavesTwice(vm.mem, vm1.mem, vm'.mem, roots);
    } else {
      MapToWrites(vm, vm1, roots, held, live, target, dest.value, Leaf(e, d), idx);
    }
  }

  // The translation of `x` in root `r` after mapping the page of `va`.
  ghost predicate MapToAt(vm: Vm, vm': Vm, ok: bool, roots: set<nat>, target: nat, entry: Entry, va: nat,
                          size: PageSize, r: nat, x: nat) {
    r in roots && Ordinary(Indices(x)) ==>
      LeafAt(vm'.mem, r, x) == if ok && r == target && SamePage(va, x, size.Level())
                               then Some(Leaf(LeafEntry(entry, size), size.Level())) else LeafAt(vm.mem, r, x)
  }

  /** `map_to`, for every address of every root: on success the addresses of the
      page have the new leaf and every other ordinary translation is what it was;
      on failure all are.  Either way the roots point at themselves again and
      the tables are still a forest. */
  lemma MapToCorrect(vm: Vm, roots: set<nat>, held: set<nat>, live: nat, target: nat, kernel: bool, entry: Entry,
                     va: nat, size: PageSize)
    requires Good(vm, roots, held) && live in roots && target in roots && entry.valid && !entry.page
    ensures var (vm', res) := MapTo(vm, live, target, kernel, entry, va, size);
            && Good(vm', roots, held)
            && forall r: nat, x: nat :: MapToAt(vm, vm', res.Ok?, roots, target, entry, va, size, r, x)
  {
    if Ordinary(Indices(va)) {
      MapToKeeps(vm, roots, held, live, target, kernel, entry, va, size);
    } else {
      MapToRefused(vm, roots, held, live, target, kernel, entry, va, size);
    }
    var (vm', res) := MapTo(vm, live, target, kernel, entry, va, size);
    if res.Ok? {
      MappedEverywhere(vm, vm', roots, target, entry, va, size);
    } else {
      SameEverywhere(vm, vm', roots, target, entry, va, size);
    }
  }

  // An address in the recursive window is refused; the tables are as before.
  lemma MapToRefused(vm: Vm, roots: set<nat>, held: set<nat>, live: nat, target: nat, kernel: bool, entry: Entry,
                     va: nat, size: PageSize)
    requires Good(vm, roots, held) && live in roots && target in roots && !Ordinary(Indices(va))
    ensures var (vm', res) := MapTo(vm, live, target, kernel, entry, va, size);
            res.Err? && Good(vm', roots, held) && SameLeaves(vm.mem, vm'.mem, roots)
  {
    var aimed := AimAt(vm, live, target);
    AimKeeps(vm, roots, held, live, target);
    RestoreKeeps(vm, aimed, roots, held, live, target);
    assert Descend(aimed, live, kernel, target, 0, size.Level(), va) == (aimed, Err(MappingRecursiveIndex));
    LeavesTwice(vm.mem, aimed.mem, MapTo(vm, live, target, kernel, entry, va, size).0.mem, roots);
  }

  lemma MappedEverywhere(vm: Vm, vm': Vm, roots: set<nat>, target: nat, entry: Entry, va: nat, size: PageSize)
    requires MappedAll(vm, vm'.mem, roots, target, Leaf(LeafEntry(entry, size), size.Level()), Indices(va))
    ensures forall r: nat, x: nat :: MapToAt(vm, vm', true, roots, target, entry, va, size, r, x)
  {
  }

  lemma SameEverywhere(vm: Vm, vm': Vm, roots: set<nat>, target: nat, entry: Entry, va: nat, size: PageSize)
    requires SameLeaves(vm.mem, vm'.mem, roots)
    ensures forall r: nat, x: nat :: MapToAt(vm, vm', false, roots, target, entry, va, size, r, x)
  {
    forall r: nat, x: nat ensures MapToAt(vm, vm', false, roots, target, entry, va, size, r, x) {
      assert SameLeaf(vm.mem, vm'.mem, roots, r, Indices(x));
    }
  }
}
