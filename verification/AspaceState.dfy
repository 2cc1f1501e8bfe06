/** Many user roots and one kernel root built through the same tables: what the
    operations of aarch64/src/aspace.rs keep. */
module AspaceState {
  import opened Prelude
  import opened Arith
  import opened PageTable
  import opened PageMap
  import opened PageRange

  datatype Spaces = Spaces(vm: Vm, kernel: nat, user: nat, roots: set<nat>)

  /** Every root points at itself, no table page has two parents or two roots,
      none is in the allocator's stock, both live roots are roots, user roots map
      4K pages only, and descriptors of tables deny the user and name memory. */
  ghost predicate Sound(s: Spaces) {
    && Good(s.vm, s.roots, {}) && s.kernel in s.roots && s.user in s.roots && s.user != s.kernel
    && UserPages(s) && KernelOnly(s.vm.mem, s.roots)
  }

  ghost predicate UserPages(s: Spaces) {
    forall r: nat :: r in s.roots && r != s.kernel ==> PagesOnly(s.vm.mem, r)
  }

  datatype Op =
    | Create
    | Install(root: nat)
    | MapPage(root: nat, entry: Entry, va: nat)
    | MapData(root: nat, va: nat)
    | MapMmio(root: nat, range: PhysRange, va: nat)

  ghost predicate SameTranslation(s: Spaces, s': Spaces, r: nat, x: nat) {
    Ordinary(Indices(x)) ==> LeafAt(s'.vm.mem, r, x) == LeafAt(s.vm.mem, r, x)
  }

  ghost predicate Untouched(s: Spaces, s': Spaces, r: nat) {
    forall x: nat :: SameTranslation(s, s', r, x)
  }

  ghost predicate BlankAt(s: Spaces, r: nat, x: nat) {
    Ordinary(Indices(x)) ==> LeafAt(s.vm.mem, r, x) == None
  }

  ghost predicate Blank(s: Spaces, r: nat) {
    forall x: nat :: BlankAt(s, r, x)
  }

  // The user root an operation may write.
  predicate Writes(op: Op, r: nat) {
    (op.MapPage? || op.MapData? || op.MapMmio?) && op.root == r
  }

  // ----- A new root -----

  function RootPage(mem: Mem, f: nat): Mem {
    Write(Clear(mem, f), f, RECURSIVE_SLOT, TableEntry(f))
  }

  lemma NewRootNode(mem: Mem, roots: set<nat>, f: nat, anchor: nat, r: nat, p: seq<nat>)
    requires Forest(mem, roots, {f}) && anchor in roots && f !in roots && InDomain(roots + {f}, r, p)
    ensures NodeAt(RootPage(mem, f), r, p) ==
            if r != f then NodeAt(mem, r, p) else if p == [] then Some(f) else None
  {
    var mem' := RootPage(mem, f);
    if r != f {
      assert InUse(mem, roots, {f}, anchor, []);
      SlotFrame(mem, mem', roots, {f}, anchor, [], RECURSIVE_SLOT, r, p);
    } else if p != [] {
      assert p[..1] == [p[0]];
      NodeStep(mem', f, [], p[0]);
      assert [] + [p[0]] == p[..1];
      NoNodeBelow(mem', f, p, 1);
    }
  }

  /** A cleared page with its self-pointer is a new root that translates nothing. */
  lemma NewRootKeeps(mem: Mem, free: seq<nat>, roots: set<nat>, f: nat, anchor: nat)
    requires Good(Vm(mem, free), roots, {f}) && anchor in roots && f < FRAMES
    ensures f !in roots && Good(Vm(RootPage(mem, f), free), roots + {f}, {})
    ensures SameLeaves(mem, RootPage(mem, f), roots)
    ensures forall idx: seq<nat> :: Ordinary(idx) ==> LeafFrom(RootPage(mem, f), f, idx, 0) == None
  {
    var mem' := RootPage(mem, f);
    var spare := Spare({f}, free);
    assert InUse(mem, roots, spare, f, []);
    forall r: nat, p: seq<nat> ensures InUse(mem, roots, {f}, r, p) { assert InUse(mem, roots, spare, r, p); }
    forall r: nat, p: seq<nat> | InDomain(roots + {f}, r, p)
      ensures NodeAt(mem', r, p) == if r != f then NodeAt(mem, r, p) else if p == [] then Some(f) else None
    {
      NewRootNode(mem, roots, f, anchor, r, p);
    }
    NewRootForest(mem, free, roots, f);
    forall r: nat, idx: seq<nat> | r in roots && Ordinary(idx) ensures SameLeaf(mem, mem', roots, r, idx) {
      LeafFrame(mem, mem', roots, {f}, anchor, [], RECURSIVE_SLOT, r, idx, 0, r);
    }
  }

  lemma NewRootForest(mem: Mem, free: seq<nat>, roots: set<nat>, f: nat)
    requires Forest(mem, roots, Spare({f}, free)) && Stocked({f}, free) && f !in roots
    requires forall r: nat, p: seq<nat> :: InDomain(roots + {f}, r, p) ==>
      NodeAt(RootPage(mem, f), r, p) == if r != f then NodeAt(mem, r, p) else if p == [] then Some(f) else None
    ensures Forest(RootPage(mem, f), roots + {f}, Spare({}, free))
  {
    var mem' := RootPage(mem, f);
    var roots' := roots + {f};
    var spare, spare' := Spare({f}, free), Spare({}, free);
    forall r: nat, p: seq<nat>, r': nat, p': seq<nat> ensures Unique(mem', roots', r, p, r', p') {
      assert Unique(mem, roots, r, p, r', p') && InUse(mem, roots, spare, r, p) && InUse(mem, roots, spare, r', p');
    }
    forall r: nat, p: seq<nat> ensures InUse(mem', roots', spare', r, p) {
      assert InUse(mem, roots, spare, r, p);
    }
  }

  // ----- Effects of single steps -----

  lemma HoldPage(vm: Vm, roots: set<nat>)
    requires Good(vm, roots, {}) && vm.free != []
    ensures Good(Vm(vm.mem, vm.free[1..]), roots, {vm.free[0]})
  {
    PageMap.TakePage({}, vm.free);
    assert Spare({vm.free[0]}, vm.free[1..]) == Spare({}, vm.free);
    assert forall f :: f in vm.free[1..] ==> f in Spare({}, vm.free[1..]);
  }

  lemma DropHeld(vm: Vm, roots: set<nat>, f: nat)
    requires Good(vm, roots, {f})
    ensures Good(vm, roots, {})
  {
    var spare, spare' := Spare({f}, vm.free), Spare({}, vm.free);
    forall r: nat, p: seq<nat> ensures InUse(vm.mem, roots, spare', r, p) { assert InUse(vm.mem, roots, spare, r, p); }
  }

  lemma Idle(s: Spaces, s': Spaces)
    requires s'.vm.mem == s.vm.mem
    ensures forall r: nat :: Untouched(s, s', r)
  {
  }

  /** A range mapped into one root touches no other. */
  lemma RangeUntouched(s: Spaces, s': Spaces, target: nat, entry: Entry, pa: nat, va: nat, n: nat)
    requires RangeMapped(s.vm.mem, s'.vm.mem, s.roots, target, entry, pa, va, n, Page4K)
    ensures forall r: nat :: r in s.roots && (r != target || n == 0) ==> Untouched(s, s', r)
  {
    forall r: nat, x: nat | r in s.roots && (r != target || n == 0) ensures SameTranslation(s, s', r, x) {
      assert RangeMappedAt(s.vm.mem, s'.vm.mem, s.roots, target, entry, pa, va, n, Page4K, r, x);
    }
  }

  lemma UntouchedTwice(s: Spaces, s1: Spaces, s2: Spaces, root: nat)
    requires forall r: nat :: r in s.roots && r != root ==> Untouched(s, s1, r)
    requires forall r: nat :: r in s.roots && r != s.kernel ==> Untouched(s1, s2, r)
    ensures forall r: nat :: r in s.roots && r != root && r != s.kernel ==> Untouched(s, s2, r)
  {
    forall r: nat, x: nat | r in s.roots && r != root && r != s.kernel ensures SameTranslation(s, s2, r, x) {
      assert SameTranslation(s, s1, r, x) && SameTranslation(s1, s2, r, x);
    }
  }

  ghost predicate OnlyPageAt(s: Spaces, s': Spaces, r: nat, entry: Entry, f: nat, va: nat, x: nat) {
    Ordinary(Indices(x)) ==>
      LeafAt(s'.vm.mem, r, x) == if PageOf(x, Page4K) == PageOf(va, Page4K)
                                 then Some(Leaf(entry.WithFrame(f).(page := true), 3)) else LeafAt(s.vm.mem, r, x)
  }

  /** In root `r` exactly the page of `va` changed, to frame `f`. */
  ghost predicate OnlyPage(s: Spaces, s': Spaces, r: nat, entry: Entry, f: nat, va: nat) {
    forall x: nat :: OnlyPageAt(s, s', r, entry, f, va, x)
  }

  lemma OnePageMapped(s: Spaces, s': Spaces, r: nat, entry: Entry, f: nat, va: nat)
    requires r in s.roots && RangeMapped(s.vm.mem, s'.vm.mem, s.roots, r, entry, f * 0x1000, va, 1, Page4K)
    ensures OnlyPage(s, s', r, entry, f, va)
  {
    DivModUnique(f * 0x1000, f, 0, 0x1000);
    forall x: nat ensures OnlyPageAt(s, s', r, entry, f, va, x) {
      assert RangeMappedAt(s.vm.mem, s'.vm.mem, s.roots, r, entry, f * 0x1000, va, 1, Page4K, r, x);
    }
  }

  /** In root `r` the page of `va` is the frame `f`, and the hardware reaches it. */
  lemma PageReached(s: Spaces, s': Spaces, r: nat, kernel: bool, entry: Entry, f: nat, va: nat)
    requires OnlyPage(s, s', r, entry, f, va) && Ordinary(Indices(va)) && Translated(kernel, va) && f < FRAMES
    ensures HwWalk(s'.vm.mem, r, kernel, va) == Page(entry.WithFrame(f).(page := true))
    ensures HwWalk(s'.vm.mem, r, kernel, va).At(f)
  {
    assert OnlyPageAt(s, s', r, entry, f, va, va);
    WalkIsLeaf(s'.vm.mem, r, Indices(va), 0);
  }

  // ----- User roots keep 4K pages -----

  lemma RangeKeepsPages(s: Spaces, s': Spaces, target: nat, entry: Entry, pa: nat, va: nat, n: nat)
    requires UserPages(s) && s'.roots == s.roots && s'.kernel == s.kernel
    requires RangeMapped(s.vm.mem, s'.vm.mem, s.roots, target, entry, pa, va, n, Page4K)
    ensures UserPages(s')
  {
    forall r: nat, x: nat | r in s'.roots && r != s'.kernel ensures PageAt(s'.vm.mem, r, x) {
      assert PageAt(s.vm.mem, r, x);
      assert RangeMappedAt(s.vm.mem, s'.vm.mem, s.roots, target, entry, pa, va, n, Page4K, r, x);
    }
  }

  // ----- Pages out of the stock, and page numbers -----

  lemma HeldNotOwned(vm: Vm, roots: set<nat>, f: nat)
    requires Good(vm, roots, {f})
    ensures !Owned(vm, roots, f)
  {
    forall r: nat, p: seq<nat> | InDomain(roots, r, p) ensures NodeAt(vm.mem, r, p) != Some(f) {
      assert InUse(vm.mem, roots, Spare({f}, vm.free), r, p);
    }
  }

  // Page numbers below the recursive window of a root.
  const WINDOW := 511 * 0x800_0000

  lemma OrdinaryIsLow(x: nat)
    ensures Ordinary(Indices(x)) <==> PageOf(x, Page4K) < WINDOW
  {
    var hi, a, b, c, d, off := Decompose(x);
    PageOfCompose(hi, a, b, c, d, off, Page4K);
  }

  lemma PageWithNumber(m: nat) returns (x: nat)
    requires m < WINDOW
    ensures PageOf(x, Page4K) == m && Ordinary(Indices(x))
  {
    x := m * 0x1000;
    DivModUnique(m * 0x1000, m, 0, 0x1000);
    DivModUnique(m, 0, m, 0x10_0000_0000);
    OrdinaryIsLow(x);
  }

  // The entry a walk through slot 511 ends on leads to a table, or is none.
  lemma {:induction false} WindowDenied(mem: Mem, roots: set<nat>, r: nat, idx: seq<nat>, level: Level, p: seq<nat>,
                                        t: nat)
    requires r in roots && SelfMapped(mem, r) && PagesOnly(mem, r) && KernelOnly(mem, roots) && |idx| == 4
    requires RealPath(idx)
    requires |p| < level && RealPath(p) && NodeAt(mem, r, p) == Some(t) && (p != [] ==> p[0] != RECURSIVE_SLOT)
    ensures LeafFrom(mem, t, idx, level).Some? ==>
      !ForUser(LeafFrom(mem, t, idx, level).value.entry) && !HwFetches(LeafFrom(mem, t, idx, level).value.entry)
    decreases 4 - level
  {
    var i := idx[level];
    if p == [] && i == RECURSIVE_SLOT {
      if level < 3 { WindowDenied(mem, roots, r, idx, level + 1, p, t); }
    } else {
      EntryIsPage(mem, r, p, t, i);
      assert DescriptorOk(mem, roots, r, p, i);
      if level < 3 && Read(mem, t, i).valid {
        NodeStep(mem, r, p, i);
        WindowDenied(mem, roots, r, idx, level + 1, p + [i], Read(mem, t, i).frame);
      }
    }
  }

  // No walk of a root, through its recursive window or not, meets a descriptor that
  // names no memory.
  lemma {:induction false} NotLost(mem: Mem, roots: set<nat>, r: nat, idx: seq<nat>, level: Level, p: seq<nat>, t: nat)
    requires r in roots && SelfMapped(mem, r) && KernelOnly(mem, roots) && |idx| == 4
    requires |p| <= level && NodeAt(mem, r, p) == Some(t) && (p != [] ==> p[0] != RECURSIVE_SLOT)
    ensures !LostFrom(mem, t, idx, level)
    decreases 4 - level
  {
    var e := Read(mem, t, idx[level]);
    if e.valid && e.IsTable(level) {
      if p == [] && idx[level] == RECURSIVE_SLOT {
        NotLost(mem, roots, r, idx, level + 1, p, t);
      } else {
        assert DescriptorOk(mem, roots, r, p, idx[level]);
        NodeStep(mem, r, p, idx[level]);
        NotLost(mem, roots, r, idx, level + 1, p + [idx[level]], e.frame);
      }
    }
  }

  /** Checking a range of the installed user root never aborts. */
  lemma CheckNeverAborts(s: Spaces, va: nat, end: nat, forWrite: bool)
    requires Sound(s)
    ensures !RangeAborts(s.vm.mem, s.user, va, end, forWrite)
  {
    forall x: nat ensures !AbortsAt(s.vm.mem, s.user, va, end, forWrite, x) {
      NotLost(s.vm.mem, s.roots, s.user, Indices(x), 0, [], s.user);
    }
  }

  // So no mapping aborts either.
  lemma NeverLost(mem: Mem, roots: set<nat>, r: nat, idx: seq<nat>, depth: Level)
    requires r in roots && KernelOnly(mem, roots) && Ordinary(idx)
    ensures !Lost(mem, r, idx, depth)
  {
    var l := Reached(mem, r, idx, depth);
    if l < depth && NodeAt(mem, r, idx[..l]).Some? {
      assert DescriptorOk(mem, roots, r, idx[..l], idx[l]);
      PathStep(mem, r, idx, l);
      ReachedStops(mem, r, idx, depth);
    }
  }

  lemma {:induction false} ReachedStops(mem: Mem, r: nat, idx: seq<nat>, depth: nat)
    requires depth <= |idx|
    ensures Reached(mem, r, idx, depth) < depth ==> NodeAt(mem, r, idx[..Reached(mem, r, idx, depth) + 1]).None?
  {
    if depth > 0 && NodeAt(mem, r, idx[..depth]).None? { ReachedStops(mem, r, idx, depth - 1); }
  }

  // ----- The kernel's address of a page -----

  function KernelVa(f: nat): nat { KZERO + f * 0x1000 }

  lemma KernelAddress(f: nat)
    requires f < FRAMES
    ensures Offset(KZERO).Start(f * 0x1000) == KernelVa(f) && Translated(true, KernelVa(f))
    ensures KernelVa(f) + 0x1000 < TWO_64
    ensures Ordinary(Indices(KernelVa(f)))
  {
    var va := KernelVa(f);
    var q, rem := f * 0x1000 / 0x80_0000_0000, f * 0x1000 % 0x80_0000_0000;
    DivModUnique(va, 0xffff * 512 + 256 + q, rem, 0x80_0000_0000);
    DivModUnique(0xffff * 512 + 256 + q, 0xffff, 256 + q, 512);
    DivModUnique(va, 0, va, TWO_64);
  }

  ghost predicate OpenAt(s: Spaces, f: nat) {
    f in s.vm.free ==> !Covered(LeafAt(s.vm.mem, s.kernel, KernelVa(f)), 3)
  }

  /** No block of the kernel's covers a page of the stock. */
  ghost predicate KernelOpen(s: Spaces) {
    forall f: nat :: OpenAt(s, f)
  }

  lemma UntouchedKeepsOpen(s: Spaces, s': Spaces)
    requires KernelOpen(s) && s'.kernel == s.kernel && Untouched(s, s', s.kernel) && Fewer(s.vm.free, s'.vm.free)
    requires Stocked({}, s.vm.free)
    ensures KernelOpen(s')
  {
    forall f: nat ensures OpenAt(s', f) {
      assert OpenAt(s, f);
      if f in s'.vm.free { KernelAddress(f); assert SameTranslation(s, s', s.kernel, KernelVa(f)); }
    }
  }

  lemma PageKeepsOpen(s: Spaces, s': Spaces, entry: Entry, pa: nat, va: nat, n: nat)
    requires KernelOpen(s) && s'.kernel == s.kernel && s.kernel in s.roots && Fewer(s.vm.free, s'.vm.free)
    requires Stocked({}, s.vm.free)
    requires RangeMapped(s.vm.mem, s'.vm.mem, s.roots, s.kernel, entry, pa, va, n, Page4K)
    ensures KernelOpen(s')
  {
    forall f: nat ensures OpenAt(s', f) {
      assert OpenAt(s, f);
      if f in s'.vm.free {
        KernelAddress(f);
        assert RangeMappedAt(s.vm.mem, s'.vm.mem, s.roots, s.kernel, entry, pa, va, n, Page4K, s.kernel, KernelVa(f));
      }
    }
  }

  // ----- A new root among the others -----

  lemma NewRootOwned(mem: Mem, free: seq<nat>, roots: set<nat>, f: nat, anchor: nat, g: nat)
    requires Good(Vm(mem, free), roots, {f}) && anchor in roots && f !in roots
    ensures Owned(Vm(RootPage(mem, f), free), roots + {f}, g) <==> g == f || Owned(Vm(mem, free), roots, g)
  {
    var mem', roots' := RootPage(mem, f), roots + {f};
    forall r: nat, p: seq<nat> ensures InUse(mem, roots, {f}, r, p) {
      assert InUse(mem, roots, Spare({f}, free), r, p);
    }
    forall r: nat, p: seq<nat> | InDomain(roots', r, p)
      ensures NodeAt(mem', r, p) == if r != f then NodeAt(mem, r, p) else if p == [] then Some(f) else None
    {
      NewRootNode(mem, roots, f, anchor, r, p);
    }
    assert InDomain(roots', f, []) && NodeAt(mem', f, []) == Some(f);
    if IsTablePage(mem, roots, g) {
      var r: nat, p: seq<nat> :| InDomain(roots, r, p) && NodeAt(mem, r, p) == Some(g);
      assert InDomain(roots', r, p) && NodeAt(mem', r, p) == Some(g);
    }
    if IsTablePage(mem', roots', g) {
      var r: nat, p: seq<nat> :| InDomain(roots', r, p) && NodeAt(mem', r, p) == Some(g);
      if r != f { assert InDomain(roots, r, p); }
    }
  }

  lemma NewRootKernelOnly(mem: Mem, free: seq<nat>, roots: set<nat>, f: nat, anchor: nat)
    requires Good(Vm(mem, free), roots, {f}) && anchor in roots && f !in roots && KernelOnly(mem, roots)
    ensures KernelOnly(RootPage(mem, f), roots + {f})
  {
    var mem', roots' := RootPage(mem, f), roots + {f};
    forall r: nat, p: seq<nat> ensures InUse(mem, roots, {f}, r, p) {
      assert InUse(mem, roots, Spare({f}, free), r, p);
    }
    forall r: nat, p: seq<nat>, i: nat ensures DescriptorOk(mem', roots', r, p, i) {
      assert DescriptorOk(mem, roots, r, p, i) && InUse(mem, roots, {f}, r, p);
      if InDomain(roots', r, p) { NewRootNode(mem, roots, f, anchor, r, p); }
    }
  }

  lemma NewRootPages(s1: Spaces, s2: Spaces, f: nat)
    requires UserPages(s1) && s2.roots == s1.roots + {f} && s2.kernel == s1.kernel && Blank(s2, f)
    requires forall r: nat :: r in s1.roots ==> Untouched(s1, s2, r)
    ensures UserPages(s2)
  {
    forall r: nat, x: nat | r in s2.roots && r != s2.kernel ensures PageAt(s2.vm.mem, r, x) {
      if r == f { assert BlankAt(s2, f, x); } else { assert PageAt(s1.vm.mem, r, x) && SameTranslation(s1, s2, r, x); }
    }
  }

  lemma BootIsGood(kernel: nat, user: nat, free: seq<nat>)
    requires kernel != user && kernel < FRAMES && user < FRAMES && Stocked({kernel, user}, free)
    ensures var mem := RootPage(RootPage(map[], kernel), user);
            Good(Vm(mem, free), {kernel, user}, {}) && KernelOnly(mem, {kernel, user})
            && forall r: nat, idx: seq<nat> :: r in {kernel, user} && Ordinary(idx) ==> LeafFrom(mem, r, idx, 0) == None
  {
    var mem := RootPage(RootPage(map[], kernel), user);
    var roots := {kernel, user};
    forall r: nat, p: seq<nat> | InDomain(roots, r, p) ensures NodeAt(mem, r, p) == if p == [] then Some(r) else None {
      if p != [] {
        assert p[..1] == [] + [p[0]];
        NodeStep(mem, r, [], p[0]);
        NoNodeBelow(mem, r, p, 1);
      }
    }
    forall r: nat, p: seq<nat>, r': nat, p': seq<nat> ensures Unique(mem, roots, r, p, r', p') {}
    forall r: nat, p: seq<nat> ensures InUse(mem, roots, Spare({}, free), r, p) {}
    forall r: nat, p: seq<nat>, i: nat ensures DescriptorOk(mem, roots, r, p, i) {}
  }

  // ----- What the methods need -----

  // A user address no mapping accepts.
  predicate Refuses(va: nat) {
    !Ordinary(Indices(va)) || va + 0x1000 >= TWO_64
  }

  lemma WholeFrame(f: nat)
    ensures OnBoundary(PhysRange(f * 0x1000, f * 0x1000 + 0x1000), Page4K)
  {
    DivModUnique(f * 0x1000, f, 0, 0x1000);
    DivModUnique(f * 0x1000 + 0x1000, f + 1, 0, 0x1000);
  }

  /** How far a range has come: pages only leave the stock, 4K pages keep the set
      of tables and stock, and no page of the recursive window is mapped. */
  ghost predicate Progress(vm: Vm, vm': Vm, roots: set<nat>, va: nat, size: PageSize, done: nat) {
    && Fewer(vm.free, vm'.free)
    && (size.Page4K? ==> SameTables(vm, vm', roots) && (done > 0 ==> PageOf(va, Page4K) + done <= WINDOW))
  }

  // The first `done` pages of a range are mapped, and nothing else.
  ghost predicate Mapping(vm: Vm, vm': Vm, roots: set<nat>, target: nat, entry: Entry, pa: nat, va: nat, done: nat,
                          size: PageSize) {
    Progress(vm, vm', roots, va, size, done)
    && RangeMapped(vm.mem, vm'.mem, roots, target, entry, pa, va, done, size)
  }

  lemma MappingNone(vm: Vm, roots: set<nat>, target: nat, entry: Entry, pa: nat, va: nat, size: PageSize)
    ensures Mapping(vm, vm, roots, target, entry, pa, va, 0, size)
  {
    RangeNone(vm.mem, roots, target, entry, pa, va, size);
  }

  // A page taken from the stock of `s` was mapped in `target`, or was not.
  ghost predicate TookAndMapped(s: Spaces, s': Spaces, f: nat, target: nat, entry: Entry, va: nat, n: nat) {
    && Sound(s) && s' == s.(vm := s'.vm) && s.vm.free != [] && f == s.vm.free[0] && Good(s'.vm, s.roots, {f})
    && SameTables(Vm(s.vm.mem, s.vm.free[1..]), s'.vm, s.roots)
    && RangeMapped(s.vm.mem, s'.vm.mem, s.roots, target, entry, f * 0x1000, va, n, Page4K) && n <= 1
  }

  lemma UserFails(s: Spaces, f: nat, root: nat, va: nat, r: Result<VirtRange, MapError>)
    requires Sound(s) && root in s.roots && root != s.kernel && s.vm.free != []
    requires r == OneResult(Vm(s.vm.mem, s.vm.free[1..]), root, va, Page4K)
    ensures if r.Ok? then !Refuses(va) else Refuses(va) || r == Err(AllocationFailed)
  {
    assert PageAt(s.vm.mem, root, va);
    if Ordinary(Indices(va)) { NeverLost(s.vm.mem, s.roots, root, Indices(va), 3); }
  }

  lemma NewRootOpen(s1: Spaces, s2: Spaces)
    requires KernelOpen(s1) && s2.kernel == s1.kernel && Untouched(s1, s2, s1.kernel) && s2.vm.free == s1.vm.free
    requires Stocked({}, s1.vm.free)
    ensures KernelOpen(s2)
  {
    UntouchedKeepsOpen(s1, s2);
  }

  // The user's mapping is in place; the kernel's was added to it, or was not.
  lemma SecondMapping(s: Spaces, s1: Spaces, s2: Spaces, root: nat, entry: Entry, f: nat, va: nat, ok: bool)
    requires s.kernel in s.roots && s1.roots == s.roots && OnlyPage(s, s1, root, entry, f, va)
    requires Untouched(s1, s2, root) && Untouched(s, s1, s.kernel)
    requires RangeMapped(s1.vm.mem, s2.vm.mem, s.roots, s.kernel, RwKernelData, f * 0x1000, KernelVa(f),
                         if ok then 1 else 0, Page4K)
    ensures OnlyPage(s, s2, root, entry, f, va) && (ok ==> OnlyPage(s, s2, s.kernel, RwKernelData, f, KernelVa(f)))
  {
    forall x: nat ensures OnlyPageAt(s, s2, root, entry, f, va, x) {
      assert OnlyPageAt(s, s1, root, entry, f, va, x) && SameTranslation(s1, s2, root, x);
    }
    if ok {
      OnePageMapped(s1, s2, s.kernel, RwKernelData, f, KernelVa(f));
      forall x: nat ensures OnlyPageAt(s, s2, s.kernel, RwKernelData, f, KernelVa(f), x) {
        assert SameTranslation(s, s1, s.kernel, x) && OnlyPageAt(s1, s2, s.kernel, RwKernelData, f, KernelVa(f), x);
      }
    }
  }

  lemma KernelStaysOpen(s: Spaces, s1: Spaces, f: nat)
    requires KernelOpen(s) && f in s.vm.free && f < FRAMES && Untouched(s, s1, s.kernel)
    ensures !Covered(LeafAt(s1.vm.mem, s.kernel, KernelVa(f)), 3)
  {
    KernelAddress(f);
    assert OpenAt(s, f) && SameTranslation(s, s1, s.kernel, KernelVa(f));
  }
}
