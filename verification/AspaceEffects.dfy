/** What the operations on address spaces may do, and what whole runs of them keep
    (aarch64/src/aspace.rs). */
module AspaceEffects {
  import opened Prelude
  import opened Arith
  import opened PageTable
  import opened PageMap
  import opened PageRange
  import opened AspaceState
  import opened UserFrames

  // ----- What users can reach -----

  /** For the installed user root an accepted range is let through by the hardware if
      and only if it ends within the first 48 bits and falls on memory there is. */
  lemma UserRangeReachedIff(s: Spaces, va: nat, len: nat, forWrite: bool)
    requires Sound(s) && len > 0 && BytesOk(s.vm.mem, s.user, va, va + len, forWrite)
    ensures BytesReached(s.vm.mem, s.user, va, va + len, forWrite) <==>
              va + len <= USER_TOP && BytesBacked(s.vm.mem, s.user, va, va + len)
    ensures AllBacked(s) ==> BytesBacked(s.vm.mem, s.user, va, va + len)
  {
    PagesReachedIff(s.vm.mem, s.user, va, len, forWrite);
    if AllBacked(s) {
      forall x: nat | va <= x < va + len ensures ByteBacked(s.vm.mem, s.user, x) {
        assert ByteOk(s.vm.mem, s.user, x, forWrite);
        GrantedIsUserFrame(s, s.user, x);
        assert BackedAt(s, s.user, x);
      }
    }
  }

  // What a leaf grants the user it grants at an ordinary address.
  lemma GrantedIsUserFrame(s: Spaces, r: nat, x: nat)
    requires Sound(s) && r in s.roots && r != s.kernel
    requires var leaf := LeafAt(s.vm.mem, r, x); leaf.Some? && ForUser(leaf.value.entry)
    ensures UserFrame(s, r, x) == Some(LeafAt(s.vm.mem, r, x).value.entry.frame)
  {
    var idx := Indices(x);
    assert RealPath(idx);
    if !Ordinary(idx) { WindowDenied(s.vm.mem, s.roots, r, idx, 1, [], r); }
  }

  lemma ReachedIsUserFrame(s: Spaces, r: nat, x: nat, forWrite: bool)
    requires Sound(s) && r in s.roots && r != s.kernel && ByteReached(s.vm.mem, r, x, forWrite)
    ensures UserFrame(s, r, x) == Some(HwWalk(s.vm.mem, r, false, x).entry.frame)
  {
    WalkIsLeaf(s.vm.mem, r, Indices(x), 0);
    GrantedIsUserFrame(s, r, x);
  }

  /** Whatever address the hardware lets a user through at, the recursive window
      included, the page it reaches is no table and not in the stock. */
  lemma TablesOutOfReach(s: Spaces, r: nat, x: nat, forWrite: bool)
    requires Sound(s) && Protected(s) && r in s.roots && r != s.kernel && ByteReached(s.vm.mem, r, x, forWrite)
    ensures !Owned(s.vm, s.roots, HwWalk(s.vm.mem, r, false, x).entry.frame)
  {
    ReachedIsUserFrame(s, r, x, forWrite);
    assert ProtectedAt(s, r, x);
  }

  /** Two accesses that reach the same page are made through the same root at the same
      page of it: users share no memory. */
  lemma NoSharedPage(s: Spaces, r: nat, x: nat, w: bool, r': nat, x': nat, w': bool)
    requires Sound(s) && Exclusive(s) && r in s.roots && r != s.kernel && r' in s.roots && r' != s.kernel
    requires ByteReached(s.vm.mem, r, x, w) && ByteReached(s.vm.mem, r', x', w')
    requires HwWalk(s.vm.mem, r, false, x).entry.frame == HwWalk(s.vm.mem, r', false, x').entry.frame
    ensures r == r' && PageOf(x, Page4K) == PageOf(x', Page4K)
  {
    ReachedIsUserFrame(s, r, x, w);
    ReachedIsUserFrame(s, r', x', w');
    assert ExclusiveAt(s, r, x, r', x');
  }

  // ----- The rights of what is mapped -----

  /** A data page: the hardware lets users read and write it and nobody run it. */
  lemma DataPageRights(s: Spaces, s': Spaces, root: nat, f: nat, va: nat)
    requires OnlyPage(s, s', root, RwUserData, f, va) && Ordinary(Indices(va)) && va < USER_TOP && f < FRAMES
    ensures var w := HwWalk(s'.vm.mem, root, false, va);
            && w.At(f) && HwGrants(w.entry, false) && HwGrants(w.entry, true)
            && !HwFetches(w.entry) && w.entry.pxn && w.entry.mair.Normal?
  {
    PageReached(s, s', root, false, RwUserData, f, va);
  }

  /** The kernel's own mapping of a user's page denies users any access, and nobody runs
      it. */
  lemma KernelAliasRights(s: Spaces, s': Spaces, f: nat, va: nat)
    requires OnlyPage(s, s', s.kernel, RwKernelData, f, va) && Ordinary(Indices(va)) && Translated(true, va)
    requires f < FRAMES
    ensures var w := HwWalk(s'.vm.mem, s.kernel, true, va);
            && w.At(f) && !HwGrants(w.entry, false) && !HwGrants(w.entry, true)
            && !HwFetches(w.entry) && w.entry.pxn && w.entry.mair.Normal?
  {
    PageReached(s, s', s.kernel, true, RwKernelData, f, va);
  }

  /** A device page: users read and write it, as device memory, and nobody runs it. */
  lemma DeviceRights(s: Spaces, s': Spaces, root: nat, pa: nat, va: nat, n: nat, x: nat)
    requires RangeMapped(s.vm.mem, s'.vm.mem, s.roots, root, RwUserMmio, pa, va, n, Page4K) && root in s.roots
    requires Ordinary(Indices(x)) && x < USER_TOP && Among(va, n, x)
    requires Stored(pa / 0x1000 + (PageOf(x, Page4K) - PageOf(va, Page4K))) < FRAMES
    ensures var w := HwWalk(s'.vm.mem, root, false, x);
            && w.At(Stored(pa / 0x1000 + (PageOf(x, Page4K) - PageOf(va, Page4K))))
            && HwGrants(w.entry, false) && HwGrants(w.entry, true)
            && !HwFetches(w.entry) && w.entry.pxn && w.entry.mair.Device?
  {
    assert RangeMappedAt(s.vm.mem, s'.vm.mem, s.roots, root, RwUserMmio, pa, va, n, Page4K, root, x);
    WalkIsLeaf(s'.vm.mem, root, Indices(x), 0);
  }

  // ----- The effect of an operation -----

  // What a descriptor for one of the range's pages stores.
  ghost predicate RangeNames(range: PhysRange, f: nat) {
    exists g: nat :: Lies(range, g) && Stored(g) == f
  }

  ghost predicate NamesFrame(op: Op, f: nat) {
    op.MapMmio? && RangeNames(op.range, f)
  }

  ghost predicate OpClear(s: Spaces, op: Op) {
    forall f: nat :: NamesFrame(op, f) ==> !Owned(s.vm, s.roots, f)
  }

  ghost predicate OpBacked(op: Op) {
    forall f: nat :: NamesFrame(op, f) ==> f < FRAMES
  }

  ghost predicate OpFree(s: Spaces, op: Op) {
    forall f: nat :: NamesFrame(op, f) ==> !Used(s, f)
  }

  /** What an operation does to the pages users reach. */
  ghost predicate Kept(s: Spaces, op: Op, s': Spaces) {
    && FewerOwned(s, s')
    && (forall f: nat :: Used(s', f) ==> Used(s, f) || Owned(s.vm, s.roots, f) || NamesFrame(op, f))
    && (Protected(s) && OpClear(s, op) ==> Protected(s'))
    && (AllBacked(s) && OpBacked(op) ==> AllBacked(s'))
    && (Protected(s) && Exclusive(s) && OpFree(s, op) ==> Exclusive(s'))
  }

  /** What an operation may do, whatever its outcome. */
  ghost predicate Effect(s: Spaces, op: Op, s': Spaces) {
    && Sound(s') && s'.kernel == s.kernel && s.roots <= s'.roots
    && (forall r: nat :: r in s.roots && r != s.kernel && !Writes(op, r) ==> Untouched(s, s', r))
    && (!op.Create? && !op.MapPage? ==> Untouched(s, s', s.kernel))
    && (forall r: nat :: r in s'.roots && r !in s.roots ==> Blank(s', r))
    && (!op.Create? ==> s'.roots == s.roots)
    && Kept(s, op, s')
  }

  // What keeps all promises and takes pages from the stock only.
  ghost predicate Harmless(s: Spaces, s': Spaces) {
    && FewerOwned(s, s')
    && (forall f: nat :: Used(s', f) ==> Used(s, f) || Owned(s.vm, s.roots, f))
    && (Protected(s) ==> Protected(s'))
    && (AllBacked(s) ==> AllBacked(s'))
    && (Protected(s) && Exclusive(s) ==> Exclusive(s'))
  }

  lemma HarmlessTwice(s: Spaces, s1: Spaces, s2: Spaces)
    requires Harmless(s, s1) && Harmless(s1, s2)
    ensures Harmless(s, s2)
  {
  }

  lemma SameIsHarmless(s: Spaces, s': Spaces)
    requires SameFrames(s, s') && FewerOwned(s, s')
    ensures Harmless(s, s')
  {
    SameFramesKeep(s, s');
  }

  // A page taken from the stock and mapped in one root, or not mapped.
  lemma FrameMapped(s: Spaces, s': Spaces, f: nat, target: nat, entry: Entry, va: nat, n: nat)
    requires TookAndMapped(s, s', f, target, entry, va, n) && target in s.roots
    ensures Sound(s') && Harmless(s, s') && f in s.vm.free && FewerOwned(s, s')
    ensures forall r: nat :: r in s.roots && (r != target || n == 0) ==> Untouched(s, s', r)
    ensures target == s.kernel ==> SameFrames(s, s')
  {
    DivModUnique(f * 0x1000, f, 0, 0x1000);
    assert f in s.vm.free;
    RangeUntouched(s, s', target, entry, f * 0x1000, va, n);
    RangeKeepsPages(s, s', target, entry, f * 0x1000, va, n);
    MappedFrames(s, s', target, entry, f * 0x1000, va, n);
    DropHeld(s'.vm, s.roots, f);
    HeldNotOwned(s'.vm, s.roots, f);
    FewerAfterTake(s, s');
    OneFresh(s, s', target, entry, f, va, n);
    FreshKeeps(s, s', target, f, va);
    if target == s.kernel { KernelFramesSame(s, s', entry, f, va, n); }
  }

  // The next page of the stock is held back.
  lemma TakenKeeps(s: Spaces, s': Spaces, f: nat)
    requires Sound(s) && s.vm.free != [] && s' == s.(vm := Vm(s.vm.mem, s.vm.free[1..])) && f == s.vm.free[0]
    requires Good(s'.vm, s.roots, {f})
    ensures Sound(s') && Harmless(s, s') && (KernelOpen(s) ==> KernelOpen(s')) && f < FRAMES && f in s.vm.free
    ensures forall r: nat :: Untouched(s, s', r)
  {
    assert f in s.vm.free;
    forall r: nat, x: nat ensures SameFrameAt(s, s', r, x) {}
    SameIsHarmless(s, s');
    DropHeld(s'.vm, s.roots, f);
    Idle(s, s');
    if KernelOpen(s) { UntouchedKeepsOpen(s, s'); }
  }

  // It was mapped for the kernel, who then reaches it; or was not, for lack of pages.
  lemma KernelPageMapped(s: Spaces, s0: Spaces, s1: Spaces, f: nat, ok: bool)
    requires Sound(s) && f in s.vm.free && f < FRAMES && s0 == s.(vm := s0.vm) && s1 == s.(vm := s1.vm)
    requires s0.vm.mem == s.vm.mem
    requires Harmless(s, s0) && Harmless(s0, s1)
    requires forall r: nat :: r in s.roots && r != s.kernel ==> Untouched(s0, s1, r)
    requires RangeMapped(s0.vm.mem, s1.vm.mem, s.roots, s.kernel, RwKernelData, f * 0x1000, KernelVa(f),
                         if ok then 1 else 0, Page4K)
    ensures Harmless(s, s1) && forall r: nat :: r in s.roots && r != s.kernel ==> Untouched(s, s1, r)
    ensures ok ==> HwWalk(s1.vm.mem, s.kernel, true, KernelVa(f)).At(f)
    ensures KernelOpen(s) ==> !Covered(LeafAt(s0.vm.mem, s.kernel, KernelVa(f)), 3)
  {
    KernelAddress(f);
    HarmlessTwice(s, s0, s1);
    forall r: nat, x: nat | r in s.roots && r != s.kernel ensures SameTranslation(s, s1, r, x) {
      assert SameTranslation(s0, s1, r, x);
    }
    if ok {
      OnePageMapped(s0, s1, s.kernel, RwKernelData, f, KernelVa(f));
      PageReached(s0, s1, s.kernel, true, RwKernelData, f, KernelVa(f));
    }
    if KernelOpen(s) { assert OpenAt(s, f); }
  }

  // A page held back from the stock was mapped for the kernel, or was not.
  lemma KernelMapped(s: Spaces, s': Spaces, f: nat, va: nat, n: nat)
    requires Sound(s) && s' == s.(vm := s'.vm) && SameTables(s.vm, s'.vm, s.roots) && Fewer(s.vm.free, s'.vm.free)
    requires RangeMapped(s.vm.mem, s'.vm.mem, s.roots, s.kernel, RwKernelData, f * 0x1000, va, n, Page4K)
    ensures UserPages(s') && Harmless(s, s') && (KernelOpen(s) ==> KernelOpen(s'))
    ensures forall r: nat :: r in s.roots && r != s.kernel ==> Untouched(s, s', r)
  {
    RangeUntouched(s, s', s.kernel, RwKernelData, f * 0x1000, va, n);
    RangeKeepsPages(s, s', s.kernel, RwKernelData, f * 0x1000, va, n);
    MappedFrames(s, s', s.kernel, RwKernelData, f * 0x1000, va, n);
    KernelFramesSame(s, s', RwKernelData, f * 0x1000 / 0x1000, va, n);
    SameIsHarmless(s, s');
    if KernelOpen(s) { PageKeepsOpen(s, s', RwKernelData, f * 0x1000, va, n); }
  }

  lemma KernelFramesSame(s: Spaces, s': Spaces, entry: Entry, frame: nat, va: nat, n: nat)
    requires FramesAfter(s, s', s.kernel, entry, frame, va, n)
    ensures SameFrames(s, s')
  {
    forall r: nat, x: nat ensures SameFrameAt(s, s', r, x) {
      assert FrameAfterAt(s, s', s.kernel, entry, frame, va, n, r, x);
    }
  }

  lemma FewerAfterTake(s: Spaces, s': Spaces)
    requires s'.roots == s.roots && s.vm.free != [] && SameOwned(Vm(s.vm.mem, s.vm.free[1..]), s'.vm, s.roots)
    ensures FewerOwned(s, s')
  {
    var vm := Vm(s.vm.mem, s.vm.free[1..]);
    forall f: nat ensures Owned(s'.vm, s'.roots, f) ==> Owned(s.vm, s.roots, f) {
      assert Owned(vm, s.roots, f) <==> Owned(s'.vm, s.roots, f);
    }
  }

  // The page `f`, cleared and pointing at itself, joins the roots of `s1`.
  ghost predicate RootAdded(s1: Spaces, s2: Spaces, f: nat) {
    s2 == s1.(vm := Vm(RootPage(s1.vm.mem, f), s1.vm.free), roots := s1.roots + {f})
  }

  lemma NewRootSound(s1: Spaces, s2: Spaces, f: nat)
    requires Good(s1.vm, s1.roots, {f}) && UserPages(s1) && KernelOnly(s1.vm.mem, s1.roots) && f < FRAMES
    requires s1.kernel in s1.roots && s1.user in s1.roots && s1.user != s1.kernel && RootAdded(s1, s2, f)
    ensures f !in s1.roots && Sound(s2) && Blank(s2, f) && forall r: nat :: r in s1.roots ==> Untouched(s1, s2, r)
  {
    NewRootKeeps(s1.vm.mem, s1.vm.free, s1.roots, f, s1.kernel);
    forall r: nat, x: nat | r in s1.roots ensures SameTranslation(s1, s2, r, x) {
      assert SameLeaf(s1.vm.mem, s2.vm.mem, s1.roots, r, Indices(x));
    }
    forall x: nat ensures BlankAt(s2, f, x) {}
    NewRootPages(s1, s2, f);
    NewRootKernelOnly(s1.vm.mem, s1.vm.free, s1.roots, f, s1.kernel);
  }

  // The root page `f` was in the stock of `s`, and `s1` follows from mapping it for the kernel.
  lemma NewRootEffect(s: Spaces, s1: Spaces, s2: Spaces, f: nat)
    requires Sound(s) && s1 == s.(vm := s1.vm) && Good(s1.vm, s.roots, {f}) && UserPages(s1)
    requires KernelOnly(s1.vm.mem, s.roots) && RootAdded(s1, s2, f) && f in s.vm.free
    requires forall r: nat :: r in s.roots && r != s.kernel ==> Untouched(s, s1, r)
    requires FewerOwned(s, s1)
    ensures f !in s.roots && Effect(s, Op.Create, s2) && Untouched(s1, s2, s.kernel)
  {
    NewRootSound(s1, s2, f);
    forall r: nat, x: nat | r in s.roots && r != s.kernel ensures SameTranslation(s, s2, r, x) {
      assert SameTranslation(s, s1, r, x) && SameTranslation(s1, s2, r, x);
    }
    forall g: nat ensures Owned(s2.vm, s2.roots, g) ==> Owned(s.vm, s.roots, g) {
      NewRootOwned(s1.vm.mem, s1.vm.free, s.roots, f, s.kernel, g);
    }
    NewRootFrames(s, s2, f);
    SameFramesKeep(s, s2);
  }

  lemma NewRootFrames(s: Spaces, s2: Spaces, f: nat)
    requires s2.roots == s.roots + {f} && s2.kernel == s.kernel && f !in s.roots && Blank(s2, f)
    requires forall r: nat :: r in s.roots && r != s.kernel ==> Untouched(s, s2, r)
    ensures SameFrames(s, s2)
  {
    forall r: nat, x: nat ensures SameFrameAt(s, s2, r, x) {
      if r == f { assert BlankAt(s2, f, x); }
      if r in s.roots && r != s.kernel { assert SameTranslation(s, s2, r, x); }
    }
  }

  lemma BootKeepsPromises(s: Spaces)
    requires s.kernel in s.roots && (forall r: nat :: r in s.roots ==> Blank(s, r)) && Stocked({}, s.vm.free)
    ensures Protected(s) && AllBacked(s) && Exclusive(s) && KernelOpen(s) && UserPages(s)
  {
    forall r: nat, x: nat ensures UserFrame(s, r, x).None? { if r in s.roots { assert BlankAt(s, r, x); } }
    forall r: nat, x: nat ensures ProtectedAt(s, r, x) && BackedAt(s, r, x) {}
    forall f: nat ensures OpenAt(s, f) {
      if f in s.vm.free { KernelAddress(f); assert BlankAt(s, s.kernel, KernelVa(f)); }
    }
    forall r: nat, x: nat | r in s.roots ensures PageAt(s.vm.mem, r, x) { assert BlankAt(s, r, x); }
  }

  /** A device range, or the part of it mapped before a failure. */
  lemma DeviceKept(s: Spaces, s': Spaces, root: nat, range: PhysRange, va: nat, n: nat)
    requires root in s.roots && root != s.kernel && s'.roots == s.roots && s'.kernel == s.kernel
    requires RangeMapped(s.vm.mem, s'.vm.mem, s.roots, root, RwUserMmio, range.start, va, n, Page4K)
    requires SameOwned(s.vm, s'.vm, s.roots)
    requires n > 0 ==> PageOf(va, Page4K) + n <= WINDOW && n * 0x1000 <= range.end - range.start
    ensures Kept(s, MapMmio(root, range, va), s')
    ensures Protected(s) ==> (Protected(s') <==> FramesClear(s, range.start / 0x1000, n))
    ensures AllBacked(s) ==> (AllBacked(s') <==> FramesBacked(range.start / 0x1000, n))
    ensures Exclusive(s) ==> (Exclusive(s') <==> FramesFree(s, root, va, range.start / 0x1000, n))
  {
    var op, frame := MapMmio(root, range, va), range.start / 0x1000;
    MappedFrames(s, s', root, RwUserMmio, range.start, va, n);
    forall g: nat | frame <= g < frame + n ensures Lies(range, g) && NamesFrame(op, Stored(g)) {
      MulMono(g - frame + 1, n, 0x1000);
      assert Lies(range, g);
    }
    if Protected(s) { DeviceProtectedIff(s, s', root, RwUserMmio, frame, va, n); }
    if AllBacked(s) { DeviceBackedIff(s, s', root, RwUserMmio, frame, va, n); }
    if Exclusive(s) { DeviceExclusiveIff(s, s', root, RwUserMmio, frame, va, n); }
    if OpFree(s, op) { UnusedIsFree(s, op, root, va, frame, n); }
    forall f: nat | Used(s', f) ensures Used(s, f) || NamesFrame(op, f) {
      DeviceUsed(s, s', op, root, frame, va, n, f);
    }
  }

  lemma UnusedIsFree(s: Spaces, op: Op, target: nat, va: nat, frame: nat, n: nat)
    requires OpFree(s, op) && forall g: nat :: frame <= g < frame + n ==> NamesFrame(op, Stored(g))
    ensures FramesFree(s, target, va, frame, n)
  {
    forall g: nat, r: nat, x: nat | frame <= g < frame + n ensures FreeAt(s, target, va, n, g, r, x) {
      assert !Used(s, Stored(g));
    }
  }

  lemma DeviceUsed(s: Spaces, s': Spaces, op: Op, target: nat, frame: nat, va: nat, n: nat, f: nat)
    requires FramesAfter(s, s', target, RwUserMmio, frame, va, n) && Used(s', f)
    requires forall g: nat :: frame <= g < frame + n ==> NamesFrame(op, Stored(g))
    ensures Used(s, f) || NamesFrame(op, f)
  {
    var r: nat, x: nat :| UserFrame(s', r, x) == Some(f);
    assert FrameAfterAt(s, s', target, RwUserMmio, frame, va, n, r, x);
    if Relabels(s, target, va, n, r, x) { var g := RangeFrame(s, s', target, RwUserMmio, frame, va, n, r, x); }
  }

  // ----- Runs -----

  // Every constructor of `Entry` builds these.
  predicate OpOk(op: Op) {
    op.MapPage? ==> op.entry.valid && !op.entry.page
  }

  lemma Unchanged(s: Spaces, s': Spaces)
    requires s'.vm == s.vm && s'.roots == s.roots && s'.kernel == s.kernel
    ensures (forall r: nat :: Untouched(s, s', r)) && Harmless(s, s')
  {
    forall r: nat, x: nat ensures SameFrameAt(s, s', r, x) {}
    SameFramesKeep(s, s');
  }

  lemma Skipped(s: Spaces, op: Op)
    requires Sound(s)
    ensures Effect(s, op, s)
  {
    Unchanged(s, s);
  }

  predicate Unnamed(ops: seq<Op>, r: nat) {
    forall i :: 0 <= i < |ops| ==> !Writes(ops[i], r)
  }

  // No device range of the run names a table or a page of the stock.
  ghost predicate DevicesClear(ops: seq<Op>, s: Spaces) {
    forall i :: 0 <= i < |ops| ==> OpClear(s, ops[i])
  }

  // All of them lie in memory there is.
  ghost predicate DevicesBacked(ops: seq<Op>) {
    forall i :: 0 <= i < |ops| ==> OpBacked(ops[i])
  }

  ghost predicate NamedTwice(ops: seq<Op>, i: nat, j: nat, f: nat) {
    i < j < |ops| && NamesFrame(ops[i], f) && NamesFrame(ops[j], f)
  }

  // None names a page some user has already, and no two name the same page.
  ghost predicate DevicesApart(ops: seq<Op>, s: Spaces) {
    && (forall i :: 0 <= i < |ops| ==> OpFree(s, ops[i]))
    && (forall i: nat, j: nat, f: nat :: !NamedTwice(ops, i, j, f))
  }

  ghost predicate NamedBy(ops: seq<Op>, f: nat) {
    exists i :: 0 <= i < |ops| && NamesFrame(ops[i], f)
  }

  /** What a run of operations has kept. */
  ghost predicate Isolated(s: Spaces, ops: seq<Op>, s': Spaces) {
    && s'.kernel == s.kernel && s.roots <= s'.roots && FewerOwned(s, s')
    && (forall r: nat :: r in s.roots && r != s.kernel && Unnamed(ops, r) ==> Untouched(s, s', r))
    && (forall r: nat :: r in s'.roots && r !in s.roots && Unnamed(ops, r) ==> Blank(s', r))
    && (forall f: nat :: Used(s', f) ==> Used(s, f) || Owned(s.vm, s.roots, f) || NamedBy(ops, f))
    && (Protected(s) && DevicesClear(ops, s) ==> Protected(s'))
    && (AllBacked(s) && DevicesBacked(ops) ==> AllBacked(s'))
    && (Protected(s) && DevicesClear(ops, s) && Exclusive(s) && DevicesApart(ops, s) ==> Exclusive(s'))
  }

  lemma IsolatedAtFirst(s: Spaces)
    ensures Isolated(s, [], s)
  {
    Unchanged(s, s);
  }

  // The parts of a longer run.
  lemma FirstOps(ops: seq<Op>, op: Op, s: Spaces)
    ensures forall r: nat :: Unnamed(ops + [op], r) ==> Unnamed(ops, r) && !Writes(op, r)
    ensures DevicesClear(ops + [op], s) ==> DevicesClear(ops, s) && OpClear(s, op)
    ensures DevicesBacked(ops + [op]) ==> DevicesBacked(ops) && OpBacked(op)
    ensures forall f: nat :: NamedBy(ops, f) || NamesFrame(op, f) ==> NamedBy(ops + [op], f)
  {
    var all := ops + [op];
    assert all[|ops|] == op && forall i :: 0 <= i < |ops| ==> all[i] == ops[i];
    forall f: nat | NamedBy(ops, f) || NamesFrame(op, f) ensures NamedBy(all, f) {
      if NamedBy(ops, f) {
        var i :| 0 <= i < |ops| && NamesFrame(ops[i], f);
        assert NamesFrame(all[i], f);
      } else {
        assert NamesFrame(all[|ops|], f);
      }
    }
  }

  lemma FirstApart(ops: seq<Op>, op: Op, s: Spaces)
    requires DevicesApart(ops + [op], s)
    ensures DevicesApart(ops, s) && OpFree(s, op)
    ensures forall f: nat :: NamesFrame(op, f) ==> !NamedBy(ops, f)
  {
    var all := ops + [op];
    assert all[|ops|] == op && forall i :: 0 <= i < |ops| ==> all[i] == ops[i];
    forall i: nat, j: nat, f: nat ensures !NamedTwice(ops, i, j, f) { assert !NamedTwice(all, i, j, f); }
    forall f: nat | NamesFrame(op, f) ensures !NamedBy(ops, f) {
      forall i: nat | i < |ops| ensures !NamesFrame(ops[i], f) { assert !NamedTwice(all, i, |ops|, f); }
    }
  }

  lemma IsolatedRoots(s: Spaces, ops: seq<Op>, s1: Spaces, op: Op, s2: Spaces)
    requires Isolated(s, ops, s1) && Effect(s1, op, s2) && s.kernel in s.roots
    ensures forall r: nat :: r in s.roots && r != s.kernel && Unnamed(ops + [op], r) ==> Untouched(s, s2, r)
    ensures forall r: nat :: r in s2.roots && r !in s.roots && Unnamed(ops + [op], r) ==> Blank(s2, r)
  {
    FirstOps(ops, op, s);
    forall r: nat, x: nat | r in s.roots && r != s.kernel && Unnamed(ops + [op], r)
      ensures SameTranslation(s, s2, r, x)
    {
      assert SameTranslation(s, s1, r, x) && SameTranslation(s1, s2, r, x);
    }
    forall r: nat, x: nat | r in s2.roots && r !in s.roots && Unnamed(ops + [op], r) ensures BlankAt(s2, r, x) {
      if r in s1.roots { assert BlankAt(s1, r, x) && SameTranslation(s1, s2, r, x); } else { assert BlankAt(s2, r, x); }
    }
  }

  // A range apart from all before it names no page a user has by then.
  lemma StillFree(s: Spaces, ops: seq<Op>, s1: Spaces, op: Op)
    requires Isolated(s, ops, s1) && OpClear(s, op) && OpFree(s, op) && forall f: nat :: NamesFrame(op, f) ==>
      !NamedBy(ops, f)
    ensures OpFree(s1, op)
  {
  }

  /** One more operation keeps it. */
  lemma IsolatedNext(s: Spaces, ops: seq<Op>, s1: Spaces, op: Op, s2: Spaces)
    requires Isolated(s, ops, s1) && Effect(s1, op, s2) && s.kernel in s.roots
    ensures Isolated(s, ops + [op], s2)
  {
    IsolatedRoots(s, ops, s1, op, s2);
    FirstOps(ops, op, s);
    if DevicesClear(ops + [op], s) { assert OpClear(s1, op); }
    if DevicesClear(ops + [op], s) && DevicesApart(ops + [op], s) {
      FirstApart(ops, op, s);
      StillFree(s, ops, s1, op);
    }
  }
}
