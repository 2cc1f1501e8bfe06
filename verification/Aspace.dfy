/** The tables as the kernel changes them in place, and the operations on address
    spaces (aarch64/src/aspace.rs over aarch64/src/vm.rs). */
module Aspace {
  import opened Prelude
  import opened Arith
  import opened PageTable
  import opened PageMap
  import opened PageRange
  import opened AspaceState
  import opened UserFrames
  import opened AspaceEffects

  class AddressSpaces {
    var mem: Mem
    var free: seq<nat>
    const kernel: nat
    var user: nat
    ghost var roots: set<nat>

    ghost function Tables(): Vm
      reads this
    {
      Vm(mem, free)
    }

    ghost function State(): Spaces
      reads this
    {
      Spaces(Tables(), kernel, user, roots)
    }

    function LiveRoot(inKernel: bool): nat
      reads this
    {
      if inKernel then kernel else user
    }

    /** At boot both roots hold nothing but their self-pointers. */
    constructor (kernelRoot: nat, userRoot: nat, pages: seq<nat>)
      requires kernelRoot != userRoot && kernelRoot < FRAMES && userRoot < FRAMES
      requires Stocked({kernelRoot, userRoot}, pages)
      ensures Sound(State()) && Protected(State()) && AllBacked(State()) && Exclusive(State()) && KernelOpen(State())
      ensures kernel == kernelRoot && user == userRoot && free == pages && roots == {kernelRoot, userRoot}
      ensures Blank(State(), kernelRoot) && Blank(State(), userRoot)
    {
      kernel, user, free := kernelRoot, userRoot, pages;
      mem := RootPage(RootPage(map[], kernelRoot), userRoot);
      roots := {kernelRoot, userRoot};
      new;
      BootIsGood(kernelRoot, userRoot, pages);
      BootKeepsPromises(State());
    }

    method NextMut(inKernel: bool, t: nat, level: Level, va: nat) returns (r: Result<nat, MapError>)
      requires level < 3
      modifies this`mem, this`free
      ensures (Tables(), r) == PageMap.NextMut(old(Tables()), LiveRoot(inKernel), inKernel, t, level, va)
    {
      var i := VaIndex(va, level);
      if level == 0 && i == RECURSIVE_SLOT { return Err(MappingRecursiveIndex); }
      var e := Read(mem, t, i);
      if e.valid && !e.IsTable(level) { return Err(EntryIsNotTable); }
      if e.valid { return Resolve(mem, LiveRoot(inKernel), inKernel, va, level + 1); }
      if free == [] { return Err(AllocationFailed); }
      var page := free[0];
      free := free[1..];
      mem := Write(mem, t, i, TableEntry(page));
      r := Resolve(mem, LiveRoot(inKernel), inKernel, va, level + 1);
      if r.Ok? { mem := Clear(mem, r.value); }
    }

    /** Succeeds exactly when the verdict says so; then the page has the new leaf
        and no other translation changed; on failure none did. */
    method MapTo(target: nat, entry: Entry, va: nat, size: PageSize, inKernel: bool, ghost held: set<nat>)
      returns (r: Result<(), MapError>)
      requires Good(Tables(), roots, held) && LiveRoot(inKernel) in roots && target in roots && entry.valid
      requires !entry.page
      modifies this`mem, this`free
      ensures Good(Tables(), roots, held)
      ensures r == (match Verdict(old(Tables()), target, Indices(va), size.Level())
                    case Some(e) => Err(e) case None => Ok(()))
      ensures forall root: nat, x: nat ::
                MapToAt(old(Tables()), Tables(), r.Ok?, roots, target, entry, va, size, root, x)
      ensures Fewer(old(free), free) && (r == Err(AllocationFailed) ==> free == [])
      ensures size.Page4K? ==> SameTables(old(Tables()), Tables(), roots)
    {
      ghost var vm := Tables();
      var live := LiveRoot(inKernel);
      var saved := Read(mem, live, RECURSIVE_SLOT);
      mem := Write(mem, live, RECURSIVE_SLOT, TableEntry(target));
      var dest := FindSlotTable(target, va, size, inKernel);
      if dest.Ok? {
        mem := Write(mem, dest.value, VaIndex(va, size.Level()), LeafEntry(entry, size));
        r := Ok(());
      } else {
        r := Err(dest.error);
      }
      mem := Write(mem, live, RECURSIVE_SLOT, saved);
      assert (Tables(), r) == PageMap.MapTo(vm, live, target, inKernel, entry, va, size);
      MapToCorrect(vm, roots, held, live, target, inKernel, entry, va, size);
      MapToVerdict(vm, roots, held, live, target, inKernel, entry, va, size);
      DescendTakes(AimAt(vm, live, target), live, inKernel, target, 0, size.Level(), va);
      DescendExhausts(AimAt(vm, live, target), live, inKernel, target, 0, size.Level(), va);
      if size.Page4K? { MapToTables(vm, roots, held, live, target, inKernel, entry, va); }
    }

    // The chain of `next_mut` calls down to the table that holds the leaf's slot.
    method FindSlotTable(target: nat, va: nat, size: PageSize, inKernel: bool) returns (r: Result<nat, MapError>)
      modifies this`mem, this`free
      ensures (Tables(), r) == Descend(old(Tables()), LiveRoot(inKernel), inKernel, target, 0, size.Level(), va)
    {
      ghost var vm, live, d := Tables(), LiveRoot(inKernel), size.Level();
      r := NextMut(inKernel, target, 0, va);
      if r.Err? { return; }
      assert Descend(vm, live, inKernel, target, 0, d, va) == Descend(Tables(), live, inKernel, r.value, 1, d, va);
      if size.Page1G? { return; }
      ghost var vm1, t1 := Tables(), r.value;
      r := NextMut(inKernel, r.value, 1, va);
      assert Descend(vm1, live, inKernel, t1, 1, d, va) ==
             if r.Err? then (Tables(), r) else Descend(Tables(), live, inKernel, r.value, 2, d, va);
      if r.Err? || size.Page2M? { return; }
      ghost var vm2, t2 := Tables(), r.value;
      r := NextMut(inKernel, r.value, 2, va);
      assert Descend(vm2, live, inKernel, t2, 2, d, va) ==
             if r.Err? then (Tables(), r) else Descend(Tables(), live, inKernel, r.value, 3, d, va);
    }

    // Page `n` of a range whose first `n` pages are mapped already (aarch64/src/vm.rs, `map_phys_range`).
    method MapNext(target: nat, entry: Entry, pa: nat, va: nat, size: PageSize, inKernel: bool, ghost held: set<nat>,
                   ghost vm0: Vm, ghost startPa: nat, ghost startVa: nat, ghost n: nat)
      returns (r: Result<(), MapError>)
      requires Good(Tables(), roots, held) && LiveRoot(inKernel) in roots && target in roots && entry.valid
      requires !entry.page
      requires Progress(vm0, Tables(), roots, startVa, size, n)
      requires RangeMapped(vm0.mem, mem, roots, target, entry, startPa, startVa, n, size)
      requires PageOf(va, size) == PageOf(startVa, size) + n
      requires startPa % Bytes(size) == 0 && pa == startPa + n * Bytes(size)
      modifies this`mem, this`free
      ensures Good(Tables(), roots, held)
      ensures r.Ok? ==> Ordinary(Indices(va))
      ensures RangeMapped(vm0.mem, mem, roots, target, entry, startPa, startVa, if r.Ok? then n + 1 else n, size)
      ensures Progress(vm0, Tables(), roots, startVa, size, if r.Ok? then n + 1 else n)
      ensures va + Bytes(size) < TWO_64 ==>
        OneResult(old(Tables()), target, va, size)
        == if r.Ok? then Ok(VirtRange(va, va + Bytes(size))) else Err(r.error)
      ensures r.Err? ==> !r.error.PhysRangeIsNotOnPageBoundary? && !r.error.PhysRangeIsZero?
      ensures r == Err(AllocationFailed) ==> free == []
    {
      ghost var vm1 := Tables();
      r := MapTo(target, entry.WithPhysAddr(pa), va, size, inKernel, held);
      OnePageLeaves(vm1, Tables(), r.Ok?, roots, target, entry, pa, va, size);
      if r.Err? {
        SameRange(vm0.mem, vm1.mem, mem, roots, target, entry, startPa, startVa, n, size, pa, va);
      } else {
        if size.Page4K? { OrdinaryIsLow(va); }
        PageFrames(startPa, pa, n, size);
        OneMorePage(vm0.mem, vm1.mem, mem, roots, target, entry, startPa, startVa, n, size, pa, va);
      }
    }

    // One turn of that loop: the next virtual address, and the page at it.
    method MapTurn(target: nat, range: PhysRange, va: nat, entry: Entry, size: PageSize, inKernel: bool,
                   ghost held: set<nat>,
                   pa: nat, startVa: Option<nat>, currVa: nat, ghost endVa: nat, ghost vm0: Vm, ghost done: nat,
                   ghost one: Result<VirtRange, MapError>)
      returns (r: Result<(), MapError>, currVa': nat, endVa': nat)
      requires Good(Tables(), roots, held) && LiveRoot(inKernel) in roots && target in roots && entry.valid
      requires !entry.page
      requires OnBoundary(range, size) && pa < range.end && startVa == (if done == 0 then None else Some(va))
      requires Cursor(range.start, va, size, done, pa, currVa, endVa)
      requires Mapping(vm0, Tables(), roots, target, entry, range.start, va, done, size)
      requires done == 0 ==> one == OneResult(Tables(), target, va, size)
      modifies this`mem, this`free
      ensures Good(Tables(), roots, held)
      ensures Mapping(vm0, Tables(), roots, target, entry, range.start, va, if r.Ok? then done + 1 else done, size)
      ensures r.Ok? ==>
        Cursor(range.start, va, size, done + 1, pa + Bytes(size), currVa', endVa') && pa + Bytes(size) <= range.end
      ensures r.Err? ==> !r.error.PhysRangeIsNotOnPageBoundary? && !r.error.PhysRangeIsZero?
      ensures r == Err(AllocationFailed) ==> free == []
      ensures done == 0 ==> one == if r.Ok? then Ok(VirtRange(va, endVa')) else Err(r.error)
      ensures done == 0 && r.Ok? ==> currVa' == va
    {
      if startVa.None? {
        currVa' := va;
      } else {
        CursorNext(range.start, va, size, done, pa, currVa, endVa);
        currVa' := currVa + Bytes(size);
      }
      endVa' := currVa' + Bytes(size);
      if endVa' >= TWO_64 { return Err(Overflow), currVa', endVa'; }
      r := MapNext(target, entry, pa, currVa', size, inKernel, held, vm0, range.start, va, done);
      if r.Ok? { CursorAdvance(range.start, range.end, va, size, done, pa, currVa'); }
    }

    // The loop of `map_phys_range` over a range on page boundaries, from virtual address `va` on.
    method MapRange(target: nat, range: PhysRange, va: nat, entry: Entry, size: PageSize, inKernel: bool,
                    ghost held: set<nat>)
      returns (r: Result<VirtRange, MapError>, ghost done: nat)
      requires Good(Tables(), roots, held) && LiveRoot(inKernel) in roots && target in roots && entry.valid
      requires !entry.page
      requires OnBoundary(range, size)
      modifies this`mem, this`free
      ensures Good(Tables(), roots, held)
      ensures RangeMapped(old(mem), mem, roots, target, entry, range.start, va, done, size)
      ensures RangeResult(range, va, size, r, done)
      ensures Progress(old(Tables()), Tables(), roots, va, size, done) && (r == Err(AllocationFailed) ==> free == [])
      ensures range.end == range.start + Bytes(size) ==> r == OneResult(old(Tables()), target, va, size)
    {
      ghost var vm0, one := Tables(), OneResult(Tables(), target, va, size);
      done := 0;
      MappingNone(vm0, roots, target, entry, range.start, va, size);
      var startVa: Option<nat> := None;
      var endVa: nat, currVa: nat, pa: nat := 0, 0, range.start;
      while pa < range.end
        invariant Cursor(range.start, va, size, done, pa, currVa, endVa) && (done > 0 ==> pa <= range.end)
        invariant Good(Tables(), roots, held)
        invariant Mapping(vm0, Tables(), roots, target, entry, range.start, va, done, size)
        invariant startVa == if done == 0 then None else Some(va)
        invariant done == 0 ==> Tables() == vm0 && pa == range.start
        invariant done > 0 && range.end == range.start + Bytes(size) ==>
          pa == range.end && one == Ok(VirtRange(va, endVa))
      {
        var turn, currVa', endVa' := MapTurn(target, range, va, entry, size, inKernel, held, pa, startVa, currVa,
                                             endVa, vm0, done, one);
        if turn.Err? {
          RangeFailed(range, va, size, done, pa, currVa, endVa, turn.error);
          return Err(turn.error), done;
        }
        if startVa.None? { startVa := Some(currVa'); }
        currVa, endVa, done, pa := currVa', endVa', done + 1, pa + Bytes(size);
      }
      RangeDone(range, va, size, done, pa, currVa, endVa);
      if startVa.None? { return Err(PhysRangeIsZero), done; }
      r := Ok(VirtRange(startVa.value, endVa));
    }

    /** Page k of the physical range becomes page k of the returned virtual range
        and nothing else changes in any root; a failure keeps the pages mapped
        before it. */
    method MapPhysRange(target: nat, range: PhysRange, mapping: VaMapping, entry: Entry, size: PageSize, inKernel: bool,
                        ghost held: set<nat>)
      returns (r: Result<VirtRange, MapError>, ghost done: nat)
      requires Good(Tables(), roots, held) && LiveRoot(inKernel) in roots && target in roots && entry.valid
      requires !entry.page
      modifies this`mem, this`free
      ensures Good(Tables(), roots, held)
      ensures RangeMapped(old(mem), mem, roots, target, entry, range.start, mapping.Start(range.start), done, size)
      ensures if OnBoundary(range, size) then RangeResult(range, mapping.Start(range.start), size, r, done)
              else r == Err(PhysRangeIsNotOnPageBoundary) && done == 0
      ensures Progress(old(Tables()), Tables(), roots, mapping.Start(range.start), size, done)
      ensures (r == Err(AllocationFailed) ==> free == [])
      ensures OnBoundary(range, size) && range.end == range.start + Bytes(size) ==>
        r == OneResult(old(Tables()), target, mapping.Start(range.start), size)
    {
      if !OnBoundary(range, size) {
        RangeNone(mem, roots, target, entry, range.start, mapping.Start(range.start), size);
        return Err(PhysRangeIsNotOnPageBoundary), 0;
      }
      r, done := MapRange(target, range, mapping.Start(range.start), entry, size, inKernel, held);
    }

    // The allocator's next page, held back from the stock.
    method TakePage() returns (f: Option<nat>)
      requires Sound(State())
      modifies this`free
      ensures f.None? <==> old(free) == []
      ensures f.None? ==> free == old(free)
      ensures f.Some? ==> f.value == old(free)[0] && Good(Tables(), roots, {f.value})
      ensures Fewer(old(free), free) && (f.Some? ==> free == old(free)[1..] && f.value < FRAMES && f.value in old(free))
    {
      if free == [] { return None; }
      HoldPage(Tables(), roots);
      assert free[0] in free;
      f := Some(free[0]);
      free := free[1..];
    }

    // Map one fresh page of physical memory.
    method MapFrame(target: nat, f: nat, mapping: VaMapping, entry: Entry, inKernel: bool)
      returns (r: Result<VirtRange, MapError>)
      requires Good(Tables(), roots, {f}) && LiveRoot(inKernel) in roots && target in roots && entry.valid
      requires !entry.page
      modifies this`mem, this`free
      ensures Good(Tables(), roots, {f})
      ensures RangeMapped(old(mem), mem, roots, target, entry, f * 0x1000, mapping.Start(f * 0x1000),
                          if r.Ok? then 1 else 0, Page4K)
      ensures r == OneResult(old(Tables()), target, mapping.Start(f * 0x1000), Page4K)
      ensures r.Ok? ==> r.value.start == mapping.Start(f * 0x1000) && Ordinary(Indices(r.value.start))
      ensures Fewer(old(free), free) && SameTables(old(Tables()), Tables(), roots)
      ensures (r == Err(AllocationFailed) ==> free == [])
    {
      ghost var done;
      WholeFrame(f);
      r, done := MapPhysRange(target, PhysRange(f * 0x1000, f * 0x1000 + 0x1000), mapping, entry, Page4K,
                              inKernel, {f});
    }

    /** A new address space: a page of its own, reached through the kernel's
        identity mapping, cleared, pointing at itself.  None is a panic: exactly
        when the stock is empty or the page cannot be mapped for the kernel. */
    method Create() returns (root: Option<nat>)
      requires Sound(State())
      modifies this
      ensures Effect(old(State()), Op.Create, State())
      ensures root.Some? ==> roots == old(roots) + {root.value} && root.value !in old(roots)
      ensures root.None? ==> roots == old(roots)
      ensures user == old(user)
      ensures root.None?
              <==> old(free) == []
                   || OneResult(Vm(old(mem), old(free)[1..]), kernel, KernelVa(old(free)[0]), Page4K).Err?
      ensures old(KernelOpen(State())) ==> KernelOpen(State()) && (root.None? ==> free == [])
    {
      ghost var s := State();
      var f := TakePage();
      if f.None? {
        Unchanged(s, State());
        return None;
      }
      ghost var s0, kva := State(), KernelVa(f.value);
      KernelAddress(f.value);
      TakenKeeps(s, s0, f.value);
      var r := AddKernelMapping(f.value);
      ghost var s1 := State();
      KernelPageMapped(s, s0, s1, f.value, r.Ok?);
      if r.Err? { return None; }
      // The kernel writes the root through its own mapping of that page.
      var page := HwWalk(mem, kernel, true, r.value).entry.frame;
      mem := RootPage(mem, page);
      roots := roots + {page};
      NewRootEffect(s, s1, State(), page);
      if KernelOpen(s1) { NewRootOpen(s1, State()); }
      return Some(page);
    }

    /** The page in the user's table at `va` and in the kernel's at its identity
        address: the two translate to the same fresh page.  A failure at the first
        mapping leaves the user's root as it was, one at the second leaves the
        first in place; with an ordinary address and no kernel block over the
        stock, only an empty stock fails. */
    method MapUserPage(root: nat, entry: Entry, va: nat) returns (r: Result<nat, PageAllocError>)
      requires Sound(State()) && root in roots && root != kernel && entry.valid && !entry.page
      modifies this`mem, this`free
      ensures Effect(old(State()), MapPage(root, entry, va), State())
      ensures old(free) == [] <==> r == Err(OutOfSpace)
      ensures r.Ok? ==> r.value == KernelVa(old(free)[0]) && Translated(true, r.value) && old(free)[0] < FRAMES
      ensures r.Ok? ==> OnlyPage(old(State()), State(), root, entry, old(free)[0], va) && !Refuses(va)
      ensures r.Ok? ==>
        OnlyPage(old(State()), State(), kernel, RwKernelData, old(free)[0], r.value) && Ordinary(Indices(r.value))
      ensures Fewer(old(free), free) && (r.Ok? ==> old(free)[0] !in free)
      ensures r.Err? ==>
        if old(free) != [] && OneResult(Vm(old(mem), old(free)[1..]), root, va, Page4K).Ok?
        then OnlyPage(old(State()), State(), root, entry, old(free)[0], va)
        else Untouched(old(State()), State(), root)
      ensures old(KernelOpen(State())) ==> KernelOpen(State()) && (r.Err? ==> Refuses(va) || free == [])
    {
      ghost var s := State();
      var f, ok := MapFresh(root, entry, va);
      if f.None? {
        Unchanged(s, State());
        return Err(OutOfSpace);
      }
      ghost var s1 := State();
      if !ok { return Err(UnableToMap); }
      r := AddKernelMapping(f.value);
      UntouchedTwice(s, s1, State(), root);
      HarmlessTwice(s, s1, State());
      SecondMapping(s, s1, State(), root, entry, f.value, va, r.Ok?);
    }

    // A page from the stock, mapped in the user's table.
    method MapFresh(root: nat, entry: Entry, va: nat) returns (f: Option<nat>, ok: bool)
      requires Sound(State()) && root in roots && root != kernel && entry.valid && !entry.page
      modifies this`mem, this`free
      ensures f.None? <==> old(free) == []
      ensures f.None? ==> State() == old(State())
      ensures f.Some? ==> f.value == old(free)[0] && f.value < FRAMES && Good(Tables(), roots, {f.value})
      ensures Sound(State()) && Harmless(old(State()), State()) && Fewer(old(free), free)
      ensures f.Some? ==> f.value !in free
      ensures f.Some? ==> Ordinary(Indices(KernelVa(f.value))) && Translated(true, KernelVa(f.value))
      ensures forall r: nat :: r in roots && (r != root || !ok) ==> Untouched(old(State()), State(), r)
      ensures f.Some? ==> ok == OneResult(Vm(old(mem), old(free)[1..]), root, va, Page4K).Ok?
      ensures f.Some? && ok ==> OnlyPage(old(State()), State(), root, entry, f.value, va) && !Refuses(va)
      ensures f.Some? && !ok ==> Refuses(va) || free == []
      ensures f.Some? && old(KernelOpen(State())) ==>
        KernelOpen(State()) && !Covered(LeafAt(mem, kernel, KernelVa(f.value)), 3)
    {
      ghost var s := State();
      ok := false;
      f := TakePage();
      if f.None? {
        SameIsHarmless(s, s);
        return;
      }
      KernelAddress(f.value);
      var u := MapFrame(root, f.value, Addr(va), entry, false);
      ghost var s1 := State();
      FrameMapped(s, s1, f.value, root, entry, va, if u.Ok? then 1 else 0);
      UserFails(s, f.value, root, va, u);
      if KernelOpen(s) {
        UntouchedKeepsOpen(s, s1);
        KernelStaysOpen(s, s1, f.value);
      }
      ok := u.Ok?;
      if ok { OnePageMapped(s, s1, root, entry, f.value, va); }
    }

    // The second half of `map_user_page`.
    method AddKernelMapping(f: nat) returns (r: Result<nat, PageAllocError>)
      requires Sound(State()) && Good(Tables(), roots, {f}) && f < FRAMES
      modifies this`mem, this`free
      ensures Sound(State()) && Good(Tables(), roots, {f}) && Fewer(old(free), free) && Harmless(old(State()), State())
      ensures RangeMapped(old(mem), mem, roots, kernel, RwKernelData, f * 0x1000, KernelVa(f),
                          if r.Ok? then 1 else 0, Page4K)
      ensures forall x: nat :: x in roots && x != kernel ==> Untouched(old(State()), State(), x)
      ensures r.Ok? ==> r.value == KernelVa(f)
      ensures r.Err? ==> r == Err(UnableToMap)
      ensures old(KernelOpen(State())) ==> KernelOpen(State())
      ensures r.Ok? <==> OneResult(old(Tables()), kernel, KernelVa(f), Page4K).Ok?
      ensures r.Err? && !Covered(LeafAt(old(mem), kernel, KernelVa(f)), 3) ==> free == []
    {
      ghost var s := State();
      KernelAddress(f);
      NeverLost(mem, roots, kernel, Indices(KernelVa(f)), 3);
      var k := MapFrame(kernel, f, Offset(KZERO), RwKernelData, true);
      ghost var s1 := State();
      KernelMapped(s, s1, f, KernelVa(f), if k.Ok? then 1 else 0);
      DropHeld(Tables(), roots, f);
      r := if k.Ok? then Ok(k.value.start) else Err(UnableToMap);
    }

    /** A heap page: in the user's table only. */
    method MapUserDataPage(root: nat, va: nat) returns (r: Result<nat, PageAllocError>)
      requires Sound(State()) && root in roots && root != kernel
      modifies this`mem, this`free
      ensures Effect(old(State()), MapData(root, va), State())
      ensures old(free) == [] <==> r == Err(OutOfSpace)
      ensures r.Ok? ==>
        r.value == old(free)[0] * 0x1000 && OnlyPage(old(State()), State(), root, RwUserData, old(free)[0], va)
      ensures r.Err? ==> Untouched(old(State()), State(), root) && (Refuses(va) || free == [])
    {
      ghost var s := State();
      var f, ok := MapFresh(root, RwUserData, va);
      if f.None? {
        Unchanged(s, State());
        return Err(OutOfSpace);
      }
      if !ok { return Err(UnableToMap); }
      r := Ok(f.value * 0x1000);
    }

    /** A device range in the user's table only; no page is allocated for it.  Of each
        page its descriptor stores 36 bits of frame.  Table pages stay out of users'
        reach, users are given existing memory only, and no page gets a second user,
        each if and only if the frames stored for the pages mapped allow it. */
    method MapDevice(root: nat, range: PhysRange, va: nat) returns (r: Result<(), PageAllocError>, ghost done: nat)
      requires Sound(State()) && root in roots && root != kernel
      modifies this`mem, this`free
      ensures Effect(old(State()), MapMmio(root, range, va), State())
      ensures RangeMapped(old(mem), mem, roots, root, RwUserMmio, range.start, va, done, Page4K)
      ensures r.Ok? ==> done * 0x1000 == range.end - range.start
      ensures OnBoundary(range, Page4K) && range.end == range.start + 0x1000 ==>
        (r.Ok? <==> OneResult(old(Tables()), root, va, Page4K).Ok?)
      ensures old(Protected(State())) ==>
        (Protected(State()) <==> FramesClear(old(State()), range.start / 0x1000, done))
      ensures old(AllBacked(State())) ==> (AllBacked(State()) <==> FramesBacked(range.start / 0x1000, done))
      ensures old(Exclusive(State())) ==>
        (Exclusive(State()) <==> FramesFree(old(State()), root, va, range.start / 0x1000, done))
    {
      ghost var s := State();
      var m;
      m, done := MapPhysRange(root, range, Addr(va), RwUserMmio, Page4K, false, {});
      RangeUntouched(s, State(), root, RwUserMmio, range.start, va, done);
      RangeKeepsPages(s, State(), root, RwUserMmio, range.start, va, done);
      DeviceKept(s, State(), root, range, va, done);
      r := if m.Ok? then Ok(()) else Err(UnableToMap);
    }

    method Switch(root: nat)
      requires Sound(State()) && root in roots && root != kernel
      modifies this`user
      ensures Effect(old(State()), Install(root), State()) && user == root
    {
      ghost var s := State();
      user := root;
      Unchanged(s, State());
    }

    // One operation on an address space the caller holds.
    method Perform(op: Op, handles: set<nat>) returns (handles': set<nat>)
      requires Sound(State()) && handles <= roots - {kernel} && OpOk(op)
      modifies this
      ensures Effect(old(State()), op, State())
      ensures handles <= handles' <= roots - {kernel}
    {
      handles' := handles;
      match op {
        case Create =>
          var root := Create();
          if root.Some? { handles' := handles + {root.value}; }
        case Install(root) => if root in handles { Switch(root); } else { Skipped(State(), op); }
        case MapPage(root, entry, va) =>
          if root in handles { var r := MapUserPage(root, entry, va); } else { Skipped(State(), op); }
        case MapData(root, va) =>
          if root in handles { var r := MapUserDataPage(root, va); } else { Skipped(State(), op); }
        case MapMmio(root, range, va) =>
          if root in handles {
            var r;
            ghost var done;
            r, done := MapDevice(root, range, va);
          } else {
            Skipped(State(), op);
          }
      }
    }

    /** Any run of operations, on address spaces held or created on the way, failed
        ones included: a user root that none of them names keeps all its
        translations, one created and never named translates nothing, and every root
        still points at itself.  Without device ranges, table pages stay out of every
        user's reach, every user is given existing memory, and no page is given to two
        users or at two addresses.  With them, the first holds if no range names a
        table or a stock page, the second if all lie in existing memory, and the third
        if they also name no page in use and no two the same. */
    method Run(ops: seq<Op>, handles: set<nat>) returns (handles': set<nat>)
      requires Sound(State()) && handles <= roots - {kernel} && forall i :: 0 <= i < |ops| ==> OpOk(ops[i])
      modifies this
      ensures Sound(State()) && old(roots) <= roots && handles <= handles' <= roots - {kernel}
      ensures forall r: nat :: r in roots ==> SelfMapped(mem, r)
      ensures forall r: nat :: r in old(roots) && r != kernel && Unnamed(ops, r) ==> Untouched(old(State()), State(), r)
      ensures forall r: nat :: r in roots && r !in old(roots) && Unnamed(ops, r) ==> Blank(State(), r)
      ensures old(Protected(State())) && DevicesClear(ops, old(State())) ==> Protected(State())
      ensures old(AllBacked(State())) && DevicesBacked(ops) ==> AllBacked(State())
      ensures old(Protected(State())) && old(Exclusive(State()))
              && DevicesClear(ops, old(State())) && DevicesApart(ops, old(State())) ==>
              Exclusive(State())
    {
      ghost var s := State();
      handles' := handles;
      IsolatedAtFirst(s);
      for i := 0 to |ops|
        invariant Sound(State()) && handles <= handles' <= roots - {kernel}
        invariant Isolated(s, ops[..i], State())
      {
        ghost var s1 := State();
        assert ops[..i] + [ops[i]] == ops[..i + 1];
        handles' := Perform(ops[i], handles');
        IsolatedNext(s, ops[..i], s1, ops[i], State());
      }
      assert ops[..|ops|] == ops;
    }
  }

  // The kernel's root on page 1, a user root on page 2, three pages in stock.
  method SmallMachine() returns (a: AddressSpaces)
    ensures fresh(a) && Sound(a.State()) && Protected(a.State()) && AllBacked(a.State())
    ensures a.kernel == 1 && a.user == 2 && a.roots == {1, 2} && Owned(a.Tables(), a.roots, 1)
    ensures OneResult(a.Tables(), 2, 0, Page4K).Ok?
  {
    a := new AddressSpaces(1, 2, [3, 4, 5]);
    assert BlankAt(a.State(), 2, 0);
    NeverLost(a.mem, a.roots, 2, Indices(0), 3);
    assert InDomain(a.roots, 1, []) && NodeAt(a.mem, 1, []) == Some(1);
  }

  /** Mapping the page of the kernel's root as a device succeeds and gives a user
      root read and write access to it. */
  method DeviceExposesTable() returns (a: AddressSpaces, r: Result<(), PageAllocError>)
    ensures fresh(a) && Sound(a.State()) && r.Ok? && !Protected(a.State())
  {
    a := SmallMachine();
    ghost var done;
    r, done := a.MapDevice(2, PhysRange(0x1000, 0x2000), 0);
    assert Stored(1) == 1;
  }

  /** So does the physical address 2^48 above it, of which a descriptor stores the
      same frame. */
  method FarDeviceExposesTable() returns (a: AddressSpaces, r: Result<(), PageAllocError>)
    ensures fresh(a) && Sound(a.State()) && r.Ok? && !Protected(a.State())
  {
    a := SmallMachine();
    ghost var done;
    r, done := a.MapDevice(2, PhysRange(0x1_0000_0000_1000, 0x1_0000_0000_2000), 0);
    assert Stored(0x10_0000_0001) == 1;
  }

  /** A device page past the 44 bits of physical memory: bytes in it are accepted, and
      every access to them faults. */
  lemma FarDeviceByte(before: Mem, mem: Mem, roots: set<nat>, root: nat, pa: nat, va: nat)
    requires RangeMapped(before, mem, roots, root, RwUserMmio, pa, va, 1, Page4K) && root in roots
    requires Ordinary(Indices(va)) && FRAMES <= Stored(pa / 0x1000)
    ensures ByteOk(mem, root, va, true) && HwWalk(mem, root, false, va) == Fault
  {
    assert RangeMappedAt(before, mem, roots, root, RwUserMmio, pa, va, 1, Page4K, root, va);
    WalkIsLeaf(mem, root, Indices(va), 0);
  }

  lemma StoredAtFrames()
    ensures FRAMES == 0x1000_0000_0000 / 0x1000 && Stored(FRAMES) == FRAMES && Ordinary(Indices(0))
    ensures OnBoundary(PhysRange(0x1000_0000_0000, 0x1000_0000_1000), Page4K)
  {
  }

  /** The device at 2^44: mapping it succeeds, a buffer in it is accepted, and the
      access faults. */
  method FarDeviceFaults() returns (a: AddressSpaces, r: Result<(), PageAllocError>)
    ensures fresh(a) && Sound(a.State()) && a.user == 2 && r.Ok? && !AllBacked(a.State())
    ensures ByteOk(a.mem, 2, 0, true) && HwWalk(a.mem, 2, false, 0) == Fault
  {
    a := SmallMachine();
    ghost var done, before := 0, a.mem;
    r, done := a.MapDevice(2, PhysRange(0x1000_0000_0000, 0x1000_0000_1000), 0);
    StoredAtFrames();
    FarDeviceByte(before, a.mem, a.roots, 2, 0x1000_0000_0000, 0);
  }
}
