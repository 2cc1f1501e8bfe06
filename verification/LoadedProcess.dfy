/** What a user may do in a process that `load_elf` has built (aarch64/src/process.rs). */
module LoadedProcess {
  import opened Prelude
  import opened Arith
  import opened PageTable
  import opened PageMap
  import opened PageRange
  import opened AspaceState
  import opened Aspace
  import opened Elf
  import opened Loader

  // ----- Where the pages of the plan lie -----

  // Address `x` is in a page of segment `k`.
  predicate InSegment(segs: seq<Segment>, k: nat, x: nat) {
    k < |segs| && SpanLo(segs[k]) <= x < SpanHi(segs[k])
  }

  predicate InStack(top: nat, x: nat) {
    top <= x < top + 0x1_0000
  }

  lemma {:induction false} SegmentPlanEntry(bytes: seq<Byte>, seg: Segment, page: nat, i: nat)
    requires SegmentOk(seg, |bytes|) && i < |SegmentPlan(bytes, seg, page)|
    ensures SegmentPlan(bytes, seg, page)[i].entry == SegmentEntry(seg)
    decreases SpanHi(seg) - page
  {
    if i > 0 { SegmentPlanEntry(bytes, seg, page + PAGE, i - 1); }
  }

  lemma {:induction false} FilePlanFrom(bytes: seq<Byte>, segs: seq<Segment>, i: nat) returns (k: nat)
    requires AllOk(bytes, segs) && i < |FilePlan(bytes, segs)|
    ensures k < |segs| && InSpan(FilePlan(bytes, segs)[i], SpanLo(segs[k]), SpanHi(segs[k]))
    ensures FilePlan(bytes, segs)[i].entry == SegmentEntry(segs[k])
    decreases |segs|
  {
    var init, last := segs[..|segs| - 1], segs[|segs| - 1];
    var n := |FilePlan(bytes, init)|;
    if i < n {
      k := FilePlanFrom(bytes, init, i);
    } else {
      SegmentPlanSpan(bytes, last, SpanLo(last));
      SegmentPlanEntry(bytes, last, SpanLo(last), i - n);
      assert FilePlan(bytes, segs)[i] == SegmentPlan(bytes, last, SpanLo(last))[i - n];
      k := |segs| - 1;
    }
  }

  // Page `i` of the plan is one of segment `k`, or of the stack.
  ghost predicate From(item: Planned, segs: seq<Segment>, top: nat, k: Option<nat>) {
    match k
    case Some(k) =>
      k < |segs| && InSpan(item, SpanLo(segs[k]), SpanHi(segs[k])) && item.entry == SegmentEntry(segs[k])
    case None => InSpan(item, top, top + STACK_PAGES * PAGE) && item.entry == RwUserData
  }

  lemma PlannedFrom(bytes: seq<Byte>, segs: seq<Segment>, top: nat, i: nat) returns (k: Option<nat>)
    requires AllOk(bytes, segs) && IsTop(segs, top) && i < |WholePlan(bytes, segs, top)|
    ensures From(WholePlan(bytes, segs, top)[i], segs, top, k)
  {
    var n := |FilePlan(bytes, segs)|;
    StackPlanSize(top, STACK_PAGES);
    if i < n {
      var j := FilePlanFrom(bytes, segs, i);
      k := Some(j);
    } else {
      TopAligned(segs, top);
      StackPlanAt(top, STACK_PAGES, i - n);
      StackPageLow(top, i - n);
      k := None;
    }
  }

  lemma {:induction false} LookupSome(plan: seq<Planned>, frames: seq<nat>, key: nat) returns (i: nat)
    requires |plan| == |frames| && Lookup(plan, frames, key).Some?
    ensures i < |plan| && Key(plan[i].va) == key && Lookup(plan, frames, key) == Some(Own(plan, frames, i))
    decreases |plan|
  {
    var k := |plan| - 1;
    if Key(plan[k].va) == key { i := k; } else { i := LookupSome(plan[..k], frames[..k], key); }
  }

  // ----- What the hardware finds there -----

  /** Text by the bits of its descriptor: users read and run it, nobody writes it
      through this mapping, the kernel never runs it. */
  predicate IsText(e: Entry) {
    e.valid && e.mair.Normal? && e.access.AllRo? && !e.uxn && e.pxn
  }

  /** Data: users read and write it, and nobody runs it. */
  predicate IsData(e: Entry) {
    e.valid && e.mair.Normal? && e.access.AllRw? && e.uxn && e.pxn
  }

  /** A process loaded from `bytes` whose pages all lie within the first 48 bits. */
  ghost predicate LoadedLow(l: ElfLoader, bytes: seq<Byte>, segs: seq<Segment>, top: nat)
    reads l, l.spaces
  {
    && l.Valid() && AllOk(bytes, segs) && WellPlaced(segs) && IsTop(segs, top)
    && l.plan == WholePlan(bytes, segs, top) && top + STACK_PAGES * PAGE <= USER_TOP
  }

  ghost function WalkOf(l: ElfLoader, x: nat): Walk
    reads l, l.spaces
  {
    HwWalk(l.spaces.mem, l.root, false, x)
  }

  // The page at position `i` of the plan is found at every address of it.
  lemma PageFound(l: ElfLoader, bytes: seq<Byte>, segs: seq<Segment>, top: nat, i: nat, x: nat)
    requires LoadedLow(l, bytes, segs, top) && i < |l.plan| && l.plan[i].va == PageDown(x)
    ensures WalkOf(l, x) == Page(l.plan[i].entry.WithFrame(l.frames[i]).(page := true))
  {
    LowKeysDiffer(bytes, segs, top);
    PlanLow(bytes, segs, top, i);
    PlannedIsOrdinary(l, i);
    SamePageSameKey(x);
    KeyReached(l, i, x);
  }

  /** Every address of a segment's pages is text or data, as the segment's flag says. */
  lemma SegmentRights(l: ElfLoader, bytes: seq<Byte>, segs: seq<Segment>, top: nat, k: nat, x: nat)
    requires LoadedLow(l, bytes, segs, top) && InSegment(segs, k, x)
    ensures WalkOf(l, x).Page?
    ensures if segs[k].exec then IsText(WalkOf(l, x).entry) else IsData(WalkOf(l, x).entry)
  {
    var i := FilePlanHas(bytes, segs, k, PageDown(x));
    assert l.plan[i] == FilePlan(bytes, segs)[i];
    PageFound(l, bytes, segs, top, i, x);
  }

  lemma StackIndex(top: nat, x: nat) returns (i: nat)
    requires top % PAGE == 0 && InStack(top, x)
    ensures i < STACK_PAGES && top + i * PAGE == PageDown(x)
  {
    i := (x - top) / PAGE;
    DivBelow(x - top, PAGE);
    DivModUnique(x - top, i, x - top - i * PAGE, PAGE);
    assert top == top / PAGE * PAGE;
    DivModUnique(x, top / PAGE + i, x - top - i * PAGE, PAGE);
  }

  /** Every address of the stack is data. */
  lemma StackRights(l: ElfLoader, bytes: seq<Byte>, segs: seq<Segment>, top: nat, x: nat)
    requires LoadedLow(l, bytes, segs, top) && InStack(top, x)
    ensures WalkOf(l, x).Page? && IsData(WalkOf(l, x).entry)
  {
    TopAligned(segs, top);
    var j := StackIndex(top, x);
    StackPlanAt(top, STACK_PAGES, j);
    var i := |FilePlan(bytes, segs)| + j;
    assert l.plan[i] == StackPlan(top, STACK_PAGES)[j];
    PageFound(l, bytes, segs, top, i, x);
  }

  // What a user may use at all, or run, is a page of the plan.
  lemma UsableIsPlanned(l: ElfLoader, x: nat) returns (i: nat)
    requires l.Valid() && !WalkOf(l, x).Fault? && (ForUser(WalkOf(l, x).entry) || HwFetches(WalkOf(l, x).entry))
    ensures i < |l.plan| && Key(l.plan[i].va) == Key(x) && x < USER_TOP
    ensures WalkOf(l, x) == Page(l.plan[i].entry.WithFrame(l.frames[i]).(page := true))
  {
    var mem, root, idx := l.spaces.mem, l.root, Indices(x);
    WalkIsLeaf(mem, root, idx, 0);
    assert RealPath(idx);
    if !Ordinary(idx) { WindowDenied(mem, l.spaces.roots, root, idx, 1, [], root); }
    assert AgreesAt(mem, root, l.plan, l.frames, x);
    i := LookupSome(l.plan, l.frames, Key(x));
  }

  /** No address of a loaded process, wherever it lies, is one a user may both write
      and run. */
  lemma NothingWritableRuns(l: ElfLoader, bytes: seq<Byte>, segs: seq<Segment>, top: nat, x: nat)
    requires l.Valid() && AllOk(bytes, segs) && IsTop(segs, top) && l.plan == WholePlan(bytes, segs, top)
    requires ByteReached(l.spaces.mem, l.root, x, true)
    ensures !HwFetches(WalkOf(l, x).entry)
  {
    var i := UsableIsPlanned(l, x);
    var k := PlannedFrom(bytes, segs, top, i);
  }

  // ----- The whole view -----

  ghost predicate InSome(segs: seq<Segment>, exec: bool, x: nat) {
    exists k: nat :: InSegment(segs, k, x) && segs[k].exec == exec
  }

  ghost predicate Runs(l: ElfLoader, x: nat)
    reads l, l.spaces
  {
    !WalkOf(l, x).Fault? && HwFetches(WalkOf(l, x).entry)
  }

  lemma UsableWhere(l: ElfLoader, bytes: seq<Byte>, segs: seq<Segment>, top: nat, x: nat)
    requires LoadedLow(l, bytes, segs, top) && !WalkOf(l, x).Fault?
    requires ForUser(WalkOf(l, x).entry) || HwFetches(WalkOf(l, x).entry)
    ensures || (InSome(segs, true, x) && IsText(WalkOf(l, x).entry))
            || ((InSome(segs, false, x) || InStack(top, x)) && IsData(WalkOf(l, x).entry))
  {
    var i := UsableIsPlanned(l, x);
    var k := PlannedFrom(bytes, segs, top, i);
    PlanLow(bytes, segs, top, i);
    SamePageSameKey(x);
    SameLowKey(l.plan[i].va, PageDown(x));
    if k.Some? { assert InSegment(segs, k.value, x); }
  }

  lemma InSomeRights(l: ElfLoader, bytes: seq<Byte>, segs: seq<Segment>, top: nat, exec: bool, x: nat)
    requires LoadedLow(l, bytes, segs, top) && InSome(segs, exec, x)
    ensures WalkOf(l, x).Page? && if exec then IsText(WalkOf(l, x).entry) else IsData(WalkOf(l, x).entry)
  {
    var k: nat :| InSegment(segs, k, x) && segs[k].exec == exec;
    SegmentRights(l, bytes, segs, top, k, x);
  }

  // What a walk that ends in text, in data or in neither says.
  ghost predicate Tells(w: Walk, text: bool, data: bool) {
    && (text ==> w.Page? && IsText(w.entry)) && (data ==> w.Page? && IsData(w.entry))
    && (!text && !data && !w.Fault? ==> !ForUser(w.entry) && !HwFetches(w.entry))
  }

  lemma WalkTells(l: ElfLoader, bytes: seq<Byte>, segs: seq<Segment>, top: nat, x: nat)
    requires LoadedLow(l, bytes, segs, top)
    ensures Tells(WalkOf(l, x), InSome(segs, true, x), InSome(segs, false, x) || InStack(top, x))
  {
    if InSome(segs, true, x) { InSomeRights(l, bytes, segs, top, true, x); }
    if InSome(segs, false, x) { InSomeRights(l, bytes, segs, top, false, x); }
    if InStack(top, x) { StackRights(l, bytes, segs, top, x); }
    if !WalkOf(l, x).Fault? && (ForUser(WalkOf(l, x).entry) || HwFetches(WalkOf(l, x).entry)) {
      UsableWhere(l, bytes, segs, top, x);
    }
  }

  lemma TellsRights(w: Walk, text: bool, data: bool)
    requires Tells(w, text, data)
    ensures !w.Fault? && HwGrants(w.entry, false) <==> text || data
    ensures !w.Fault? && HwGrants(w.entry, true) <==> data
    ensures !w.Fault? && HwFetches(w.entry) <==> text
  {
  }

  /** In a process loaded within 48 bits a user may read exactly the pages of its
      segments and its stack, write exactly the stack and the segments not marked
      executable, and run exactly those that are. */
  lemma RightsIff(l: ElfLoader, bytes: seq<Byte>, segs: seq<Segment>, top: nat, x: nat)
    requires LoadedLow(l, bytes, segs, top)
    ensures var text, data := InSome(segs, true, x), InSome(segs, false, x) || InStack(top, x);
            && (ByteReached(l.spaces.mem, l.root, x, false) <==> text || data)
            && (ByteReached(l.spaces.mem, l.root, x, true) <==> data)
            && (Runs(l, x) <==> text)
  {
    WalkTells(l, bytes, segs, top, x);
    TellsRights(WalkOf(l, x), InSome(segs, true, x), InSome(segs, false, x) || InStack(top, x));
  }

  /** Nothing below the image base is mapped, so a null pointer faults. */
  lemma LowMemoryFaults(l: ElfLoader, bytes: seq<Byte>, segs: seq<Segment>, top: nat, x: nat)
    requires LoadedLow(l, bytes, segs, top) && segs != [] && x < 0x10_0000
    ensures !ByteReached(l.spaces.mem, l.root, x, false) && !ByteReached(l.spaces.mem, l.root, x, true) && !Runs(l, x)
  {
    forall k: nat | k < |segs| ensures 0x10_0000 <= SpanLo(segs[k]) <= top { BaseBelow(segs, top, k); }
    assert 0x10_0000 <= SpanLo(segs[0]) <= top;
    RightsIff(l, bytes, segs, top, x);
  }

  lemma BaseBelow(segs: seq<Segment>, top: nat, k: nat)
    requires WellPlaced(segs) && IsTop(segs, top) && k < |segs|
    ensures 0x10_0000 <= SpanLo(segs[k]) <= top
  {
    assert PlacedAt(segs, k) && SpanHi(segs[k]) <= top;
    DivBelow(segs[k].vaddr, PAGE);
    DivModUnique(0x10_0000, 0x100, 0, PAGE);
    if SpanLo(segs[k]) < 0x10_0000 { MulMono(segs[k].vaddr / PAGE, 0xff, PAGE); }
  }

  /** The entry point can be run, and cannot be written. */
  lemma EntryRuns(l: ElfLoader, bytes: seq<Byte>, segs: seq<Segment>, top: nat, entry: nat)
    requires LoadedLow(l, bytes, segs, top) && Executable(segs, entry)
    ensures Runs(l, entry) && !ByteReached(l.spaces.mem, l.root, entry, true)
  {
    var k :| 0 <= k < |segs| && segs[k].exec && segs[k].vaddr <= entry < segs[k].vaddr + segs[k].memsz;
    SegmentRights(l, bytes, segs, top, k, entry);
  }
}
