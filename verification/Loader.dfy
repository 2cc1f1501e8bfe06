/** Loading a user ELF page by page (aarch64/src/process.rs, `load_elf`). */
module Loader {
  import opened Prelude
  import opened Arith
  import opened PageTable
  import opened PageMap
  import opened PageRange
  import opened AspaceState
  import opened UserFrames
  import opened AspaceEffects
  import opened Aspace
  import opened Elf
  import ElfReads

  const ELF_BASE := 0x10_0000
  const STACK_PAGES := 16
  const PAGE := 0x1000

  // ----- Spans -----

  function PageDown(x: nat): (r: nat)
    ensures r % PAGE == 0 && r <= x < r + PAGE
  {
    x - x % PAGE
  }

  function PageUp(x: nat): (r: nat)
    ensures r % PAGE == 0 && x <= r < x + PAGE
  {
    PageDown(x + PAGE - 1)
  }

  function SpanLo(seg: Segment): nat { PageDown(seg.vaddr) }
  function SpanHi(seg: Segment): nat { PageUp(seg.vaddr + seg.memsz) }

  predicate Overlap(a: Segment, b: Segment) {
    SpanLo(a) < SpanHi(b) && SpanLo(b) < SpanHi(a)
  }

  /** The placement of one segment, given those before it. */
  ghost predicate PlacedAt(segs: seq<Segment>, i: nat)
    requires i < |segs|
  {
    && ELF_BASE <= segs[i].vaddr && SpanHi(segs[i]) < KZERO
    && forall j :: 0 <= j < i ==> !Overlap(segs[i], segs[j])
  }

  ghost predicate WellPlaced(segs: seq<Segment>) {
    forall i: nat :: i < |segs| ==> PlacedAt(segs, i)
  }

  ghost predicate IsTop(segs: seq<Segment>, top: nat) {
    && (forall i :: 0 <= i < |segs| ==> SpanHi(segs[i]) <= top)
    && (top == 0 || exists i :: 0 <= i < |segs| && SpanHi(segs[i]) == top)
  }

  /** The placement check: it passes exactly when every segment lies at or above
      the image base, ends below the kernel half and overlaps no earlier one; the
      result is the top of the highest. */
  method CheckPlacement(segs: seq<Segment>) returns (top: Option<nat>)
    ensures top.Some? <==> WellPlaced(segs)
    ensures top.Some? ==> IsTop(segs, top.value)
  {
    var i: nat, high: nat := 0, 0;
    while i < |segs|
      invariant i <= |segs| && forall k: nat :: k < i ==> PlacedAt(segs, k)
      invariant IsTop(segs[..i], high)
    {
      var seg := segs[i];
      if seg.vaddr < ELF_BASE { assert !PlacedAt(segs, i); return None; }
      var end := seg.vaddr + seg.memsz;
      if end + PAGE - 1 >= TWO_64 { assert !PlacedAt(segs, i); return None; }
      if SpanHi(seg) >= KZERO { assert !PlacedAt(segs, i); return None; }
      var j := 0;
      while j < i
        invariant 0 <= j <= i && forall k :: 0 <= k < j ==> !Overlap(seg, segs[k])
      {
        if Overlap(seg, segs[j]) { assert !PlacedAt(segs, i); return None; }
        j := j + 1;
      }
      TopNext(segs, i, high);
      if SpanHi(seg) > high { high := SpanHi(seg); }
      i := i + 1;
    }
    assert segs[..i] == segs;
    return Some(high);
  }

  lemma TopNext(segs: seq<Segment>, i: nat, high: nat)
    requires i < |segs| && IsTop(segs[..i], high)
    ensures IsTop(segs[..i + 1], if SpanHi(segs[i]) > high then SpanHi(segs[i]) else high)
  {
    assert segs[..i + 1][i] == segs[i];
    if high != 0 {
      var k :| 0 <= k < i && SpanHi(segs[..i][k]) == high;
      assert SpanHi(segs[..i + 1][k]) == high;
    }
  }

  // ----- Contents -----

  /** Byte k of a loaded page: the file byte inside the file part, zero elsewhere. */
  function ContentAt(bytes: seq<Byte>, seg: Segment, x: nat): Byte
    requires SegmentOk(seg, |bytes|)
  {
    if seg.vaddr <= x < seg.vaddr + seg.filesz then bytes[seg.offset + (x - seg.vaddr)] else 0
  }

  function Content(bytes: seq<Byte>, seg: Segment, page: nat): (c: seq<Byte>)
    requires SegmentOk(seg, |bytes|)
    ensures |c| == PAGE
  {
    seq<Byte>(PAGE, k requires 0 <= k < PAGE => ContentAt(bytes, seg, page + k))
  }

  function Zeros(n: nat): (z: seq<Byte>)
    ensures |z| == n && forall k :: 0 <= k < n ==> z[k] == 0
  {
    seq<Byte>(n, _ => 0)
  }

  /** Zeroing the page and copying this page's share of the file bytes. */
  method FillPage(bytes: seq<Byte>, seg: Segment, page: nat) returns (c: seq<Byte>)
    requires SegmentOk(seg, |bytes|)
    ensures c == Content(bytes, seg, page)
  {
    c := Zeros(PAGE);
    var lo: nat := if page < seg.vaddr then seg.vaddr else page;
    var hi: nat := if page + PAGE < seg.vaddr + seg.filesz then page + PAGE else seg.vaddr + seg.filesz;
    if lo < hi {
      var src := bytes[seg.offset + (lo - seg.vaddr)..seg.offset + (hi - seg.vaddr)];
      var a, b := lo - page, hi - page;
      c := Zeros(a) + src + Zeros(PAGE - b);
      forall k: nat | k < PAGE ensures c[k] == ContentAt(bytes, seg, page + k) {
        if a <= k < b { assert c[k] == src[k - a]; }
      }
    } else {
      forall k: nat | k < PAGE ensures c[k] == ContentAt(bytes, seg, page + k) {
      }
    }
  }

  // ----- The pages to be mapped -----

  /** One page to map: its address, its attributes and, for a segment, what it holds. */
  datatype Planned = Planned(va: nat, entry: Entry, content: Option<seq<Byte>>)

  function SegmentEntry(seg: Segment): Entry {
    if seg.exec then RoUserText else RwUserData
  }

  // One page of a segment.
  ghost function PagePlan(bytes: seq<Byte>, seg: Segment, page: nat): Planned
    requires SegmentOk(seg, |bytes|)
  {
    Planned(page, SegmentEntry(seg), Some(Content(bytes, seg, page)))
  }

  /** The pages of one segment from `page` on. */
  ghost function SegmentPlan(bytes: seq<Byte>, seg: Segment, page: nat): seq<Planned>
    requires SegmentOk(seg, |bytes|)
    decreases SpanHi(seg) - page
  {
    if page >= SpanHi(seg) then []
    else [PagePlan(bytes, seg, page)] + SegmentPlan(bytes, seg, page + PAGE)
  }

  ghost predicate AllOk(bytes: seq<Byte>, segs: seq<Segment>) {
    forall i :: 0 <= i < |segs| ==> SegmentOk(segs[i], |bytes|)
  }

  ghost function FilePlan(bytes: seq<Byte>, segs: seq<Segment>): seq<Planned>
    requires AllOk(bytes, segs)
  {
    if segs == [] then []
    else FilePlan(bytes, segs[..|segs| - 1]) + SegmentPlan(bytes, segs[|segs| - 1], SpanLo(segs[|segs| - 1]))
  }

  ghost function StackPlan(base: nat, n: nat): seq<Planned>
    decreases n, base
  {
    if n == 0 then [] else StackPlan(base, n - 1) + [Planned(base + (n - 1) * PAGE, RwUserData, None)]
  }

  ghost function WholePlan(bytes: seq<Byte>, segs: seq<Segment>, top: nat): seq<Planned>
    requires AllOk(bytes, segs)
  {
    FilePlan(bytes, segs) + StackPlan(top, STACK_PAGES)
  }

  function Key(va: nat): nat { PageOf(va, Page4K) }

  /** What the last page mapped under a key says. */
  ghost function Lookup(plan: seq<Planned>, frames: seq<nat>, key: nat): Option<Leaf>
    requires |plan| == |frames|
  {
    if plan == [] then None
    else
      var k := |plan| - 1;
      if Key(plan[k].va) == key then Some(Leaf(plan[k].entry.WithFrame(frames[k]).(page := true), 3))
      else Lookup(plan[..k], frames[..k], key)
  }

  lemma LookupNext(plan: seq<Planned>, frames: seq<nat>, item: Planned, f: nat, key: nat)
    requires |plan| == |frames|
    ensures Lookup(plan + [item], frames + [f], key) ==
            if Key(item.va) == key then Some(Leaf(item.entry.WithFrame(f).(page := true), 3))
            else Lookup(plan, frames, key)
  {
    assert (plan + [item])[..|plan|] == plan && (frames + [f])[..|frames|] == frames;
  }

  ghost predicate AgreesAt(mem: Mem, root: nat, plan: seq<Planned>, frames: seq<nat>, x: nat)
    requires |plan| == |frames|
  {
    Ordinary(Indices(x)) ==> LeafAt(mem, root, x) == Lookup(plan, frames, Key(x))
  }

  // Page `i` of the plan has a frame of its own that holds what was planned.
  ghost predicate HoldsAt(free: seq<nat>, pages: map<nat, seq<Byte>>, plan: seq<Planned>, frames: seq<nat>, i: nat)
    requires |plan| == |frames|
  {
    i < |plan| ==>
      && Ordinary(Indices(plan[i].va)) && frames[i] < FRAMES && frames[i] !in free
      && (forall j :: 0 <= j < i ==> frames[j] != frames[i])
      && (plan[i].content.Some? ==> frames[i] in pages && pages[frames[i]] == plan[i].content.value)
  }

  ghost predicate AllAgree(mem: Mem, root: nat, plan: seq<Planned>, frames: seq<nat>)
    requires |plan| == |frames|
  {
    forall x: nat :: AgreesAt(mem, root, plan, frames, x)
  }

  ghost predicate AllHold(free: seq<nat>, pages: map<nat, seq<Byte>>, plan: seq<Planned>, frames: seq<nat>)
    requires |plan| == |frames|
  {
    forall i: nat :: HoldsAt(free, pages, plan, frames, i)
  }

  lemma AgreesNext(s: Spaces, s': Spaces, root: nat, plan: seq<Planned>, frames: seq<nat>, item: Planned, f: nat)
    requires |plan| == |frames| && OnlyPage(s, s', root, item.entry, f, item.va)
    requires AllAgree(s.vm.mem, root, plan, frames)
    ensures AllAgree(s'.vm.mem, root, plan + [item], frames + [f])
  {
    forall x: nat ensures AgreesAt(s'.vm.mem, root, plan + [item], frames + [f], x) {
      assert AgreesAt(s.vm.mem, root, plan, frames, x) && OnlyPageAt(s, s', root, item.entry, f, item.va, x);
      LookupNext(plan, frames, item, f, Key(x));
    }
  }

  lemma HoldsNext(free: seq<nat>, free': seq<nat>, pages: map<nat, seq<Byte>>, plan: seq<Planned>, frames: seq<nat>,
                  item: Planned, f: nat)
    requires |plan| == |frames| && Fewer(free, free') && f in free && f !in free' && f < FRAMES
    requires Ordinary(Indices(item.va))
    requires AllHold(free, pages, plan, frames)
    ensures var pages' := if item.content.Some? then pages[f := item.content.value] else pages;
            AllHold(free', pages', plan + [item], frames + [f])
  {
    var pages' := if item.content.Some? then pages[f := item.content.value] else pages;
    var all := frames + [f];
    forall j | 0 <= j < |frames|
      ensures all[j] != f && all[j] == frames[j]
    {
      assert HoldsAt(free, pages, plan, frames, j);
    }
    forall i: nat
      ensures HoldsAt(free', pages', plan + [item], all, i)
    {
      assert HoldsAt(free, pages, plan, frames, i);
    }
  }

  class ElfLoader {
    const spaces: AddressSpaces
    const root: nat
    var pages: map<nat, seq<Byte>>
    ghost var plan: seq<Planned>
    ghost var frames: seq<nat>

    /** The user root translates exactly what was mapped, each page to a frame of
        its own that holds what was planned. */
    ghost predicate Valid()
      reads this, spaces
    {
      && Sound(spaces.State()) && root in spaces.roots && root != spaces.kernel && |plan| == |frames|
      && AllAgree(spaces.mem, root, plan, frames) && AllHold(spaces.free, pages, plan, frames)
    }

    constructor (spaces: AddressSpaces, root: nat)
      requires Sound(spaces.State()) && root in spaces.roots && root != spaces.kernel && Blank(spaces.State(), root)
      ensures Valid() && this.spaces == spaces && this.root == root && plan == [] && pages == map[]
    {
      this.spaces, this.root, pages, plan, frames := spaces, root, map[], [], [];
      new;
      forall x: nat ensures AgreesAt(spaces.mem, root, plan, frames, x) { assert BlankAt(spaces.State(), root, x); }
    }

    /** Map one page and, for a segment, write its contents through the kernel's
        own mapping of it. */
    method MapOne(item: Planned) returns (ok: bool)
      requires Valid() && item.entry.valid && !item.entry.page
      modifies this, spaces`mem, spaces`free
      ensures ok ==> Valid() && plan == old(plan) + [item] && !Refuses(item.va)
      ensures old(KernelOpen(spaces.State())) ==>
        KernelOpen(spaces.State()) && (ok || Refuses(item.va) || spaces.free == [])
    {
      ghost var s := spaces.State();
      var r := spaces.MapUserPage(root, item.entry, item.va);
      if r.Err? { return false; }
      ghost var f := old(spaces.free)[0];
      PageReached(s, spaces.State(), spaces.kernel, true, RwKernelData, f, r.value);
      if item.content.Some? {
        var frame := HwWalk(spaces.mem, spaces.kernel, true, r.value).entry.frame;
        pages := pages[frame := item.content.value];
      }
      AgreesNext(s, spaces.State(), root, plan, frames, item, f);
      HoldsNext(s.vm.free, spaces.free, old(pages), plan, frames, item, f);
      plan, frames := plan + [item], frames + [f];
      return true;
    }

    method LoadPage(bytes: seq<Byte>, seg: Segment, page: nat) returns (ok: bool)
      requires Valid() && SegmentOk(seg, |bytes|)
      modifies this, spaces`mem, spaces`free
      ensures ok ==> Valid() && plan == old(plan) + [PagePlan(bytes, seg, page)] && !Refuses(page)
      ensures old(KernelOpen(spaces.State())) ==>
        KernelOpen(spaces.State()) && (ok || Refuses(page) || spaces.free == [])
    {
      var content := FillPage(bytes, seg, page);
      ok := MapOne(Planned(page, SegmentEntry(seg), Some(content)));
    }

    /** The pages of one segment, each filled with its share of the file. */
    method LoadSegment(bytes: seq<Byte>, seg: Segment) returns (ok: bool)
      requires Valid() && SegmentOk(seg, |bytes|)
      modifies this, spaces`mem, spaces`free
      ensures ok ==> Valid() && plan == old(plan) + SegmentPlan(bytes, seg, SpanLo(seg))
      ensures ok ==> PlanOrdinary(SegmentPlan(bytes, seg, SpanLo(seg)))
      ensures old(KernelOpen(spaces.State())) ==>
        KernelOpen(spaces.State()) && (ok || !PlanOrdinary(SegmentPlan(bytes, seg, SpanLo(seg))) || spaces.free == [])
    {
      var page := SpanLo(seg);
      ghost var whole := SegmentPlan(bytes, seg, page);
      ghost var done: nat := 0;
      while page < SpanHi(seg)
        invariant Valid() && done <= |whole| && plan == old(plan) + whole[..done]
        invariant SegmentPlan(bytes, seg, page) == whole[done..]
        invariant PlanOrdinary(whole[..done]) && (old(KernelOpen(spaces.State())) ==> KernelOpen(spaces.State()))
      {
        NextPlanned(whole, done, PagePlan(bytes, seg, page), SegmentPlan(bytes, seg, page + PAGE));
        ok := LoadPage(bytes, seg, page);
        if !ok { return; }
        page := page + PAGE;
        done := done + 1;
      }
      assert whole[..done] == whole;
      ok := true;
    }

    method LoadStack(base: nat) returns (ok: bool)
      requires Valid()
      modifies this, spaces`mem, spaces`free
      ensures ok ==>
        Valid() && plan == old(plan) + StackPlan(base, STACK_PAGES) && PlanOrdinary(StackPlan(base, STACK_PAGES))
      ensures old(KernelOpen(spaces.State())) ==>
        KernelOpen(spaces.State()) && (ok || !PlanOrdinary(StackPlan(base, STACK_PAGES)) || spaces.free == [])
    {
      ghost var whole := StackPlan(base, STACK_PAGES);
      StackPlanSize(base, STACK_PAGES);
      var n := 0;
      while n < STACK_PAGES
        invariant 0 <= n <= STACK_PAGES && Valid() && plan == old(plan) + whole[..n]
        invariant PlanOrdinary(whole[..n]) && (old(KernelOpen(spaces.State())) ==> KernelOpen(spaces.State()))
      {
        var item := Planned(base + n * PAGE, RwUserData, None);
        StackPlanAt(base, STACK_PAGES, n);
        TakeNext(whole, n);
        ok := MapOne(item);
        if !ok { return; }
        n := n + 1;
      }
      assert whole[..n] == whole;
      ok := true;
    }
  }

  lemma TakeNext(whole: seq<Planned>, n: nat)
    requires n < |whole|
    ensures whole[..n + 1] == whole[..n] + [whole[n]]
  {
  }

  // No planned address is one every mapping refuses.
  ghost predicate PlanOrdinary(plan: seq<Planned>) {
    forall i :: 0 <= i < |plan| ==> !Refuses(plan[i].va)
  }

  lemma NextPlanned(whole: seq<Planned>, k: nat, x: Planned, rest: seq<Planned>)
    requires k <= |whole| && whole[k..] == [x] + rest
    ensures k < |whole| && whole[k] == x && whole[..k + 1] == whole[..k] + [x] && whole[k + 1..] == rest
  {
    assert whole[k..][0] == x;
    assert whole[k..][1..] == whole[k + 1..];
  }

  datatype Loaded = Loaded(entry: nat, userSp: nat, heapBase: nat)

  ghost predicate Executable(segs: seq<Segment>, entry: nat) {
    exists i :: 0 <= i < |segs| && segs[i].exec && segs[i].vaddr <= entry < segs[i].vaddr + segs[i].memsz
  }

  method FindEntry(segs: seq<Segment>, entry: nat) returns (found: bool)
    ensures found <==> Executable(segs, entry)
  {
    var i := 0;
    while i < |segs|
      invariant 0 <= i <= |segs|
      invariant forall k :: 0 <= k < i ==> !(segs[k].exec && segs[k].vaddr <= entry < segs[k].vaddr + segs[k].memsz)
    {
      if segs[i].exec && segs[i].vaddr <= entry && entry < segs[i].vaddr + segs[i].memsz { return true; }
      i := i + 1;
    }
    return false;
  }

  /** What makes a file unloadable whatever the memory: the reader, the placement
      check or the entry check refuses it, or a page of it or of the stack falls in
      the recursive window. */
  ghost predicate Refused(bytes: seq<Byte>, top: nat)
    requires |bytes| < TWO_64
  {
    Reading(bytes).Err? ||
    var elf := Reading(bytes).value;
    AllOk(bytes, elf.segments) &&
    (!WellPlaced(elf.segments) || !Executable(elf.segments, elf.entry)
     || (IsTop(elf.segments, top) && !PlanOrdinary(WholePlan(bytes, elf.segments, top))))
  }

  /** Loading succeeds only for an accepted, well-placed file with its entry in an
      executable segment; then the new root translates exactly the pages of the
      segments and the stack, in that order.  None is a panic: with no kernel block
      over the stock, only a refused file or an empty stock causes it. */
  method LoadElf(spaces: AddressSpaces, bytes: seq<Byte>)
    returns (r: Option<Loaded>, loader: ElfLoader?, ghost top: nat)
    requires Sound(spaces.State()) && |bytes| < TWO_64
    modifies spaces
    ensures r.Some? ==> loader != null && Reading(bytes).Ok? && loader.Valid() && loader.spaces == spaces
    ensures r.Some? ==>
      var elf := Reading(bytes).value;
      && AllOk(bytes, elf.segments) && WellPlaced(elf.segments) && IsTop(elf.segments, top)
      && Executable(elf.segments, elf.entry)
      && loader.plan == WholePlan(bytes, elf.segments, top)
      && r.value == Loaded(elf.entry, top + STACK_PAGES * PAGE - 16, top + STACK_PAGES * PAGE)
    ensures r.Some? ==> !Refused(bytes, top)
    ensures r.None? && old(KernelOpen(spaces.State())) ==> Refused(bytes, top) || spaces.free == []
  {
    loader, top := null, 0;
    var parsed := Parse(bytes);
    if parsed.Err? { return None, null, 0; }
    var segs := parsed.value.segments;
    forall i: nat | i < |segs| ensures SegmentOk(segs[i], |bytes|) { AcceptedIsSound(bytes, i); }
    var high := CheckPlacement(segs);
    if high.None? { return None, null, 0; }
    top := high.value;
    var found := FindEntry(segs, parsed.value.entry);
    if !found { return None, null, top; }
    var done;
    done, loader := Populate(spaces, bytes, segs, high.value);
    if !done { return None, null, top; }
    r := Some(Loaded(parsed.value.entry, PageUp(high.value) + STACK_PAGES * PAGE - 16,
                     PageUp(high.value) + STACK_PAGES * PAGE));
  }

  // A fresh address space with the segments and the stack in it.
  method Populate(spaces: AddressSpaces, bytes: seq<Byte>, segs: seq<Segment>, top: nat)
    returns (ok: bool, loader: ElfLoader?)
    requires Sound(spaces.State()) && AllOk(bytes, segs) && IsTop(segs, top)
    modifies spaces
    ensures ok ==> loader != null && loader.Valid() && loader.spaces == spaces
    ensures ok ==> loader.plan == WholePlan(bytes, segs, top) && PageUp(top) == top
    ensures ok ==> PlanOrdinary(WholePlan(bytes, segs, top))
    ensures !ok && old(KernelOpen(spaces.State())) ==> !PlanOrdinary(WholePlan(bytes, segs, top)) || spaces.free == []
  {
    loader := null;
    var root := spaces.Create();
    if root.None? { return false, null; }
    var l := new ElfLoader(spaces, root.value);
    PlanParts(FilePlan(bytes, segs), StackPlan(top, STACK_PAGES));
    ok := LoadSegments(l, bytes, segs);
    if !ok { return false, null; }
    TopAligned(segs, top);
    ok := l.LoadStack(PageUp(top));
    loader := l;
  }

  lemma PlanParts(a: seq<Planned>, b: seq<Planned>)
    ensures PlanOrdinary(a + b) <==> PlanOrdinary(a) && PlanOrdinary(b)
  {
    if PlanOrdinary(a + b) {
      forall i | 0 <= i < |a| ensures !Refuses(a[i].va) { assert (a + b)[i] == a[i]; }
      forall i | 0 <= i < |b| ensures !Refuses(b[i].va) { assert (a + b)[|a| + i] == b[i]; }
    }
  }

  lemma TopAligned(segs: seq<Segment>, top: nat)
    requires IsTop(segs, top)
    ensures top % PAGE == 0 && PageUp(top) == top
  {
  }

  method LoadSegments(l: ElfLoader, bytes: seq<Byte>, segs: seq<Segment>) returns (ok: bool)
    requires l.Valid() && l.plan == [] && AllOk(bytes, segs)
    modifies l, l.spaces`mem, l.spaces`free
    ensures ok ==> l.Valid() && l.plan == FilePlan(bytes, segs) && PlanOrdinary(FilePlan(bytes, segs))
    ensures old(KernelOpen(l.spaces.State())) ==>
      KernelOpen(l.spaces.State()) && (ok || !PlanOrdinary(FilePlan(bytes, segs)) || l.spaces.free == [])
  {
    var i := 0;
    while i < |segs|
      invariant 0 <= i <= |segs| && l.Valid() && l.plan == FilePlan(bytes, segs[..i])
      invariant PlanOrdinary(FilePlan(bytes, segs[..i]))
      invariant old(KernelOpen(l.spaces.State())) ==> KernelOpen(l.spaces.State())
    {
      assert segs[..i + 1][..i] == segs[..i];
      ghost var mine := SegmentPlan(bytes, segs[i], SpanLo(segs[i]));
      PlanParts(FilePlan(bytes, segs[..i]), mine);
      ok := l.LoadSegment(bytes, segs[i]);
      if !ok {
        if !PlanOrdinary(mine) { PlanPrefix(bytes, segs, i + 1); }
        return;
      }
      i := i + 1;
    }
    assert segs[..i] == segs;
    ok := true;
  }

  // What the first segments plan is part of what all plan.
  lemma {:induction false} PlanPrefix(bytes: seq<Byte>, segs: seq<Segment>, n: nat)
    requires AllOk(bytes, segs) && n <= |segs| && !PlanOrdinary(FilePlan(bytes, segs[..n]))
    ensures !PlanOrdinary(FilePlan(bytes, segs))
    decreases |segs|
  {
    if n < |segs| {
      var init, last := segs[..|segs| - 1], segs[|segs| - 1];
      assert init[..n] == segs[..n];
      PlanPrefix(bytes, init, n);
      PlanParts(FilePlan(bytes, init), SegmentPlan(bytes, last, SpanLo(last)));
    } else {
      assert segs[..n] == segs;
    }
  }

  // ----- What the plan holds -----

  ghost predicate InSpan(item: Planned, lo: nat, hi: nat) {
    lo <= item.va && item.va + PAGE <= hi && item.va % PAGE == 0
  }

  lemma {:induction false} SegmentPlanSpan(bytes: seq<Byte>, seg: Segment, page: nat)
    requires SegmentOk(seg, |bytes|) && page % PAGE == 0
    ensures forall i :: 0 <= i < |SegmentPlan(bytes, seg, page)| ==>
            InSpan(SegmentPlan(bytes, seg, page)[i], page, SpanHi(seg))
    ensures forall i, j :: 0 <= i < j < |SegmentPlan(bytes, seg, page)| ==>
            SegmentPlan(bytes, seg, page)[i].va != SegmentPlan(bytes, seg, page)[j].va
    decreases SpanHi(seg) - page
  {
    if page < SpanHi(seg) {
      var rest := SegmentPlan(bytes, seg, page + PAGE);
      SegmentPlanSpan(bytes, seg, page + PAGE);
      forall i | 0 <= i < |rest|
        ensures InSpan(rest[i], page, SpanHi(seg)) && rest[i].va != page
      {
        assert InSpan(rest[i], page + PAGE, SpanHi(seg));
      }
    }
  }

  // Page `page` of the segment is in its plan, with its contents.
  lemma {:induction false} SegmentPlanHas(bytes: seq<Byte>, seg: Segment, page: nat, p: nat) returns (i: nat)
    requires SegmentOk(seg, |bytes|) && page % PAGE == 0 && p % PAGE == 0 && page <= p < SpanHi(seg)
    ensures i < |SegmentPlan(bytes, seg, page)|
    ensures SegmentPlan(bytes, seg, page)[i] == Planned(p, SegmentEntry(seg), Some(Content(bytes, seg, p)))
    decreases SpanHi(seg) - page
  {
    if p == page { i := 0; } else { i := SegmentPlanHas(bytes, seg, page + PAGE, p); i := i + 1; }
  }

  /** Every page of every segment's span is planned with the segment's attributes
      and contents. */
  lemma {:induction false} FilePlanHas(bytes: seq<Byte>, segs: seq<Segment>, k: nat, p: nat) returns (i: nat)
    requires AllOk(bytes, segs) && k < |segs| && p % PAGE == 0 && SpanLo(segs[k]) <= p < SpanHi(segs[k])
    ensures i < |FilePlan(bytes, segs)|
    ensures FilePlan(bytes, segs)[i] == Planned(p, SegmentEntry(segs[k]), Some(Content(bytes, segs[k], p)))
    decreases |segs|
  {
    var init, last := segs[..|segs| - 1], segs[|segs| - 1];
    if k == |segs| - 1 {
      i := SegmentPlanHas(bytes, last, SpanLo(last), p);
      i := |FilePlan(bytes, init)| + i;
    } else {
      i := FilePlanHas(bytes, init, k, p);
    }
  }

  // A planned page of the file lies in the span of one of its segments.
  lemma {:induction false} FilePlanSpan(bytes: seq<Byte>, segs: seq<Segment>, i: nat) returns (k: nat)
    requires AllOk(bytes, segs) && i < |FilePlan(bytes, segs)|
    ensures k < |segs| && InSpan(FilePlan(bytes, segs)[i], SpanLo(segs[k]), SpanHi(segs[k]))
    decreases |segs|
  {
    var init, last := segs[..|segs| - 1], segs[|segs| - 1];
    var n := |FilePlan(bytes, init)|;
    if i < n {
      k := FilePlanSpan(bytes, init, i);
    } else {
      SegmentPlanSpan(bytes, last, SpanLo(last));
      assert FilePlan(bytes, segs)[i] == SegmentPlan(bytes, last, SpanLo(last))[i - n];
      k := |segs| - 1;
    }
  }

  lemma PrefixPlaced(segs: seq<Segment>)
    requires WellPlaced(segs) && segs != []
    ensures WellPlaced(segs[..|segs| - 1])
  {
    var init := segs[..|segs| - 1];
    forall i: nat | i < |init| ensures PlacedAt(init, i) { assert PlacedAt(segs, i); }
  }

  /** No address is planned twice among the segments. */
  lemma {:induction false} FilePlanOnce(bytes: seq<Byte>, segs: seq<Segment>, i: nat, j: nat)
    requires AllOk(bytes, segs) && WellPlaced(segs) && i < j < |FilePlan(bytes, segs)|
    ensures FilePlan(bytes, segs)[i].va != FilePlan(bytes, segs)[j].va
    decreases |segs|
  {
    var init, last := segs[..|segs| - 1], segs[|segs| - 1];
    var n := |FilePlan(bytes, init)|;
    var tail := SegmentPlan(bytes, last, SpanLo(last));
    SegmentPlanSpan(bytes, last, SpanLo(last));
    PrefixPlaced(segs);
    if j < n {
      FilePlanOnce(bytes, init, i, j);
    } else if i < n {
      var k := FilePlanSpan(bytes, init, i);
      assert PlacedAt(segs, |segs| - 1) && !Overlap(last, segs[k]);
      assert InSpan(tail[j - n], SpanLo(last), SpanHi(last));
    } else {
      assert tail[i - n].va != tail[j - n].va;
    }
  }

  lemma {:induction false} StackPlanAt(base: nat, n: nat, i: nat)
    requires i < n
    ensures |StackPlan(base, n)| == n && StackPlan(base, n)[i] == Planned(base + i * PAGE, RwUserData, None)
    decreases n
  {
    if i < n - 1 { StackPlanAt(base, n - 1, i); } else { StackPlanSize(base, n - 1); }
  }

  lemma {:induction false} StackPlanSize(base: nat, n: nat)
    ensures |StackPlan(base, n)| == n
  {
    if n > 0 { StackPlanSize(base, n - 1); }
  }

  /** No address is planned twice, and every stack page lies above every segment. */
  lemma PlannedOnce(bytes: seq<Byte>, segs: seq<Segment>, top: nat, i: nat, j: nat)
    requires AllOk(bytes, segs) && WellPlaced(segs) && IsTop(segs, top) && i < j < |WholePlan(bytes, segs, top)|
    ensures WholePlan(bytes, segs, top)[i].va != WholePlan(bytes, segs, top)[j].va
    ensures j >= |FilePlan(bytes, segs)| ==> WholePlan(bytes, segs, top)[j].va >= top
  {
    var n := |FilePlan(bytes, segs)|;
    StackPlanSize(top, STACK_PAGES);
    if j < n {
      FilePlanOnce(bytes, segs, i, j);
    } else {
      StackPlanAt(top, STACK_PAGES, j - n);
      if i < n {
        var k := FilePlanSpan(bytes, segs, i);
      } else {
        StackPlanAt(top, STACK_PAGES, i - n);
      }
    }
  }

  // ----- Where planned pages end up -----

  ghost predicate KeysDiffer(plan: seq<Planned>) {
    forall i, j :: 0 <= i < j < |plan| ==> Key(plan[i].va) != Key(plan[j].va)
  }

  // The page at position i of the plan.
  ghost function Own(plan: seq<Planned>, frames: seq<nat>, i: nat): Leaf
    requires |plan| == |frames| && i < |plan|
  {
    Leaf(plan[i].entry.WithFrame(frames[i]).(page := true), 3)
  }

  lemma {:induction false} LookupLast(plan: seq<Planned>, frames: seq<nat>, i: nat)
    requires |plan| == |frames| && i < |plan| && forall j :: i < j < |plan| ==> Key(plan[j].va) != Key(plan[i].va)
    ensures Lookup(plan, frames, Key(plan[i].va)) == Some(Own(plan, frames, i))
    decreases |plan|
  {
    var k := |plan| - 1;
    if i < k {
      assert Key(plan[k].va) != Key(plan[i].va);
      LookupLast(plan[..k], frames[..k], i);
    }
  }

  lemma LowKeyIs(va: nat)
    requires va < USER_TOP
    ensures Key(va) == va / PAGE
  {
    DivBelow(va, PAGE);
    DivModUnique(va / PAGE, 0, va / PAGE, 0x10_0000_0000);
  }

  /** They all differ when everything ends within the first 48 bits. */
  lemma LowKeysDiffer(bytes: seq<Byte>, segs: seq<Segment>, top: nat)
    requires AllOk(bytes, segs) && WellPlaced(segs) && IsTop(segs, top) && top + STACK_PAGES * PAGE <= USER_TOP
    ensures KeysDiffer(WholePlan(bytes, segs, top))
  {
    var plan := WholePlan(bytes, segs, top);
    forall i, j | 0 <= i < j < |plan| ensures Key(plan[i].va) != Key(plan[j].va) {
      PlannedOnce(bytes, segs, top, i, j);
      PlanLow(bytes, segs, top, i);
      PlanLow(bytes, segs, top, j);
      if Key(plan[i].va) == Key(plan[j].va) { SameLowKey(plan[i].va, plan[j].va); }
    }
  }

  lemma SameLowKey(a: nat, b: nat)
    requires a % PAGE == 0 && b % PAGE == 0 && a < USER_TOP && b < USER_TOP && Key(a) == Key(b)
    ensures a == b
  {
    LowKeyIs(a);
    LowKeyIs(b);
    assert a == a / PAGE * PAGE + a % PAGE && b == b / PAGE * PAGE + b % PAGE;
  }

  lemma StackPageLow(top: nat, i: nat)
    requires top % PAGE == 0 && i < STACK_PAGES
    ensures (top + i * PAGE) % PAGE == 0 && top + i * PAGE + PAGE <= top + STACK_PAGES * PAGE
  {
    ModShift(top, i, PAGE);
  }

  lemma PlanLow(bytes: seq<Byte>, segs: seq<Segment>, top: nat, i: nat)
    requires AllOk(bytes, segs) && IsTop(segs, top) && i < |WholePlan(bytes, segs, top)|
    ensures WholePlan(bytes, segs, top)[i].va % PAGE == 0
    ensures WholePlan(bytes, segs, top)[i].va + PAGE <= top + STACK_PAGES * PAGE
  {
    var n := |FilePlan(bytes, segs)|;
    StackPlanSize(top, STACK_PAGES);
    TopAligned(segs, top);
    if i < n {
      var k := FilePlanSpan(bytes, segs, i);
    } else {
      StackPlanAt(top, STACK_PAGES, i - n);
      StackPageLow(top, i - n);
    }
  }

  // The hardware reaches page `i` of the plan at its own address, in its own frame.
  ghost predicate OwnPageReached(l: ElfLoader, i: nat)
    requires |l.plan| == |l.frames| && i < |l.plan|
    reads l, l.spaces
  {
    HwWalk(l.spaces.mem, l.root, false, l.plan[i].va) == Page(Own(l.plan, l.frames, i).entry)
  }

  // An address with the key of page `i`, and of no page planned after it, has that page's leaf.
  lemma KeyLeaf(mem: Mem, root: nat, plan: seq<Planned>, frames: seq<nat>, i: nat, x: nat)
    requires |plan| == |frames| && AllAgree(mem, root, plan, frames) && i < |plan| && Ordinary(Indices(x))
    requires Key(x) == Key(plan[i].va) && forall j :: i < j < |plan| ==> Key(plan[j].va) != Key(plan[i].va)
    ensures LeafAt(mem, root, x) == Some(Own(plan, frames, i))
  {
    assert AgreesAt(mem, root, plan, frames, x);
    LookupLast(plan, frames, i);
  }

  lemma OwnReached(mem: Mem, root: nat, plan: seq<Planned>, frames: seq<nat>, i: nat, x: nat)
    requires |plan| == |frames| && i < |plan| && frames[i] < FRAMES && x < USER_TOP
    requires LeafAt(mem, root, x) == Some(Own(plan, frames, i))
    ensures HwWalk(mem, root, false, x) == Page(Own(plan, frames, i).entry)
  {
    WalkIsLeaf(mem, root, Indices(x), 0);
  }

  // And the hardware reaches it there.
  lemma KeyReached(l: ElfLoader, i: nat, x: nat)
    requires l.Valid() && i < |l.plan| && x < USER_TOP && Ordinary(Indices(x)) && Key(x) == Key(l.plan[i].va)
    requires forall j :: i < j < |l.plan| ==> Key(l.plan[j].va) != Key(l.plan[i].va)
    ensures HwWalk(l.spaces.mem, l.root, false, x) == Page(Own(l.plan, l.frames, i).entry)
  {
    assert HoldsAt(l.spaces.free, l.pages, l.plan, l.frames, i);
    KeyLeaf(l.spaces.mem, l.root, l.plan, l.frames, i, x);
    OwnReached(l.spaces.mem, l.root, l.plan, l.frames, i, x);
  }

  lemma PlannedIsOrdinary(l: ElfLoader, i: nat)
    requires l.Valid() && i < |l.plan|
    ensures Ordinary(Indices(l.plan[i].va))
  {
    assert HoldsAt(l.spaces.free, l.pages, l.plan, l.frames, i);
  }

  /** In a loaded process every planned page is reached at its own address and keeps
      its own frame if and only if the stack ends within the first 48 bits. */
  lemma AllReachedIff(l: ElfLoader, bytes: seq<Byte>, segs: seq<Segment>, top: nat)
    requires l.Valid() && AllOk(bytes, segs) && WellPlaced(segs) && IsTop(segs, top)
    requires l.plan == WholePlan(bytes, segs, top)
    ensures (forall i: nat :: i < |l.plan| ==> OwnPageReached(l, i)) <==> top + STACK_PAGES * PAGE <= USER_TOP
  {
    var n := |FilePlan(bytes, segs)|;
    StackPlanAt(top, STACK_PAGES, STACK_PAGES - 1);
    TopAligned(segs, top);
    if top + STACK_PAGES * PAGE <= USER_TOP {
      LowKeysDiffer(bytes, segs, top);
      forall i: nat | i < |l.plan| ensures OwnPageReached(l, i) {
        PlanLow(bytes, segs, top, i);
        PlannedIsOrdinary(l, i);
        KeyReached(l, i, l.plan[i].va);
      }
    } else {
      var last := n + STACK_PAGES - 1;
      assert l.plan[last].va == top + (STACK_PAGES - 1) * PAGE;
      assert l.plan[last].va >= USER_TOP;
      assert !OwnPageReached(l, last);
    }
  }

  // ----- Two files that show it -----

  lemma OnePagePlan(bytes: seq<Byte>, seg: Segment)
    requires SegmentOk(seg, |bytes|) && seg.vaddr % PAGE == 0 && seg.memsz == 1
    ensures SpanLo(seg) == seg.vaddr && SpanHi(seg) == seg.vaddr + PAGE
    ensures SegmentPlan(bytes, seg, SpanLo(seg))
            == [Planned(seg.vaddr, SegmentEntry(seg), Some(Content(bytes, seg, seg.vaddr)))]
  {
    assert SegmentPlan(bytes, seg, seg.vaddr + PAGE) == [];
  }

  lemma KeyUp(y: nat)
    requires y < USER_TOP
    ensures Key(USER_TOP + y) == y / PAGE
  {
    ModShift(y, 0x10_0000_0000, PAGE);
    DivBelow(y, PAGE);
    DivModUnique((USER_TOP + y) / PAGE, 1, y / PAGE, 0x10_0000_0000);
  }

  const LOW := 0x10_0000
  const HIGH := USER_TOP + LOW

  function FarSegment(exec: bool): Segment { Segment(HIGH, 0, 0, 1, exec) }

  lemma FarPlanned(bytes: seq<Byte>, k: nat)
    requires k < |WholePlan(bytes, [FarSegment(true)], HIGH + PAGE)|
    ensures WholePlan(bytes, [FarSegment(true)], HIGH + PAGE)[k].va == HIGH + k * PAGE && k <= STACK_PAGES
  {
    var seg, top := FarSegment(true), HIGH + PAGE;
    OnePagePlan(bytes, seg);
    assert [seg][..0] == [];
    assert FilePlan(bytes, [seg]) == FilePlan(bytes, []) + SegmentPlan(bytes, seg, SpanLo(seg));
    StackPlanSize(top, STACK_PAGES);
    if k > 0 { StackPlanAt(top, STACK_PAGES, k - 1); }
  }

  lemma FarKey(k: nat)
    requires k <= STACK_PAGES
    ensures Key(HIGH + k * PAGE) == LOW / PAGE + k
  {
    KeyUp(LOW + k * PAGE);
    DivModUnique(LOW + k * PAGE, LOW / PAGE + k, 0, PAGE);
  }

  lemma FarPlaced()
    ensures WellPlaced([FarSegment(true)]) && IsTop([FarSegment(true)], HIGH + PAGE)
  {
    OnePagePlan([], FarSegment(true));
    assert SpanHi([FarSegment(true)][0]) == HIGH + PAGE;
    assert PlacedAt([FarSegment(true)], 0);
  }

  lemma FarOrdinary(bytes: seq<Byte>)
    ensures PlanOrdinary(WholePlan(bytes, [FarSegment(true)], HIGH + PAGE))
  {
    var plan := WholePlan(bytes, [FarSegment(true)], HIGH + PAGE);
    forall k | 0 <= k < |plan| ensures !Refuses(plan[k].va) {
      FarPlanned(bytes, k);
      FarKey(k);
      OrdinaryIsLow(plan[k].va);
    }
  }

  /** One page of text at 2^48 above the image base passes every check, its planned
      pages even have indices of their own, and no access reaches any of them. */
  lemma FarSegmentUnreachable(bytes: seq<Byte>, mem: Mem, root: nat, i: nat)
    requires i < |WholePlan(bytes, [FarSegment(true)], HIGH + PAGE)|
    ensures var segs, top := [FarSegment(true)], HIGH + PAGE; var plan := WholePlan(bytes, segs, top);
            && WellPlaced(segs) && IsTop(segs, top) && KeysDiffer(plan) && PlanOrdinary(plan)
            && HwWalk(mem, root, false, plan[i].va) == Fault
  {
    FarPlaced();
    FarPlanned(bytes, i);
    FarOrdinary(bytes);
    var plan := WholePlan(bytes, [FarSegment(true)], HIGH + PAGE);
    forall a, b | 0 <= a < b < |plan| ensures Key(plan[a].va) != Key(plan[b].va) {
      FarPlanned(bytes, a);
      FarPlanned(bytes, b);
      FarKey(a);
      FarKey(b);
    }
  }

  lemma FarFileReads(segs: seq<Segment>)
    requires segs == [FarSegment(true)]
    ensures var bytes := ElfReads.PlainFile(HIGH, segs, []);
            |bytes| < TWO_64 && Reading(bytes) == Ok(Elf(HIGH, segs, None))
  {
    ElfReads.PlainReads(HIGH, segs);
  }

  lemma FarFilePasses(bytes: seq<Byte>, segs: seq<Segment>)
    requires |bytes| < TWO_64 && segs == [FarSegment(true)] && Reading(bytes) == Ok(Elf(HIGH, segs, None))
    ensures !Refused(bytes, HIGH + PAGE)
  {
    FarPlaced();
    FarOrdinary(bytes);
    assert segs[0].exec;
  }

  /** A file with that one segment: the reader gives it back and nothing refuses it. */
  lemma FarFileAccepted(segs: seq<Segment>)
    requires segs == [FarSegment(true)]
    ensures var bytes := ElfReads.PlainFile(HIGH, segs, []);
            |bytes| < TWO_64 && Reading(bytes) == Ok(Elf(HIGH, segs, None)) && !Refused(bytes, HIGH + PAGE)
  {
    FarFileReads(segs);
    FarFilePasses(ElfReads.PlainFile(HIGH, segs, []), segs);
  }

  function NearSegment(): Segment { Segment(LOW, 0, 0, 1, true) }

  lemma TwoPlaced(top: nat)
    requires IsTop([NearSegment(), FarSegment(false)], top)
    ensures WellPlaced([NearSegment(), FarSegment(false)]) && top == HIGH + PAGE
  {
    OnePagePlan([], NearSegment());
    OnePagePlan([], FarSegment(false));
    var segs := [NearSegment(), FarSegment(false)];
    assert SpanHi(segs[0]) == LOW + PAGE && SpanHi(segs[1]) == HIGH + PAGE;
    assert PlacedAt(segs, 0) && PlacedAt(segs, 1);
  }

  lemma TwoPlanned(bytes: seq<Byte>)
    ensures var segs := [NearSegment(), FarSegment(false)];
            && |FilePlan(bytes, segs)| == 2
            && FilePlan(bytes, segs)[0].va == LOW && FilePlan(bytes, segs)[0].entry == RoUserText
            && FilePlan(bytes, segs)[1].va == HIGH && FilePlan(bytes, segs)[1].entry == RwUserData
  {
    var a, b := NearSegment(), FarSegment(false);
    OnePagePlan(bytes, a);
    OnePagePlan(bytes, b);
    assert [a, b][..1] == [a] && [a][..0] == [];
    assert FilePlan(bytes, [a]) == FilePlan(bytes, []) + SegmentPlan(bytes, a, SpanLo(a));
    assert FilePlan(bytes, [a, b]) == FilePlan(bytes, [a]) + SegmentPlan(bytes, b, SpanLo(b));
  }

  // The second page has the first one's key, and no later page has.
  lemma TwoKeys(bytes: seq<Byte>, j: nat)
    requires var plan := WholePlan(bytes, [NearSegment(), FarSegment(false)], HIGH + PAGE); 1 < j < |plan|
    ensures Key(HIGH) == Key(LOW)
    ensures Key(WholePlan(bytes, [NearSegment(), FarSegment(false)], HIGH + PAGE)[j].va) != Key(HIGH)
  {
    TwoPlanned(bytes);
    StackPlanSize(HIGH + PAGE, STACK_PAGES);
    StackPlanAt(HIGH + PAGE, STACK_PAGES, j - 2);
    FarKey(j - 1);
    KeyUp(LOW);
    LowKeyIs(LOW);
  }

  lemma TwoOrdinary(bytes: seq<Byte>)
    ensures PlanOrdinary(WholePlan(bytes, [NearSegment(), FarSegment(false)], HIGH + PAGE))
  {
    var plan := WholePlan(bytes, [NearSegment(), FarSegment(false)], HIGH + PAGE);
    TwoPlanned(bytes);
    StackPlanSize(HIGH + PAGE, STACK_PAGES);
    forall k | 0 <= k < |plan| ensures !Refuses(plan[k].va) {
      if k == 0 { LowKeyIs(LOW); } else { FarKey(k - 1); }
      if k > 1 { StackPlanAt(HIGH + PAGE, STACK_PAGES, k - 2); }
      OrdinaryIsLow(plan[k].va);
    }
  }

  lemma TwoTop()
    ensures IsTop([NearSegment(), FarSegment(false)], HIGH + PAGE)
  {
    var segs := [NearSegment(), FarSegment(false)];
    OnePagePlan([], NearSegment());
    OnePagePlan([], FarSegment(false));
    assert SpanHi(segs[0]) == LOW + PAGE && SpanHi(segs[1]) == HIGH + PAGE;
  }

  lemma TwoFileReads(segs: seq<Segment>)
    requires segs == [NearSegment(), FarSegment(false)]
    ensures var bytes := ElfReads.PlainFile(LOW, segs, []);
            |bytes| < TWO_64 && Reading(bytes) == Ok(Elf(LOW, segs, None))
  {
    ElfReads.PlainReads(LOW, segs);
  }

  lemma TwoFilePasses(bytes: seq<Byte>, segs: seq<Segment>)
    requires |bytes| < TWO_64 && segs == [NearSegment(), FarSegment(false)]
    requires Reading(bytes) == Ok(Elf(LOW, segs, None))
    ensures !Refused(bytes, HIGH + PAGE)
  {
    TwoTop();
    TwoPlaced(HIGH + PAGE);
    TwoOrdinary(bytes);
    assert segs[0].exec;
  }

  /** A file with two such segments: the reader gives them back and nothing refuses it. */
  lemma TwoFileAccepted(segs: seq<Segment>)
    requires segs == [NearSegment(), FarSegment(false)]
    ensures var bytes := ElfReads.PlainFile(LOW, segs, []);
            |bytes| < TWO_64 && Reading(bytes) == Ok(Elf(LOW, segs, None)) && !Refused(bytes, HIGH + PAGE)
  {
    TwoFileReads(segs);
    TwoFilePasses(ElfReads.PlainFile(LOW, segs, []), segs);
  }

  /** Two segments 2^48 apart pass every check and the second is mapped onto the
      first: its writable page is what the hardware finds at the text's address. */
  lemma FarSegmentsAlias(l: ElfLoader, bytes: seq<Byte>, top: nat)
    requires var segs := [NearSegment(), FarSegment(false)];
             l.Valid() && IsTop(segs, top) && l.plan == WholePlan(bytes, segs, top)
    ensures WellPlaced([NearSegment(), FarSegment(false)]) && |l.plan| > 1
    ensures l.plan[0].va == LOW && l.plan[0].entry == RoUserText
    ensures HwWalk(l.spaces.mem, l.root, false, LOW) == Page(RwUserData.WithFrame(l.frames[1]).(page := true))
  {
    TwoPlaced(top);
    TwoPlanned(bytes);
    StackPlanSize(top, STACK_PAGES);
    TwoKeys(bytes, 2);
    forall j | 1 < j < |l.plan| ensures Key(l.plan[j].va) != Key(l.plan[1].va) { TwoKeys(bytes, j); }
    PlannedIsOrdinary(l, 0);
    KeyReached(l, 1, LOW);
  }

  lemma SamePageSameKey(x: nat)
    ensures Key(PageDown(x)) == Key(x) && Indices(PageDown(x)) == Indices(x) && x == PageDown(x) + x % PAGE
  {
    var p := PageDown(x);
    DivModUnique(p, x / PAGE, 0, PAGE);
    SameFrameSameIndices(x, p);
  }

  /** The bytes a user reads: in a loaded process that ends within 48 bits, the
      hardware takes every address of a segment's memory to a page with the segment's
      attributes that holds the file byte there, or zero past the file part. */
  lemma UserReads(l: ElfLoader, bytes: seq<Byte>, segs: seq<Segment>, top: nat, k: nat, x: nat) returns (f: nat)
    requires l.Valid() && AllOk(bytes, segs) && WellPlaced(segs) && IsTop(segs, top)
    requires l.plan == WholePlan(bytes, segs, top)
    requires top + STACK_PAGES * PAGE <= USER_TOP
    requires k < |segs| && segs[k].vaddr <= x < segs[k].vaddr + segs[k].memsz
    ensures HwWalk(l.spaces.mem, l.root, false, x) == Page(SegmentEntry(segs[k]).WithFrame(f).(page := true))
    ensures f in l.pages && |l.pages[f]| == PAGE && l.pages[f][x % PAGE] == ContentAt(bytes, segs[k], x)
  {
    var i := PlannedAt(bytes, segs, top, k, x);
    f := l.frames[i];
    LowKeysDiffer(bytes, segs, top);
    PlannedIsOrdinary(l, i);
    SamePageSameKey(x);
    KeyReached(l, i, x);
    PageHolds(l, i, bytes, segs[k], x);
  }

  // Where an address of segment `k` is planned.
  lemma PlannedAt(bytes: seq<Byte>, segs: seq<Segment>, top: nat, k: nat, x: nat) returns (i: nat)
    requires AllOk(bytes, segs) && IsTop(segs, top) && top + STACK_PAGES * PAGE <= USER_TOP
    requires k < |segs| && segs[k].vaddr <= x < segs[k].vaddr + segs[k].memsz
    ensures i < |WholePlan(bytes, segs, top)| && x < USER_TOP
    ensures WholePlan(bytes, segs, top)[i] == PagePlan(bytes, segs[k], PageDown(x))
  {
    i := FilePlanHas(bytes, segs, k, PageDown(x));
    assert WholePlan(bytes, segs, top)[i] == FilePlan(bytes, segs)[i];
    PlanLow(bytes, segs, top, i);
  }

  lemma PageHolds(l: ElfLoader, i: nat, bytes: seq<Byte>, seg: Segment, x: nat)
    requires l.Valid() && i < |l.plan| && SegmentOk(seg, |bytes|)
    requires l.plan[i].content == Some(Content(bytes, seg, PageDown(x)))
    ensures var f := l.frames[i];
            f in l.pages && |l.pages[f]| == PAGE && l.pages[f][x % PAGE] == ContentAt(bytes, seg, x)
  {
    assert HoldsAt(l.spaces.free, l.pages, l.plan, l.frames, i);
    assert x == PageDown(x) + x % PAGE;
  }
}
