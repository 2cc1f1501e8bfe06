/** Mapping whole ranges, and reading a user's tables back (aarch64/src/vm.rs). */
module PageRange {
  import opened Prelude
  import opened Arith
  import opened PageTable
  import opened PageMap

  // ----- Page numbers -----

  function Bytes(size: PageSize): (n: nat)
    ensures n == Shift(size.Level())
  {
    match size case Page4K => 0x1000 case Page2M => 0x20_0000 case Page1G => 0x4000_0000
  }

  function Frames(size: PageSize): nat {
    match size case Page4K => 1 case Page2M => 512 case Page1G => 0x4_0000
  }

  /** The number of pages of one size in the window four indices can name. */
  function Span(size: PageSize): (n: nat)
    ensures n > 0
  {
    match size case Page4K => 0x10_0000_0000 case Page2M => 0x800_0000 case Page1G => 0x4_0000
  }

  /** The page number of an address inside that window. */
  function PageOf(x: nat, size: PageSize): nat {
    (x / Bytes(size)) % Span(size)
  }

  lemma PageOfCompose(hi: nat, a: nat, b: nat, c: nat, d: nat, off: nat, size: PageSize)
    requires a < 512 && b < 512 && c < 512 && d < 512 && off < 0x1000
    ensures var x := Compose(hi, a, b, c, d, off);
            PageOf(x, size) == match size
                               case Page4K => ((a * 512 + b) * 512 + c) * 512 + d
                               case Page2M => (a * 512 + b) * 512 + c
                               case Page1G => a * 512 + b
    ensures Compose(hi, a, b, c, d, off) / Bytes(size) == hi * Span(size) + PageOf(Compose(hi, a, b, c, d, off), size)
  {
    var x := Compose(hi, a, b, c, d, off);
    var r1 := a * 512 + b;
    var r2 := r1 * 512 + c;
    var r3 := r2 * 512 + d;
    match size {
      case Page4K =>
        DivModUnique(x, hi * Span(size) + r3, off, 0x1000);
        DivModUnique(x / 0x1000, hi, r3, Span(size));
      case Page2M =>
        DivModUnique(x, hi * Span(size) + r2, d * 0x1000 + off, 0x20_0000);
        DivModUnique(x / 0x20_0000, hi, r2, Span(size));
      case Page1G =>
        DivModUnique(x, hi * Span(size) + r1, c * 0x20_0000 + d * 0x1000 + off, 0x4000_0000);
        DivModUnique(x / 0x4000_0000, hi, r1, Span(size));
    }
  }

  /** Two addresses share their indices exactly when they share their page number. */
  lemma SamePageIsPageOf(va: nat, x: nat, size: PageSize)
    ensures SamePage(va, x, size.Level()) <==> PageOf(va, size) == PageOf(x, size)
  {
    var hi, a, b, c, d, off := Decompose(va);
    var hi', a', b', c', d', off' := Decompose(x);
    PageOfCompose(hi, a, b, c, d, off, size);
    PageOfCompose(hi', a', b', c', d', off', size);
    match size {
      case Page4K => SameDigits4(a, b, c, d, a', b', c', d');
      case Page2M => SameDigits3(a, b, c, d, a', b', c', d');
      case Page1G => SameDigits2(a, b, c, d, a', b', c', d');
    }
  }

  lemma SameDigits2(a: nat, b: nat, c: nat, d: nat, a': nat, b': nat, c': nat, d': nat)
    requires b < 512 && b' < 512
    ensures [a', b', c', d'][..2] == [a, b, c, d][..2] <==> a * 512 + b == a' * 512 + b'
  {
    assert [a, b, c, d][..2] == [a, b] && [a', b', c', d'][..2] == [a', b'];
  }

  lemma SameDigits3(a: nat, b: nat, c: nat, d: nat, a': nat, b': nat, c': nat, d': nat)
    requires b < 512 && b' < 512 && c < 512 && c' < 512
    ensures [a', b', c', d'][..3] == [a, b, c, d][..3] <==> (a * 512 + b) * 512 + c == (a' * 512 + b') * 512 + c'
  {
    assert [a, b, c, d][..3] == [a, b, c] && [a', b', c', d'][..3] == [a', b', c'];
  }

  lemma SameDigits4(a: nat, b: nat, c: nat, d: nat, a': nat, b': nat, c': nat, d': nat)
    requires b < 512 && b' < 512 && c < 512 && c' < 512 && d < 512 && d' < 512
    ensures [a', b', c', d'][..4] == [a, b, c, d][..4]
            <==> ((a * 512 + b) * 512 + c) * 512 + d == ((a' * 512 + b') * 512 + c') * 512 + d'
  {
    assert [a, b, c, d][..4] == [a, b, c, d] && [a', b', c', d'][..4] == [a', b', c', d'];
  }

  lemma PageBelow(hi: nat, a: nat, b: nat, c: nat, d: nat, off: nat, size: PageSize)
    requires a < 511 && b < 512 && c < 512 && d < 512 && off < 0x1000
    ensures PageOf(Compose(hi, a, b, c, d, off), size) + 1 < Span(size)
  {
    PageOfCompose(hi, a, b, c, d, off, size);
    match size case Page4K => case Page2M => case Page1G =>
  }

  lemma NextNumber(va: nat, bytes: nat, hi: nat, p: nat, span: nat)
    requires bytes > 0 && va / bytes == hi * span + p && p + 1 < span
    ensures ((va + bytes) / bytes) % span == p + 1
  {
    ModShift(va, 1, bytes);
    DivModUnique(hi * span + p + 1, hi, p + 1, span);
  }

  /** Below the recursive window the next page has the next number. */
  lemma NextPage(va: nat, size: PageSize)
    requires Ordinary(Indices(va))
    ensures PageOf(va + Bytes(size), size) == PageOf(va, size) + 1
  {
    var hi, a, b, c, d, off := Decompose(va);
    PageOfCompose(hi, a, b, c, d, off, size);
    PageBelow(hi, a, b, c, d, off, size);
    NextNumber(va, Bytes(size), hi, PageOf(va, size), Span(size));
  }

  // ----- Mapping a range -----

  datatype VirtRange = VirtRange(start: nat, end: nat)

  datatype VaMapping = Addr(va: nat) | Offset(offset: nat) {
    function Start(pa: nat): nat {
      match this case Addr(va) => va case Offset(offset) => (pa + offset) % TWO_64
    }
  }

  predicate OnBoundary(range: PhysRange, size: PageSize) {
    range.start % Bytes(size) == 0 && range.end % Bytes(size) == 0
  }

  /** The translation after `n` pages from `pa` on were mapped from `va` on. */
  ghost function RangeLeaf(mem: Mem, target: nat, entry: Entry, pa: nat, va: nat, n: nat, size: PageSize, r: nat,
                           x: nat): Option<Leaf> {
    var k := PageOf(x, size) - PageOf(va, size);
    if r == target && 0 <= k < n
    then Some(Leaf(LeafEntry(entry.WithFrame(pa / 0x1000 + k * Frames(size)), size), size.Level()))
    else LeafAt(mem, r, x)
  }

  ghost predicate RangeMappedAt(mem: Mem, mem': Mem, roots: set<nat>, target: nat, entry: Entry, pa: nat, va: nat,
                                n: nat, size: PageSize, r: nat, x: nat) {
    r in roots && Ordinary(Indices(x)) ==> LeafAt(mem', r, x) == RangeLeaf(mem, target, entry, pa, va, n, size, r, x)
  }

  ghost predicate RangeMapped(mem: Mem, mem': Mem, roots: set<nat>, target: nat, entry: Entry, pa: nat, va: nat, n: nat,
                              size: PageSize) {
    forall r: nat, x: nat :: RangeMappedAt(mem, mem', roots, target, entry, pa, va, n, size, r, x)
  }

  lemma RangeNone(mem: Mem, roots: set<nat>, target: nat, entry: Entry, pa: nat, va: nat, size: PageSize)
    ensures RangeMapped(mem, mem, roots, target, entry, pa, va, 0, size)
  {
  }

  /** One more page extends the range mapped so far. */
  lemma OneMorePage(mem: Mem, mem1: Mem, mem2: Mem, roots: set<nat>, target: nat, entry: Entry,
                    pa: nat, va: nat, n: nat, size: PageSize, pa': nat, va': nat)
    requires RangeMapped(mem, mem1, roots, target, entry, pa, va, n, size)
    requires RangeMapped(mem1, mem2, roots, target, entry, pa', va', 1, size)
    requires PageOf(va', size) == PageOf(va, size) + n && pa' / 0x1000 == pa / 0x1000 + n * Frames(size)
    ensures RangeMapped(mem, mem2, roots, target, entry, pa, va, n + 1, size)
  {
    var m := n + 1;
    forall r: nat, x: nat ensures RangeMappedAt(mem, mem2, roots, target, entry, pa, va, m, size, r, x) {
      assert RangeMappedAt(mem, mem1, roots, target, entry, pa, va, n, size, r, x);
      assert RangeMappedAt(mem1, mem2, roots, target, entry, pa', va', 1, size, r, x);
    }
  }

  lemma SameRange(mem: Mem, mem1: Mem, mem2: Mem, roots: set<nat>, target: nat, entry: Entry,
                  pa: nat, va: nat, n: nat, size: PageSize, pa': nat, va': nat)
    requires RangeMapped(mem, mem1, roots, target, entry, pa, va, n, size)
    requires RangeMapped(mem1, mem2, roots, target, entry, pa', va', 0, size)
    ensures RangeMapped(mem, mem2, roots, target, entry, pa, va, n, size)
  {
    forall r: nat, x: nat ensures RangeMappedAt(mem, mem2, roots, target, entry, pa, va, n, size, r, x) {
      assert RangeMappedAt(mem, mem1, roots, target, entry, pa, va, n, size, r, x);
      assert RangeMappedAt(mem1, mem2, roots, target, entry, pa', va', 0, size, r, x);
    }
  }

  lemma OnePageLeaves(vm: Vm, vm1: Vm, ok: bool, roots: set<nat>, target: nat, entry: Entry, pa: nat, va: nat,
                      size: PageSize)
    requires forall r: nat, x: nat :: MapToAt(vm, vm1, ok, roots, target, entry.WithPhysAddr(pa), va, size, r, x)
    ensures RangeMapped(vm.mem, vm1.mem, roots, target, entry, pa, va, if ok then 1 else 0, size)
  {
    var m := if ok then 1 else 0;
    forall r: nat, x: nat ensures RangeMappedAt(vm.mem, vm1.mem, roots, target, entry, pa, va, m, size, r, x) {
      assert MapToAt(vm, vm1, ok, roots, target, entry.WithPhysAddr(pa), va, size, r, x);
      SamePageIsPageOf(va, x, size);
    }
  }

  lemma NextBoundary(pa: nat, end: nat, size: PageSize)
    requires pa % Bytes(size) == 0 && end % Bytes(size) == 0 && pa < end
    ensures pa + Bytes(size) <= end && (pa + Bytes(size)) % Bytes(size) == 0
  {
    var b := Bytes(size);
    var i, j := pa / b, end / b;
    DivModUnique(pa + b, i + 1, 0, b);
    if j <= i { MulMono(j, i, b); } else { MulMono(i + 1, j, b); }
  }

  lemma PageFrames(start: nat, pa: nat, n: nat, size: PageSize)
    requires start % Bytes(size) == 0 && pa == start + n * Bytes(size)
    ensures pa / 0x1000 == start / 0x1000 + n * Frames(size)
  {
    assert n * Bytes(size) == (n * Frames(size)) * 0x1000;
    ModShift(start, n * Frames(size), 0x1000);
  }

  /** Where the loop over a range stands after `n` pages. */
  ghost predicate Cursor(start: nat, va: nat, size: PageSize, n: nat, pa: nat, currVa: nat, endVa: nat) {
    && pa == start + n * Bytes(size) && start % Bytes(size) == 0 && pa % Bytes(size) == 0
    && (n > 0 ==> Ordinary(Indices(va)) && Ordinary(Indices(currVa)) && endVa == currVa + Bytes(size)
                  && endVa == va + n * Bytes(size) && PageOf(currVa, size) == PageOf(va, size) + n - 1)
  }

  lemma CursorNext(start: nat, va: nat, size: PageSize, n: nat, pa: nat, currVa: nat, endVa: nat)
    requires Cursor(start, va, size, n, pa, currVa, endVa) && n > 0
    ensures PageOf(currVa + Bytes(size), size) == PageOf(va, size) + n && currVa + Bytes(size) == va + n * Bytes(size)
  {
    NextPage(currVa, size);
  }

  lemma CursorAdvance(start: nat, end: nat, va: nat, size: PageSize, n: nat, pa: nat, currVa: nat)
    requires pa == start + n * Bytes(size) && start % Bytes(size) == 0 && pa % Bytes(size) == 0
    requires end % Bytes(size) == 0 && pa < end
    requires Ordinary(Indices(va)) && Ordinary(Indices(currVa)) && PageOf(currVa, size) == PageOf(va, size) + n
    requires currVa == va + n * Bytes(size)
    ensures Cursor(start, va, size, n + 1, pa + Bytes(size), currVa, currVa + Bytes(size)) && pa + Bytes(size) <= end
  {
    NextBoundary(pa, end, size);
    MulStep(n, Bytes(size));
  }

  /** The answer for a range on page boundaries after `n` pages were mapped:
      all of them and the virtual range, or fewer and the reason. */
  ghost predicate RangeResult(range: PhysRange, va: nat, size: PageSize, r: Result<VirtRange, MapError>, n: nat) {
    match r
    case Ok(virt) =>
      && range.start < range.end && n * Bytes(size) == range.end - range.start && Ordinary(Indices(va))
      && virt.start == va && virt.end - virt.start == range.end - range.start
    case Err(PhysRangeIsZero) => range.start >= range.end && n == 0
    case Err(e) => !e.PhysRangeIsNotOnPageBoundary? && n * Bytes(size) < range.end - range.start
  }

  lemma RangeDone(range: PhysRange, va: nat, size: PageSize, n: nat, pa: nat, currVa: nat, endVa: nat)
    requires Cursor(range.start, va, size, n, pa, currVa, endVa) && pa >= range.end && (n > 0 ==> pa <= range.end)
    ensures if n == 0 then RangeResult(range, va, size, Err(PhysRangeIsZero), 0)
            else RangeResult(range, va, size, Ok(VirtRange(va, endVa)), n)
  {
    if n > 0 { MulMono(1, n, Bytes(size)); }
  }

  lemma RangeFailed(range: PhysRange, va: nat, size: PageSize, n: nat, pa: nat, currVa: nat, endVa: nat, e: MapError)
    requires Cursor(range.start, va, size, n, pa, currVa, endVa) && pa < range.end
    requires !e.PhysRangeIsNotOnPageBoundary? && !e.PhysRangeIsZero?
    ensures RangeResult(range, va, size, Err(e), n)
  {
  }

  /** The answer to mapping a single page, from the tables and the stock alone. */
  function OneResult(vm: Vm, target: nat, va: nat, size: PageSize): Result<VirtRange, MapError> {
    if va + Bytes(size) >= TWO_64 then Err(Overflow)
    else
      match Verdict(vm, target, Indices(va), size.Level())
      case Some(e) => Err(e)
      case None => Ok(VirtRange(va, va + Bytes(size)))
  }

  // ----- Reading a user's tables -----

  function EntryOf(leaf: Option<Leaf>): Option<Entry> {
    if leaf.Some? then Some(leaf.value.entry) else None
  }

  // The walk meets a table descriptor that names no memory.
  predicate LostFrom(mem: Mem, t: nat, idx: seq<nat>, level: Level)
    requires |idx| == 4
    decreases 4 - level
  {
    var e := Read(mem, t, idx[level]);
    e.valid && e.IsTable(level) && (e.frame >= FRAMES || LostFrom(mem, e.frame, idx, level + 1))
  }

  predicate LostAt(mem: Mem, live: nat, x: nat) {
    LostFrom(mem, live, Indices(x), 0)
  }

  lemma {:induction false} LostVia(mem: Mem, r: nat, idx: seq<nat>, level: Level, t: nat)
    requires |idx| == 4 && NodeAt(mem, r, idx[..level]) == Some(t)
    ensures LostFrom(mem, r, idx, 0) == LostFrom(mem, t, idx, level)
  {
    if level > 0 {
      PathStep(mem, r, idx, level - 1);
      LostVia(mem, r, idx, level - 1, NodeAt(mem, r, idx[..level - 1]).value);
    }
  }

  /** The software walk through recursive addresses returns the entry that following
      the descriptors from the root returns, and aborts exactly when one of them
      names no memory. */
  method UserLeafEntry(mem: Mem, live: nat, va: nat) returns (r: Result<Option<Entry>, MapError>)
    requires SelfMapped(mem, live)
    ensures r == if LostAt(mem, live, va) then Err(DataAbort) else Ok(EntryOf(LeafAt(mem, live, va)))
  {
    var table := live;
    var level: nat := 0;
    while level < 3
      invariant level <= 3 && NodeAt(mem, live, Indices(va)[..level]) == Some(table)
    {
      LeafVia(mem, live, Indices(va), level, table);
      LostVia(mem, live, Indices(va), level, table);
      PathStep(mem, live, Indices(va), level);
      var e := Read(mem, table, VaIndex(va, level));
      if !e.valid { return Ok(None); }
      if !e.IsTable(level) { return Ok(Some(e)); }
      NextTable(mem, live, va, level, e);
      var next := Resolve(mem, live, false, va, level + 1);
      if next.Err? { return Err(DataAbort); }
      table := next.value;
      level := level + 1;
    }
    LeafVia(mem, live, Indices(va), 3, table);
    LostVia(mem, live, Indices(va), 3, table);
    var e := Read(mem, table, VaIndex(va, 3));
    return Ok(if e.valid then Some(e) else None);
  }

  lemma NextTable(mem: Mem, live: nat, va: nat, level: Level, e: Entry)
    requires SelfMapped(mem, live) && level < 3 && NodeAt(mem, live, Indices(va)[..level]).Some?
    requires e == Read(mem, NodeAt(mem, live, Indices(va)[..level]).value, Indices(va)[level]) && e.valid && e.page
    ensures Resolve(mem, live, false, va, level + 1) == if e.frame < FRAMES then Ok(e.frame) else Err(DataAbort)
  {
    PathStep(mem, live, Indices(va), level);
    if e.frame < FRAMES {
      ResolveFinds(mem, live, live, false, va, level + 1, e.frame);
    } else {
      ResolveFails(mem, live, live, false, va, level + 1);
    }
  }

  // The access the kernel reads from a leaf.
  predicate UserOk(entry: Option<Entry>, forWrite: bool) {
    entry.Some? && (entry.value.access.AllRw? || (entry.value.access.AllRo? && !forWrite))
  }

  // It is the access the hardware grants.
  lemma UserOkIsGrant(entry: Option<Entry>, forWrite: bool)
    ensures UserOk(entry, forWrite) <==> entry.Some? && HwGrants(entry.value, forWrite)
  {
  }

  lemma SameFrameSameIndices(x: nat, y: nat)
    requires x / 0x1000 == y / 0x1000
    ensures Indices(x) == Indices(y)
  {
    var hi, a, b, c, d, off := Decompose(x);
    DivModUnique(x, hi * 0x10_0000_0000 + a * 0x800_0000 + b * 0x4_0000 + c * 512 + d, off, 0x1000);
    ComposeIndices(hi, a, b, c, d, y % 0x1000);
    assert y == Compose(hi, a, b, c, d, y % 0x1000);
  }

  // The leaf of the byte's address is there and grants the access.
  ghost predicate ByteOk(mem: Mem, live: nat, x: nat, forWrite: bool) {
    LeafAt(mem, live, x).Some? && HwGrants(LeafAt(mem, live, x).value.entry, forWrite)
  }

  ghost predicate BytesOk(mem: Mem, live: nat, lo: nat, hi: nat, forWrite: bool) {
    forall x: nat :: lo <= x < hi ==> ByteOk(mem, live, x, forWrite)
  }

  lemma PageByte(mem: Mem, live: nat, page: nat, x: nat, forWrite: bool)
    requires page % 0x1000 == 0 && page <= x < page + 0x1000
    ensures ByteOk(mem, live, x, forWrite) == ByteOk(mem, live, page, forWrite)
    ensures LostAt(mem, live, x) == LostAt(mem, live, page)
  {
    DivModUnique(x, page / 0x1000, x - page, 0x1000);
    SameFrameSameIndices(x, page);
  }

  // A granted page extends the bytes found good so far.
  lemma GoodPage(mem: Mem, live: nat, va: nat, page: nat, forWrite: bool)
    requires page % 0x1000 == 0 && BytesOk(mem, live, va, page, forWrite) && ByteOk(mem, live, page, forWrite)
    ensures BytesOk(mem, live, va, page + 0x1000, forWrite)
  {
    forall x: nat | va <= x < page + 0x1000 ensures ByteOk(mem, live, x, forWrite) {
      if page <= x { PageByte(mem, live, page, x, forWrite); }
    }
  }

  // A refused page holds a byte of the range that is refused.
  lemma BadPage(mem: Mem, live: nat, va: nat, end: nat, page: nat, forWrite: bool)
    requires page % 0x1000 == 0 && va < page + 0x1000 && page < end && va < end && !ByteOk(mem, live, page, forWrite)
    ensures !BytesOk(mem, live, va, end, forWrite)
  {
    var x := if page < va then va else page;
    PageByte(mem, live, page, x, forWrite);
  }

  lemma FewerBytes(mem: Mem, live: nat, va: nat, end: nat, page: nat, forWrite: bool)
    requires BytesOk(mem, live, va, page, forWrite) && end <= page
    ensures BytesOk(mem, live, va, end, forWrite)
  {
  }

  /** The check aborts on a range: a byte lies behind a descriptor that names no
      memory, and every byte before it is granted. */
  ghost predicate AbortsAt(mem: Mem, live: nat, va: nat, end: nat, forWrite: bool, x: nat) {
    va <= x < end && LostAt(mem, live, x) && BytesOk(mem, live, va, x, forWrite)
  }

  ghost predicate RangeAborts(mem: Mem, live: nat, va: nat, end: nat, forWrite: bool) {
    exists x: nat :: AbortsAt(mem, live, va, end, forWrite, x)
  }

  lemma {:induction false} LostHasNoLeaf(mem: Mem, t: nat, idx: seq<nat>, level: Level)
    requires |idx| == 4 && LostFrom(mem, t, idx, level)
    ensures LeafFrom(mem, t, idx, level).None?
    decreases 4 - level
  {
    var e := Read(mem, t, idx[level]);
    if e.frame < FRAMES { LostHasNoLeaf(mem, e.frame, idx, level + 1); }
  }

  // A range found good, or bad at a page that is not lost, does not abort.
  lemma NoAbort(mem: Mem, live: nat, va: nat, end: nat, page: nat, forWrite: bool)
    requires page % 0x1000 == 0 && va < page + 0x1000 && BytesOk(mem, live, va, page, forWrite)
    requires page < end ==> !ByteOk(mem, live, page, forWrite) && !LostAt(mem, live, page)
    ensures !RangeAborts(mem, live, va, end, forWrite)
  {
    forall x: nat ensures !AbortsAt(mem, live, va, end, forWrite, x) {
      if va <= x < end && LostAt(mem, live, x) {
        LostHasNoLeaf(mem, live, Indices(x), 0);
        assert !ByteOk(mem, live, x, forWrite);
        var y := if page < va then va else page;
        if page <= x < page + 0x1000 { PageByte(mem, live, page, x, forWrite); }
        if page < end { PageByte(mem, live, page, y, forWrite); }
      }
    }
  }

  /** The check aborts exactly as just said; otherwise a range is accepted exactly when
      it ends at or below the kernel half and every byte of it has a leaf that grants
      the access.  The hardware then lets every byte through if and only if the range
      ends within the first 48 bits and every byte falls on an entry the hardware
      decodes and on memory there is. */
  method UserRangeOk(mem: Mem, live: nat, va: nat, len: nat, forWrite: bool) returns (r: Option<bool>)
    requires SelfMapped(mem, live)
    ensures r.None? <==> va + len <= KZERO && RangeAborts(mem, live, va, va + len, forWrite)
    ensures r.Some? ==> (r.value <==> va + len <= KZERO && BytesOk(mem, live, va, va + len, forWrite))
    ensures r == Some(true) && len > 0 ==>
      (BytesReached(mem, live, va, va + len, forWrite) <==>
         va + len <= USER_TOP && BytesDecodable(mem, live, va, va + len) && BytesBacked(mem, live, va, va + len))
  {
    var end := va + len;
    if end >= TWO_64 { return Some(false); }
    if end > KZERO { return Some(false); }
    if len == 0 { return Some(true); }
    var page := va - va % 0x1000;
    DivModUnique(page, va / 0x1000, 0, 0x1000);
    while page < end
      invariant page % 0x1000 == 0 && va < page + 0x1000
      invariant BytesOk(mem, live, va, page, forWrite)
    {
      var leaf := UserLeafEntry(mem, live, page);
      if leaf.Err? {
        var x := if page < va then va else page;
        PageByte(mem, live, page, x, forWrite);
        assert AbortsAt(mem, live, va, end, forWrite, x);
        return None;
      }
      UserOkIsGrant(leaf.value, forWrite);
      if !UserOk(leaf.value, forWrite) {
        BadPage(mem, live, va, end, page, forWrite);
        NoAbort(mem, live, va, end, page, forWrite);
        return Some(false);
      }
      GoodPage(mem, live, va, page, forWrite);
      ModShift(page, 1, 0x1000);
      page := page + 0x1000;
    }
    NoAbort(mem, live, va, end, page, forWrite);
    FewerBytes(mem, live, va, end, page, forWrite);
    RangeReachedIff(mem, live, va, len, forWrite);
    return Some(true);
  }

  // ----- What the hardware lets through -----

  // What the hardware accepts as the end of a walk: a block at level 1 or 2, or an
  // entry with its page bit set at level 3.
  predicate Decodable(leaf: Leaf) {
    1 <= leaf.level && (leaf.level == 3 ==> leaf.entry.page)
  }

  // Its frame is one of physical memory.
  predicate Backed(leaf: Leaf) {
    leaf.entry.frame < FRAMES
  }

  /** The hardware's walk is the leaf the tables hold, or a fault if that is none
      the hardware decodes or names no memory. */
  lemma {:induction false} WalkIsLeaf(mem: Mem, t: nat, idx: seq<nat>, level: Level)
    requires |idx| == 4
    ensures HwWalkFrom(mem, t, idx, level) ==
            match LeafFrom(mem, t, idx, level)
            case None => Fault
            case Some(leaf) =>
              if !Decodable(leaf) || !Backed(leaf) then Fault
              else if leaf.level == 3 then Page(leaf.entry) else Block(leaf.entry, leaf.level)
    decreases 4 - level
  {
    var e := Read(mem, t, idx[level]);
    if e.valid && e.IsTable(level) && e.frame < FRAMES { WalkIsLeaf(mem, e.frame, idx, level + 1); }
  }

  /** The hardware's own walk of the user's address grants the access. */
  ghost predicate ByteReached(mem: Mem, live: nat, x: nat, forWrite: bool) {
    var w := HwWalk(mem, live, false, x);
    !w.Fault? && HwGrants(w.entry, forWrite)
  }

  ghost predicate BytesReached(mem: Mem, live: nat, lo: nat, hi: nat, forWrite: bool) {
    forall x: nat :: lo <= x < hi ==> ByteReached(mem, live, x, forWrite)
  }

  ghost predicate ByteDecodable(mem: Mem, live: nat, x: nat) {
    LeafAt(mem, live, x).Some? ==> Decodable(LeafAt(mem, live, x).value)
  }

  ghost predicate BytesDecodable(mem: Mem, live: nat, lo: nat, hi: nat) {
    forall x: nat :: lo <= x < hi ==> ByteDecodable(mem, live, x)
  }

  ghost predicate ByteBacked(mem: Mem, live: nat, x: nat) {
    LeafAt(mem, live, x).Some? ==> Backed(LeafAt(mem, live, x).value)
  }

  ghost predicate BytesBacked(mem: Mem, live: nat, lo: nat, hi: nat) {
    forall x: nat :: lo <= x < hi ==> ByteBacked(mem, live, x)
  }

  lemma ByteReachedIff(mem: Mem, live: nat, x: nat, forWrite: bool)
    requires ByteOk(mem, live, x, forWrite)
    ensures ByteReached(mem, live, x, forWrite)
            <==> x < USER_TOP && ByteDecodable(mem, live, x) && ByteBacked(mem, live, x)
  {
    WalkIsLeaf(mem, live, Indices(x), 0);
  }

  lemma RangeReachedIff(mem: Mem, live: nat, va: nat, len: nat, forWrite: bool)
    requires len > 0 && BytesOk(mem, live, va, va + len, forWrite)
    ensures BytesReached(mem, live, va, va + len, forWrite) <==>
              va + len <= USER_TOP && BytesDecodable(mem, live, va, va + len) && BytesBacked(mem, live, va, va + len)
  {
    forall x: nat | va <= x < va + len
      ensures ByteReached(mem, live, x, forWrite)
              <==> x < USER_TOP && ByteDecodable(mem, live, x) && ByteBacked(mem, live, x)
    {
      assert ByteOk(mem, live, x, forWrite);
      ByteReachedIff(mem, live, x, forWrite);
    }
    if BytesReached(mem, live, va, va + len, forWrite) {
      assert ByteReached(mem, live, va + len - 1, forWrite);
    }
  }

  predicate PageLeaf(leaf: Option<Leaf>) {
    leaf.Some? ==> leaf.value.level == 3 && leaf.value.entry.page
  }

  ghost predicate PageAt(mem: Mem, r: nat, x: nat) {
    Ordinary(Indices(x)) ==> PageLeaf(LeafAt(mem, r, x))
  }

  /** A root that maps whole 4K pages only, as `aspace.rs` builds them. */
  ghost predicate PagesOnly(mem: Mem, r: nat) {
    forall x: nat :: PageAt(mem, r, x)
  }

  predicate RealPath(p: seq<nat>) {
    forall k :: 0 <= k < |p| ==> p[k] < 512
  }

  lemma PathIsPage(mem: Mem, r: nat, idx: seq<nat>)
    requires PagesOnly(mem, r) && Ordinary(idx) && RealPath(idx)
    ensures PageLeaf(LeafFrom(mem, r, idx, 0))
  {
    var x := AddressOf(idx[0], idx[1], idx[2], idx[3]);
    assert Indices(x) == idx;
    assert PageAt(mem, r, x);
  }

  // Every valid entry of its tables has its page bit set.
  lemma EntryIsPage(mem: Mem, r: nat, p: seq<nat>, t: nat, i: nat)
    requires PagesOnly(mem, r) && |p| <= 3 && RealPath(p + [i]) && NodeAt(mem, r, p) == Some(t)
    requires (p + [i])[0] != RECURSIVE_SLOT
    ensures Read(mem, t, i).valid ==> Read(mem, t, i).page
  {
    var idx := p + [i] + seq(3 - |p|, _ => 0);
    assert idx[..|p|] == p && idx[|p|] == i && idx[0] == (p + [i])[0];
    PathIsPage(mem, r, idx);
    LeafVia(mem, r, idx, |p|, t);
  }

  // From the table at path `p` on, reached at `level` after turns through slot 511.
  lemma {:induction false} WindowPages(mem: Mem, r: nat, idx: seq<nat>, level: Level, p: seq<nat>, t: nat)
    requires SelfMapped(mem, r) && PagesOnly(mem, r) && |idx| == 4 && RealPath(idx)
    requires |p| <= level && RealPath(p) && NodeAt(mem, r, p) == Some(t) && (p != [] ==> p[0] != RECURSIVE_SLOT)
    ensures PageLeaf(LeafFrom(mem, t, idx, level))
    decreases 4 - level
  {
    var i := idx[level];
    if p == [] && i == RECURSIVE_SLOT {
      if level < 3 { WindowPages(mem, r, idx, level + 1, p, t); }
    } else {
      EntryIsPage(mem, r, p, t, i);
      if level < 3 && Read(mem, t, i).valid && Read(mem, t, i).frame < FRAMES {
        NodeStep(mem, r, p, i);
        WindowPages(mem, r, idx, level + 1, p + [i], Read(mem, t, i).frame);
      }
    }
  }

  /** In such a root every byte decodes, those of the recursive window included: an
      accepted range is let through if and only if it ends within 48 bits and every
      byte of it falls on memory there is. */
  lemma PagesReachedIff(mem: Mem, live: nat, va: nat, len: nat, forWrite: bool)
    requires SelfMapped(mem, live) && PagesOnly(mem, live) && len > 0 && BytesOk(mem, live, va, va + len, forWrite)
    ensures BytesReached(mem, live, va, va + len, forWrite)
            <==> va + len <= USER_TOP && BytesBacked(mem, live, va, va + len)
  {
    RangeReachedIff(mem, live, va, len, forWrite);
    forall x: nat | va <= x < va + len ensures ByteDecodable(mem, live, x) {
      assert RealPath(Indices(x));
      WindowPages(mem, live, Indices(x), 0, [], live);
    }
  }

  lemma ComposeHigher(hi: nat, a: nat, b: nat, c: nat, d: nat, off: nat, k: nat)
    ensures Compose(hi + k, a, b, c, d, off) == Compose(hi, a, b, c, d, off) + k * USER_TOP
  {
  }

  lemma HighAlias(x: nat, k: nat) returns (y: nat)
    ensures y == x + k * USER_TOP && Indices(y) == Indices(x)
  {
    var hi, a, b, c, d, off := Decompose(x);
    y := Compose(hi + k, a, b, c, d, off);
    assert y == x + k * USER_TOP by { ComposeHigher(hi, a, b, c, d, off, k); }
    ComposeIndices(hi + k, a, b, c, d, off);
  }

  /** Every range the check accepts it accepts again any number of 2^48 higher,
      where every access faults. */
  lemma HighRangeAccepted(mem: Mem, live: nat, va: nat, len: nat, forWrite: bool, k: nat)
    requires BytesOk(mem, live, va, va + len, forWrite) && k > 0
    ensures BytesOk(mem, live, va + k * USER_TOP, va + k * USER_TOP + len, forWrite)
    ensures forall x: nat :: va + k * USER_TOP <= x ==> HwWalk(mem, live, false, x) == Fault
  {
    forall x: nat | va + k * USER_TOP <= x < va + k * USER_TOP + len ensures ByteOk(mem, live, x, forWrite) {
      var y := HighAlias(x - k * USER_TOP, k);
      assert ByteOk(mem, live, x - k * USER_TOP, forWrite);
    }
    MulMono(1, k, USER_TOP);
  }

  // Root 1 over tables 2 and 3, the last holding `e` in its slot 0.
  function SmallTables(e: Entry): Mem {
    map[(1, 511) := TableEntry(1), (1, 0) := TableEntry(2), (2, 0) := TableEntry(3), (3, 0) := e]
  }

  lemma SmallPage(e: Entry)
    requires e.valid && e.page
    ensures LeafFrom(SmallTables(TableEntry(4))[(4, 0) := e], 1, [0, 0, 0, 0], 0) == Some(Leaf(e, 3))
  {
    var mem := SmallTables(TableEntry(4))[(4, 0) := e];
    assert LeafFrom(mem, 4, [0, 0, 0, 0], 3) == Some(Leaf(e, 3));
    assert LeafFrom(mem, 3, [0, 0, 0, 0], 2) == LeafFrom(mem, 4, [0, 0, 0, 0], 3);
    assert LeafFrom(mem, 2, [0, 0, 0, 0], 1) == LeafFrom(mem, 3, [0, 0, 0, 0], 2);
  }

  lemma ComposeLow(a: nat, b: nat, c: nat, d: nat)
    requires a < 512 && b < 512 && c < 512 && d < 512
    ensures Compose(0, a, b, c, d, 0) % 0x1000 == 0 && Compose(0, a, b, c, d, 0) + 0x1000 <= USER_TOP
  {
    DivModUnique(Compose(0, a, b, c, d, 0), a * 0x800_0000 + b * 0x4_0000 + c * 512 + d, 0, 0x1000);
  }

  // The address with these indices and offset zero.
  lemma AddressOf(a: nat, b: nat, c: nat, d: nat) returns (x: nat)
    requires a < 512 && b < 512 && c < 512 && d < 512
    ensures Indices(x) == [a, b, c, d] && x % 0x1000 == 0 && x + 0x1000 <= USER_TOP
  {
    x := Compose(0, a, b, c, d, 0);
    ComposeLow(a, b, c, d);
    ComposeIndices(0, a, b, c, d, 0);
  }

  lemma HighEight(mem: Mem, live: nat, x: nat, e: Entry)
    requires LeafAt(mem, live, x) == Some(Leaf(e, 3)) && e.access.AllRw? && x % 0x1000 == 0
    ensures BytesOk(mem, live, USER_TOP + x, USER_TOP + x + 8, true)
    ensures forall y: nat :: USER_TOP + x <= y < USER_TOP + x + 8 ==> HwWalk(mem, live, false, y) == Fault
  {
    forall y: nat | x <= y < x + 8 ensures ByteOk(mem, live, y, true) { PageByte(mem, live, x, y, true); }
    HighRangeAccepted(mem, live, x, 8, true, 1);
  }

  /** With one page mapped at `x`, the check accepts the eight bytes 2^48 above it,
      below the kernel half, and every access to them faults. */
  lemma HighPointerAccepted() returns (mem: Mem, x: nat)
    ensures SelfMapped(mem, 1) && USER_TOP + x + 8 <= KZERO && BytesOk(mem, 1, USER_TOP + x, USER_TOP + x + 8, true)
    ensures forall y: nat :: USER_TOP + x <= y < USER_TOP + x + 8 ==> HwWalk(mem, 1, false, y) == Fault
  {
    var e := RwUserData.WithFrame(5).(page := true);
    mem := SmallTables(TableEntry(4))[(4, 0) := e];
    SmallPage(e);
    x := AddressOf(0, 0, 0, 0);
    HighEight(mem, 1, x, e);
  }

  /** A range that touches a read-only page is not accepted for writing, and one that
      touches a page of the kernel's is not accepted at all. */
  lemma DeniedByPermission(mem: Mem, live: nat, va: nat, end: nat, forWrite: bool, x: nat)
    requires va <= x < end && LeafAt(mem, live, x).Some?
    requires var access := LeafAt(mem, live, x).value.entry.access;
             access.PrivRw? || access.PrivRo? || (access.AllRo? && forWrite)
    ensures !BytesOk(mem, live, va, end, forWrite)
  {
    assert !ByteOk(mem, live, x, forWrite);
  }

  // Eight bytes of a page of text.
  lemma TextBytes(mem: Mem, live: nat, x: nat, e: Entry)
    requires LeafAt(mem, live, x) == Some(Leaf(e, 3)) && e.access.AllRo? && e.page && e.frame < FRAMES
    requires x % 0x1000 == 0 && x + 0x1000 <= USER_TOP
    ensures BytesOk(mem, live, x, x + 8, false) && BytesReached(mem, live, x, x + 8, false)
    ensures !BytesOk(mem, live, x, x + 8, true)
  {
    forall y: nat | x <= y < x + 8 ensures ByteOk(mem, live, y, false) && ByteReached(mem, live, y, false) {
      DivModUnique(y, x / 0x1000, y - x, 0x1000);
      SameFrameSameIndices(y, x);
      WalkIsLeaf(mem, live, Indices(y), 0);
    }
    DeniedByPermission(mem, live, x, x + 8, true, x);
  }

  lemma LeafNeverLost(mem: Mem, live: nat, x: nat, end: nat, forWrite: bool)
    requires LeafAt(mem, live, x).Some? && x % 0x1000 == 0 && end <= x + 0x1000
    ensures !RangeAborts(mem, live, x, end, forWrite)
  {
    forall y: nat ensures !AbortsAt(mem, live, x, end, forWrite, y) {
      if x <= y < end && LostAt(mem, live, y) {
        PageByte(mem, live, x, y, forWrite);
        LostHasNoLeaf(mem, live, Indices(x), 0);
      }
    }
  }

  method CheckBoth(mem: Mem, live: nat, x: nat, ghost e: Entry) returns (read: Option<bool>, write: Option<bool>)
    requires SelfMapped(mem, live) && LeafAt(mem, live, x) == Some(Leaf(e, 3))
    requires e.access.AllRo? && e.page && e.frame < FRAMES && x % 0x1000 == 0 && x + 0x1000 <= USER_TOP
    ensures read == Some(true) && write == Some(false) && BytesReached(mem, live, x, x + 8, false)
  {
    TextBytes(mem, live, x, e);
    LeafNeverLost(mem, live, x, x + 8, false);
    LeafNeverLost(mem, live, x, x + 8, true);
    read := UserRangeOk(mem, live, x, 8, false);
    write := UserRangeOk(mem, live, x, 8, true);
  }

  /** With one page of text mapped, eight bytes of it are accepted for reading, where
      the hardware lets them through, and refused for writing. */
  method TextPageChecked() returns (mem: Mem, read: Option<bool>, write: Option<bool>)
    ensures SelfMapped(mem, 1) && LeafAt(mem, 1, 0) == Some(Leaf(RoUserText.WithFrame(5).(page := true), 3))
    ensures read == Some(true) && write == Some(false) && BytesReached(mem, 1, 0, 8, false)
  {
    ghost var e := RoUserText.WithFrame(5).(page := true);
    mem := SmallTables(TableEntry(4))[(4, 0) := RoUserText.WithFrame(5).(page := true)];
    SmallPage(e);
    read, write := CheckBoth(mem, 1, 0, e);
  }

  lemma SmallBlock(e: Entry)
    requires e.valid && !e.page
    ensures LeafFrom(SmallTables(e), 1, [511, 0, 0, 0], 0) == Some(Leaf(e, 3))
  {
    var mem, idx := SmallTables(e), [511, 0, 0, 0];
    assert LeafFrom(mem, 3, idx, 3) == Some(Leaf(e, 3));
    assert LeafFrom(mem, 2, idx, 2) == LeafFrom(mem, 3, idx, 3);
    assert LeafFrom(mem, 1, idx, 1) == LeafFrom(mem, 2, idx, 2);
  }

  lemma WindowByte(mem: Mem, live: nat, x: nat, e: Entry)
    requires LeafAt(mem, live, x) == Some(Leaf(e, 3)) && e.access.AllRw? && !e.page
    ensures ByteOk(mem, live, x, true) && HwWalk(mem, live, false, x) == Fault
  {
    WalkIsLeaf(mem, live, Indices(x), 0);
  }

  /** A 2M block the user may write, seen through the recursive window as a level-3
      entry without its page bit: accepted, and a fault for the hardware. */
  lemma BlockSeenAsPage() returns (mem: Mem, x: nat)
    ensures SelfMapped(mem, 1) && x < USER_TOP && ByteOk(mem, 1, x, true) && HwWalk(mem, 1, false, x) == Fault
  {
    mem := SmallTables(RwUserData);
    SmallBlock(RwUserData);
    x := AddressOf(511, 0, 0, 0);
    WindowByte(mem, 1, x, RwUserData);
  }
}
