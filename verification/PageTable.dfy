/** Four-level translation tables and the recursive walk (aarch64/src/vm.rs).
    Addresses are numbers; a physical page is named by its frame number. */
module PageTable {
  import opened Prelude
  import opened Arith

  type Level = l: nat | l < 4

  const RECURSIVE_SLOT := 511
  const KZERO := 0xffff_8000_0000_0000

  // Both halves translate 48 address bits, and physical addresses have 44
  // (aarch64/src/pre_mmu/vminit.rs, TCR_EL1).
  const USER_TOP := 0x1_0000_0000_0000
  const KERNEL_BOTTOM := TWO_64 - USER_TOP
  const FRAMES := 0x1_0000_0000

  // A descriptor has 36 bits for the frame.
  const FIELD := 0x10_0000_0000
  type Frame = f: nat | f < FIELD

  /** What a descriptor keeps of a frame number. */
  function Stored(f: nat): Frame { f % FIELD }

  datatype Mair = Normal | Device
  datatype Access = PrivRw | AllRw | PrivRo | AllRo

  /** A descriptor: `page` is bit 1 (table at levels 0-2, page at level 3). */
  datatype Entry = Entry(valid: bool, page: bool, frame: Frame, mair: Mair, access: Access, pxn: bool, uxn: bool) {
    predicate IsTable(level: Level) { page && level != 3 }

    function WithFrame(f: nat): Entry { this.(frame := Stored(f)) }

    function WithPhysAddr(pa: nat): Entry { WithFrame(pa / 0x1000) }
  }

  // The two bits of the access field, AP[2:1] in the Arm descriptor format.
  function AccessBits(a: Access): nat {
    match a
    case PrivRw => 0
    case AllRw => 1
    case PrivRo => 2
    case AllRo => 3
  }

  // Whether a user may access what the entry names at all: AP[1].
  predicate ForUser(e: Entry) {
    AccessBits(e.access) % 2 == 1
  }

  /** What the hardware grants a user: nothing unless AP[1] is set, and no store where
      AP[2] is. */
  predicate HwGrants(e: Entry, forWrite: bool) {
    ForUser(e) && (forWrite ==> AccessBits(e.access) / 2 == 0)
  }

  // Whether a user may run what the entry names: its execute-never bit is clear.
  predicate HwFetches(e: Entry) {
    !e.uxn
  }

  const EmptyEntry := Entry(false, false, 0, Normal, PrivRw, false, false)
  const RwKernelData := Entry(true, false, 0, Normal, PrivRw, true, true)
  const RwUserMmio := Entry(true, false, 0, Device, AllRw, true, true)
  const RoUserText := Entry(true, false, 0, Normal, AllRo, true, false)
  const RwUserData := Entry(true, false, 0, Normal, AllRw, true, true)

  // A table descriptor for the page at `frame`.
  function TableEntry(frame: nat): Entry {
    RwKernelData.WithFrame(frame).(page := true)
  }

  // ----- Virtual addresses -----

  function Shift(level: Level): (s: nat)
    ensures s > 0
  {
    match level
    case 0 => 0x80_0000_0000
    case 1 => 0x4000_0000
    case 2 => 0x20_0000
    case 3 => 0x1000
  }

  function VaIndex(va: nat, level: Level): (i: nat)
    ensures i < 512
  {
    (va / Shift(level)) % 512
  }

  /** The four indices of an address, most significant first. */
  function Indices(va: nat): (p: seq<nat>)
    ensures |p| == 4
  {
    [VaIndex(va, 0), VaIndex(va, 1), VaIndex(va, 2), VaIndex(va, 3)]
  }

  /** The virtual address of the level's table for `va`: bits 12-47 of `va`
      shifted down by whole indices, the recursive slot filling the top. */
  function RecursiveTableAddr(kernel: bool, va: nat, level: Level): nat {
    var page := (va / 0x1000) % 0x10_0000_0000;
    var recursive := match level
      case 0 => 511 * Shift(0) + 511 * Shift(1) + 511 * Shift(2) + 511 * Shift(3)
      case 1 => 511 * Shift(0) + 511 * Shift(1) + 511 * Shift(2)
      case 2 => 511 * Shift(0) + 511 * Shift(1)
      case 3 => 511 * Shift(0);
    var indices := match level
      case 0 => 0
      case 1 => page / 0x800_0000
      case 2 => page / 0x4_0000
      case 3 => page / 0x200;
    (if kernel then 0xffff_0000_0000_0000 else 0) + recursive + indices * 0x1000
  }

  // An address from its indices: the bits above 47, four indices, an offset.
  function Compose(hi: nat, a: nat, b: nat, c: nat, d: nat, off: nat): nat {
    hi * 0x1_0000_0000_0000 + a * 0x80_0000_0000 + b * 0x4000_0000 + c * 0x20_0000 + d * 0x1000 + off
  }

  lemma ComposeIndices(hi: nat, a: nat, b: nat, c: nat, d: nat, off: nat)
    requires a < 512 && b < 512 && c < 512 && d < 512 && off < 0x1000
    ensures Indices(Compose(hi, a, b, c, d, off)) == [a, b, c, d]
  {
    var x := Compose(hi, a, b, c, d, off);
    var q0 := hi * 512 + a;
    var q1 := q0 * 512 + b;
    var q2 := q1 * 512 + c;
    var q3 := q2 * 512 + d;
    DivModUnique(x, q3, off, 0x1000);
    DivModUnique(x, q2, d * 0x1000 + off, 0x20_0000);
    DivModUnique(x, q1, c * 0x20_0000 + d * 0x1000 + off, 0x4000_0000);
    DivModUnique(x, q0, b * 0x4000_0000 + c * 0x20_0000 + d * 0x1000 + off, 0x80_0000_0000);
    DivModUnique(q3, q2, d, 512);
    DivModUnique(q2, q1, c, 512);
    DivModUnique(q1, q0, b, 512);
    DivModUnique(q0, hi, a, 512);
  }

  lemma Decompose(va: nat) returns (hi: nat, a: nat, b: nat, c: nat, d: nat, off: nat)
    ensures a < 512 && b < 512 && c < 512 && d < 512 && off < 0x1000
    ensures va == Compose(hi, a, b, c, d, off) && Indices(va) == [a, b, c, d]
  {
    var q3 := va / 0x1000;
    var q2 := q3 / 512;
    var q1 := q2 / 512;
    var q0 := q1 / 512;
    hi, a, b, c, d, off := q0 / 512, q0 % 512, q1 % 512, q2 % 512, q3 % 512, va % 0x1000;
    ComposeIndices(hi, a, b, c, d, off);
  }

  lemma RecursiveCompose(kernel: bool, level: Level, hi: nat, a: nat, b: nat, c: nat, d: nat, off: nat)
    requires a < 512 && b < 512 && c < 512 && d < 512 && off < 0x1000
    ensures var top := if kernel then 0xffff else 0;
            RecursiveTableAddr(kernel, Compose(hi, a, b, c, d, off), level) ==
            match level
            case 0 => Compose(top, 511, 511, 511, 511, 0)
            case 1 => Compose(top, 511, 511, 511, a, 0)
            case 2 => Compose(top, 511, 511, a, b, 0)
            case 3 => Compose(top, 511, a, b, c, 0)
  {
    var va := Compose(hi, a, b, c, d, off);
    var q := a * 0x800_0000 + b * 0x4_0000 + c * 512 + d;
    DivModUnique(va, hi * 0x10_0000_0000 + q, off, 0x1000);
    DivModUnique(va / 0x1000, hi, q, 0x10_0000_0000);
    DivModUnique(q, a, b * 0x4_0000 + c * 512 + d, 0x800_0000);
    DivModUnique(q, a * 512 + b, c * 512 + d, 0x4_0000);
    DivModUnique(q, a * 0x4_0000 + b * 512 + c, d, 512);
  }

  // The indices of a recursive address, written out.
  function RecursivePath(level: Level, idx: seq<nat>): (p: seq<nat>)
    requires |idx| == 4
    ensures p == seq(4 - level, _ => RECURSIVE_SLOT) + idx[..level]
  {
    match level
    case 0 => [511, 511, 511, 511]
    case 1 => [511, 511, 511, idx[0]]
    case 2 => [511, 511, idx[0], idx[1]]
    case 3 => [511, idx[0], idx[1], idx[2]]
  }

  /** Its indices are recursive slots followed by the indices of `va`. */
  lemma RecursiveIndices(kernel: bool, va: nat, level: Level)
    ensures Indices(RecursiveTableAddr(kernel, va, level)) == RecursivePath(level, Indices(va))
    ensures Translated(kernel, RecursiveTableAddr(kernel, va, level))
  {
    var hi, a, b, c, d, off := Decompose(va);
    RecursiveCompose(kernel, level, hi, a, b, c, d, off);
    var top := if kernel then 0xffff else 0;
    match level {
      case 0 => ComposeIndices(top, 511, 511, 511, 511, 0);
      case 1 => ComposeIndices(top, 511, 511, 511, a, 0);
      case 2 => ComposeIndices(top, 511, 511, a, b, 0);
      case 3 => ComposeIndices(top, 511, a, b, c, 0);
    }
  }

  // ----- Memory and walks -----

  /** Physical memory holding tables: (frame, index) to descriptor; what was
      never written may be anything, and an absent key reads as invalid. */
  type Mem = map<(nat, nat), Entry>

  function Read(mem: Mem, frame: nat, i: nat): Entry {
    if (frame, i) in mem then mem[(frame, i)] else EmptyEntry
  }

  function Write(mem: Mem, frame: nat, i: nat, e: Entry): (m: Mem)
    ensures forall f: nat, j: nat {:trigger Read(m, f, j)} ::
              Read(m, f, j) == if f == frame && j == i then e else Read(mem, f, j)
  {
    mem[(frame, i) := e]
  }

  function Clear(mem: Mem, frame: nat): (m: Mem)
    ensures forall f: nat, j: nat {:trigger Read(m, f, j)} ::
              Read(m, f, j) == if f == frame then EmptyEntry else Read(mem, f, j)
  {
    map k | k in mem && k.0 != frame :: mem[k]
  }

  datatype Walk = Fault | Block(entry: Entry, level: nat) | Page(entry: Entry) {
    predicate At(frame: nat) { Page? && entry.frame == frame }
  }

  // The addresses the hardware translates through a user or the kernel root.
  predicate Translated(kernel: bool, addr: nat) {
    if kernel then KERNEL_BOTTOM <= addr < TWO_64 else addr < USER_TOP
  }

  /** The hardware's walk from table `t` at `level`, for an address with indices `idx`. */
  function HwWalkFrom(mem: Mem, t: nat, idx: seq<nat>, level: Level): Walk
    requires |idx| == 4
    decreases 4 - level
  {
    var e := Read(mem, t, idx[level]);
    if !e.valid || e.frame >= FRAMES then Fault
    else if level == 3 then if e.page then Page(e) else Fault
    else if e.page then HwWalkFrom(mem, e.frame, idx, level + 1)
    else if level == 0 then Fault
    else Block(e, level)
  }

  /** A hardware access: addresses outside the root's half fault before any walk. */
  function HwWalk(mem: Mem, root: nat, kernel: bool, addr: nat): Walk {
    if Translated(kernel, addr) then HwWalkFrom(mem, root, Indices(addr), 0) else Fault
  }

  // The table a table descriptor in slot `i` of table `t` leads to, in memory there is.
  function Child(mem: Mem, t: nat, i: nat): Option<nat> {
    var e := Read(mem, t, i);
    if e.valid && e.page && e.frame < FRAMES then Some(e.frame) else None
  }

  /** The table reached from `root` by following the slots of `p` one by one. */
  function NodeAt(mem: Mem, root: nat, p: seq<nat>): Option<nat> {
    if p == [] then Some(root)
    else
      var t := NodeAt(mem, root, p[..|p| - 1]);
      if t.Some? then Child(mem, t.value, p[|p| - 1]) else None
  }

  lemma NodeStep(mem: Mem, root: nat, p: seq<nat>, i: nat)
    ensures NodeAt(mem, root, p + [i]) ==
            if NodeAt(mem, root, p).Some? then Child(mem, NodeAt(mem, root, p).value, i) else None
  {
    assert (p + [i])[..|p|] == p;
  }

  ghost predicate SelfMapped(mem: Mem, root: nat) {
    root < FRAMES && Read(mem, root, RECURSIVE_SLOT) == TableEntry(root)
  }

  /** Recursive and direct walks agree: from a live root whose slot 511 names a
      self-pointing target root, the hardware's walk of the recursive address
      lands on a table page exactly when following the descriptors of `va` from
      the target reaches that same page at that level. */
  lemma RecursiveWalkFindsTable(mem: Mem, live: nat, target: nat, kernel: bool, va: nat, level: Level, t: nat)
    requires Read(mem, live, RECURSIVE_SLOT) == TableEntry(target) && SelfMapped(mem, target)
    ensures HwWalk(mem, live, kernel, RecursiveTableAddr(kernel, va, level)).At(t)
            <==> NodeAt(mem, target, Indices(va)[..level]) == Some(t)
  {
    var r := RecursiveTableAddr(kernel, va, level);
    RecursiveIndices(kernel, va, level);
    IndicesAgree(mem, live, target, Indices(r), Indices(va)[..level], t);
  }

  lemma IndicesAgree(mem: Mem, live: nat, target: nat, idx: seq<nat>, p: seq<nat>, t: nat)
    requires Read(mem, live, RECURSIVE_SLOT) == TableEntry(target) && SelfMapped(mem, target)
    requires |idx| == 4 && |p| < 4
    requires forall k: nat :: k < 4 ==> idx[k] == if k + |p| < 4 then RECURSIVE_SLOT else p[k + |p| - 4]
    ensures HwWalkFrom(mem, live, idx, 0).At(t) <==> NodeAt(mem, target, p) == Some(t)
  {
    // The slots before the last |p| stay on the target root.
    var l := 1;
    while l < 4 - |p|
      invariant 1 <= l <= 4 - |p|
      invariant HwWalkFrom(mem, live, idx, 0)
                == if l < 4 then HwWalkFrom(mem, target, idx, l) else Page(TableEntry(target))
    {
      l := l + 1;
    }
    if |p| > 0 { DescendAgrees(mem, target, idx, p, 0, target, t); }
  }

  // From the table `n` reached after `j` indices on, both walks take the same steps.
  lemma {:induction false} DescendAgrees(mem: Mem, target: nat, idx: seq<nat>, p: seq<nat>, j: nat, n: nat, t: nat)
    requires j < |p| < 4 && |idx| == 4 && NodeAt(mem, target, p[..j]) == Some(n)
    requires forall k: nat :: j <= k < |p| ==> idx[4 - |p| + k] == p[k]
    ensures HwWalkFrom(mem, n, idx, 4 - |p| + j).At(t) <==> NodeAt(mem, target, p) == Some(t)
    decreases |p| - j
  {
    NodeStep(mem, target, p[..j], p[j]);
    assert p[..j] + [p[j]] == p[..j + 1];
    var e := Read(mem, n, p[j]);
    if !(e.valid && e.page && e.frame < FRAMES) {
      NoNodeBelow(mem, target, p, j + 1);
    } else if j + 1 < |p| {
      DescendAgrees(mem, target, idx, p, j + 1, e.frame, t);
    } else {
      assert p[..j + 1] == p;
    }
  }

  lemma {:induction false} NoNodeBelow(mem: Mem, root: nat, p: seq<nat>, j: nat)
    requires j <= |p| && NodeAt(mem, root, p[..j]).None?
    ensures NodeAt(mem, root, p).None?
    decreases |p|
  {
    if j < |p| {
      assert p[..|p| - 1][..j] == p[..j];
      NoNodeBelow(mem, root, p[..|p| - 1], j);
    } else {
      assert p[..j] == p;
    }
  }
}
