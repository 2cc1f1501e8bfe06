/** The quick-list half of the QuickFit allocator (port/src/allocator.rs): layouts
    whose adjusted size equals their adjusted alignment. */
module QuickFit {
  import opened Prelude
  import opened Arith

  const MIN_ALLOC_SIZE := 64
  const MAX_QUICK_SIZE := 16384
  const NUM_QLISTS := 9

  // ----- Sizes -----

  type ListIndex = k: nat | k < NUM_QLISTS

  /** The block size of quick list k. */
  function QSize(k: ListIndex): (n: nat)
    ensures n >= MIN_ALLOC_SIZE && n % MIN_ALLOC_SIZE == 0 && n <= MAX_QUICK_SIZE
  {
    match k
    case 0 => 64 case 1 => 128 case 2 => 256 case 3 => 512 case 4 => 1024
    case 5 => 2048 case 6 => 4096 case 7 => 8192 case 8 => 16384
  }

  datatype Layout = Layout(size: nat, align: nat)

  // The least power of two, from `p` on, that is at least `n`.
  function NextPowerOfTwo(n: nat, p: nat := 1): nat
    requires p > 0
    decreases if n > p then n - p else 0
  {
    if n <= p then p else NextPowerOfTwo(n, 2 * p)
  }

  function ILog2(n: nat): nat
    requires n > 0
  {
    if n == 1 then 0 else 1 + ILog2(n / 2)
  }

  function Max(a: nat, b: nat): nat { if a < b then b else a }

  function Adjust(layout: Layout): (nat, nat) {
    if layout.size > MAX_QUICK_SIZE then (layout.size, layout.align)
    else
      var size := Max(MIN_ALLOC_SIZE, NextPowerOfTwo(layout.size));
      (size, Max(layout.align, size))
  }

  /** The layouts the quick lists serve. */
  predicate Quick(layout: Layout) {
    var (size, align) := Adjust(layout);
    size <= MAX_QUICK_SIZE && align == size
  }

  function ListFor(size: nat): int
    requires size > 0
  {
    ILog2(size) - 6
  }

  function Pow2(j: nat): (n: nat)
    ensures n > 0
  {
    if j == 0 then 1 else 2 * Pow2(j - 1)
  }

  lemma {:induction false} Pow2Mono(i: nat, j: nat)
    requires i <= j
    ensures Pow2(i) <= Pow2(j)
  {
    if i < j { Pow2Mono(i, j - 1); }
  }

  lemma {:induction false} LogOfPow2(j: nat)
    ensures ILog2(Pow2(j)) == j
  {
    if j > 0 { LogOfPow2(j - 1); }
  }

  lemma QSizeIsPow2(k: ListIndex)
    ensures QSize(k) == Pow2(k + 6)
  {
    assert Pow2(6) == 64 && Pow2(7) == 128 && Pow2(8) == 256 && Pow2(9) == 512 && Pow2(10) == 1024;
    assert Pow2(11) == 2048 && Pow2(12) == 4096 && Pow2(13) == 8192 && Pow2(14) == 16384;
  }

  lemma {:induction false} NextPowerIs(n: nat, j: nat) returns (m: nat)
    ensures j <= m && NextPowerOfTwo(n, Pow2(j)) == Pow2(m) && n <= Pow2(m) && (m == j || Pow2(m - 1) < n)
    decreases if n > Pow2(j) then n - Pow2(j) else 0
  {
    if n <= Pow2(j) { m := j; } else { m := NextPowerIs(n, j + 1); }
  }

  // The list for a power of two at least as large as the request.
  lemma ListOfPower(m: nat) returns (k: ListIndex)
    requires Max(MIN_ALLOC_SIZE, Pow2(m)) <= MAX_QUICK_SIZE
    ensures k == (if m < 6 then 0 else m - 6) && QSize(k) == Max(MIN_ALLOC_SIZE, Pow2(m)) && QSize(k) == Pow2(k + 6)
  {
    QSizeIsPow2(8);
    QSizeIsPow2(0);
    if m > 14 { Pow2Mono(15, m); }
    k := if m < 6 then 0 else m - 6;
    QSizeIsPow2(k);
    if m < 6 { Pow2Mono(m, 6); } else { Pow2Mono(6, m); }
  }

  // The list of the least power of two that holds `size` bytes has the least such blocks.
  lemma LeastOfPower(size: nat, m: nat, k: ListIndex, j: ListIndex)
    requires k == (if m < 6 then 0 else m - 6) && (m == 0 || Pow2(m - 1) < size) && size <= QSize(j)
    ensures QSize(k) <= QSize(j)
  {
    QSizeIsPow2(j);
    QSizeIsPow2(k);
    if j < k { Pow2Mono(j + 6, m - 1); } else { Pow2Mono(k + 6, j + 6); }
  }

  // The smallest block that holds a layout.
  lemma LeastList(layout: Layout) returns (k: ListIndex)
    requires layout.size <= MAX_QUICK_SIZE
    ensures QSize(k) == Adjust(layout).0 && layout.size <= QSize(k)
    ensures forall j: ListIndex :: layout.size <= QSize(j) ==> QSize(k) <= QSize(j)
  {
    var m := NextPowerIs(layout.size, 0);
    PowerFits(layout.size, m);
    k := ListOfPower(m);
    forall j: ListIndex | layout.size <= QSize(j) ensures QSize(k) <= QSize(j) { LeastOfPower(layout.size, m, k, j); }
  }

  lemma PowerFits(size: nat, m: nat)
    requires size <= MAX_QUICK_SIZE && (m == 0 || Pow2(m - 1) < size)
    ensures Pow2(m) <= MAX_QUICK_SIZE
  {
    QSizeIsPow2(8);
    if m > 14 { Pow2Mono(14, m - 1); }
    Pow2Mono(m, 14);
  }

  /** Adjusting picks the first list whose blocks are large enough. */
  lemma AdjustPicks(layout: Layout) returns (k: ListIndex)
    requires Quick(layout)
    ensures Adjust(layout).0 == QSize(k) && ListFor(QSize(k)) == k && layout.size <= QSize(k)
    ensures layout.align <= QSize(k)
    ensures forall j: ListIndex :: layout.size <= QSize(j) ==> QSize(k) <= QSize(j)
  {
    k := LeastList(layout);
    QSizeIsPow2(k);
    LogOfPow2(k + 6);
  }

  /** The quick lists serve exactly the layouts of at most 16384 bytes whose alignment is
      no larger than the smallest block that holds them. */
  lemma QuickIff(layout: Layout)
    ensures Quick(layout)
            <==> layout.size <= 16384 && forall k: ListIndex :: layout.size <= QSize(k) ==> layout.align <= QSize(k)
  {
    if layout.size <= MAX_QUICK_SIZE {
      var k := LeastList(layout);
    }
  }

  // Every block is still there.
  ghost predicate Kept(before: map<nat, nat>, after: map<nat, nat>) {
    before.Keys <= after.Keys && forall a :: a in before ==> after[a] == before[a]
  }

  // A block of list k fits at the front of the run, aligned to its size.
  predicate FitsFront(ptr: nat, n: nat, k: ListIndex) {
    QSize(k) <= n && ptr % QSize(k) == 0
  }

  ghost predicate LargestFront(ptr: nat, n: nat, k: ListIndex) {
    FitsFront(ptr, n, k) && forall j: ListIndex :: FitsFront(ptr, n, j) ==> QSize(j) <= QSize(k)
  }

  lemma LargestIsFirst(ptr: nat, n: nat, k: ListIndex)
    requires FitsFront(ptr, n, k) && forall j: ListIndex :: k < j ==> !FitsFront(ptr, n, j)
    ensures LargestFront(ptr, n, k)
  {
    forall j: ListIndex | FitsFront(ptr, n, j) ensures QSize(j) <= QSize(k) {
      QSizeIsPow2(j);
      QSizeIsPow2(k);
      Pow2Mono(j + 6, k + 6);
    }
  }

  // Each size has one list.
  lemma OwnList(j: ListIndex, k: ListIndex)
    requires QSize(j) == QSize(k)
    ensures j == k
  {
  }

  // ----- Tiling -----

  ghost predicate Inside(blocks: map<nat, nat>, lo: nat, hi: nat, a: nat) {
    a in blocks ==> lo <= a && a + blocks[a] <= hi && blocks[a] > 0 && a % blocks[a] == 0
  }

  ghost predicate Apart(blocks: map<nat, nat>, a: nat, b: nat) {
    a in blocks && b in blocks && a < b ==> a + blocks[a] <= b
  }

  ghost predicate Holds(blocks: map<nat, nat>, a: nat, x: nat) {
    a in blocks && a <= x < a + blocks[a]
  }

  ghost predicate Covered(blocks: map<nat, nat>, lo: nat, hi: nat, x: nat) {
    lo <= x < hi ==> exists a: nat :: Holds(blocks, a, x)
  }

  /** The blocks lie in [lo, hi), aligned to their sizes, apart from one another,
      and together hold every byte of it. */
  ghost predicate Tiled(blocks: map<nat, nat>, lo: nat, hi: nat) {
    && lo <= hi
    && (forall a: nat :: Inside(blocks, lo, hi, a))
    && (forall a: nat, b: nat :: Apart(blocks, a, b))
    && (forall x: nat :: Covered(blocks, lo, hi, x))
  }

  lemma TileNext(blocks: map<nat, nat>, lo: nat, hi: nat, size: nat)
    requires Tiled(blocks, lo, hi) && size > 0 && hi % size == 0
    ensures hi !in blocks && Tiled(blocks[hi := size], lo, hi + size)
  {
    var blocks', top := blocks[hi := size], hi + size;
    assert Inside(blocks, lo, hi, hi);
    forall a: nat ensures Inside(blocks', lo, top, a) { assert Inside(blocks, lo, hi, a); }
    forall a: nat, b: nat ensures Apart(blocks', a, b) {
      assert Apart(blocks, a, b) && Inside(blocks, lo, hi, a) && Inside(blocks, lo, hi, b);
    }
    forall x: nat ensures Covered(blocks', lo, top, x) {
      assert Covered(blocks, lo, hi, x);
      if lo <= x < hi {
        var a: nat :| Holds(blocks, a, x);
        assert Holds(blocks', a, x);
      } else if hi <= x < hi + size {
        assert Holds(blocks', hi, x);
      }
    }
  }

  /** Every byte of the tiled part is in exactly one block. */
  lemma OneBlockPerByte(blocks: map<nat, nat>, lo: nat, hi: nat, x: nat)
    requires Tiled(blocks, lo, hi)
    ensures lo <= x < hi <==> exists a: nat :: Holds(blocks, a, x)
    ensures forall a: nat, b: nat :: Holds(blocks, a, x) && Holds(blocks, b, x) ==> a == b
  {
    assert Covered(blocks, lo, hi, x);
    forall a: nat, b: nat | Holds(blocks, a, x) && Holds(blocks, b, x) ensures a == b {
      assert Apart(blocks, a, b) && Apart(blocks, b, a);
    }
    forall a: nat | Holds(blocks, a, x) ensures lo <= x < hi { assert Inside(blocks, lo, hi, a); }
  }

  function AlignOffset(p: nat, align: nat): (n: nat)
    requires align > 0
  {
    if p % align == 0 then 0 else align - p % align
  }

  lemma AlignOffsetAligns(p: nat, align: nat)
    requires align > 0
    ensures (p + AlignOffset(p, align)) % align == 0 && AlignOffset(p, align) < align
  {
    var q := p / align;
    assert p == q * align + p % align;
    MulStep(q, align);
    if p % align != 0 { DivModUnique(p + AlignOffset(p, align), q + 1, 0, align); }
  }

  // ----- Free lists -----

  /** What `free` writes at the start of a block. */
  datatype Header = Header(next: Option<nat>, addr: nat, size: nat, align: nat)

  function NextOf(list: seq<nat>, i: nat): Option<nat> {
    if i < |list| then Some(list[i]) else None
  }

  ghost predicate LinkAt(headers: map<nat, Header>, list: seq<nat>, i: nat) {
    i < |list| ==>
      && list[i] in headers
      && headers[list[i]].next == NextOf(list, i + 1) && headers[list[i]].addr == list[i]
  }

  // The headers chain the blocks of `list` from its first on.
  ghost predicate Linked(headers: map<nat, Header>, head: Option<nat>, list: seq<nat>) {
    head == NextOf(list, 0) && forall i: nat :: LinkAt(headers, list, i)
  }

  ghost predicate NoDup(list: seq<nat>) {
    forall i, j :: 0 <= i < j < |list| ==> list[i] != list[j]
  }

  lemma LinkedPop(headers: map<nat, Header>, head: Option<nat>, list: seq<nat>)
    requires Linked(headers, head, list) && list != [] && NoDup(list) && list[0] in headers
    ensures var h := headers[list[0]];
            Linked(headers[list[0] := h.(next := None)], h.next, list[1..]) && NoDup(list[1..])
  {
    assert LinkAt(headers, list, 0);
    var headers' := headers[list[0] := headers[list[0]].(next := None)];
    forall i: nat ensures LinkAt(headers', list[1..], i) { assert LinkAt(headers, list, i + 1); }
  }

  lemma LinkedPush(headers: map<nat, Header>, head: Option<nat>, list: seq<nat>, p: nat, size: nat)
    requires Linked(headers, head, list) && NoDup(list) && p !in list
    ensures Linked(headers[p := Header(head, p, size, size)], Some(p), [p] + list) && NoDup([p] + list)
  {
    var headers' := headers[p := Header(head, p, size, size)];
    forall i: nat ensures LinkAt(headers', [p] + list, i) {
      if i > 0 { assert LinkAt(headers, list, i - 1); }
    }
  }

  // Lists whose blocks a change of `headers` does not touch stay linked.
  lemma LinkedElsewhere(headers: map<nat, Header>, headers': map<nat, Header>, head: Option<nat>, list: seq<nat>)
    requires Linked(headers, head, list)
    requires forall a: nat :: a in list && a in headers ==> a in headers' && headers'[a] == headers[a]
    ensures Linked(headers', head, list)
  {
    forall i: nat ensures LinkAt(headers', list, i) { assert LinkAt(headers, list, i); }
  }

  lemma Aligned64(p: nat, size: nat)
    requires size > 0 && size % 64 == 0 && p % size == 0
    ensures p % 64 == 0
  {
    var a, b := p / size, size / 64;
    assert p == a * size && size == b * 64 && a * (b * 64) == (a * b) * 64;
    DivModUnique(p, a * b, 0, 64);
  }

  lemma Units(p: nat, n: nat, size: nat)
    requires p % 64 == 0 && n % 64 == 0 && size % 64 == 0 && size <= n
    ensures (p + size) % 64 == 0 && (n - size) % 64 == 0
  {
  }

  // The next multiple of 64 is not past any later multiple of 64.
  lemma FirstUnit(base: nat, p: nat)
    requires base <= p && p % 64 == 0
    ensures base + AlignOffset(base, 64) <= p
  {
    AlignOffsetAligns(base, 64);
  }

  lemma AdjustOfQSize(k: ListIndex)
    ensures var size := QSize(k);
            Adjust(Layout(size, size)) == (size, size) && Quick(Layout(size, size)) && ListFor(size) == k
  {
    QSizeIsPow2(k);
    LogOfPow2(k + 6);
    PowerIsItsOwn(k + 6);
  }

  lemma PowerIsItsOwn(j: nat)
    ensures NextPowerOfTwo(Pow2(j)) == Pow2(j)
  {
    var m := NextPowerIs(Pow2(j), 0);
    if m < j { Pow2Mono(m, j - 1); }
    if m > j { Pow2Mono(j, m - 1); }
  }

  // Where a tail block starts, and that the space before it is whole units.
  lemma TailStarts(base: nat, cursor: nat, size: nat, k: ListIndex)
    requires size == QSize(k)
    ensures var p := base + cursor + AlignOffset(base + cursor, size);
            p % size == 0 && p % 64 == 0 && (p + size) % 64 == 0
    ensures (base + cursor) % 64 == 0 ==> AlignOffset(base + cursor, 64) == 0
  {
    AlignOffsetAligns(base + cursor, size);
    Aligned64(base + cursor + AlignOffset(base + cursor, size), size);
    Units(base + cursor + AlignOffset(base + cursor, size), size, size);
  }

  class Allocator {
    const base: nat
    const len: nat
    var cursor: nat
    const qlists: array<Option<nat>>
    var headers: map<nat, Header>
    ghost var blocks: map<nat, nat>
    ghost var live: set<nat>
    ghost var lists: seq<seq<nat>>

    ghost predicate ListOk(k: ListIndex)
      requires qlists.Length == |lists| == NUM_QLISTS
      reads `headers, `blocks, `live, `lists, qlists
    {
      && Linked(headers, qlists[k], lists[k]) && NoDup(lists[k])
      && forall a :: a in lists[k] ==> a in blocks && blocks[a] == QSize(k) && a !in live
    }

    ghost predicate Accounted(a: nat)
      requires |lists| == NUM_QLISTS
      reads `blocks, `live, `lists
    {
      a in blocks && a !in live ==> exists k: ListIndex :: a in lists[k]
    }

    /** The blocks tile memory up to `hi`; each is live or on the list of its size. */
    ghost predicate ValidTo(hi: nat)
      reads `headers, `blocks, `live, `lists, qlists
    {
      && qlists.Length == |lists| == NUM_QLISTS && 0 < base
      && Tiled(blocks, Lo(), hi) && live <= blocks.Keys
      && (forall k: ListIndex :: ListOk(k))
      && (forall a: nat :: Accounted(a))
    }

    // The first unit boundary of the arena; bytes before it are never used.
    ghost function Lo(): nat {
      base + AlignOffset(base, 64)
    }

    ghost function Hi(): nat
      reads `cursor
    {
      if cursor == 0 then Lo() else base + cursor
    }

    ghost predicate Valid()
      reads this, qlists
    {
      ValidTo(Hi()) && cursor <= len && Hi() % 64 == 0
    }

    constructor (base: nat, len: nat)
      requires base > 0
      ensures Valid() && fresh(qlists) && blocks == map[] && live == {} && cursor == 0 && this.base == base
      ensures this.len == len
    {
      this.base, this.len, cursor, headers := base, len, 0, map[];
      qlists := new Option<nat>[NUM_QLISTS](_ => None);
      blocks, live, lists := map[], {}, seq(NUM_QLISTS, _ => []);
      new;
      AlignOffsetAligns(base, 64);
    }

    // Take the first block of list k.
    method PopQuick(k: ListIndex, ghost hi: nat) returns (r: Option<nat>)
      requires ValidTo(hi)
      modifies this`headers, this`live, this`lists, qlists
      ensures ValidTo(hi)
      ensures if old(lists[k]) == [] then r == None && live == old(live) && lists == old(lists)
              else r == Some(old(lists[k])[0]) && live == old(live) + {r.value}
                   && lists == old(lists)[k := old(lists[k])[1..]]
    {
      assert ListOk(k) && LinkAt(headers, lists[k], 0);
      var head := qlists[k];
      if head.None? { return None; }
      var node := head.value;
      ghost var before, list := headers, lists[k];
      LinkedPop(headers, head, list);
      qlists[k] := headers[node].next;
      r := Some(headers[node].addr);
      headers := headers[node := headers[node].(next := None)];
      live, lists := live + {node}, lists[k := list[1..]];
      forall j: ListIndex ensures ListOk(j) {
        assert old(ListOk(j));
        if j != k { LinkedElsewhere(before, headers, qlists[j], lists[j]); }
      }
      forall a: nat ensures Accounted(a) {
        assert old(Accounted(a));
        if a in blocks && a !in live {
          var j: ListIndex :| a in old(lists[j]);
          if j == k { var i :| 0 <= i < |list| && list[i] == a; assert list[1..][i - 1] == a; }
          assert a in lists[j];
        }
      }
    }

    // Put a live block on the list of its size.
    method PushQuick(k: ListIndex, p: nat, ghost hi: nat)
      requires ValidTo(hi) && p in live && p in blocks && blocks[p] == QSize(k)
      modifies this`headers, this`live, this`lists, qlists
      ensures ValidTo(hi) && live == old(live) - {p} && lists == old(lists)[k := [p] + old(lists[k])]
    {
      assert ListOk(k);
      ghost var before, list := headers, lists[k];
      LinkedPush(headers, qlists[k], list, p, QSize(k));
      headers := headers[p := Header(qlists[k], p, QSize(k), QSize(k))];
      qlists[k] := Some(p);
      live, lists := live - {p}, lists[k := [p] + list];
      forall j: ListIndex ensures ListOk(j) {
        assert old(ListOk(j));
        if j != k { LinkedElsewhere(before, headers, qlists[j], lists[j]); }
      }
      forall a: nat ensures Accounted(a) {
        assert old(Accounted(a));
        if a == p {
          assert a in lists[k];
        } else if a in blocks && a !in live {
          var j: ListIndex :| a in old(lists[j]);
          assert a in lists[j];
        }
      }
    }

    method Free(block: nat, layout: Layout, ghost hi: nat) returns (ghost k: ListIndex)
      requires ValidTo(hi) && Quick(layout)
      requires block != 0 ==> block in live && block in blocks && blocks[block] == Adjust(layout).0
      modifies this`headers, this`live, this`lists, qlists
      ensures ValidTo(hi)
      ensures if block == 0 then live == old(live) && lists == old(lists)
              else live == old(live) - {block} && QSize(k) == Adjust(layout).0
                   && lists == old(lists)[k := [block] + old(lists)[k]]
    {
      k := AdjustPicks(layout);
      if block == 0 { return; }
      var (size, align) := Adjust(layout);
      PushQuick(ListFor(size), block, hi);
    }

    // Free the largest aligned piece at the front of a run of units, if any: the new
    // block goes to the front of the list of its size and the rest of the run is left.
    method TryFreePrefix(ptr: nat, n: nat) returns (rest: Option<(nat, nat)>, ghost piece: ListIndex)
      requires ValidTo(ptr) && ptr % 64 == 0 && n % 64 == 0 && 0 < ptr
      modifies this`headers, this`live, this`lists, this`blocks, qlists
      ensures live == old(live)
      ensures n == 0 ==> rest.None? && ValidTo(ptr) && blocks == old(blocks) && lists == old(lists)
      ensures n > 0 ==>
        && LargestFront(ptr, n, piece) && ValidTo(ptr + QSize(piece))
        && ptr !in old(blocks) && blocks == old(blocks)[ptr := QSize(piece)]
        && lists == old(lists)[piece := [ptr] + old(lists)[piece]]
        && rest == (if n == QSize(piece) then None else Some((ptr + QSize(piece), n - QSize(piece))))
      ensures Kept(old(blocks), blocks)
      ensures rest.None? ==> ValidTo(ptr + n)
      ensures rest.Some? ==>
        var (p, m) := rest.value;
        ValidTo(p) && p + m == ptr + n && m < n && p % 64 == 0 && m % 64 == 0
    {
      var k: nat := NUM_QLISTS;
      piece := 0;
      while k > 0
        invariant k <= NUM_QLISTS && (k == 0 ==> n == 0)
        invariant forall j: ListIndex :: k <= j ==> !FitsFront(ptr, n, j)
        invariant ValidTo(ptr) && live == old(live) && blocks == old(blocks) && lists == old(lists)
      {
        k := k - 1;
        var size := QSize(k);
        if n >= size && ptr % size == 0 {
          piece := k;
          LargestIsFirst(ptr, n, k);
          FreePiece(ptr, k);
          Units(ptr, n, size);
          if n - size >= MIN_ALLOC_SIZE { return Some((ptr + size, n - size)), k; }
          return None, k;
        }
      }
      return None, 0;
    }

    // A new block at the end of the tiled part goes straight to its list.
    method FreePiece(ptr: nat, k: ListIndex)
      requires ValidTo(ptr) && ptr % QSize(k) == 0 && 0 < ptr
      modifies this`headers, this`live, this`lists, this`blocks, qlists
      ensures ValidTo(ptr + QSize(k)) && live == old(live) && ptr !in old(blocks)
      ensures blocks == old(blocks)[ptr := QSize(k)]
      ensures lists == old(lists)[k := [ptr] + old(lists)[k]]
    {
      AddLive(ptr, QSize(k));
      AdjustOfQSize(k);
      ghost var j := Free(ptr, Layout(QSize(k), QSize(k)), ptr + QSize(k));
      OwnList(j, k);
    }

    // The tiled part grows by one block, for now live.
    ghost method AddLive(p: nat, size: nat)
      requires ValidTo(p) && size > 0 && p % size == 0
      modifies this`live, this`blocks
      ensures p !in old(live) && p !in old(blocks)
      ensures ValidTo(p + size) && live == old(live) + {p} && blocks == old(blocks)[p := size]
    {
      TileNext(blocks, Lo(), p, size);
      blocks, live := blocks[p := size], live + {p};
      forall j: ListIndex ensures ListOk(j) { assert old(ListOk(j)); }
      forall a: nat ensures Accounted(a) { assert old(Accounted(a)); }
    }

    /** Every byte of the prefix from its first unit boundary on ends up in a
        quick-list block. */
    method FreePrefix(first: nat, len: nat)
      requires 0 < first && (first + len) % 64 == 0 && ValidTo(first + AlignOffset(first, 64))
      modifies this`headers, this`live, this`lists, this`blocks, qlists
      ensures ValidTo(first + len) && live == old(live)
      ensures Kept(old(blocks), blocks)
    {
      var offset := AlignOffset(first, 64);
      AlignOffsetAligns(first, 64);
      FirstUnit(first, first + len);
      var ptr: nat, n: nat := first + offset, len - offset;
      while true
        invariant ValidTo(ptr) && live == old(live) && 0 < ptr && ptr % 64 == 0 && n % 64 == 0 && ptr + n == first + len
        invariant Kept(old(blocks), blocks)
        decreases n
      {
        var rest, _ := TryFreePrefix(ptr, n);
        if rest.None? { break; }
        ptr, n := rest.value.0, rest.value.1;
      }
    }

    // Bump allocation: the space before the block, and the block.
    method TryAlloc(align: nat, size: nat) returns (r: Option<(nat, nat, nat)>)
      requires align > 0
      modifies this`cursor
      ensures var adjust := AlignOffset(base + old(cursor), align);
              if old(cursor) + adjust + size <= len
              then r == Some((base + old(cursor), adjust, base + old(cursor) + adjust))
                   && cursor == old(cursor) + adjust + size
              else r == None && cursor == old(cursor)
    {
      var first := base + cursor;
      var adjust := AlignOffset(first, align);
      var next := cursor + adjust + size;
      if next > len { return None; }
      cursor := next;
      return Some((first, adjust, first + adjust));
    }

    method AllocTail(size: nat, align: nat, ghost k: ListIndex) returns (r: Option<nat>)
      requires Valid() && size == align == QSize(k)
      modifies this, qlists
      ensures Valid()
      ensures r.None? <==> old(cursor) + AlignOffset(base + old(cursor), size) + size > len
      ensures r.None? ==> live == old(live) && blocks == old(blocks) && lists == old(lists) && cursor == old(cursor)
      ensures r.Some? ==> Handed(old(blocks), blocks, old(live), live, r.value, size)
    {
      // The two arguments are the other way round in the callee; they are equal.
      var got := TryAlloc(size, align);
      if got.None? { return None; }
      var (first, adjust, p) := got.value;
      TailStarts(base, old(cursor), size, k);
      FreePrefix(first, adjust);
      AddLive(p, size);
      r := Some(p);
    }

    /** A quick allocation: the first block of its list if there is one, else a new
        block from the tail, else null with nothing changed. */
    method Malloc(layout: Layout) returns (p: nat, ghost k: ListIndex)
      requires Valid() && Quick(layout)
      modifies this, qlists
      ensures Valid()
      ensures p != 0 ==> Handed(old(blocks), blocks, old(live), live, p, Adjust(layout).0)
      ensures p == 0 ==> live == old(live) && blocks == old(blocks) && lists == old(lists) && cursor == old(cursor)
      ensures QSize(k) == Adjust(layout).0 && layout.size <= QSize(k) && layout.align <= QSize(k)
      ensures old(lists)[k] != [] ==>
        p == old(lists)[k][0] && lists == old(lists)[k := old(lists)[k][1..]] && blocks == old(blocks)
      ensures p == 0
              <==> old(lists)[k] == [] && old(cursor) + AlignOffset(base + old(cursor), QSize(k)) + QSize(k) > len
    {
      k := AdjustPicks(layout);
      var (size, align) := Adjust(layout);
      assert ListOk(k);
      var quick := PopQuick(ListFor(size), Hi());
      if quick.Some? {
        assert Inside(blocks, Lo(), Hi(), quick.value);
        return quick.value, k;
      }
      var tail := AllocTail(size, align, k);
      return if tail.Some? then tail.value else 0, k;
    }

    /** Freeing a block and allocating with the same layout gives it back, and everything
        is as it was. */
    method Recycle(block: nat, layout: Layout) returns (p: nat)
      requires Valid() && Quick(layout) && block != 0
      requires block in live && block in blocks && blocks[block] == Adjust(layout).0
      modifies this, qlists
      ensures Valid() && p == block && live == old(live) && blocks == old(blocks) && lists == old(lists)
    {
      ghost var k := Free(block, layout, Hi());
      ghost var j;
      p, j := Malloc(layout);
      OwnList(j, k);
    }

    /** Once the tail has moved, a byte handed out of the arena is in some block
        exactly when it is at or after the first unit boundary: nothing else is
        lost, and nothing at all if and only if the arena starts on one. */
    lemma NothingLostIff()
      requires Valid() && cursor > 0
      ensures forall x: nat :: base <= x < base + cursor ==> (Held(x) <==> Lo() <= x)
      ensures (forall x: nat :: base <= x < base + cursor ==> Held(x)) <==> base % 64 == 0
    {
      AlignOffsetAligns(base, 64);
      forall x: nat | base <= x < base + cursor ensures Held(x) <==> Lo() <= x {
        OneBlockPerByte(blocks, Lo(), Hi(), x);
      }
      assert base % 64 != 0 ==> !Held(base) by { OneBlockPerByte(blocks, Lo(), Hi(), base); }
    }

    ghost predicate Held(x: nat)
      reads `blocks
    {
      exists a: nat :: Holds(blocks, a, x)
    }

    /** Whatever the owner of a live block writes into it, the lists stay intact. */
    method OwnerWrites(p: nat, contents: map<nat, Header>)
      requires Valid() && p in live
      requires forall a: nat :: !(p <= a < p + blocks[p]) ==>
               (a in contents <==> a in headers) && (a in headers ==> contents[a] == headers[a])
      modifies this`headers
      ensures Valid() && headers == contents
    {
      ghost var before := headers;
      headers := contents;
      forall k: ListIndex ensures ListOk(k) {
        assert old(ListOk(k));
        forall a: nat | a in lists[k] ensures !(p <= a < p + blocks[p]) {
          assert Apart(blocks, p, a) && Apart(blocks, a, p) && Inside(blocks, Lo(), Hi(), a);
        }
        LinkedElsewhere(before, headers, qlists[k], lists[k]);
      }
      forall a: nat ensures Accounted(a) { assert old(Accounted(a)); }
    }
  }

  /** Block `p` was not live and is now; no block moved, changed size or vanished. */
  ghost predicate Handed(blocks: map<nat, nat>, blocks': map<nat, nat>, live: set<nat>, live': set<nat>, p: nat,
                         size: nat) {
    && p != 0 && p !in live && live' == live + {p} && p in blocks' && blocks'[p] == size && size > 0 && p % size == 0
    && blocks.Keys <= blocks'.Keys && forall a :: a in blocks ==> blocks'[a] == blocks[a]
  }

  /** An arena that starts 36 bytes past a unit boundary: after the first
      allocation its first byte is in no block and never will be. */
  method OddArenaLosesByte() returns (a: Allocator, p: nat)
    ensures fresh(a) && a.Valid() && a.base == 100 && p in a.live && a.base < a.base + a.cursor && !a.Held(100)
  {
    a := new Allocator(100, 200);
    AdjustOfQSize(0);
    ghost var k;
    p, k := a.Malloc(Layout(64, 64));
    assert Inside(a.blocks, a.Lo(), a.Hi(), p);
    a.NothingLostIff();
  }
}
