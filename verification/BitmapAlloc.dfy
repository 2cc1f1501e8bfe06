/** The bitmap page allocator (port/src/bitmapalloc.rs) and the rounding it uses
    (core/src/addr.rs). */
module BitmapAlloc {
  import opened Prelude
  import opened Arith

  // ----- Rounding -----

  predicate IsPow2(step: nat) {
    step == 1 || (step >= 2 && step % 2 == 0 && IsPow2(step / 2))
  }

  /** Clearing the low bits of `n`, one bit at a time: the greatest multiple of
      the step that is not above `n`. */
  function RoundDown2(n: nat, step: nat): (r: nat)
    requires IsPow2(step)
    ensures r % step == 0 && r <= n < r + step
    decreases step
  {
    if step == 1 then n
    else
      var half := RoundDown2(n / 2, step / 2);
      DoubleMultiple(half, step / 2);
      2 * half
  }

  lemma DoubleMultiple(h: nat, s: nat)
    requires s > 0 && h % s == 0
    ensures (2 * h) % (2 * s) == 0
  {
    DivModUnique(2 * h, h / s, 0, 2 * s);
  }

  /** The least multiple of the step that is not below `n`. */
  function RoundUp2(n: nat, step: nat): (r: nat)
    requires IsPow2(step)
    ensures r % step == 0 && r < n + step && n <= r
  {
    RoundDown2(n + step - 1, step)
  }

  // ----- Bits of a byte -----

  type Bit = i: nat | i < 8

  function Mask(i: Bit): bv8 {
    match i case 0 => 1 case 1 => 2 case 2 => 4 case 3 => 8 case 4 => 16 case 5 => 32 case 6 => 64 case 7 => 128
  }

  predicate IsSet(b: bv8, i: Bit) {
    b & Mask(i) != 0
  }

  function SetBit(b: bv8, i: Bit, on: bool): (r: bv8)
    ensures forall j: Bit :: IsSet(r, j) <==> if j == i then on else IsSet(b, j)
  {
    if on then b | Mask(i) else b & !Mask(i)
  }

  lemma NotFull(b: bv8)
    ensures b != 0xff <==> exists i: Bit :: !IsSet(b, i)
  {
    if b != 0xff {
      assert !(IsSet(b, 0) && IsSet(b, 1) && IsSet(b, 2) && IsSet(b, 3)
               && IsSet(b, 4) && IsSet(b, 5) && IsSet(b, 6) && IsSet(b, 7));
    }
  }

  /** The lowest clear bit. */
  function TrailingOnes(b: bv8, i: Bit := 0): (r: Bit)
    requires b != 0xff && forall j: Bit :: j < i ==> IsSet(b, j)
    ensures !IsSet(b, r) && forall j: Bit :: j < r ==> IsSet(b, j)
    decreases 8 - i
  {
    NotFull(b);
    if !IsSet(b, i) || i == 7 then i else TrailingOnes(b, i + 1)
  }

  // ----- Addresses and indices -----

  datatype ByteIndices = ByteIndices(bitmap: nat, byte: nat)

  // The bitmap, the byte within it and the bit within that, for an address.
  function Split(pa: nat, perBitmap: nat, perByte: nat, page: nat): (nat, nat, nat)
    requires perBitmap > 0 && perByte > 0 && page > 0
  {
    var offset := pa % perBitmap;
    var byte := offset / perByte;
    DivBelow(offset, perByte);
    (pa / perBitmap, byte, (offset - byte * perByte) / page)
  }

  /** The shape of an allocator: how many bitmaps, bytes in each, bytes of
      memory behind each bit. */
  datatype Shape = Shape(num: nat, size: nat, page: nat) {
    ghost predicate Valid() { num > 0 && size > 0 && page > 0 }

    function PerByte(): nat { 8 * page }
    function PerBitmap(): nat { size * PerByte() }
    function MaxBytes(): nat { num * PerBitmap() }

    lemma Positive()
      requires Valid()
      ensures PerByte() > 0 && PerBitmap() > 0 && MaxBytes() > 0
    {
      MulMono(1, size, PerByte());
      MulMono(1, num, PerBitmap());
    }

    function Bytes(): nat { num * size }
    function Pages(): nat { Bytes() * 8 }

    function IndicesOf(pa: nat): (nat, nat, nat)
      requires Valid()
    {
      Positive();
      Split(pa, PerBitmap(), PerByte(), page)
    }

    function AddressOf(bitmap: nat, byte: nat, bit: nat): nat {
      bitmap * PerBitmap() + byte * PerByte() + bit * page
    }

    // Bytes counted through all bitmaps.
    function Linear(i: ByteIndices): nat { i.bitmap * size + i.byte }

    /** Page q is bit q % 8 of byte q / 8, counted through all bitmaps. */
    lemma AddressOfPage(bitmap: nat, byte: nat, bit: nat)
      ensures AddressOf(bitmap, byte, bit) == (Linear(ByteIndices(bitmap, byte)) * 8 + bit) * page
    {
      assert bitmap * PerBitmap() == (bitmap * size) * PerByte();
      assert (bitmap * size + byte) * PerByte() == (bitmap * size) * PerByte() + byte * PerByte();
      assert ((bitmap * size + byte) * 8) * page == (bitmap * size + byte) * PerByte();
      assert ((bitmap * size + byte) * 8 + bit) * page == ((bitmap * size + byte) * 8) * page + bit * page;
    }

    /** The two conversions undo each other. */
    lemma IndicesRoundTrip(bitmap: nat, byte: nat, bit: nat)
      requires Valid() && byte < size && bit < 8
      ensures IndicesOf(AddressOf(bitmap, byte, bit)) == (bitmap, byte, bit)
    {
      var pa := AddressOf(bitmap, byte, bit);
      MulMono(bit + 1, 8, page);
      MulStep(bit, page);
      MulMono(byte + 1, size, PerByte());
      MulStep(byte, PerByte());
      DivModUnique(pa, bitmap, byte * PerByte() + bit * page, PerBitmap());
      DivModUnique(byte * PerByte() + bit * page, byte, bit * page, PerByte());
      DivModUnique(bit * page, bit, 0, page);
    }

    lemma PageRoundTrip(q: nat)
      requires Valid()
      ensures IndicesOf(q * page) == (q / 8 / size, q / 8 % size, q % 8)
    {
      var p := q / 8;
      assert Linear(ByteIndices(p / size, p % size)) == p by { assert p == (p / size) * size + p % size; }
      assert AddressOf(p / size, p % size, q % 8) == q * page by { AddressOfPage(p / size, p % size, q % 8); }
      IndicesRoundTrip(p / size, p % size, q % 8);
    }

    lemma LinearBound(bitmap: nat, byte: nat)
      requires Valid() && byte < size
      ensures bitmap < num <==> Linear(ByteIndices(bitmap, byte)) < Bytes()
      ensures var p := Linear(ByteIndices(bitmap, byte)); p / size == bitmap && p % size == byte
    {
      DivModUnique(bitmap * size + byte, bitmap, byte, size);
      if bitmap < num {
        MulMono(bitmap + 1, num, size);
        MulStep(bitmap, size);
      } else {
        MulMono(num, bitmap, size);
      }
    }
  }

  // Byte positions from `lo` up to `hi`.
  function Positions(lo: nat, hi: nat): (s: seq<nat>)
    requires lo <= hi
    ensures |s| == hi - lo && forall i :: 0 <= i < |s| ==> s[i] == lo + i
  {
    seq(hi - lo, i requires 0 <= i => lo + i)
  }

  /** The scan starting at byte `first`: up to `limit`, then from 0 back to `first`. */
  function ScanOrder(first: nat, limit: nat): (s: seq<nat>)
    requires first <= limit
  {
    Positions(first, limit) + Positions(0, first)
  }

  // The byte indices of `order` are the positions `at`, in that order.
  ghost predicate Visits(shape: Shape, order: seq<ByteIndices>, at: seq<nat>) {
    |order| == |at| && forall i :: 0 <= i < |order| ==> VisitsAt(shape, order[i], at[i])
  }

  ghost predicate VisitsAt(shape: Shape, i: ByteIndices, p: nat) {
    i.bitmap < shape.num && i.byte < shape.size && shape.Linear(i) == p
  }

  // How many bytes were visited after the turn.
  ghost function Again(wrapped: bool, k: nat): nat {
    if wrapped then k else 0
  }

  lemma VisitsNext(shape: Shape, order: seq<ByteIndices>, first: nat, limit: nat, k: nat, wrapped: bool, i: ByteIndices)
    requires first <= limit && (!wrapped ==> limit == k)
    requires Visits(shape, order, Positions(first, limit) + Positions(0, Again(wrapped, k))) && VisitsAt(shape, i, k)
    ensures Visits(shape, order + [i],
                   Positions(first, if wrapped then limit else k + 1) + Positions(0, Again(wrapped, k + 1)))
  {
    assert Positions(first, if wrapped then limit else k + 1) + Positions(0, Again(wrapped, k + 1))
        == Positions(first, limit) + Positions(0, Again(wrapped, k)) + [k];
  }

  lemma ScanVisitsOnce(first: nat, limit: nat, i: nat, j: nat)
    requires first <= limit && i < j < |ScanOrder(first, limit)|
    ensures ScanOrder(first, limit)[i] != ScanOrder(first, limit)[j]
  {
  }

  lemma ScanCovers(first: nat, limit: nat, p: nat)
    requires first <= limit && p < limit
    ensures p in ScanOrder(first, limit)
  {
    var s := ScanOrder(first, limit);
    assert if p >= first then s[p - first] == p else s[limit - first + p] == p;
  }

  // How far behind byte `from` the wrapping scan comes to byte `b`.
  function After(bytes: nat, from: nat, b: nat): nat
    requires from <= bytes
  {
    if b >= from then b - from else b + (bytes - from)
  }

  /** Of the pages not in `before`, page `q` is the first one of the scan from address
      `next`: in the byte the scan comes to first, and the lowest there. */
  ghost predicate FirstFree(before: set<nat>, shape: Shape, next: nat, q: nat)
    requires shape.Valid() && next / shape.page / 8 <= shape.Bytes()
  {
    forall p: nat :: p in AllPages(shape) - before ==> NotBehind(shape, next / shape.page / 8, q, p)
  }

  predicate NotBehind(shape: Shape, from: nat, q: nat, p: nat)
    requires from <= shape.Bytes()
  {
    || After(shape.Bytes(), from, q / 8) < After(shape.Bytes(), from, p / 8)
    || (q / 8 == p / 8 && q <= p)
  }

  lemma ScanIsOrdered(bytes: nat, first: nat, limit: nat, i: nat, j: nat)
    requires first <= limit <= bytes && i < j < |ScanOrder(first, limit)|
    ensures After(bytes, first, ScanOrder(first, limit)[i]) < After(bytes, first, ScanOrder(first, limit)[j])
  {
  }

  // The pages a range touches.
  function PagesFrom(range: PhysRange, page: nat): nat
    requires page > 0
  {
    range.start / page
  }

  function PagesTo(range: PhysRange, page: nat): nat
    requires page > 0
  {
    (range.end + page - 1) / page
  }

  lemma RangePages(range: PhysRange, page: nat)
    requires IsPow2(page)
    ensures RoundDown2(range.start, page) == PagesFrom(range, page) * page
    ensures RoundUp2(range.end, page) == PagesTo(range, page) * page
  {
    FloorIs(range.start, RoundDown2(range.start, page), page);
    FloorIs(range.end + page - 1, RoundUp2(range.end, page), page);
  }

  lemma FloorIs(n: nat, r: nat, page: nat)
    requires page > 0 && r % page == 0 && r <= n < r + page
    ensures r == n / page * page
  {
    var k := r / page;
    assert r == k * page + r % page;
    DivModUnique(n, k, n - r, page);
  }

  lemma NotBelow(q: nat, hi: nat, page: nat)
    requires page > 0 && q * page >= hi * page
    ensures q >= hi
  {
    if q < hi {
      MulMono(q + 1, hi, page);
      MulStep(q, page);
    }
  }

  lemma Below(q: nat, hi: nat, page: nat)
    requires page > 0 && q * page < hi * page
    ensures q < hi
  {
    if hi <= q { MulMono(hi, q, page); }
  }

  /** The state of the scan's iterator. */
  datatype Scan = Scan(bitmap: nat, byte: nat, currPa: nat, passedFirst: bool)

  // Back to the first byte when the bitmaps or the memory run out.
  function Turn(shape: Shape, end: nat, s: Scan): Scan {
    if s.bitmap >= shape.num || s.currPa >= end then Scan(0, 0, 0, s.passedFirst) else s
  }

  // On to the next byte; the address moves only with the bitmap, by one page.
  function Advance(shape: Shape, s: Scan): Scan {
    if s.byte + 1 >= shape.size then Scan(s.bitmap + 1, 0, s.currPa + shape.page, true)
    else Scan(s.bitmap, s.byte + 1, s.currPa, true)
  }

  // The scan stands at byte `k`, and its address is not above that byte's memory.
  ghost predicate Placed(shape: Shape, s: Scan, k: nat) {
    s.byte < shape.size && k == s.bitmap * shape.size + s.byte && s.currPa <= k * shape.PerByte()
  }

  // The address the scan has for byte `k` on its way up: a page more for every bitmap.
  ghost function Tracked(shape: Shape, start: ByteIndices, bitmap: nat): int
    requires shape.Valid() && start.byte < shape.size
  {
    shape.AddressOf(start.bitmap, start.byte, 0) + (bitmap - start.bitmap) * shape.page
  }

  /** The scan turns back at `limit`: the bitmaps run out there, or its address reaches
      the end, and has not at the byte before if there is memory at all. */
  ghost predicate TurnsAt(shape: Shape, end: nat, start: ByteIndices, limit: nat)
    requires shape.Valid() && start.byte < shape.size
  {
    && (limit == shape.Bytes() || end <= Tracked(shape, start, limit / shape.size))
    && NotYet(shape, end, start, limit)
  }

  ghost predicate NotYet(shape: Shape, end: nat, start: ByteIndices, limit: nat)
    requires shape.Valid() && start.byte < shape.size
  {
    shape.Linear(start) < limit && end > 0 ==> Tracked(shape, start, (limit - 1) / shape.size) < end
  }

  // From byte `limit` on there is no byte, or none for memory below the end.
  ghost predicate Exhausted(shape: Shape, end: nat, limit: nat) {
    limit == shape.Bytes() || end <= limit * shape.PerByte()
  }

  // Where a scan may start.
  ghost predicate Startable(shape: Shape, end: nat, start: ByteIndices) {
    && shape.Valid() && start.bitmap < shape.num && start.byte < shape.size
    && (shape.Linear(start) * shape.PerByte() < end || shape.Linear(start) == 0)
  }

  /** The scan before its next byte: at `k`, having passed `limit` first if it
      has turned. */
  ghost predicate ScanInv(shape: Shape, end: nat, start: ByteIndices, s: Scan, k: nat, wrapped: bool, limit: nat)
    requires Startable(shape, end, start)
  {
    var first := shape.Linear(start);
    && (if wrapped then TurnsAt(shape, end, start, limit)
        else s.currPa == Tracked(shape, start, s.bitmap) && NotYet(shape, end, start, limit))
    && Placed(shape, s, k) && first <= limit <= shape.Bytes()
    && (s.passedFirst <==> wrapped || first < k)
    && (if wrapped then 0 < k <= first && Exhausted(shape, end, limit) else limit == k)
  }

  lemma ScanBegins(shape: Shape, end: nat, start: ByteIndices)
    requires Startable(shape, end, start)
    ensures var s := Scan(start.bitmap, start.byte, shape.AddressOf(start.bitmap, start.byte, 0), false);
            ScanInv(shape, end, start, s, shape.Linear(start), false, shape.Linear(start))
  {
    shape.AddressOfPage(start.bitmap, start.byte, 0);
    shape.LinearBound(start.bitmap, start.byte);
    assert shape.Linear(start) * 8 * shape.page == shape.Linear(start) * shape.PerByte();
  }

  lemma AdvancePlaced(shape: Shape, s: Scan, k: nat)
    requires shape.Valid() && Placed(shape, s, k)
    ensures Placed(shape, Advance(shape, s), k + 1)
  {
    MulStep(s.bitmap, shape.size);
    MulStep(k, shape.PerByte());
  }

  // A turn happens only when what is left holds no byte for memory below the end.
  lemma TurnPlaced(shape: Shape, end: nat, s: Scan, k: nat)
    requires shape.Valid() && Placed(shape, s, k) && k <= shape.Bytes()
    ensures var t := Turn(shape, end, s);
            if t == s then s.bitmap < shape.num && k < shape.Bytes()
            else t.bitmap == t.byte == t.currPa == 0 && Exhausted(shape, end, k)
  {
    shape.LinearBound(s.bitmap, s.byte);
    shape.Positive();
    MulMono(1, shape.num, shape.size);
  }

  // The scan never turns at its start, nor again before it is back there.
  lemma NoTurn(shape: Shape, end: nat, start: ByteIndices, s: Scan, k: nat)
    requires Startable(shape, end, start) && Placed(shape, s, k) && k <= shape.Linear(start)
    ensures Turn(shape, end, s) == s
  {
    shape.LinearBound(start.bitmap, start.byte);
    shape.LinearBound(s.bitmap, s.byte);
    MulMono(k, shape.Linear(start), shape.PerByte());
    if k == 0 && s.bitmap > 0 { MulMono(1, s.bitmap, shape.size); }
  }

  // On the way up the scan's address is the tracked one.
  lemma StaysTracked(shape: Shape, end: nat, start: ByteIndices, s: Scan, k: nat)
    requires Startable(shape, end, start) && Placed(shape, s, k) && k <= shape.Bytes()
    requires s.currPa == Tracked(shape, start, s.bitmap) && NotYet(shape, end, start, k)
    ensures var t := Turn(shape, end, s); var u := Advance(shape, t);
            if t == s then u.currPa == Tracked(shape, start, u.bitmap) && NotYet(shape, end, start, k + 1)
            else TurnsAt(shape, end, start, k)
  {
    DivModUnique(k, s.bitmap, s.byte, shape.size);
    MulStep(s.bitmap - start.bitmap, shape.page);
    if s.bitmap >= shape.num { MulMono(shape.num, s.bitmap, shape.size); }
  }

  lemma ScanIterates(shape: Shape, end: nat, start: ByteIndices, s: Scan, k: nat, wrapped: bool, limit: nat)
    requires Startable(shape, end, start) && ScanInv(shape, end, start, s, k, wrapped, limit)
    ensures var t := Turn(shape, end, s);
            var (w, k') := if t != s then (true, 0) else (wrapped, k);
            && (t != s ==> !wrapped)
            && if t.passedFirst && t.bitmap == start.bitmap && t.byte == start.byte
               then w && k' == shape.Linear(start) && Exhausted(shape, end, limit) && TurnsAt(shape, end, start, limit)
               else VisitsAt(shape, ByteIndices(t.bitmap, t.byte), k') && k' < shape.Bytes()
                    && ScanInv(shape, end, start, Advance(shape, t), k' + 1, w, if w then limit else k' + 1)
  {
    var first := shape.Linear(start);
    if !wrapped { StaysTracked(shape, end, start, s, k); }
    if wrapped || !s.passedFirst { NoTurn(shape, end, start, s, k); }
    TurnPlaced(shape, end, s, k);
    var t := Turn(shape, end, s);
    var k' := if t != s then 0 else k;
    assert Placed(shape, t, k');
    AdvancePlaced(shape, t, k');
    shape.LinearBound(t.bitmap, t.byte);
    shape.LinearBound(start.bitmap, start.byte);
    MulMono(1, shape.num, shape.size);
  }

  class BitmapPageAlloc {
    const shape: Shape
    const bytes: array2<bv8>
    var end: nat
    var next: nat

    ghost predicate Shaped()
    {
      shape.Valid() && bytes.Length0 == shape.num && bytes.Length1 == shape.size
    }

    ghost function ByteAt(p: nat): bv8
      requires Shaped() && p < shape.Bytes()
      reads bytes
    {
      InRange(shape, p);
      bytes[p / shape.size, p % shape.size]
    }

    ghost predicate Used(q: nat)
      requires Shaped() && q < shape.Pages()
      reads bytes
    {
      IsSet(ByteAt(q / 8), q % 8)
    }

    /** The pages marked allocated. */
    ghost function Allocated(): set<nat>
      requires Shaped()
      reads bytes
    {
      set q: nat | q < shape.Pages() && Used(q)
    }

    /** Everything past the end is allocated, and the scan starts below it. */
    ghost predicate Valid()
      reads this, bytes
    {
      && Shaped()
      && next % shape.page == 0 && (next < end || next == 0) && next < shape.MaxBytes()
      && PastEndAllocated(Allocated(), shape, end)
    }

    constructor (shape: Shape)
      requires shape.Valid()
      ensures Valid() && fresh(bytes) && this.shape == shape && end == shape.MaxBytes() && next == 0
      ensures Allocated() == AllPages(shape)
    {
      this.shape := shape;
      bytes := new bv8[shape.num, shape.size]((i, j) => 0xff);
      end, next := shape.MaxBytes(), 0;
      new;
      shape.Positive();
      DivModUnique(0, 0, 0, shape.page);
      AllSet();
    }

    lemma AllSet()
      requires Shaped() && forall i, j :: 0 <= i < shape.num && 0 <= j < shape.size ==> bytes[i, j] == 0xff
      ensures Allocated() == AllPages(shape)
    {
      AllOnes();
      forall q: nat | IsPage(shape, q) ensures Used(q) {
        InRange(shape, q / 8);
      }
    }

    method PutByte(i: ByteIndices, b: bv8)
      requires Shaped() && i.bitmap < shape.num && i.byte < shape.size
      modifies bytes
      ensures forall p: nat :: p < shape.Bytes() ==> ByteAt(p) == if p == shape.Linear(i) then b else old(ByteAt(p))
    {
      bytes[i.bitmap, i.byte] := b;
      forall p: nat | p < shape.Bytes() ensures ByteAt(p) == if p == shape.Linear(i) then b else old(ByteAt(p)) {
        InRange(shape, p);
        shape.LinearBound(i.bitmap, i.byte);
        assert p == (p / shape.size) * shape.size + p % shape.size;
      }
    }

    // Set or clear one bit.
    method PutBit(i: ByteIndices, bit: Bit, on: bool)
      requires Shaped() && i.bitmap < shape.num && i.byte < shape.size
      modifies bytes
      ensures var q := shape.Linear(i) * 8 + bit;
              Allocated() == if on then old(Allocated()) + {q} else old(Allocated()) - {q}
    {
      shape.LinearBound(i.bitmap, i.byte);
      ghost var q := shape.Linear(i) * 8 + bit;
      assert bytes[i.bitmap, i.byte] == ByteAt(shape.Linear(i));
      PutByte(i, SetBit(bytes[i.bitmap, i.byte], bit, on));
      forall p: nat | p < shape.Pages() ensures Used(p) <==> if p == q then on else old(Used(p)) {
        assert p == p / 8 * 8 + p % 8;
      }
    }

    // The bit of page `q`, in a bitmap there is or past the last.
    method Locate(pa: nat, ghost q: nat) returns (bitmap: nat, byte: nat, bit: Bit)
      requires Shaped() && pa == q * shape.page
      ensures byte < shape.size && q == shape.Linear(ByteIndices(bitmap, byte)) * 8 + bit
      ensures bitmap < shape.num <==> q < shape.Pages()
      ensures Cleared(shape, q) == shape.Linear(ByteIndices(bitmap, 0)) * 8 + bit
    {
      shape.PageRoundTrip(q);
      PageParts(shape, q);
      var (a, b, c) := shape.IndicesOf(pa);
      bitmap, byte, bit := a, b, c;
    }

    // Set or clear the bit of page `q`, if there is one.
    method SetPage(pa: nat, on: bool, ghost q: nat) returns (ok: bool)
      requires Shaped() && pa == q * shape.page
      modifies bytes
      ensures ok <==> q < shape.Pages()
      ensures Allocated() == if !ok then old(Allocated())
                             else if on then old(Allocated()) + {q} else old(Allocated()) - {q}
    {
      var bitmap, byte, bit := Locate(pa, q);
      if bitmap >= bytes.Length0 { return false; }
      PutBit(ByteIndices(bitmap, byte), bit, on);
      return true;
    }

    /** Marks exactly the pages the rounded range touches, as far as there are
        bits, and fails exactly when it is told to check the end and the range
        passes it, or when it touches a page without a bit. */
    method MarkRange(range: PhysRange, on: bool, checkEnd: bool) returns (r: Result<(), PageAllocError>)
      requires Shaped() && IsPow2(shape.page)
      modifies bytes
      ensures r == if checkEnd && range.end > end then Err(OutOfBounds) else MarkResult(range, shape)
      ensures Allocated() == if checkEnd && range.end > end then old(Allocated())
                             else Marked(old(Allocated()), shape, PagesFrom(range, shape.page),
                                         PagesTo(range, shape.page), on)
    {
      if checkEnd && range.end > end { return Err(OutOfBounds); }
      RangePages(range, shape.page);
      r := MarkPages(RoundDown2(range.start, shape.page), RoundUp2(range.end, shape.page), on,
                     PagesFrom(range, shape.page), PagesTo(range, shape.page));
    }

    // The loop of `mark_range` over the addresses of pages `lo` up to `hi`.
    method MarkPages(first: nat, last: nat, on: bool, ghost lo: nat, ghost hi: nat)
      returns (r: Result<(), PageAllocError>)
      requires Shaped() && first == lo * shape.page && last == hi * shape.page
      modifies bytes
      ensures r == if lo < hi && shape.Pages() < hi then Err(OutOfBounds) else Ok(())
      ensures Allocated() == Marked(old(Allocated()), shape, lo, hi, on)
    {
      ghost var before := Allocated();
      var pa := first;
      ghost var q: nat := lo;
      MarkedNone(before, shape, lo, lo, on);
      while pa < last
        invariant pa == q * shape.page && lo <= q && (lo < q ==> q <= hi && q <= shape.Pages())
        invariant Allocated() == Marked(before, shape, lo, q, on)
        decreases hi - q
      {
        Below(q, hi, shape.page);
        var ok := SetPage(pa, on, q);
        if !ok {
          MarkedBeyond(before, shape, lo, q, hi, on);
          return Err(OutOfBounds);
        }
        MarkedNext(before, shape, lo, q, on);
        MulStep(q, shape.page);
        q := q + 1;
        pa := pa + shape.page;
      }
      NotBelow(q, hi, shape.page);
      MarkedNone(before, shape, lo, hi, on);
      return Ok(());
    }

    method MarkFree(range: PhysRange) returns (r: Result<(), PageAllocError>)
      requires Shaped() && IsPow2(shape.page) && PastEndAllocated(Allocated(), shape, end)
      modifies bytes
      ensures PastEndAllocated(Allocated(), shape, end)
      ensures r.Ok? ==>
        Allocated() == Marked(old(Allocated()), shape, PagesFrom(range, shape.page), PagesTo(range, shape.page), false)
      ensures range.start < range.end ==> (r.Ok? <==> Fits(shape, end, range.end))
    {
      ghost var before := Allocated();
      if range.start < range.end { TouchesPage(range, shape.page); }
      r := MarkRange(range, false, true);
      if range.end <= end { FreeBelowEnd(before, shape, range, end); }
    }

    /** Free what lies between the used ranges: whatever the ranges, every page a gap
        touches, as far as it ends inside available memory.  With sorted, page-aligned
        used ranges those are the pages outside every used range from the page that
        holds the start of available memory on.  It succeeds exactly when
        every gap to be freed ends below the old end and where there are bits. */
    method FreeUnusedRanges(available: PhysRange, used: seq<PhysRange>) returns (r: Result<(), PageAllocError>)
      requires Valid() && IsPow2(shape.page)
      modifies this`end, this`next, bytes
      ensures Valid()
      ensures r.Ok? ==> end == available.end && next == 0
      ensures r.Ok? ==> Allocated() == AfterSweep(old(Allocated()), shape, available, used)
      ensures r.Ok? && Tidy(used, shape.page) ==> Allocated() == AfterFreeing(old(Allocated()), shape, available, used)
      ensures r.Err? ==> end == old(end) && next == old(next)
      ensures r.Ok?
              <==> GapsFit(shape, old(end), available.start, used) && LastGapFits(shape, old(end), available, used)
    {
      ghost var before := Allocated();
      var nextStart;
      r, nextStart := FreeGaps(available.start, used);
      if r.Err? { return; }
      if nextStart < available.end {
        r := MarkFree(PhysRange(nextStart, available.end));
        if r.Err? { return; }
      }
      SweptLast(before, shape, available, used, nextStart);
      Seal(available.end);
      r := Ok(());
      if Tidy(used, shape.page) { TidyAfter(before, shape, available, used); }
    }

    // The loop of `free_unused_ranges`: free what lies before each used range.
    method FreeGaps(start: nat, used: seq<PhysRange>) returns (r: Result<(), PageAllocError>, nextStart: nat)
      requires Shaped() && IsPow2(shape.page) && PastEndAllocated(Allocated(), shape, end)
      modifies bytes
      ensures PastEndAllocated(Allocated(), shape, end)
      ensures r.Ok? ==> nextStart == Reach(start, used) && Allocated() == NotSwept(old(Allocated()), shape, start, used)
      ensures r.Ok? <==> GapsFit(shape, end, start, used)
    {
      ghost var before := Allocated();
      r, nextStart := Ok(()), start;
      var i := 0;
      NoneSwept(before, shape, start);
      while i < |used|
        invariant i <= |used| && r.Ok? && PastEndAllocated(Allocated(), shape, end)
        invariant nextStart == Reach(start, used[..i]) && Allocated() == NotSwept(before, shape, start, used[..i])
        invariant forall k: nat :: k < i ==> GapFits(shape, end, start, used, k)
      {
        var range := used[i];
        assert used[..i + 1][..i] == used[..i];
        SweptNext(before, shape, start, used, i);
        if nextStart < range.start {
          r := MarkFree(PhysRange(nextStart, range.start));
          if r.Err? { assert !GapFits(shape, end, start, used, i); return; }
        }
        if nextStart < range.end { nextStart := range.end; }
        i := i + 1;
      }
      assert used[..i] == used;
    }

    // Take `newEnd` as the end, mark everything past it and scan from the start again.
    method Seal(newEnd: nat)
      requires Shaped() && IsPow2(shape.page)
      modifies this`end, this`next, bytes
      ensures Valid() && end == newEnd && next == 0
      ensures Allocated() == Marked(old(Allocated()), shape, newEnd / shape.page, shape.Pages(), true)
    {
      ghost var before := Allocated();
      end := newEnd;
      var r := MarkRange(PhysRange(end, shape.MaxBytes()), true, false);
      TailPages(shape, newEnd);
      TailAllocated(before, shape, newEnd);
      next := 0;
      shape.Positive();
      DivModUnique(0, 0, 0, shape.page);
    }

    /** The bytes the wrapping scan visits: from `start` on until the bitmaps or
        the memory below the end run out, then from the first byte up to `start`. */
    method IndicesFrom(start: ByteIndices) returns (order: seq<ByteIndices>, ghost limit: nat)
      requires Shaped() && Startable(shape, end, start)
      ensures shape.Linear(start) <= limit <= shape.Bytes() && Exhausted(shape, end, limit)
      ensures TurnsAt(shape, end, start, limit)
      ensures Visits(shape, order, ScanOrder(shape.Linear(start), limit))
    {
      ghost var first := shape.Linear(start);
      ScanBegins(shape, end, start);
      var s := Scan(start.bitmap, start.byte, shape.AddressOf(start.bitmap, start.byte, 0), false);
      order := [];
      ghost var k: nat, wrapped := first, false;
      limit := first;
      while true
        invariant ScanInv(shape, end, start, s, k, wrapped, limit)
        invariant Visits(shape, order, Positions(first, limit) + Positions(0, Again(wrapped, k)))
        decreases !wrapped, shape.Bytes() - k
      {
        ScanIterates(shape, end, start, s, k, wrapped, limit);
        if Turn(shape, end, s) != s { wrapped, k := true, 0; }
        s := Turn(shape, end, s);
        if s.passedFirst && s.bitmap == start.bitmap && s.byte == start.byte { break; }
        VisitsNext(shape, order, first, limit, k, wrapped, ByteIndices(s.bitmap, s.byte));
        order := order + [ByteIndices(s.bitmap, s.byte)];
        s := Advance(shape, s);
        k := k + 1;
        if !wrapped { limit := k; }
      }
    }

    /** Succeeds exactly when some page is free; then a free page becomes
        allocated, nothing else changes, and the next scan starts there. */
    method Allocate() returns (r: Result<nat, PageAllocError>, ghost q: nat)
      requires Valid()
      modifies this`next, bytes
      ensures Valid()
      ensures r.Ok? <==> old(Allocated()) != AllPages(shape)
      ensures r.Ok? ==> q in AllPages(shape) - old(Allocated()) && Allocated() == old(Allocated()) + {q}
      ensures r.Ok? ==> r.value == q * shape.page && r.value < end && next == r.value
      ensures old(next) / shape.page / 8 <= shape.Bytes()
      ensures r.Ok? ==> FirstFree(old(Allocated()), shape, old(next), q)
      ensures r.Err? ==> r.error == OutOfSpace && Allocated() == old(Allocated()) && next == old(next)
    {
      ScanStart(shape, next, end);
      q := 0;
      var found := FindFree();
      if found.None? { return Err(OutOfSpace), 0; }
      var pa;
      pa, q := TakeFrom(found.value);
      r := Ok(pa);
    }

    // The search of `allocate`: the byte the scan finds, with the first free page in it.
    method FindFree() returns (found: Option<ByteIndices>)
      requires Valid() && next / shape.page / 8 <= shape.Bytes()
      ensures found.None? <==> Allocated() == AllPages(shape)
      ensures found.Some? ==>
        && found.value.bitmap < shape.num && found.value.byte < shape.size && ByteOf(found.value) != 0xff
        && FirstFree(Allocated(), shape, next, shape.Linear(found.value) * 8 + TrailingOnes(ByteOf(found.value)))
    {
      var (bitmap, byte, _) := shape.IndicesOf(next);
      ScanStart(shape, next, end);
      ghost var first := shape.Linear(ByteIndices(bitmap, byte));
      var order; ghost var limit;
      order, limit := IndicesFrom(ByteIndices(bitmap, byte));
      ghost var at;
      found, at := FindByte(order);
      if found.None? {
        NothingFree(order, first, limit);
      } else {
        NothingSooner(order, first, limit, at, shape.Linear(found.value) * 8 + TrailingOnes(ByteOf(found.value)));
        ClearBit(found.value, TrailingOnes(ByteOf(found.value)));
      }
    }

    // Whether the page at these indices is allocated.
    method IsAllocated(i: ByteIndices, bit: Bit) returns (taken: bool)
      requires Shaped() && i.bitmap < shape.num && i.byte < shape.size
      ensures taken <==> shape.Linear(i) * 8 + bit in Allocated()
    {
      shape.LinearBound(i.bitmap, i.byte);
      ghost var q := shape.Linear(i) * 8 + bit;
      assert q / 8 == shape.Linear(i) && q % 8 == bit;
      assert ByteAt(shape.Linear(i)) == bytes[i.bitmap, i.byte];
      taken := IsSet(bytes[i.bitmap, i.byte], bit);
      assert q in Allocated() <==> Used(q);
    }

    /** Returns page q at `pa`, or says why not; None is a panic.  The bit cleared is
        that of the same position in the first byte of the bitmap: the page itself if
        and only if it is one of the first eight of its bitmap.  The allocator stays
        sound if and only if the page lies below the end. */
    method Deallocate(pa: nat) returns (r: Option<Result<(), PageAllocError>>, ghost q: nat)
      requires Valid()
      modifies this`next, bytes
      ensures Shaped() && (pa % shape.page == 0 ==> pa == q * shape.page)
      ensures r == if pa > end then Some(Err(OutOfBounds))
                   else if pa % shape.page != 0 || shape.Pages() <= q then None
                   else if q !in old(Allocated()) then Some(Err(NotAllocated))
                   else Some(Ok(()))
      ensures r != Some(Ok(())) ==> Valid() && Allocated() == old(Allocated()) && next == old(next)
      ensures r == Some(Ok(())) ==> next == pa && Allocated() == old(Allocated()) - {Cleared(shape, q)}
      ensures r == Some(Ok(())) ==> (Allocated() == old(Allocated()) - {q} <==> q / 8 % shape.size == 0)
      ensures r == Some(Ok(())) ==> (Valid() <==> pa < end)
    {
      q := pa / shape.page;
      DivBelow(pa, shape.page);
      if pa > end { return Some(Err(OutOfBounds)), q; }
      if pa % shape.page != 0 { return None, q; }
      r := ReturnPage(pa, q);
    }

    method ReturnPage(pa: nat, ghost q: nat) returns (r: Option<Result<(), PageAllocError>>)
      requires Valid() && pa == q * shape.page
      modifies this`next, bytes
      ensures Shaped()
      ensures r == if shape.Pages() <= q then None
                   else if q !in old(Allocated()) then Some(Err(NotAllocated))
                   else Some(Ok(()))
      ensures r != Some(Ok(())) ==> Valid() && Allocated() == old(Allocated()) && next == old(next)
      ensures r == Some(Ok(())) ==> next == pa && Allocated() == old(Allocated()) - {Cleared(shape, q)}
      ensures r == Some(Ok(())) ==> (Allocated() == old(Allocated()) - {q} <==> q / 8 % shape.size == 0)
      ensures r == Some(Ok(())) && pa <= end ==> (Valid() <==> pa < end)
    {
      ghost var before := Allocated();
      var bitmap, byte, bit := Locate(pa, q);
      if bitmap >= bytes.Length0 { return None; }
      var taken := IsAllocated(ByteIndices(bitmap, byte), bit);
      if !taken { return Some(Err(NotAllocated)); }
      PutBit(ByteIndices(bitmap, 0), bit, false);
      next := pa;
      ClearedKeeps(before, shape, end, q);
      return Some(Ok(()));
    }

    /** A run of allocations hands out pages that were free, each once, and stops
        short only when none is left. */
    method AllocateRun(n: nat) returns (pas: seq<nat>, ghost pages: seq<nat>)
      requires Valid()
      modifies this`next, bytes
      ensures Valid() && |pas| == |pages| <= n && (|pas| < n ==> Allocated() == AllPages(shape))
      ensures forall i :: 0 <= i < |pas| ==>
              pas[i] == pages[i] * shape.page && pages[i] in AllPages(shape) - old(Allocated())
      ensures forall i, j :: 0 <= i < j < |pages| ==> pages[i] != pages[j]
      ensures Allocated() == old(Allocated()) + (set q | q in pages)
    {
      pas, pages := [], [];
      while |pas| < n
        invariant Valid() && |pas| == |pages| <= n
        invariant forall i :: 0 <= i < |pas| ==>
                  pas[i] == pages[i] * shape.page && pages[i] in AllPages(shape) - old(Allocated())
        invariant forall i, j :: 0 <= i < j < |pages| ==> pages[i] != pages[j]
        invariant Allocated() == old(Allocated()) + (set q | q in pages)
        decreases n - |pas|
      {
        var r; ghost var q;
        r, q := Allocate();
        if r.Err? { return; }
        pas, pages := pas + [r.value], pages + [q];
      }
    }

    // Allocate the lowest free page of a byte.
    method TakeFrom(i: ByteIndices) returns (pa: nat, ghost q: nat)
      requires Valid() && i.bitmap < shape.num && i.byte < shape.size && bytes[i.bitmap, i.byte] != 0xff
      modifies this`next, bytes
      ensures Valid() && q in AllPages(shape) - old(Allocated()) && Allocated() == old(Allocated()) + {q}
      ensures pa == q * shape.page && pa < end && next == pa
      ensures q == shape.Linear(i) * 8 + TrailingOnes(old(ByteOf(i)))
    {
      var bit := TrailingOnes(bytes[i.bitmap, i.byte]);
      q := shape.Linear(i) * 8 + bit;
      ClearBit(i, bit);
      StillPastEnd(Allocated(), shape, end, q);
      PageBelowMax(shape, q);
      shape.AddressOfPage(i.bitmap, i.byte, bit);
      PutBit(i, bit, true);
      pa := shape.AddressOf(i.bitmap, i.byte, bit);
      next := pa;
    }

    // A clear bit is a free page.
    lemma ClearBit(i: ByteIndices, bit: Bit)
      requires Shaped() && i.bitmap < shape.num && i.byte < shape.size && !IsSet(bytes[i.bitmap, i.byte], bit)
      ensures shape.Linear(i) * 8 + bit in AllPages(shape) - Allocated()
    {
      shape.LinearBound(i.bitmap, i.byte);
      var q := shape.Linear(i) * 8 + bit;
      DivModUnique(q, shape.Linear(i), bit, 8);
      assert IsPage(shape, q) && !Used(q);
    }

    // The first byte of the scan with a clear bit.
    method FindByte(order: seq<ByteIndices>) returns (r: Option<ByteIndices>, ghost at: nat)
      requires Shaped() && forall i :: 0 <= i < |order| ==> order[i].bitmap < shape.num && order[i].byte < shape.size
      ensures r.Some? ==> at < |order| && r.value == order[at] && bytes[r.value.bitmap, r.value.byte] != 0xff
      ensures r.Some? ==> forall i :: 0 <= i < at ==> bytes[order[i].bitmap, order[i].byte] == 0xff
      ensures r.None? ==> forall i :: 0 <= i < |order| ==> bytes[order[i].bitmap, order[i].byte] == 0xff
    {
      var i := 0;
      while i < |order|
        invariant i <= |order| && forall j :: 0 <= j < i ==> bytes[order[j].bitmap, order[j].byte] == 0xff
      {
        if bytes[order[i].bitmap, order[i].byte] != 0xff { return Some(order[i]), i; }
        i := i + 1;
      }
      return None, 0;
    }

    ghost function ByteOf(i: ByteIndices): bv8
      requires Shaped() && i.bitmap < shape.num && i.byte < shape.size
      reads bytes
    {
      bytes[i.bitmap, i.byte]
    }

    // The scan comes to the byte at `at` before any other with a free page, and `q` is the
    // lowest free page there.
    lemma NothingSooner(order: seq<ByteIndices>, first: nat, limit: nat, at: nat, q: nat)
      requires Valid() && first <= limit <= shape.Bytes() && Exhausted(shape, end, limit)
      requires Visits(shape, order, ScanOrder(first, limit)) && at < |order|
      requires forall i :: 0 <= i < |order| ==> order[i].bitmap < shape.num && order[i].byte < shape.size
      requires forall i :: 0 <= i < at ==> bytes[order[i].bitmap, order[i].byte] == 0xff
      requires ByteOf(order[at]) != 0xff && q == shape.Linear(order[at]) * 8 + TrailingOnes(ByteOf(order[at]))
      requires first == next / shape.page / 8
      ensures FirstFree(Allocated(), shape, next, q)
    {
      forall p: nat | p in AllPages(shape) - Allocated() ensures NotBehind(shape, first, q, p) {
        FreeIsLater(order, first, limit, at, q, p);
      }
    }

    lemma FreeIsLater(order: seq<ByteIndices>, first: nat, limit: nat, at: nat, q: nat, p: nat)
      requires Valid() && first <= limit <= shape.Bytes() && Exhausted(shape, end, limit)
      requires Visits(shape, order, ScanOrder(first, limit)) && at < |order|
      requires forall i :: 0 <= i < |order| ==> order[i].bitmap < shape.num && order[i].byte < shape.size
      requires forall i :: 0 <= i < at ==> bytes[order[i].bitmap, order[i].byte] == 0xff
      requires ByteOf(order[at]) != 0xff && q == shape.Linear(order[at]) * 8 + TrailingOnes(ByteOf(order[at]))
      requires p in AllPages(shape) - Allocated()
      ensures NotBehind(shape, first, q, p)
    {
      var j := FreeIsVisited(order, first, limit, p);
      assert VisitsAt(shape, order[at], ScanOrder(first, limit)[at]);
      AllOnes();
      if at < j { ScanIsOrdered(shape.Bytes(), first, limit, at, j); }
    }

    // Where the scan comes to the byte of a free page.
    lemma FreeIsVisited(order: seq<ByteIndices>, first: nat, limit: nat, p: nat) returns (j: nat)
      requires Valid() && first <= limit <= shape.Bytes() && Exhausted(shape, end, limit)
      requires Visits(shape, order, ScanOrder(first, limit)) && p in AllPages(shape) - Allocated()
      ensures j < |order| && ScanOrder(first, limit)[j] == p / 8 && VisitsAt(shape, order[j], p / 8)
      ensures !IsSet(ByteOf(order[j]), p % 8)
    {
      assert IsPage(shape, p) && !Used(p);
      ScanReaches(shape, p, end, limit);
      ScanCovers(first, limit, p / 8);
      var i :| 0 <= i < |ScanOrder(first, limit)| && ScanOrder(first, limit)[i] == p / 8;
      j := i;
      assert VisitsAt(shape, order[j], p / 8);
      shape.LinearBound(order[j].bitmap, order[j].byte);
      assert ByteAt(p / 8) == ByteOf(order[j]);
    }

    lemma FullByte(order: seq<ByteIndices>, first: nat, limit: nat, p: nat)
      requires Shaped() && first <= limit <= shape.Bytes() && p < limit
      requires Visits(shape, order, ScanOrder(first, limit))
      requires forall i :: 0 <= i < |order| ==> order[i].bitmap < shape.num && order[i].byte < shape.size
      requires forall i :: 0 <= i < |order| ==> bytes[order[i].bitmap, order[i].byte] == 0xff
      ensures ByteAt(p) == 0xff
    {
      ScanCovers(first, limit, p);
      var i :| 0 <= i < |order| && ScanOrder(first, limit)[i] == p;
      assert VisitsAt(shape, order[i], p);
      shape.LinearBound(order[i].bitmap, order[i].byte);
    }

    lemma NothingFree(order: seq<ByteIndices>, first: nat, limit: nat)
      requires Valid() && first <= limit <= shape.Bytes() && Exhausted(shape, end, limit)
      requires Visits(shape, order, ScanOrder(first, limit))
      requires forall i :: 0 <= i < |order| ==> order[i].bitmap < shape.num && order[i].byte < shape.size
      requires forall i :: 0 <= i < |order| ==> bytes[order[i].bitmap, order[i].byte] == 0xff
      ensures Allocated() == AllPages(shape)
    {
      forall q: nat | q in AllPages(shape) ensures q in Allocated() {
        if q * shape.page < end {
          ScanReaches(shape, q, end, limit);
          FullByte(order, first, limit, q / 8);
          AllOnes();
          assert Used(q);
        }
      }
      forall q: nat | q in Allocated() ensures q in AllPages(shape) { assert IsPage(shape, q); }
    }
  }

  lemma ScanStart(shape: Shape, next: nat, end: nat)
    requires shape.Valid() && next % shape.page == 0 && (next < end || next == 0) && next < shape.MaxBytes()
    ensures next / shape.page / 8 < shape.Bytes()
    ensures var (bitmap, byte, _) := shape.IndicesOf(next);
            && Startable(shape, end, ByteIndices(bitmap, byte))
            && shape.Linear(ByteIndices(bitmap, byte)) == next / shape.page / 8
  {
    var q := next / shape.page;
    assert next == q * shape.page + next % shape.page;
    shape.PageRoundTrip(q);
    PageCount(shape, q);
    StartPage(shape, q, end);
  }

  lemma StartPage(shape: Shape, q: nat, end: nat)
    requires shape.Valid() && q < shape.Pages() && (q * shape.page < end || q == 0)
    ensures Startable(shape, end, ByteIndices(q / 8 / shape.size, q / 8 % shape.size)) && q / 8 < shape.Bytes()
    ensures shape.Linear(ByteIndices(q / 8 / shape.size, q / 8 % shape.size)) == q / 8
  {
    var p := q / 8;
    assert p == (p / shape.size) * shape.size + p % shape.size;
    InRange(shape, p);
    MulMono(p * 8, q, shape.page);
    assert p * 8 * shape.page == p * shape.PerByte();
  }

  lemma StillPastEnd(before: set<nat>, shape: Shape, end: nat, q: nat)
    requires PastEndAllocated(before, shape, end)
    ensures PastEndAllocated(before + {q}, shape, end)
  {
  }

  // Page q is one of the pages exactly when its address is below the maximum.
  lemma PageCount(shape: Shape, q: nat)
    requires shape.Valid()
    ensures q < shape.Pages() <==> q * shape.page < shape.MaxBytes()
  {
    assert shape.MaxBytes() == shape.Pages() * shape.page by {
      assert shape.num * (shape.size * (8 * shape.page)) == (shape.num * shape.size) * (8 * shape.page);
    }
    if q < shape.Pages() {
      MulMono(q + 1, shape.Pages(), shape.page);
      MulStep(q, shape.page);
    } else {
      MulMono(shape.Pages(), q, shape.page);
    }
  }

  lemma PageBelowMax(shape: Shape, q: nat)
    requires shape.Valid() && q < shape.Pages()
    ensures q * shape.page < shape.MaxBytes() && q * shape.page % shape.page == 0
  {
    PageCount(shape, q);
    DivModUnique(q * shape.page, q, 0, shape.page);
  }

  // A page below the end has its byte within the scan.
  lemma ScanReaches(shape: Shape, q: nat, end: nat, limit: nat)
    requires shape.Valid() && q < shape.Pages() && q * shape.page < end
    requires Exhausted(shape, end, limit)
    ensures q / 8 < limit
  {
    var p := q / 8;
    MulMono(p * 8, q, shape.page);
    assert p * 8 * shape.page == p * shape.PerByte();
    if limit <= p { MulMono(limit, p, shape.PerByte()); }
  }

  predicate IsPage(shape: Shape, q: nat) {
    q < shape.Pages()
  }

  ghost function AllPages(shape: Shape): set<nat> {
    set q: nat | q < shape.Pages() && IsPage(shape, q)
  }

  // The pages allocated after marking pages `lo` up to `hi`.
  ghost function Marked(before: set<nat>, shape: Shape, lo: nat, hi: nat, on: bool): set<nat> {
    set q: nat | q < shape.Pages() && if lo <= q < hi then on else q in before
  }

  lemma MarkedNone(before: set<nat>, shape: Shape, lo: nat, hi: nat, on: bool)
    requires before <= AllPages(shape)
    ensures hi <= lo ==> Marked(before, shape, lo, hi, on) == before
  {
  }

  lemma MarkedNext(before: set<nat>, shape: Shape, lo: nat, q: nat, on: bool)
    requires lo <= q < shape.Pages()
    ensures Marked(before, shape, lo, q + 1, on) ==
            if on then Marked(before, shape, lo, q, on) + {q} else Marked(before, shape, lo, q, on) - {q}
  {
  }

  lemma MarkedBeyond(before: set<nat>, shape: Shape, lo: nat, q: nat, hi: nat, on: bool)
    requires lo <= q <= hi && shape.Pages() <= q
    ensures Marked(before, shape, lo, hi, on) == Marked(before, shape, lo, q, on)
  {
  }

  function MarkResult(range: PhysRange, shape: Shape): Result<(), PageAllocError>
    requires shape.page > 0
  {
    var lo, hi := PagesFrom(range, shape.page), PagesTo(range, shape.page);
    if lo < hi && shape.Pages() < hi then Err(OutOfBounds) else Ok(())
  }

  ghost predicate PastEndAllocated(taken: set<nat>, shape: Shape, end: nat) {
    forall q: nat :: IsPage(shape, q) && q !in taken ==> q * shape.page < end
  }

  lemma FreeBelowEnd(before: set<nat>, shape: Shape, range: PhysRange, end: nat)
    requires shape.page > 0 && PastEndAllocated(before, shape, end) && range.end <= end
    ensures PastEndAllocated(Marked(before, shape, PagesFrom(range, shape.page), PagesTo(range, shape.page), false),
                             shape, end)
  {
    var lo, hi := PagesFrom(range, shape.page), PagesTo(range, shape.page);
    var after := Marked(before, shape, lo, hi, false);
    forall q: nat | IsPage(shape, q) && q !in after ensures q * shape.page < end {
      if lo <= q < hi {
        MulMono(q + 1, hi, shape.page);
        MulStep(q, shape.page);
        DivBelow(range.end + shape.page - 1, shape.page);
      } else {
        assert IsPage(shape, q) && q !in before;
      }
    }
  }

  lemma TailPages(shape: Shape, end: nat)
    requires shape.Valid()
    ensures PagesTo(PhysRange(end, shape.MaxBytes()), shape.page) == shape.Pages()
  {
    assert shape.MaxBytes() == shape.Pages() * shape.page by {
      assert shape.num * (shape.size * (8 * shape.page)) == (shape.num * shape.size) * (8 * shape.page);
    }
    DivModUnique(shape.MaxBytes() + shape.page - 1, shape.Pages(), shape.page - 1, shape.page);
  }

  lemma TailAllocated(freed: set<nat>, shape: Shape, end: nat)
    requires shape.page > 0
    ensures PastEndAllocated(Marked(freed, shape, end / shape.page, shape.Pages(), true), shape, end)
  {
    var after := Marked(freed, shape, end / shape.page, shape.Pages(), true);
    forall q: nat | IsPage(shape, q) && q !in after ensures q * shape.page < end {
      MulMono(q + 1, end / shape.page, shape.page);
      MulStep(q, shape.page);
      DivBelow(end, shape.page);
    }
  }

  // ----- The gaps between used ranges -----

  ghost predicate Aligned(range: PhysRange, page: nat)
    requires page > 0
  {
    range.start % page == 0 && range.end % page == 0
  }

  /** Page-aligned and sorted by start; ranges may overlap, nest or be empty. */
  ghost predicate Tidy(used: seq<PhysRange>, page: nat)
    requires page > 0
  {
    && (forall i :: 0 <= i < |used| ==> Aligned(used[i], page))
    && (forall i, j :: 0 <= i < j < |used| ==> used[i].start <= used[j].start)
  }

  ghost predicate Outside(used: seq<PhysRange>, x: nat) {
    forall i :: 0 <= i < |used| ==> !(used[i].start <= x < used[i].end)
  }

  // Page q starts below `top`, in none of the ranges and not before the page of `start`.
  ghost predicate Gap(page: nat, start: nat, used: seq<PhysRange>, top: nat, q: nat)
    requires page > 0
  {
    start / page <= q && q * page < top && Outside(used, q * page)
  }

  /** The greatest end so far, or the start of available memory. */
  ghost predicate NextStart(start: nat, used: seq<PhysRange>, n: nat) {
    && start <= n
    && (forall i :: 0 <= i < |used| ==> used[i].end <= n)
    && (n == start || exists i :: 0 <= i < |used| && used[i].end == n)
  }

  // The same, computed.
  function Reach(start: nat, used: seq<PhysRange>): nat {
    if used == [] then start
    else
      var n, last := Reach(start, used[..|used| - 1]), used[|used| - 1];
      if n < last.end then last.end else n
  }

  // Memory up to `x` lies below the end and has bits.
  predicate Fits(shape: Shape, end: nat, x: nat)
    requires shape.page > 0
  {
    x <= end && (x + shape.page - 1) / shape.page <= shape.Pages()
  }

  predicate GapFits(shape: Shape, end: nat, start: nat, used: seq<PhysRange>, i: nat)
    requires shape.page > 0 && i < |used|
  {
    Reach(start, used[..i]) < used[i].start ==> Fits(shape, end, used[i].start)
  }

  /** Every gap before a used range can be freed. */
  ghost predicate GapsFit(shape: Shape, end: nat, start: nat, used: seq<PhysRange>)
    requires shape.page > 0
  {
    forall i: nat :: i < |used| ==> GapFits(shape, end, start, used, i)
  }

  predicate LastGapFits(shape: Shape, end: nat, available: PhysRange, used: seq<PhysRange>)
    requires shape.page > 0
  {
    Reach(available.start, used) < available.end ==> Fits(shape, end, available.end)
  }

  lemma TouchesPage(range: PhysRange, page: nat)
    requires page > 0 && range.start < range.end
    ensures PagesFrom(range, page) < PagesTo(range, page)
  {
    ModShift(range.start, 1, page);
    DivMono(range.start + page, range.end + page - 1, page);
  }

  lemma NextStartKeeps(start: nat, used: seq<PhysRange>, i: nat, n: nat)
    requires i < |used| && NextStart(start, used[..i], n)
    ensures NextStart(start, used[..i + 1], if n < used[i].end then used[i].end else n)
  {
    assert used[..i + 1][i] == used[i];
    if n != start && n >= used[i].end {
      var k :| 0 <= k < i && used[..i][k].end == n;
      assert used[..i + 1][k].end == n;
    }
  }

  // A page at or after the page of `n` is past every used range so far, and the
  // other way round for pages that start after all of them start.
  lemma PastAll(page: nat, start: nat, used: seq<PhysRange>, n: nat, q: nat)
    requires page > 0 && NextStart(start, used, n) && Tidy(used, page)
    ensures n / page <= q ==> start / page <= q && Outside(used, q * page)
    ensures (forall i :: 0 <= i < |used| ==> used[i].start <= q * page) && Outside(used, q * page)
              && start / page <= q ==>
              n / page <= q
  {
    if n / page <= q { AllBefore(page, start, used, n, q); }
    if n != start && Outside(used, q * page) && forall i :: 0 <= i < |used| ==> used[i].start <= q * page {
      var k :| 0 <= k < |used| && used[k].end == n;
      assert n <= q * page;
      DivMono(n, q * page, page);
      DivModUnique(q * page, q, 0, page);
    }
  }

  lemma AllBefore(page: nat, start: nat, used: seq<PhysRange>, n: nat, q: nat)
    requires page > 0 && NextStart(start, used, n) && Tidy(used, page) && n / page <= q
    ensures start / page <= q && Outside(used, q * page)
  {
    DivMono(start, n, page);
    forall i | 0 <= i < |used| ensures used[i].end <= q * page {
      assert Aligned(used[i], page);
      EndBefore(used[i].end, n, q, page);
    }
  }

  lemma EndBefore(end: nat, n: nat, q: nat, page: nat)
    requires page > 0 && end % page == 0 && end <= n && n / page <= q
    ensures end <= q * page
  {
    DivMono(end, n, page);
    MulMono(end / page, q, page);
  }

  lemma DivMono(a: nat, b: nat, n: nat)
    requires n > 0 && a <= b
    ensures a / n <= b / n
  {
    DivBelow(a, n);
    DivBelow(b, n);
    if b / n < a / n { MulMono(b / n + 1, a / n, n); MulStep(b / n, n); }
  }

  // The page just below an aligned bound.
  lemma BelowAligned(q: nat, s: nat, page: nat)
    requires page > 0 && s % page == 0
    ensures (s + page - 1) / page == s / page
    ensures q < s / page <==> q * page < s
    ensures q < s / page ==> (q + 1) * page <= s
  {
    var k := s / page;
    assert s == k * page + s % page;
    DivModUnique(s + page - 1, k, page - 1, page);
    MulStep(q, page);
    if q < k { MulMono(q + 1, k, page); } else { MulMono(k, q, page); }
  }

  // Page q is among those freed from `n` up to `s`, if any are.
  ghost predicate Marks(page: nat, n: nat, s: nat, q: nat)
    requires page > 0
  {
    n < s && PagesFrom(PhysRange(n, s), page) <= q < PagesTo(PhysRange(n, s), page)
  }

  // Page q is freed with the gap before used range `i`.
  ghost predicate GapFrees(page: nat, start: nat, used: seq<PhysRange>, i: nat, q: nat)
    requires page > 0 && i < |used|
  {
    Marks(page, Reach(start, used[..i]), used[i].start, q)
  }

  // Page q is freed with the gap before one of the used ranges.
  ghost predicate Swept(page: nat, start: nat, used: seq<PhysRange>, q: nat)
    requires page > 0
  {
    used != [] && (Swept(page, start, used[..|used| - 1], q) || GapFrees(page, start, used, |used| - 1, q))
  }

  lemma {:induction false} SweptIs(page: nat, start: nat, used: seq<PhysRange>, q: nat)
    requires page > 0
    ensures Swept(page, start, used, q) <==> exists i: nat :: i < |used| && GapFrees(page, start, used, i, q)
    decreases |used|
  {
    if used != [] {
      var init := used[..|used| - 1];
      SweptIs(page, start, init, q);
      forall i: nat | i < |init| ensures GapFrees(page, start, init, i, q) <==> GapFrees(page, start, used, i, q) {
        assert init[..i] == used[..i];
      }
    }
  }

  ghost function NotSwept(before: set<nat>, shape: Shape, start: nat, used: seq<PhysRange>): set<nat>
    requires shape.page > 0
  {
    set q: nat | q in before && !Swept(shape.page, start, used, q)
  }

  /** The pages allocated after freeing every gap. */
  ghost function AfterSweep(before: set<nat>, shape: Shape, available: PhysRange, used: seq<PhysRange>): set<nat>
    requires shape.page > 0
  {
    set q: nat | q < shape.Pages() &&
      (available.end / shape.page <= q
       || (q in before && !Swept(shape.page, available.start, used, q)
           && !Marks(shape.page, Reach(available.start, used), available.end, q)))
  }

  lemma NoneSwept(before: set<nat>, shape: Shape, start: nat)
    requires shape.page > 0
    ensures NotSwept(before, shape, start, []) == before
  {
  }

  lemma SweptNext(before: set<nat>, shape: Shape, start: nat, used: seq<PhysRange>, i: nat)
    requires shape.page > 0 && before <= AllPages(shape) && i < |used|
    ensures var now, n, s := NotSwept(before, shape, start, used[..i]), Reach(start, used[..i]), used[i].start;
            NotSwept(before, shape, start, used[..i + 1]) ==
            if n < s
            then Marked(now, shape, PagesFrom(PhysRange(n, s), shape.page), PagesTo(PhysRange(n, s), shape.page), false)
            else now
  {
    forall q: nat ensures Swept(shape.page, start, used[..i + 1], q)
                          <==> Swept(shape.page, start, used[..i], q)
                               || Marks(shape.page, Reach(start, used[..i]), used[i].start, q)
    {
      assert used[..i + 1][..i] == used[..i];
    }
  }

  lemma SweptLast(before: set<nat>, shape: Shape, available: PhysRange, used: seq<PhysRange>, n: nat)
    requires shape.page > 0 && before <= AllPages(shape) && n == Reach(available.start, used)
    ensures var now, range := NotSwept(before, shape, available.start, used), PhysRange(n, available.end);
            var freed := if n < available.end
                         then Marked(now, shape, PagesFrom(range, shape.page), PagesTo(range, shape.page), false)
                         else now;
            Marked(freed, shape, available.end / shape.page, shape.Pages(), true)
            == AfterSweep(before, shape, available, used)
  {
  }

  lemma GapNext(page: nat, start: nat, used: seq<PhysRange>, i: nat, n: nat, top: nat, q: nat)
    requires page > 0 && i < |used| && Tidy(used, page) && NextStart(start, used[..i], n)
    requires top == if i == 0 then 0 else used[i - 1].start
    ensures Gap(page, start, used[..i + 1], used[i].start, q)
            <==> Gap(page, start, used[..i], top, q) || Marks(page, n, used[i].start, q)
  {
    var s := used[i].start;
    assert used[..i + 1][i] == used[i] && forall k :: 0 <= k < i ==> used[..i + 1][k] == used[..i][k];
    assert Aligned(used[i], page);
    BelowAligned(q, s, page);
    PastAll(page, start, used[..i], n, q);
    if n / page <= q {
      MulMono(n / page, q, page);
      MulStep(q, page);
      DivBelow(n, page);
    }
  }

  /** Page q lies wholly below the end of available memory. */
  ghost predicate EndsInside(page: nat, end: nat, q: nat) {
    (q + 1) * page <= end
  }

  /** The pages allocated after freeing around `used`. */
  ghost function AfterFreeing(before: set<nat>, shape: Shape, available: PhysRange, used: seq<PhysRange>): set<nat>
    requires shape.page > 0
  {
    set q: nat | q in AllPages(shape) &&
      !(EndsInside(shape.page, available.end, q)
        && (q !in before || (available.start / shape.page <= q && Outside(used, q * shape.page))))
  }

  lemma GapLast(page: nat, available: PhysRange, used: seq<PhysRange>, n: nat, top: nat, q: nat)
    requires page > 0 && Tidy(used, page) && NextStart(available.start, used, n)
    requires top == if used == [] then 0 else used[|used| - 1].start
    ensures q < available.end / page <==> EndsInside(page, available.end, q)
    ensures EndsInside(page, available.end, q) ==>
      (available.start / page <= q && Outside(used, q * page)
       <==> Gap(page, available.start, used, top, q)
            || Marks(page, n, available.end, q))
  {
    MulStep(q, page);
    DivBelow(available.end, page);
    if q < available.end / page {
      MulMono(q + 1, available.end / page, page);
    } else {
      MulMono(available.end / page, q, page);
      MulStep(available.end / page, page);
    }
    DivMono(available.end, available.end + page - 1, page);
    PastAll(page, available.start, used, n, q);
    if n / page <= q {
      MulMono(n / page, q, page);
      DivBelow(n, page);
    }
  }

  // With tidy ranges a page is freed with some gap exactly when it lies in one.
  lemma {:induction false} SweptIsGap(page: nat, start: nat, used: seq<PhysRange>, q: nat)
    requires page > 0 && Tidy(used, page)
    ensures Swept(page, start, used, q) <==> Gap(page, start, used, if used == [] then 0 else used[|used| - 1].start, q)
    decreases |used|
  {
    if used == [] {
      MulMono(0, q, page);
    } else {
      var k := |used| - 1;
      var init := used[..k];
      forall i | 0 <= i < |init| ensures Aligned(init[i], page) { assert Aligned(used[i], page); }
      SweptIsGap(page, start, init, q);
      ReachIs(start, init);
      GapNext(page, start, used, k, Reach(start, init), if k == 0 then 0 else used[k - 1].start, q);
      assert used[..k + 1] == used;
    }
  }

  lemma TidyAfter(before: set<nat>, shape: Shape, available: PhysRange, used: seq<PhysRange>)
    requires shape.page > 0 && before <= AllPages(shape) && Tidy(used, shape.page)
    ensures AfterSweep(before, shape, available, used) == AfterFreeing(before, shape, available, used)
  {
    forall q: nat
      ensures q in AfterSweep(before, shape, available, used) <==> q in AfterFreeing(before, shape, available, used)
    {
      SweptIsGap(shape.page, available.start, used, q);
      ReachIs(available.start, used);
      GapLast(shape.page, available, used, Reach(available.start, used),
              if used == [] then 0 else used[|used| - 1].start, q);
    }
  }

  /** From the all-allocated state: a page ends up free. */
  ghost predicate FreedAtLast(shape: Shape, available: PhysRange, used: seq<PhysRange>, q: nat)
    requires shape.page > 0
  {
    IsPage(shape, q) && q !in AfterSweep(AllPages(shape), shape, available, used)
  }

  // A page that starts in a gap between the used ranges and ends inside available memory.
  ghost predicate InGap(shape: Shape, available: PhysRange, used: seq<PhysRange>, q: nat)
    requires shape.page > 0
  {
    q in AllPages(shape) && q !in AfterFreeing(AllPages(shape), shape, available, used)
  }

  /** A page inside available memory and outside every used range. */
  ghost predicate Whole(shape: Shape, available: PhysRange, used: seq<PhysRange>, q: nat) {
    && q in AllPages(shape) && available.start <= q * shape.page && EndsInside(shape.page, available.end, q)
    && Outside(used, q * shape.page)
  }

  // The page that the start of available memory cuts stays allocated, or there is none.
  ghost predicate CutKept(shape: Shape, available: PhysRange, used: seq<PhysRange>)
    requires shape.page > 0
  {
    var cut := available.start / shape.page;
    available.start % shape.page == 0 || cut !in AllPages(shape)
    || !EndsInside(shape.page, available.end, cut) || !Outside(used, cut * shape.page)
  }

  lemma GapsAreWhole(shape: Shape, available: PhysRange, used: seq<PhysRange>)
    requires shape.Valid()
    ensures (forall q: nat :: InGap(shape, available, used, q) <==> Whole(shape, available, used, q))
            <==> CutKept(shape, available, used)
  {
    var page := shape.page;
    var cut := available.start / page;
    DivBelow(available.start, page);
    assert available.start == cut * page + available.start % page;
    forall q: nat ensures q != cut ==> (available.start <= q * page <==> cut <= q) {
      if cut < q {
        MulMono(cut + 1, q, page);
        MulStep(cut, page);
      } else {
        MulMono(q, cut, page);
        if q < cut {
          MulMono(q + 1, cut, page);
          MulStep(q, page);
        }
      }
    }
    if !CutKept(shape, available, used) {
      assert InGap(shape, available, used, cut) && !Whole(shape, available, used, cut);
    }
  }

  /** From the all-allocated state, with used ranges in order on page boundaries, the
      code frees exactly the whole pages of available memory outside every used range,
      if and only if the start is on a page boundary or the page it cuts stays
      allocated: it has no bit, does not end inside available memory, or starts in a
      used range. */
  lemma FreesExactlyWholePages(shape: Shape, available: PhysRange, used: seq<PhysRange>)
    requires shape.Valid() && Tidy(used, shape.page)
    ensures (forall q: nat :: FreedAtLast(shape, available, used, q) <==> Whole(shape, available, used, q))
            <==> CutKept(shape, available, used)
  {
    GapsAreWhole(shape, available, used);
    TidyAfter(AllPages(shape), shape, available, used);
    forall q: nat ensures FreedAtLast(shape, available, used, q) <==> InGap(shape, available, used, q) {
      assert IsPage(shape, q) <==> q in AllPages(shape);
    }
  }

  /** Memory that starts one byte into page 0 gives page 0 away, and succeeds. */
  lemma CutPageIsFreed()
    ensures var shape, available := Shape(1, 1, 4096), PhysRange(1, 32768);
            && FreedAtLast(shape, available, [], 0) && !Whole(shape, available, [], 0)
            && GapsFit(shape, shape.MaxBytes(), available.start, [])
            && LastGapFits(shape, shape.MaxBytes(), available, [])
  {
    var shape, available := Shape(1, 1, 4096), PhysRange(1, 32768);
    assert IsPage(shape, 0);
    TidyAfter(AllPages(shape), shape, available, []);
    assert InGap(shape, available, [], 0);
  }

  // ----- Giving a page back -----

  /** The page whose bit `deallocate` clears for page q. */
  function Cleared(shape: Shape, q: nat): nat
    requires shape.size > 0
  {
    shape.Linear(ByteIndices(q / 8 / shape.size, 0)) * 8 + q % 8
  }

  lemma PageParts(shape: Shape, q: nat)
    requires shape.Valid()
    ensures shape.Linear(ByteIndices(q / 8 / shape.size, q / 8 % shape.size)) * 8 + q % 8 == q
    ensures Cleared(shape, q) == q - q / 8 % shape.size * 8
    ensures q / 8 / shape.size < shape.num <==> q < shape.Pages()
  {
    var p := q / 8;
    assert p == (p / shape.size) * shape.size + p % shape.size;
    shape.LinearBound(p / shape.size, p % shape.size);
  }

  lemma ClearedKeeps(before: set<nat>, shape: Shape, end: nat, q: nat)
    requires shape.Valid() && PastEndAllocated(before, shape, end) && q in before && q < shape.Pages()
    ensures before - {Cleared(shape, q)} == before - {q} <==> q / 8 % shape.size == 0
    ensures q * shape.page < end ==> PastEndAllocated(before - {Cleared(shape, q)}, shape, end)
    ensures q * shape.page < shape.MaxBytes() && (q * shape.page) % shape.page == 0
    ensures end == 0 && q == 0 ==> !PastEndAllocated(before - {Cleared(shape, q)}, shape, end)
  {
    var c := Cleared(shape, q);
    PageParts(shape, q);
    if c != q { assert q in before - {c} && q !in before - {q}; }
    MulMono(c, q, shape.page);
    forall p: nat | IsPage(shape, p) && p !in before - {c} && q * shape.page < end ensures p * shape.page < end {
      if p != c { assert IsPage(shape, p) && p !in before; }
    }
    PageCount(shape, q);
    DivModUnique(q * shape.page, q, 0, shape.page);
    if q == 0 { assert IsPage(shape, 0) && c == 0; }
  }

  lemma EighthPage(shape: Shape)
    requires shape.Valid() && shape.size > 1
    ensures 16 <= shape.Pages() && Cleared(shape, 8) == 0 && 8 * shape.page <= shape.MaxBytes()
    ensures (8 * shape.page) % shape.page == 0
  {
    MulMono(1, shape.num, shape.size);
    DivModUnique(1, 0, 1, shape.size);
    PageCount(shape, 8);
    DivModUnique(8 * shape.page, 8, 0, shape.page);
  }

  lemma SamePage(p: nat, q: nat, page: nat)
    requires page > 0 && p * page == q * page
    ensures p == q
  {
    NotBelow(p, q, page);
    NotBelow(q, p, page);
  }

  /** Page 8 of a full allocator with more than one byte to a bitmap is given back:
      page 0 becomes free and page 8 stays allocated. */
  method WrongPageReturned(shape: Shape) returns (a: BitmapPageAlloc, r: Option<Result<(), PageAllocError>>)
    requires shape.Valid() && shape.size > 1
    ensures fresh(a) && a.shape == shape && a.Shaped() && r == Some(Ok(())) && 8 in a.Allocated() && 0 !in a.Allocated()
  {
    EighthPage(shape);
    a := new BitmapPageAlloc(shape);
    assert IsPage(shape, 8) && 8 in a.Allocated();
    ghost var q;
    r, q := a.Deallocate(8 * shape.page);
    SamePage(8, q, shape.page);
  }

  // ----- Pages that hold used memory -----

  // Sorted by start, none empty; ends need not be on page boundaries.
  ghost predicate InOrder(used: seq<PhysRange>) {
    && (forall i :: 0 <= i < |used| ==> used[i].start < used[i].end)
    && (forall i, j :: 0 <= i < j < |used| ==> used[i].start <= used[j].start)
  }

  ghost predicate Touches(page: nat, range: PhysRange, q: nat) {
    range.start < (q + 1) * page && q * page < range.end
  }

  ghost predicate HoldsUsed(page: nat, used: seq<PhysRange>, q: nat) {
    exists j :: 0 <= j < |used| && Touches(page, used[j], q)
  }

  // On a page boundary, or in a page that does not end inside available memory.
  predicate EdgeOk(page: nat, end: nat, x: nat)
    requires page > 0
  {
    x % page == 0 || end / page <= x / page
  }

  predicate GapEdgesOk(page: nat, available: PhysRange, used: seq<PhysRange>, i: nat)
    requires page > 0 && i < |used|
  {
    var n, s := Reach(available.start, used[..i]), used[i].start;
    n < s ==> EdgeOk(page, available.end, n) && EdgeOk(page, available.end, s)
  }

  ghost predicate EdgesOk(page: nat, available: PhysRange, used: seq<PhysRange>)
    requires page > 0
  {
    && (forall i: nat :: i < |used| ==> GapEdgesOk(page, available, used, i))
    && (Reach(available.start, used) < available.end ==> EdgeOk(page, available.end, Reach(available.start, used)))
  }

  lemma {:induction false} ReachIs(start: nat, used: seq<PhysRange>)
    ensures NextStart(start, used, Reach(start, used))
    decreases |used|
  {
    if used != [] {
      var k := |used| - 1;
      ReachIs(start, used[..k]);
      NextStartKeeps(start, used, k, Reach(start, used[..k]));
      assert used[..k + 1] == used;
    }
  }

  // The page that holds `x`.
  lemma PageOf(x: nat, page: nat, q: nat)
    requires page > 0
    ensures q * page <= x < (q + 1) * page <==> q == x / page
    ensures q * page == x <==> q == x / page && x % page == 0
  {
    MulStep(q, page);
    DivBelow(x, page);
    if q * page <= x < (q + 1) * page { DivModUnique(x, q, x - q * page, page); }
    assert x == (x / page) * page + x % page;
  }

  // A page freed with the gap from `n` to `s` starts before `s` and ends after `n`.
  lemma MarkedIn(page: nat, n: nat, s: nat, q: nat)
    requires page > 0 && n < s
    ensures Marks(page, n, s, q) <==> n < (q + 1) * page && q * page < s
  {
    MulStep(q, page);
    DivBelow(n, page);
    DivBelow(s + page - 1, page);
    var k := (s + page - 1) / page;
    if n / page <= q {
      MulMono(n / page + 1, q + 1, page);
      MulStep(n / page, page);
    } else {
      MulMono(q + 1, n / page, page);
    }
    if q < k { MulMono(q + 1, k, page); } else { MulMono(k, q, page); }
  }

  // A range before or after a gap with a good edge there touches no page freed with it.
  lemma GoodGap(page: nat, end: nat, n: nat, s: nat, range: PhysRange, q: nat)
    requires page > 0 && n < s && Marks(page, n, s, q) && q < end / page
    requires (range.end <= n && EdgeOk(page, end, n)) || (s <= range.start && EdgeOk(page, end, s))
    ensures !Touches(page, range, q)
  {
    MarkedIn(page, n, s, q);
    PageOf(n, page, q);
    PageOf(s, page, q);
  }

  // A bad edge frees the page it cuts.
  lemma BadEdge(page: nat, end: nat, n: nat, s: nat, x: nat) returns (q: nat)
    requires page > 0 && n < s && (x == n || x == s) && !EdgeOk(page, end, x)
    ensures Marks(page, n, s, q) && q < end / page && Cuts(page, x, q)
  {
    q := x / page;
    PageOf(x, page, q);
    MarkedIn(page, n, s, q);
  }

  // Address `x` lies inside page q, past its first byte.
  predicate Cuts(page: nat, x: nat, q: nat) {
    q * page < x < (q + 1) * page
  }

  lemma FreedInGap(shape: Shape, available: PhysRange, used: seq<PhysRange>, i: nat, q: nat)
    requires shape.page > 0 && i < |used| && GapFrees(shape.page, available.start, used, i, q)
    requires q < available.end / shape.page && Fits(shape, shape.MaxBytes(), used[i].start)
    ensures FreedAtLast(shape, available, used, q)
  {
    SweptIs(shape.page, available.start, used, q);
  }

  lemma FreedLast(shape: Shape, available: PhysRange, used: seq<PhysRange>, q: nat)
    requires shape.page > 0 && Marks(shape.page, Reach(available.start, used), available.end, q)
    requires q < available.end / shape.page && Fits(shape, shape.MaxBytes(), available.end)
    ensures FreedAtLast(shape, available, used, q)
  {
  }

  lemma CutTouches(page: nat, range: PhysRange, q: nat)
    requires range.start < range.end && Cuts(page, range.start, q)
    ensures Touches(page, range, q)
  {
  }

  lemma CutNotAligned(page: nat, x: nat, q: nat)
    requires page > 0 && Cuts(page, x, q)
    ensures x % page != 0
  {
    PageOf(x, page, q);
  }

  // The page cut by the end of a used range, which is where a gap begins.
  lemma CutByEnd(page: nat, start: nat, used: seq<PhysRange>, m: nat, n: nat, q: nat)
    requires page > 0 && m <= |used| && InOrder(used) && start % page == 0 && n == Reach(start, used[..m])
    requires Cuts(page, n, q)
    ensures HoldsUsed(page, used, q)
  {
    ReachIs(start, used[..m]);
    CutNotAligned(page, n, q);
    var k :| 0 <= k < m && used[..m][k].end == n;
    assert used[k].start < used[k].end == n;
    assert Touches(page, used[k], q);
  }

  // A bad edge of the gap before used range `i`.
  lemma BadGapFrees(shape: Shape, available: PhysRange, used: seq<PhysRange>, i: nat) returns (q: nat)
    requires shape.Valid() && InOrder(used) && available.start % shape.page == 0 && i < |used|
    requires !GapEdgesOk(shape.page, available, used, i) && GapFits(shape, shape.MaxBytes(), available.start, used, i)
    ensures FreedAtLast(shape, available, used, q) && HoldsUsed(shape.page, used, q)
  {
    var page, n, s := shape.page, Reach(available.start, used[..i]), used[i].start;
    var x := if EdgeOk(page, available.end, n) then s else n;
    q := BadEdge(page, available.end, n, s, x);
    FreedInGap(shape, available, used, i, q);
    if x == n { CutByEnd(page, available.start, used, i, n, q); } else { CutTouches(page, used[i], q); }
  }

  // A bad beginning of the gap after the last used range.
  lemma BadLastFrees(shape: Shape, available: PhysRange, used: seq<PhysRange>) returns (q: nat)
    requires shape.Valid() && InOrder(used) && available.start % shape.page == 0
    requires Reach(available.start, used) < available.end
    requires !EdgeOk(shape.page, available.end, Reach(available.start, used))
    requires LastGapFits(shape, shape.MaxBytes(), available, used)
    ensures FreedAtLast(shape, available, used, q) && HoldsUsed(shape.page, used, q)
  {
    var page, n := shape.page, Reach(available.start, used);
    q := BadEdge(page, available.end, n, available.end, n);
    FreedLast(shape, available, used, q);
    assert used[..|used|] == used;
    CutByEnd(page, available.start, used, |used|, n, q);
  }

  /** For used ranges in order and an aligned start, whatever the ends of the ranges:
      no page that holds used memory ends up free if and only if every gap between
      them begins and ends on a page boundary, as far as available memory goes. */
  lemma UsedPagesKeptIff(shape: Shape, available: PhysRange, used: seq<PhysRange>)
    requires shape.Valid() && InOrder(used) && available.start % shape.page == 0
    requires GapsFit(shape, shape.MaxBytes(), available.start, used)
    requires LastGapFits(shape, shape.MaxBytes(), available, used)
    ensures (forall q: nat :: FreedAtLast(shape, available, used, q) ==> !HoldsUsed(shape.page, used, q))
            <==> EdgesOk(shape.page, available, used)
  {
    var page := shape.page;
    if EdgesOk(page, available, used) {
      forall q: nat | FreedAtLast(shape, available, used, q) ensures !HoldsUsed(page, used, q) {
        GoodEdgesKeep(shape, available, used, q);
      }
    } else if exists i: nat :: i < |used| && !GapEdgesOk(page, available, used, i) {
      var i: nat :| i < |used| && !GapEdgesOk(page, available, used, i);
      var q := BadGapFrees(shape, available, used, i);
    } else {
      var q := BadLastFrees(shape, available, used);
    }
  }

  lemma GoodEdgesKeep(shape: Shape, available: PhysRange, used: seq<PhysRange>, q: nat)
    requires shape.Valid() && InOrder(used) && EdgesOk(shape.page, available, used)
    requires FreedAtLast(shape, available, used, q)
    ensures !HoldsUsed(shape.page, used, q)
  {
    var page := shape.page;
    SweptIs(page, available.start, used, q);
    forall j | 0 <= j < |used| ensures !Touches(page, used[j], q) {
      if Swept(page, available.start, used, q) {
        var i: nat :| i < |used| && GapFrees(page, available.start, used, i, q);
        var n := Reach(available.start, used[..i]);
        ReachIs(available.start, used[..i]);
        assert GapEdgesOk(page, available, used, i) && (j < i ==> used[..i][j].end <= n);
        GoodGap(page, available.end, n, used[i].start, used[j], q);
      } else {
        ReachIs(available.start, used);
        GoodGap(page, available.end, Reach(available.start, used), available.end, used[j], q);
      }
    }
  }

  /** A used range that starts in the middle of page 1: the page ends up free though
      it holds used memory. */
  lemma CutRangeIsFreed()
    ensures var shape, available, used := Shape(1, 1, 4096), PhysRange(0, 32768), [PhysRange(6144, 8192)];
            && GapsFit(shape, shape.MaxBytes(), 0, used) && LastGapFits(shape, shape.MaxBytes(), available, used)
            && FreedAtLast(shape, available, used, 1) && HoldsUsed(4096, used, 1)
  {
    var shape, available, used := Shape(1, 1, 4096), PhysRange(0, 32768), [PhysRange(6144, 8192)];
    assert used[..0] == [];
    assert Reach(0, used[..0]) == 0;
    assert GapFits(shape, shape.MaxBytes(), 0, used, 0);
    assert GapFrees(4096, 0, used, 0, 1);
    SweptIs(4096, 0, used, 1);
    assert Touches(4096, used[0], 1);
  }

  lemma InRange(shape: Shape, p: nat)
    requires shape.Valid() && p < shape.Bytes()
    ensures p / shape.size < shape.num && p % shape.size < shape.size
  {
    shape.LinearBound(p / shape.size, p % shape.size);
  }

  lemma AllOnes()
    ensures forall i: Bit :: IsSet(0xff, i)
  {
  }
}
