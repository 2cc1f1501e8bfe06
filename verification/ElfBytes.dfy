/** Little-endian records and tables of them, as ELF files lay them out, and the fields
    the reader of port/src/elf.rs finds in them. */
module ElfBytes {
  import opened Prelude
  import opened Arith
  import opened Elf

  // ----- Little-endian fields -----

  function Pow256(n: nat): (p: nat)
    ensures p > 0
  {
    if n == 0 then 1 else 256 * Pow256(n - 1)
  }

  // The `n` low bytes of `v`, least significant first.
  function Le(v: nat, n: nat): (b: seq<Byte>)
    ensures |b| == n
    decreases n, v
  {
    if n == 0 then [] else [v % 256] + Le(v / 256, n - 1)
  }

  lemma {:induction false} FieldWithin(a: seq<Byte>, b: seq<Byte>, off: nat, n: nat)
    requires off + n <= |a|
    ensures Field(a + b, off, n) == Field(a, off, n)
    decreases n
  {
    if n > 0 { FieldWithin(a, b, off + 1, n - 1); }
  }

  lemma {:induction false} FieldAfter(a: seq<Byte>, b: seq<Byte>, off: nat, n: nat)
    requires off + n <= |b|
    ensures Field(a + b, |a| + off, n) == Field(b, off, n)
    decreases n
  {
    if n > 0 { FieldAfter(a, b, off + 1, n - 1); }
  }

  lemma {:induction false} FieldOfLe(v: nat, n: nat)
    requires v < Pow256(n)
    ensures Field(Le(v, n), 0, n) == v
    decreases n
  {
    if n > 0 {
      DivBelow(v, 256);
      FieldOfLe(v / 256, n - 1);
      FieldAfter([v % 256], Le(v / 256, n - 1), 0, n - 1);
    }
  }

  // ----- Records of fields -----

  /** A field: its value and its width in bytes. */
  datatype Cell = Cell(value: nat, width: nat)

  predicate Fitting(cells: seq<Cell>) {
    forall k :: 0 <= k < |cells| ==> cells[k].value < Pow256(cells[k].width)
  }

  // Where field `k` starts: behind the fields before it.
  function Start(cells: seq<Cell>, k: nat): nat
    requires k <= |cells|
    decreases k
  {
    if k == 0 then 0 else Start(cells, k - 1) + cells[k - 1].width
  }

  function Record(cells: seq<Cell>): (b: seq<Byte>)
    ensures |b| == Start(cells, |cells|)
    decreases |cells|
  {
    if cells == [] then [] else
      var last := |cells| - 1;
      StartIn(cells, last);
      Record(cells[..last]) + Le(cells[last].value, cells[last].width)
  }

  lemma {:induction false} StartIn(cells: seq<Cell>, k: nat)
    requires k <= |cells|
    ensures Start(cells[..k], k) == Start(cells, k)
    decreases k
  {
    if k > 0 {
      StartIn(cells, k - 1);
      assert cells[..k][..k - 1] == cells[..k - 1];
      StartIn(cells[..k], k - 1);
    }
  }

  // The bytes from `base` on hold field `k` in its place.
  ghost predicate Shows(b: seq<Byte>, base: nat, cells: seq<Cell>, k: nat)
    requires k < |cells|
  {
    var off := base + Start(cells, k);
    off + cells[k].width <= |b| && Field(b, off, cells[k].width) == cells[k].value
  }

  // The bytes from `base` on hold the fields, one behind the other.
  ghost predicate Lays(b: seq<Byte>, base: nat, cells: seq<Cell>) {
    forall k :: 0 <= k < |cells| ==> Shows(b, base, cells, k)
  }

  lemma LaysWithin(a: seq<Byte>, b: seq<Byte>, base: nat, cells: seq<Cell>)
    requires Lays(a, base, cells)
    ensures Lays(a + b, base, cells)
  {
    forall k | 0 <= k < |cells| ensures Shows(a + b, base, cells, k) {
      assert Shows(a, base, cells, k);
      FieldWithin(a, b, base + Start(cells, k), cells[k].width);
    }
  }

  lemma LaysAfter(a: seq<Byte>, b: seq<Byte>, base: nat, at: nat, cells: seq<Cell>)
    requires Lays(b, base, cells) && at == |a| + base
    ensures Lays(a + b, at, cells)
  {
    forall k | 0 <= k < |cells| ensures Shows(a + b, at, cells, k) {
      assert Shows(b, base, cells, k);
      FieldAfter(a, b, base + Start(cells, k), cells[k].width);
    }
  }

  lemma {:induction false} RecordLays(cells: seq<Cell>)
    requires Fitting(cells)
    ensures Lays(Record(cells), 0, cells)
    decreases |cells|
  {
    if cells != [] {
      var last := |cells| - 1;
      RecordLays(cells[..last]);
      RecordGrows(cells[..last], cells[last], Record(cells[..last]));
      assert cells[..last] + [cells[last]] == cells;
    }
  }

  lemma RecordGrows(cells: seq<Cell>, cell: Cell, b: seq<Byte>)
    requires Lays(b, 0, cells) && |b| == Start(cells, |cells|) && cell.value < Pow256(cell.width)
    ensures Lays(b + Le(cell.value, cell.width), 0, cells + [cell])
  {
    var end := Le(cell.value, cell.width);
    var all := cells + [cell];
    LaysWithin(b, end, 0, cells);
    forall k | 0 <= k < |all| ensures Shows(b + end, 0, all, k) {
      StartIn(all, k);
      assert all[..k] == cells[..k];
      StartIn(cells, k);
      if k < |cells| {
        assert Shows(b + end, 0, cells, k);
      } else {
        FieldOfLe(cell.value, cell.width);
        FieldAfter(b, end, 0, cell.width);
      }
    }
  }

  // ----- Tables -----

  // Records, one behind the other.
  function Table(records: seq<seq<Cell>>): seq<Byte> {
    if records == [] then [] else Record(records[0]) + Table(records[1..])
  }

  // Records of fields that fit, all of one size.
  ghost predicate Uniform(records: seq<seq<Cell>>, size: nat) {
    forall i :: 0 <= i < |records| ==> Fitting(records[i]) && |Record(records[i])| == size
  }

  lemma {:induction false} TableSize(records: seq<seq<Cell>>, size: nat)
    requires Uniform(records, size)
    ensures |Table(records)| == |records| * size
    decreases |records|
  {
    if records != [] {
      TableSize(records[1..], size);
      MulStep(|records| - 1, size);
    }
  }

  lemma {:induction false} TableLays(records: seq<seq<Cell>>, size: nat, i: nat, at: nat, cells: seq<Cell>)
    requires Uniform(records, size) && i < |records| && at == i * size && cells == records[i]
    ensures Lays(Table(records), at, cells)
    decreases |records|
  {
    var first, rest := Record(records[0]), records[1..];
    if i == 0 {
      RecordLays(cells);
      LaysWithin(first, Table(rest), at, cells);
    } else {
      MulStep(i - 1, size);
      TableLays(rest, size, i - 1, at - size, cells);
      LaysAfter(first, Table(rest), at - size, at, cells);
    }
  }

  // Record `i` of a table that stands behind `pre`.
  lemma InTable(pre: seq<Byte>, records: seq<seq<Cell>>, post: seq<Byte>, size: nat, i: nat, at: nat, cells: seq<Cell>)
    requires Uniform(records, size) && i < |records| && cells == records[i] && at == |pre| + i * size
    ensures at + size <= |pre + (Table(records) + post)|
    ensures Lays(pre + (Table(records) + post), at, cells)
  {
    var inner := i * size;
    MulMono(0, i, size);
    MulMono(i + 1, |records|, size);
    MulStep(i, size);
    TableSize(records, size);
    TableLays(records, size, i, inner, cells);
    LaysWithin(Table(records), post, inner, cells);
    LaysAfter(pre, Table(records) + post, inner, at, cells);
  }
}
