/** Slot selection and priority inheritance (aarch64/src/process.rs). */
module Scheduler {
  import opened Prelude
  import opened Arith

  datatype ProcState = Running | Runnable | Blocked | Exited

  // 0 is most urgent, 255 the idle level.
  type Level = l: nat | l <= 255

  const IDLE: Level := 255

  /** A slot's own priority and the one it runs at. */
  datatype PriorityState = PriorityState(base: Level, effective: Level) {
    predicate IsBoosted() { effective < base }

    // No stacking: a boosted slot keeps its first boost.
    function Boost(to: Level): PriorityState {
      if IsBoosted() then this else this.(effective := to)
    }

    function Unboost(): PriorityState {
      this.(effective := base)
    }

    // The test for a boost is made after the base has changed.
    function SetBase(to: Level): PriorityState {
      var p := this.(base := to);
      if p.IsBoosted() then p else p.(effective := to)
    }
  }

  type Slots = seq<(ProcState, Level)>

  predicate Eligible(slots: Slots, current: nat, i: nat) {
    i < |slots| && i != current && slots[i].0 == Runnable
  }

  /** How many slots after `cursor`, wrapping, slot `i` comes: 1 to n. */
  function Dist(n: nat, cursor: nat, i: nat): (d: nat)
    requires i < n
    ensures 1 <= d <= n && (cursor + d) % n == i
  {
    var c := cursor % n;
    var d := if i > c then i - c else i + n - c;
    assert (cursor + d) % n == i by { DistLands(n, cursor, i, d); }
    d
  }

  lemma DistLands(n: nat, cursor: nat, i: nat, d: nat)
    requires i < n
    requires d == if i > cursor % n then i - cursor % n else i + n - cursor % n
    ensures (cursor + d) % n == i
  {
    var q := cursor / n;
    assert cursor == q * n + cursor % n;
    if i > cursor % n {
      DivModUnique(cursor + d, q, i, n);
    } else {
      assert (q + 1) * n == q * n + n;
      DivModUnique(cursor + d, q + 1, i, n);
    }
  }

  lemma DistUnique(n: nat, cursor: nat, i: nat, d: nat)
    requires i < n && 1 <= d <= n && (cursor + d) % n == i
    ensures d == Dist(n, cursor, i)
  {
    SameLanding(n, cursor, d, Dist(n, cursor, i));
  }

  // Two distances within one turn that land on the same slot are equal.
  lemma SameLanding(n: nat, cursor: nat, d: nat, e: nat)
    requires 1 <= d <= n && 1 <= e <= n && (cursor + d) % n == (cursor + e) % n
    ensures d == e
  {
    var a, b := (cursor + d) / n, (cursor + e) / n;
    assert cursor + d == a * n + (cursor + d) % n && cursor + e == b * n + (cursor + e) % n;
    assert (a - b) * n == a * n - b * n;
    if a != b { MultipleIsFar(a - b, n); }
  }

  /** The declared choice: the first slot after the cursor among the most
      urgent eligible ones, and nothing only when no slot is eligible. */
  ghost predicate IsPick(slots: Slots, current: nat, cursor: nat, r: Option<nat>) {
    match r
    case None => forall i :: 0 <= i < |slots| ==> !Eligible(slots, current, i)
    case Some(p) =>
      && Eligible(slots, current, p)
      && (forall i: nat :: Eligible(slots, current, i) ==>
            || slots[p].1 < slots[i].1
            || (slots[p].1 == slots[i].1 && Dist(|slots|, cursor, p) <= Dist(|slots|, cursor, i)))
  }

  lemma PickIsUnique(slots: Slots, current: nat, cursor: nat, r: Option<nat>, r': Option<nat>)
    requires IsPick(slots, current, cursor, r) && IsPick(slots, current, cursor, r')
    ensures r == r'
  {
    if r.Some? && r'.Some? {
      assert Dist(|slots|, cursor, r.value) == Dist(|slots|, cursor, r'.value);
    }
  }

  // The least level among the eligible slots below `k`.
  function BestBelow(slots: Slots, current: nat, k: nat): (b: Option<Level>)
    requires k <= |slots|
    ensures b.None? <==> forall i :: 0 <= i < k ==> !Eligible(slots, current, i)
    ensures b.Some? ==> exists i :: 0 <= i < k && Eligible(slots, current, i) && slots[i].1 == b.value
    ensures b.Some? ==> forall i :: 0 <= i < k && Eligible(slots, current, i) ==> b.value <= slots[i].1
  {
    if k == 0 then None
    else
      var b := BestBelow(slots, current, k - 1);
      if !Eligible(slots, current, k - 1) then b
      else if b.None? || slots[k - 1].1 < b.value then Some(slots[k - 1].1)
      else b
  }

  predicate Hit(slots: Slots, current: nat, cursor: nat, best: Level, off: nat) {
    |slots| > 0 &&
    var i := (cursor + off) % |slots|;
    Eligible(slots, current, i) && slots[i].1 == best
  }

  // The first hit at or after offset `off`.
  function ScanFrom(slots: Slots, current: nat, cursor: nat, best: Level, off: nat): (r: Option<nat>)
    requires 1 <= off <= |slots| + 1
    ensures r.Some? ==> off <= r.value <= |slots| && Hit(slots, current, cursor, best, r.value)
    ensures r.Some? ==> forall o :: off <= o < r.value ==> !Hit(slots, current, cursor, best, o)
    ensures r.None? ==> forall o :: off <= o <= |slots| ==> !Hit(slots, current, cursor, best, o)
    decreases |slots| + 1 - off
  {
    if off == |slots| + 1 then None
    else if Hit(slots, current, cursor, best, off) then Some(off)
    else ScanFrom(slots, current, cursor, best, off + 1)
  }

  /** Selection as a function, for the handlers' specifications. */
  ghost function Pick(slots: Slots, current: nat, cursor: nat): (r: Option<nat>)
    ensures IsPick(slots, current, cursor, r)
  {
    PickExists(slots, current, cursor);
    var r :| IsPick(slots, current, cursor, r);
    r
  }

  lemma PickExists(slots: Slots, current: nat, cursor: nat)
    ensures exists r :: IsPick(slots, current, cursor, r)
  {
    var best := BestBelow(slots, current, |slots|);
    if best.None? {
      assert IsPick(slots, current, cursor, None);
    } else {
      ScanFinds(slots, current, cursor, best.value, ScanFrom(slots, current, cursor, best.value, 1));
    }
  }

  // A slot at the best level is hit at its own distance.
  lemma HitAtDist(slots: Slots, current: nat, cursor: nat, best: Level, i: nat)
    requires Eligible(slots, current, i) && slots[i].1 == best
    ensures Hit(slots, current, cursor, best, Dist(|slots|, cursor, i))
  {
  }

  // The scan for the best level cannot miss, and stops at the nearest slot.
  lemma ScanFinds(slots: Slots, current: nat, cursor: nat, best: Level, off: Option<nat>)
    requires BestBelow(slots, current, |slots|) == Some(best)
    requires off == ScanFrom(slots, current, cursor, best, 1)
    ensures off.Some? && IsPick(slots, current, cursor, Some((cursor + off.value) % |slots|))
  {
    var n := |slots|;
    var w :| 0 <= w < n && Eligible(slots, current, w) && slots[w].1 == best;
    HitAtDist(slots, current, cursor, best, w);
    var d := off.value;
    var p := (cursor + d) % n;
    assert Hit(slots, current, cursor, best, d);
    DistUnique(n, cursor, p, d);
    forall i: nat | Eligible(slots, current, i) && slots[i].1 == best
      ensures d <= Dist(n, cursor, i)
    {
      HitAtDist(slots, current, cursor, best, i);
    }
  }

  /** `pick_next`: a minimum over the Runnable slots, then a wrapping search. */
  method PickNext(slots: Slots, current: nat, cursor: nat) returns (r: Option<nat>)
    ensures IsPick(slots, current, cursor, r)
    ensures r == Pick(slots, current, cursor)
  {
    var n := |slots|;
    var best: Option<Level> := None;
    for i := 0 to n
      invariant best == BestBelow(slots, current, i)
    {
      if i != current && slots[i].0 == Runnable && (best.None? || slots[i].1 < best.value) {
        best := Some(slots[i].1);
      }
    }
    if best.None? {
      PickIsUnique(slots, current, cursor, None, Pick(slots, current, cursor));
      return None;
    }
    ScanFinds(slots, current, cursor, best.value, ScanFrom(slots, current, cursor, best.value, 1));
    var off := 1;
    while off <= n
      invariant 1 <= off <= n + 1
      invariant ScanFrom(slots, current, cursor, best.value, 1) == ScanFrom(slots, current, cursor, best.value, off)
    {
      var i := (cursor + off) % n;
      if i != current && slots[i].0 == Runnable && slots[i].1 == best.value {
        assert Hit(slots, current, cursor, best.value, off);
        PickIsUnique(slots, current, cursor, Some(i), Pick(slots, current, cursor));
        return Some(i);
      }
      off := off + 1;
    }
    assert false;
  }

  /** Being passed over brings a most urgent slot strictly closer: the cursor
      moves to the winner, and the winner was nearer. */
  lemma PassedOverComesCloser(slots: Slots, current: nat, cursor: nat, p: nat, s: nat)
    requires IsPick(slots, current, cursor, Some(p))
    requires Eligible(slots, current, s) && p != s
    requires forall i: nat :: Eligible(slots, current, i) ==> slots[s].1 <= slots[i].1
    ensures Dist(|slots|, p, s) < Dist(|slots|, cursor, s)
  {
    var n := |slots|;
    var dp, ds := Dist(n, cursor, p), Dist(n, cursor, s);
    assert dp < ds;
    var c := cursor + dp;
    assert c == (c / n) * n + p;
    assert cursor + ds == (p + (ds - dp)) + (c / n) * n;
    ModShift(p + (ds - dp), c / n, n);
    DistUnique(n, p, s, ds - dp);
  }
}
