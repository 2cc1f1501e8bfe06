/** The devicetree walker (core/src/fdt.rs) on blocks that need not encode a tree: where it
    stops, and when its depth underflows. */
module FdtPanics {
  import opened Prelude
  import opened Fdt

  /** A position has a token exactly when four bytes are left there and they hold one of
      the five tags of section 5.4.1 of the Devicetree Specification. */
  lemma ParseNoneIff(s: seq<Byte>, i: nat)
    ensures ParseToken(s, i).None?
            <==> i + 4 > |s| || FromBe32(s[i], s[i + 1], s[i + 2], s[i + 3]) !in {1, 2, 3, 4, 9}
  {
  }

  /** From position `i` at depth `d` on, a node ends that has not begun, before the block
      ends or an unknown token. */
  predicate Stray(tok: Reader, n: nat, i: nat, d: nat)
    decreases n - i
  {
    i < n &&
    match tok(i)
    case None => false
    case Some(BeginNode(_, len)) => Stray(tok, n, i + len, d + 1)
    case Some(EndNode) => d == 0 || Stray(tok, n, i + 4, d - 1)
    case Some(t) => Stray(tok, n, i + Length(t), d)
  }

  // With a node open at depth `od` the walk never underflows: it closes the node, or what
  // is left ends no more nodes than it begins.
  lemma {:induction false} OpenNeverPanics(tok: Reader, n: nat, p: Place, od: nat)
    requires Before(p.open, p.i) && p.open.Some? && p.depth > od
    ensures var r := ScanNext(tok, n, p, od);
            && r.Ok? && (r.value.None? ==> !Stray(tok, n, p.i, p.depth))
            && (r.value.Some? ==> r.value.value.next == p.open.value.next && r.value.value.depth == od + 1)
    decreases n - p.i
  {
    if p.i < n {
      match NextStep(tok(p.i), p, od) {
        case (Done(r), _) =>
        case (Go(q), d) => OpenNeverPanics(tok, n, q, d);
      }
    }
  }

  // What a call with no node open says about the rest of the block.
  ghost predicate Tells(tok: Reader, n: nat, i: nat, d: nat, r: Outcome<Found>) {
    match r
    case Err(_) => Stray(tok, n, i, d)
    case Ok(None) => !Stray(tok, n, i, d)
    case Ok(Some(f)) => Stray(tok, n, f.next, f.depth) <==> Stray(tok, n, i, d)
  }

  lemma NodeBegins(tok: Reader, n: nat, i: nat, d: nat, od: nat)
    requires i < n && tok(i).Some? && tok(i).value.BeginNode?
    ensures Tells(tok, n, i, d, ScanNext(tok, n, Place(i, d, None), od))
  {
    var t := tok(i).value;
    OpenNeverPanics(tok, n, Place(i + t.len, d + 1, Some(Open(i, t.nameStart, i + t.len))), d);
  }

  // Where a token that begins no node leaves a walk at depth `d`.
  function Level(t: Token, d: nat): nat
    requires t.EndNode? ==> d > 0
  {
    if t.EndNode? then d - 1 else d
  }

  lemma TokenPassed(tok: Reader, n: nat, i: nat, d: nat, od: nat, t: Token)
    requires i < n && tok(i) == Some(t) && !t.BeginNode? && (t.EndNode? ==> d > 0)
    ensures ScanNext(tok, n, Place(i, d, None), od) == ScanNext(tok, n, Place(i + Length(t), Level(t, d), None), od)
    ensures Stray(tok, n, i, d) == Stray(tok, n, i + Length(t), Level(t, d))
  {
    assert NextStep(tok(i), Place(i, d, None), od) == (Go(Place(i + Length(t), Level(t, d), None)), od);
  }

  // Before a node is open: an underflow, or the next node begins, or nothing more.
  lemma {:induction false} ClosedPanics(tok: Reader, n: nat, i: nat, d: nat, od: nat)
    ensures Tells(tok, n, i, d, ScanNext(tok, n, Place(i, d, None), od))
    decreases n - i
  {
    if i < n && tok(i).Some? {
      var t := tok(i).value;
      if t.BeginNode? {
        NodeBegins(tok, n, i, d, od);
      } else if !t.EndNode? || d > 0 {
        TokenPassed(tok, n, i, d, od, t);
        ClosedPanics(tok, n, i + Length(t), Level(t, d), od);
      }
    }
  }

  /** Walking all nodes of a block panics exactly when a node ends that has not begun. */
  lemma {:induction false} NodesPanicIff(tok: Reader, n: nat, i: nat, d: nat)
    ensures NodesFrom(tok, n, i, d).Err? <==> Stray(tok, n, i, d)
    decreases n + 4 - i
  {
    ClosedPanics(tok, n, i, d, 0);
    match ScanNext(tok, n, Place(i, d, None), 0) {
      case Ok(Some(f)) => NodesPanicIff(tok, n, f.next, f.depth);
      case _ =>
    }
  }

  /** The same until a node begins at depth `target`. */
  predicate StrayBefore(tok: Reader, n: nat, i: nat, d: nat, target: nat)
    decreases n - i
  {
    i < n &&
    match tok(i)
    case None => false
    case Some(BeginNode(_, len)) => d != target && StrayBefore(tok, n, i + len, d + 1, target)
    case Some(EndNode) => d == 0 || StrayBefore(tok, n, i + 4, d - 1, target)
    case Some(t) => StrayBefore(tok, n, i + Length(t), d, target)
  }

  lemma {:induction false} OpenScanNeverPanics(tok: Reader, n: nat, p: Place, target: nat)
    requires Before(p.open, p.i) && p.open.Some? && p.depth > target
    ensures Scan(tok, n, p, target).Ok?
    decreases n - p.i
  {
    if p.i < n {
      match ScanStep(tok(p.i), p, target) {
        case Done(r) =>
        case Go(q) => OpenScanNeverPanics(tok, n, q, target);
      }
    }
  }

  lemma SearchStep(tok: Reader, n: nat, i: nat, d: nat, target: nat, t: Token)
    requires i < n && tok(i) == Some(t) && d <= target
    requires t.BeginNode? ==> d < target
    requires t.EndNode? ==> d > 0
    ensures var e := if t.BeginNode? then d + 1 else Level(t, d);
            && Scan(tok, n, Place(i, d, None), target) == Scan(tok, n, Place(i + Length(t), e, None), target)
            && StrayBefore(tok, n, i, d, target) == StrayBefore(tok, n, i + Length(t), e, target)
  {
    var e := if t.BeginNode? then d + 1 else Level(t, d);
    assert ScanStep(tok(i), Place(i, d, None), target) == Go(Place(i + Length(t), e, None));
  }

  /** Looking for the node at a depth panics exactly when, before one begins there, a node
      ends that has not begun. */
  lemma {:induction false} ScanPanicsIff(tok: Reader, n: nat, i: nat, d: nat, target: nat)
    requires d <= target
    ensures Scan(tok, n, Place(i, d, None), target).Err? <==> StrayBefore(tok, n, i, d, target)
    decreases n - i
  {
    if i < n && tok(i).Some? {
      var t := tok(i).value;
      if t.BeginNode? && d == target {
        OpenScanNeverPanics(tok, n, Place(i + t.len, d + 1, Some(Open(i, t.nameStart, i + t.len))), target);
      } else if !t.EndNode? || d > 0 {
        SearchStep(tok, n, i, d, target, t);
        ScanPanicsIff(tok, n, i + Length(t), if t.BeginNode? then d + 1 else Level(t, d), target);
      }
    }
  }

  /** A block that is one end token panics both. */
  lemma StrayEndPanics(s: seq<Byte>)
    requires s == [0, 0, 0, 2]
    ensures NodesFrom(Tokens(s), |s|, 0, 0) == Err(DepthUnderflow)
    ensures Scan(Tokens(s), |s|, Place(0, 0, None), 0) == Err(DepthUnderflow)
  {
    assert ParseToken(s, 0) == Some(EndNode);
    NodesPanicIff(Tokens(s), |s|, 0, 0);
    ScanPanicsIff(Tokens(s), |s|, 0, 0, 0);
  }
}
