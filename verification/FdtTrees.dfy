/** What the devicetree walker yields on a block that encodes a tree. */
module FdtTrees {
  import opened Prelude
  import opened Fdt

  // ----- The reference: nodes read off the tree -----

  // Bytes of a begin token with its name, of an item, of a tree.
  function BeginSize(t: Tree): Positive {
    4 + Align4(|t.name| + 1)
  }

  function Size(x: Item): Positive
    decreases x
  {
    match x
    case Prop(_, value) => 12 + Align4(|value|)
    case Nop => 4
    case Child(t) => TreeSize(t)
  }

  function TreeSize(t: Tree): Positive
    decreases t
  {
    BeginSize(t) + ItemsSize(t.items) + 4
  }

  function ItemsSize(items: seq<Item>): nat
    decreases items
  {
    if items == [] then 0 else Size(items[0]) + ItemsSize(items[1..])
  }

  /** The node record of tree `t` encoded at `i`. */
  function Rec(t: Tree, i: nat, depth: nat): Node {
    Node(i, i + 4, i + BeginSize(t), TreeSize(t), depth)
  }

  /** Direct children, in order. */
  function Kids(items: seq<Item>, i: nat, depth: nat): seq<Node>
    decreases items
  {
    if items == [] then []
    else (if items[0].Child? then [Rec(items[0].tree, i, depth)] else []) + Kids(items[1..], i + Size(items[0]), depth)
  }

  /** All nodes of a tree, each before its children. */
  function Preorder(t: Tree, i: nat, depth: nat): seq<Node>
    decreases t
  {
    [Rec(t, i, depth)] + PreorderItems(t.items, i + BeginSize(t), depth + 1)
  }

  function PreorderItem(x: Item, i: nat, depth: nat): seq<Node>
    decreases x
  {
    match x case Child(t) => Preorder(t, i, depth) case _ => []
  }

  function PreorderItems(items: seq<Item>, i: nat, depth: nat): seq<Node>
    decreases items
  {
    if items == [] then []
    else PreorderItem(items[0], i, depth) + PreorderItems(items[1..], i + Size(items[0]), depth)
  }

  // ----- Positions, token by token -----

  /** A relation between positions and what is left of the block there. */
  type Where = (nat, Ctx) -> bool

  // At such a position the next token is the one `c` calls for, and the position
  // after it is related to what is then left.
  ghost predicate FollowsAt(tok: Reader, n: nat, at: Where, i: nat, c: Ctx) {
    at(i, c) ==>
      && i < n
      && if c.items == [] then
           if c.Top? then tok(i) == Some(EndToken) && i + 4 == n
           else tok(i) == Some(EndNode) && at(i + 4, c.up)
         else
           && at(i + Size(c.items[0]), c.Rest())
           && match c.items[0]
              case Child(t) =>
                tok(i) == Some(BeginNode(i + 4, BeginSize(t))) && at(i + BeginSize(t), Up(t.items, c.Rest()))
              case x => SimpleToken(tok(i), Size(x))
  }

  ghost predicate Follows(tok: Reader, n: nat, at: Where) {
    forall i: nat, c: Ctx :: FollowsAt(tok, n, at, i, c)
  }

  // ----- Passing over the items of an open node -----

  // A place that stands where `c` is what is left of the block.
  ghost predicate Stands(at: Where, p: Place, c: Ctx) {
    at(p.i, c) && p.depth == c.Depth() && Before(p.open, p.i)
  }

  // One token passed with a node open, staying deeper than `d`.
  ghost predicate Skim(tok: Reader, n: nat, d: nat, a: Place, b: Place) {
    && a.i < n && a.open.Some? && Before(a.open, a.i) && b.open == a.open && a.depth > d && b.depth > d
    && match tok(a.i)
       case None => false
       case Some(BeginNode(_, len)) => b.i == a.i + len && b.depth == a.depth + 1
       case Some(EndNode) => b.i == a.i + 4 && b.depth == a.depth - 1
       case Some(t) => b.i == a.i + Length(t) && b.depth == a.depth
  }

  ghost predicate Trail(tok: Reader, n: nat, d: nat, path: seq<Place>) {
    path != [] && forall k :: 0 <= k < |path| - 1 ==> Skim(tok, n, d, path[k], path[k + 1])
  }

  ghost predicate IsTrail(tok: Reader, n: nat, d: nat, path: seq<Place>, a: Place, b: Place) {
    Trail(tok, n, d, path) && path[0] == a && path[|path| - 1] == b
  }

  ghost predicate Passes(tok: Reader, n: nat, d: nat, a: Place, b: Place) {
    exists path :: IsTrail(tok, n, d, path, a, b)
  }

  lemma PassesSelf(tok: Reader, n: nat, d: nat, a: Place)
    ensures Passes(tok, n, d, a, a)
  {
    assert IsTrail(tok, n, d, [a], a, a);
  }

  lemma PassesOne(tok: Reader, n: nat, d: nat, a: Place, b: Place)
    requires Skim(tok, n, d, a, b)
    ensures Passes(tok, n, d, a, b)
  {
    assert IsTrail(tok, n, d, [a, b], a, b);
  }

  lemma PassesThen(tok: Reader, n: nat, d: nat, a: Place, b: Place, c: Place)
    requires Passes(tok, n, d, a, b) && Passes(tok, n, d, b, c)
    ensures Passes(tok, n, d, a, c)
  {
    var p :| IsTrail(tok, n, d, p, a, b);
    var q :| IsTrail(tok, n, d, q, b, c);
    var r := p + q[1..];
    forall k | 0 <= k < |r| - 1 ensures Skim(tok, n, d, r[k], r[k + 1]) {
      if k < |p| - 1 { assert r[k] == p[k] && r[k + 1] == p[k + 1]; }
      else { assert r[k] == q[k - (|p| - 1)] && r[k + 1] == q[k + 1 - (|p| - 1)]; }
    }
    assert IsTrail(tok, n, d, r, a, c);
  }

  /** All remaining items of an open node can be passed. */
  lemma {:induction false} PassItems(tok: Reader, n: nat, at: Where, d: nat, p: Place, c: Ctx)
    requires Follows(tok, n, at) && Stands(at, p, c) && p.open.Some? && p.depth > d
    ensures var q := p.(i := p.i + ItemsSize(c.items)); Passes(tok, n, d, p, q) && Stands(at, q, c.(items := []))
    decreases c.items, 1
  {
    if c.items == [] {
      PassesSelf(tok, n, d, p);
      assert c.(items := []) == c;
    } else {
      PassItem(tok, n, at, d, p, c);
      var q := p.(i := p.i + Size(c.items[0]));
      PassItems(tok, n, at, d, q, c.Rest());
      PassesThen(tok, n, d, p, q, p.(i := p.i + ItemsSize(c.items)));
    }
  }

  lemma {:induction false} PassItem(tok: Reader, n: nat, at: Where, d: nat, p: Place, c: Ctx)
    requires Follows(tok, n, at) && Stands(at, p, c) && p.open.Some? && p.depth > d && c.items != []
    ensures var q := p.(i := p.i + Size(c.items[0])); Passes(tok, n, d, p, q) && Stands(at, q, c.Rest())
    decreases c.items, 0
  {
    assert FollowsAt(tok, n, at, p.i, c);
    var end := p.(i := p.i + Size(c.items[0]));
    match c.items[0] {
      case Child(t) =>
        var q := Place(p.i + BeginSize(t), p.depth + 1, p.open);
        PassesOne(tok, n, d, p, q);
        PassItems(tok, n, at, d, q, Up(t.items, c.Rest()));
        var last := q.(i := q.i + ItemsSize(t.items));
        assert FollowsAt(tok, n, at, last.i, Up([], c.Rest()));
        assert Size(c.items[0]) == TreeSize(t) == BeginSize(t) + ItemsSize(t.items) + 4;
        PassesOne(tok, n, d, last, end);
        PassesThen(tok, n, d, p, q, last);
        PassesThen(tok, n, d, p, last, end);
      case x => PassesOne(tok, n, d, p, end);
    }
  }

  // ----- From trails to the two walks -----

  lemma Skims(tok: Reader, n: nat, d: nat, a: Place, b: Place)
    requires Skim(tok, n, d, a, b)
    ensures Before(b.open, b.i) && Scan(tok, n, a, d) == Scan(tok, n, b, d)
    ensures ScanNext(tok, n, a, d) == ScanNext(tok, n, b, d)
  {
    assert ScanStep(tok(a.i), a, d) == Go(b) && NextStep(tok(a.i), a, d) == (Go(b), d);
  }

  lemma {:induction false} TrailKeeps(tok: Reader, n: nat, d: nat, path: seq<Place>)
    requires Trail(tok, n, d, path) && Before(path[0].open, path[0].i)
    ensures var last := path[|path| - 1];
            && Before(last.open, last.i) && Scan(tok, n, path[0], d) == Scan(tok, n, last, d)
            && ScanNext(tok, n, path[0], d) == ScanNext(tok, n, last, d)
    decreases |path|
  {
    if |path| > 1 {
      assert Skim(tok, n, d, path[0], path[0 + 1]);
      Skims(tok, n, d, path[0], path[1]);
      var rest := path[1..];
      forall k | 0 <= k < |rest| - 1 ensures Skim(tok, n, d, rest[k], rest[k + 1]) {
        assert Skim(tok, n, d, path[k + 1], path[k + 1 + 1]);
      }
      TrailKeeps(tok, n, d, rest);
    }
  }

  lemma PassesKeeps(tok: Reader, n: nat, d: nat, a: Place, b: Place)
    requires Passes(tok, n, d, a, b) && Before(a.open, a.i)
    ensures Before(b.open, b.i) && Scan(tok, n, a, d) == Scan(tok, n, b, d)
    ensures ScanNext(tok, n, a, d) == ScanNext(tok, n, b, d)
  {
    var path :| IsTrail(tok, n, d, path, a, b);
    TrailKeeps(tok, n, d, path);
  }

  // ----- Finding one node -----

  lemma Opens(tok: Reader, n: nat, i: nat, d: nat, od: nat, len: Positive)
    requires i < n && tok(i) == Some(BeginNode(i + 4, len))
    ensures var q := Place(i + len, d + 1, Some(Open(i, i + 4, i + len)));
            && Scan(tok, n, Place(i, d, None), d) == Scan(tok, n, q, d)
            && ScanNext(tok, n, Place(i, d, None), od) == ScanNext(tok, n, q, d)
  {
  }

  lemma Closes(tok: Reader, n: nat, p: Place, d: nat)
    requires p.i < n && p.open.Some? && Before(p.open, p.i) && p.depth == d + 1 && tok(p.i) == Some(EndNode)
    ensures var x := Close(p.open.value, p.i + 4, d);
            Scan(tok, n, p, d) == Ok(Some(x)) && ScanNext(tok, n, p, d) == Ok(Some(Found(x, p.open.value.next, d + 1)))
  {
  }

  // What both walks answer at position `i` with no node open.
  ghost predicate Answers(tok: Reader, n: nat, i: nat, d: nat, x: Node) {
    && Scan(tok, n, Place(i, d, None), d) == Ok(Some(x))
    && ScanNext(tok, n, Place(i, d, None), 0) == Ok(Some(Found(x, x.nextTokenStart, d + 1)))
  }

  // The extent of a node: its begin token, what can be passed, its end token.
  ghost predicate Extent(tok: Reader, n: nat, i: nat, d: nat, len: Positive, last: nat) {
    var o := Some(Open(i, i + 4, i + len));
    && i < n && tok(i) == Some(BeginNode(i + 4, len)) && i + len <= last < n && tok(last) == Some(EndNode)
    && Passes(tok, n, d, Place(i + len, d + 1, o), Place(last, d + 1, o))
  }

  lemma FindsExtent(tok: Reader, n: nat, i: nat, d: nat, len: Positive, last: nat)
    requires Extent(tok, n, i, d, len, last)
    ensures Answers(tok, n, i, d, Node(i, i + 4, i + len, last + 4 - i, d))
  {
    var o := Some(Open(i, i + 4, i + len));
    Opens(tok, n, i, d, 0, len);
    PassesKeeps(tok, n, d, Place(i + len, d + 1, o), Place(last, d + 1, o));
    Closes(tok, n, Place(last, d + 1, o), d);
  }

  lemma NodeExtent(tok: Reader, n: nat, at: Where, i: nat, c: Ctx)
    requires Follows(tok, n, at) && at(i, c) && c.items != [] && c.items[0].Child?
    ensures var t := c.items[0].tree; Extent(tok, n, i, c.Depth(), BeginSize(t), i + TreeSize(t) - 4)
  {
    var d := c.Depth();
    var t := c.items[0].tree;
    assert FollowsAt(tok, n, at, i, c);
    var q := Place(i + BeginSize(t), d + 1, Some(Open(i, i + 4, i + BeginSize(t))));
    PassItems(tok, n, at, d, q, Up(t.items, c.Rest()));
    assert FollowsAt(tok, n, at, q.i + ItemsSize(t.items), Up([], c.Rest()));
  }

  /** At a node, both walks return its record. */
  lemma FindsNode(tok: Reader, n: nat, at: Where, i: nat, c: Ctx)
    requires Follows(tok, n, at) && at(i, c) && c.items != [] && c.items[0].Child?
    ensures Answers(tok, n, i, c.Depth(), Rec(c.items[0].tree, i, c.Depth()))
  {
    NodeExtent(tok, n, at, i, c);
    var t := c.items[0].tree;
    FindsExtent(tok, n, i, c.Depth(), BeginSize(t), i + TreeSize(t) - 4);
  }

  // With no node open both walks go on from `i` at depth `d` as from `j` at depth `e`.
  ghost predicate Continues(tok: Reader, n: nat, target: nat, i: nat, d: nat, j: nat, e: nat) {
    && Scan(tok, n, Place(i, d, None), target) == Scan(tok, n, Place(j, e, None), target)
    && ScanNext(tok, n, Place(i, d, None), 0) == ScanNext(tok, n, Place(j, e, None), 0)
  }

  lemma PassesBy(tok: Reader, n: nat, i: nat, d: nat, len: Positive)
    requires i < n && SimpleToken(tok(i), len)
    ensures Continues(tok, n, d, i, d, i + len, d)
  {
  }

  lemma PassesEnd(tok: Reader, n: nat, i: nat, d: nat)
    requires i < n && 0 < d && tok(i) == Some(EndNode)
    ensures Continues(tok, n, d, i, d, i + 4, d - 1)
  {
  }

  /** No walk over an encoded tree decrements a depth of zero. */
  lemma {:induction false} NoPanic(tok: Reader, n: nat, at: Where, p: Place, c: Ctx, target: nat)
    requires Follows(tok, n, at) && Stands(at, p, c)
    ensures Scan(tok, n, p, target).Ok?
    decreases n - p.i
  {
    assert FollowsAt(tok, n, at, p.i, c);
    var step := ScanStep(tok(p.i), p, target);
    if step.Go? {
      if c.items == [] {
        if c.Up? { NoPanic(tok, n, at, step.place, c.up, target); }
      } else if c.items[0].Child? {
        NoPanic(tok, n, at, step.place, Up(c.items[0].tree.items, c.Rest()), target);
      } else {
        NoPanic(tok, n, at, step.place, c.Rest(), target);
      }
    }
  }

  // ----- Children -----

  ghost predicate Spans(parent: Node, i: nat, items: seq<Item>) {
    parent.start < i && parent.End() == i + ItemsSize(items) + 4
  }

  lemma ChildrenNone(tok: Reader, n: nat, parent: Node, i: nat)
    requires var r := Scan(tok, n, Place(i, parent.depth + 1, None), parent.depth + 1);
             r.Ok? && (r.value.Some? ==> !parent.Encloses(r.value.value))
    ensures ChildrenFrom(tok, n, parent, i) == Ok([])
  {
  }

  lemma ChildrenSame(tok: Reader, n: nat, parent: Node, i: nat, j: nat)
    requires Continues(tok, n, parent.depth + 1, i, parent.depth + 1, j, parent.depth + 1)
    ensures ChildrenFrom(tok, n, parent, i) == ChildrenFrom(tok, n, parent, j)
  {
  }

  lemma ChildrenOne(tok: Reader, n: nat, parent: Node, i: nat, x: Node)
    requires Answers(tok, n, i, parent.depth + 1, x) && parent.Encloses(x)
    ensures ChildrenFrom(tok, n, parent, i) == Prepend([x], ChildrenFrom(tok, n, parent, x.End()))
  {
  }

  // After the last child, what the walk finds, if anything, lies past the parent.
  lemma NoMoreKids(tok: Reader, n: nat, at: Where, c: Ctx, i: nat, parent: Node)
    requires Follows(tok, n, at) && at(i, c) && c.Up? && c.items == [] && parent.depth + 1 == c.Depth()
    requires parent.End() == i + 4
    ensures ChildrenFrom(tok, n, parent, i) == Ok([])
  {
    assert FollowsAt(tok, n, at, i, c);
    PassesEnd(tok, n, i, parent.depth + 1);
    NoPanic(tok, n, at, Place(i + 4, parent.depth, None), c.up, parent.depth + 1);
    ChildrenNone(tok, n, parent, i);
  }

  // A child is yielded, any other item passed.
  lemma KidHere(tok: Reader, n: nat, at: Where, c: Ctx, i: nat, parent: Node)
    requires Follows(tok, n, at) && at(i, c) && parent.depth + 1 == c.Depth() && c.items != [] && c.items[0].Child?
    requires Spans(parent, i, c.items)
    ensures var x := Rec(c.items[0].tree, i, parent.depth + 1);
            ChildrenFrom(tok, n, parent, i) == Prepend([x], ChildrenFrom(tok, n, parent, x.End()))
  {
    FindsNode(tok, n, at, i, c);
    assert Size(c.items[0]) == TreeSize(c.items[0].tree)
           && ItemsSize(c.items) == Size(c.items[0]) + ItemsSize(c.items[1..]);
    ChildrenOne(tok, n, parent, i, Rec(c.items[0].tree, i, parent.depth + 1));
  }

  lemma NoKidHere(tok: Reader, n: nat, parent: Node, i: nat, len: Positive)
    requires i < n && SimpleToken(tok(i), len)
    ensures ChildrenFrom(tok, n, parent, i) == ChildrenFrom(tok, n, parent, i + len)
  {
    PassesBy(tok, n, i, parent.depth + 1, len);
    ChildrenSame(tok, n, parent, i, i + len);
  }

  type Yield = nat -> Result<seq<Node>, Panic>

  // What one item contributes to what `f` yields for the parent.
  ghost predicate KidStep(f: Yield, at: Where, parent: Node, c: Ctx, i: nat) {
    at(i, c) && c.Up? && parent.depth + 1 == c.Depth() && Spans(parent, i, c.items) ==>
      if c.items == [] then f(i) == Ok([])
      else
        var j := i + Size(c.items[0]);
        && at(j, c.Rest())
        && f(i) == if c.items[0].Child? then Prepend([Rec(c.items[0].tree, i, parent.depth + 1)], f(j)) else f(j)
  }

  lemma {:induction false} KidsBySteps(f: Yield, at: Where, parent: Node, c: Ctx, i: nat)
    requires forall c: Ctx, i: nat :: KidStep(f, at, parent, c, i)
    requires at(i, c) && c.Up? && parent.depth + 1 == c.Depth() && Spans(parent, i, c.items)
    ensures f(i) == Ok(Kids(c.items, i, parent.depth + 1))
    decreases c.items
  {
    assert KidStep(f, at, parent, c, i);
    if c.items != [] {
      var j := i + Size(c.items[0]);
      KidsBySteps(f, at, parent, c.Rest(), j);
      assert [] + Kids(c.items[1..], j, parent.depth + 1) == Kids(c.items[1..], j, parent.depth + 1);
    }
  }

  /** `children` yields exactly the direct children, in order. */
  lemma ChildrenAre(tok: Reader, n: nat, at: Where, c: Ctx, i: nat, parent: Node)
    requires Follows(tok, n, at) && at(i, c) && c.Up? && parent.depth + 1 == c.Depth() && Spans(parent, i, c.items)
    ensures ChildrenFrom(tok, n, parent, i) == Ok(Kids(c.items, i, parent.depth + 1))
  {
    var f := KidsOf(tok, n, parent);
    forall c: Ctx, i: nat ensures KidStep(f, at, parent, c, i) { KidStepHolds(tok, n, at, parent, c, i); }
    KidsBySteps(f, at, parent, c, i);
  }

  ghost function KidsOf(tok: Reader, n: nat, parent: Node): Yield {
    (i: nat) => ChildrenFrom(tok, n, parent, i)
  }

  lemma KidStepHolds(tok: Reader, n: nat, at: Where, parent: Node, c: Ctx, i: nat)
    requires Follows(tok, n, at)
    ensures KidStep(KidsOf(tok, n, parent), at, parent, c, i)
  {
    if at(i, c) && c.Up? && parent.depth + 1 == c.Depth() && Spans(parent, i, c.items) {
      if c.items == [] { NoMoreKids(tok, n, at, c, i, parent); }
      else if c.items[0].Child? { KidStepChild(tok, n, at, parent, c, i); }
      else { KidStepSimple(tok, n, at, parent, c, i); }
    }
  }

  lemma KidStepChild(tok: Reader, n: nat, at: Where, parent: Node, c: Ctx, i: nat)
    requires Follows(tok, n, at) && at(i, c) && parent.depth + 1 == c.Depth() && Spans(parent, i, c.items)
    requires c.items != [] && c.items[0].Child?
    ensures KidStep(KidsOf(tok, n, parent), at, parent, c, i)
  {
    assert FollowsAt(tok, n, at, i, c);
    KidHere(tok, n, at, c, i, parent);
  }

  lemma KidStepSimple(tok: Reader, n: nat, at: Where, parent: Node, c: Ctx, i: nat)
    requires Follows(tok, n, at) && at(i, c) && c.items != [] && !c.items[0].Child?
    ensures KidStep(KidsOf(tok, n, parent), at, parent, c, i)
  {
    assert FollowsAt(tok, n, at, i, c);
    NoKidHere(tok, n, parent, i, Size(c.items[0]));
  }

  // ----- All nodes -----

  /** The nodes still to come at a position. */
  ghost function Remaining(c: Ctx, i: nat): seq<Node>
    decreases c
  {
    PreorderItems(c.items, i, c.Depth()) + if c.Top? then [] else Remaining(c.up, i + ItemsSize(c.items) + 4)
  }

  lemma RemainingEnd(c: Ctx, i: nat)
    requires c.items == []
    ensures Remaining(c, i) == if c.Top? then [] else Remaining(c.up, i + 4)
  {
    if c.Up? { assert [] + Remaining(c.up, i + 4) == Remaining(c.up, i + 4); }
  }

  lemma RemainingSimple(c: Ctx, i: nat)
    requires c.items != [] && !c.items[0].Child?
    ensures Remaining(c, i) == Remaining(c.Rest(), i + Size(c.items[0]))
  {
    var rest := PreorderItems(c.items[1..], i + Size(c.items[0]), c.Depth());
    assert PreorderItem(c.items[0], i, c.Depth()) == [] && [] + rest == rest;
    assert c.Rest().items == c.items[1..] && c.Rest().Depth() == c.Depth();
  }

  lemma Regroup(a: seq<Node>, b: seq<Node>, c: seq<Node>, d: seq<Node>)
    ensures ((a + b) + c) + d == a + (b + (c + d))
  {
  }

  lemma RemainingChild(c: Ctx, i: nat)
    requires c.items != [] && c.items[0].Child?
    ensures var t := c.items[0].tree;
            Remaining(c, i) == [Rec(t, i, c.Depth())] + Remaining(Up(t.items, c.Rest()), i + BeginSize(t))
  {
    var t := c.items[0].tree;
    var d := c.Depth();
    var tail := if c.Top? then [] else Remaining(c.up, i + ItemsSize(c.items) + 4);
    assert Size(c.items[0]) == TreeSize(t) && PreorderItem(c.items[0], i, d) == Preorder(t, i, d);
    Regroup([Rec(t, i, d)], PreorderItems(t.items, i + BeginSize(t), d + 1),
            PreorderItems(c.items[1..], i + Size(c.items[0]), d), tail);
  }

  lemma NodesSame(tok: Reader, n: nat, i: nat, d: nat, j: nat, e: nat)
    requires Continues(tok, n, d, i, d, j, e)
    ensures NodesFrom(tok, n, i, d) == NodesFrom(tok, n, j, e)
  {
  }

  lemma NodesOne(tok: Reader, n: nat, i: nat, d: nat, x: Node)
    requires Answers(tok, n, i, d, x)
    ensures NodesFrom(tok, n, i, d) == Prepend([x], NodesFrom(tok, n, x.nextTokenStart, d + 1))
  {
  }

  lemma NodesNone(tok: Reader, n: nat, i: nat, d: nat)
    requires i + 4 == n && tok(i) == Some(EndToken)
    ensures NodesFrom(tok, n, i, d) == Ok([])
  {
    assert ScanNext(tok, n, Place(i + 4, d, None), 0) == Ok(None);
  }

  lemma NodeHere(tok: Reader, n: nat, at: Where, c: Ctx, i: nat)
    requires Follows(tok, n, at) && at(i, c) && c.items != [] && c.items[0].Child?
    ensures var x := Rec(c.items[0].tree, i, c.Depth());
            NodesFrom(tok, n, i, c.Depth()) == Prepend([x], NodesFrom(tok, n, x.nextTokenStart, c.Depth() + 1))
  {
    FindsNode(tok, n, at, i, c);
    NodesOne(tok, n, i, c.Depth(), Rec(c.items[0].tree, i, c.Depth()));
  }

  lemma NoNodeHere(tok: Reader, n: nat, i: nat, d: nat, len: Positive)
    requires i < n && SimpleToken(tok(i), len)
    ensures NodesFrom(tok, n, i, d) == NodesFrom(tok, n, i + len, d)
  {
    PassesBy(tok, n, i, d, len);
    NodesSame(tok, n, i, d, i + len, d);
  }

  lemma NodeEndHere(tok: Reader, n: nat, i: nat, d: nat)
    requires i < n && 0 < d && tok(i) == Some(EndNode)
    ensures NodesFrom(tok, n, i, d) == NodesFrom(tok, n, i + 4, d - 1)
  {
    PassesEnd(tok, n, i, d);
    NodesSame(tok, n, i, d, i + 4, d - 1);
  }

  type YieldAt = (nat, nat) -> Result<seq<Node>, Panic>

  // What one token contributes to what `f` yields.
  ghost predicate NodeStep(f: YieldAt, n: nat, at: Where, c: Ctx, i: nat) {
    at(i, c) ==>
      var d := c.Depth();
      && i < n
      && if c.items == [] then
           if c.Top? then f(i, d) == Ok([]) else at(i + 4, c.up) && f(i, d) == f(i + 4, c.up.Depth())
         else if c.items[0].Child? then
           var t := c.items[0].tree;
           && at(i + BeginSize(t), Up(t.items, c.Rest()))
           && f(i, d) == Prepend([Rec(t, i, d)], f(i + BeginSize(t), d + 1))
         else at(i + Size(c.items[0]), c.Rest()) && f(i, d) == f(i + Size(c.items[0]), d)
  }

  lemma {:induction false} NodesBySteps(f: YieldAt, n: nat, at: Where, c: Ctx, i: nat)
    requires (forall c: Ctx, i: nat :: NodeStep(f, n, at, c, i)) && at(i, c)
    ensures f(i, c.Depth()) == Ok(Remaining(c, i))
    decreases n - i
  {
    assert NodeStep(f, n, at, c, i);
    if c.items == [] {
      RemainingEnd(c, i);
      if c.Up? { NodesBySteps(f, n, at, c.up, i + 4); }
    } else if c.items[0].Child? {
      RemainingChild(c, i);
      var t := c.items[0].tree;
      NodesBySteps(f, n, at, Up(t.items, c.Rest()), i + BeginSize(t));
    } else {
      RemainingSimple(c, i);
      NodesBySteps(f, n, at, c.Rest(), i + Size(c.items[0]));
    }
  }

  /** `nodes` yields all nodes still to come, each before its children, with true
      depth and extent. */
  lemma NodesAre(tok: Reader, n: nat, at: Where, c: Ctx, i: nat)
    requires Follows(tok, n, at) && at(i, c)
    ensures NodesFrom(tok, n, i, c.Depth()) == Ok(Remaining(c, i))
  {
    var f := NodesOf(tok, n);
    forall c: Ctx, i: nat ensures NodeStep(f, n, at, c, i) { NodeStepHolds(tok, n, at, c, i); }
    NodesBySteps(f, n, at, c, i);
  }

  ghost function NodesOf(tok: Reader, n: nat): YieldAt {
    (i: nat, d: nat) => NodesFrom(tok, n, i, d)
  }

  lemma NodeStepHolds(tok: Reader, n: nat, at: Where, c: Ctx, i: nat)
    requires Follows(tok, n, at)
    ensures NodeStep(NodesOf(tok, n), n, at, c, i)
  {
    if at(i, c) {
      if c.items == [] { NodeStepEnd(tok, n, at, c, i); } else { NodeStepItem(tok, n, at, c, i); }
    }
  }

  lemma NodeStepEnd(tok: Reader, n: nat, at: Where, c: Ctx, i: nat)
    requires Follows(tok, n, at) && at(i, c) && c.items == []
    ensures NodeStep(NodesOf(tok, n), n, at, c, i)
  {
    assert FollowsAt(tok, n, at, i, c);
    if c.Top? { NodesNone(tok, n, i, c.Depth()); } else { NodeEndHere(tok, n, i, c.Depth()); }
  }

  lemma NodeStepItem(tok: Reader, n: nat, at: Where, c: Ctx, i: nat)
    requires Follows(tok, n, at) && at(i, c) && c.items != []
    ensures NodeStep(NodesOf(tok, n), n, at, c, i)
  {
    if c.items[0].Child? {
      assert FollowsAt(tok, n, at, i, c);
      NodeHere(tok, n, at, c, i);
    } else {
      NodeStepPast(tok, n, at, c, i);
    }
  }

  lemma NodeStepPast(tok: Reader, n: nat, at: Where, c: Ctx, i: nat)
    requires Follows(tok, n, at) && at(i, c) && c.items != [] && !c.items[0].Child?
    ensures NodeStep(NodesOf(tok, n), n, at, c, i)
  {
    assert FollowsAt(tok, n, at, i, c);
    NoNodeHere(tok, n, i, c.Depth(), Size(c.items[0]));
  }

  // ----- Parents -----

  /** In tree `t` at `i`, node `x` is a direct child of node `q`. */
  ghost predicate Below(t: Tree, i: nat, d: nat, q: Node, x: Node)
    decreases t
  {
    || (q == Rec(t, i, d) && x in Kids(t.items, i + BeginSize(t), d + 1))
    || BelowItems(t.items, i + BeginSize(t), d + 1, q, x)
  }

  ghost predicate BelowItem(item: Item, i: nat, d: nat, q: Node, x: Node)
    decreases item
  {
    match item case Child(t) => Below(t, i, d, q, x) case _ => false
  }

  ghost predicate BelowItems(items: seq<Item>, i: nat, d: nat, q: Node, x: Node)
    decreases items
  {
    items != [] && (BelowItem(items[0], i, d, q, x) || BelowItems(items[1..], i + Size(items[0]), d, q, x))
  }

  ghost predicate Within(x: Node, lo: nat, hi: nat) {
    lo <= x.start && x.End() <= hi && 0 < x.totalLen
  }

  lemma {:induction false} KidsWithin(items: seq<Item>, i: nat, d: nat, x: Node)
    requires x in Kids(items, i, d)
    ensures Within(x, i, i + ItemsSize(items)) && x.depth == d
    decreases items
  {
    var j := i + Size(items[0]);
    if items[0].Child? && x == Rec(items[0].tree, i, d) {
      assert Size(items[0]) == TreeSize(items[0].tree);
    } else {
      KidsWithin(items[1..], j, d, x);
    }
  }

  lemma {:induction false} BelowWithin(t: Tree, i: nat, d: nat, q: Node, x: Node)
    requires Below(t, i, d, q, x)
    ensures Within(x, i + BeginSize(t), i + TreeSize(t) - 4) && q.depth + 1 == x.depth && d <= q.depth
    decreases TreeSize(t), 0
  {
    if q == Rec(t, i, d) && x in Kids(t.items, i + BeginSize(t), d + 1) {
      KidsWithin(t.items, i + BeginSize(t), d + 1, x);
    } else {
      BelowItemsWithin(t.items, i + BeginSize(t), d + 1, q, x);
    }
  }

  lemma {:induction false} BelowItemsWithin(items: seq<Item>, i: nat, d: nat, q: Node, x: Node)
    requires BelowItems(items, i, d, q, x)
    ensures Within(x, i, i + ItemsSize(items)) && q.depth + 1 == x.depth && d <= q.depth
    decreases ItemsSize(items), 1
  {
    if BelowItem(items[0], i, d, q, x) {
      assert Size(items[0]) == TreeSize(items[0].tree);
      BelowWithin(items[0].tree, i, d, q, x);
    } else {
      BelowItemsWithin(items[1..], i + Size(items[0]), d, q, x);
    }
  }

  type Search = Node -> Outcome<Node>
  type SearchAt = (Node, nat) -> Outcome<Node>

  // How the search for the parent of `x` answers for a node, and among its children.
  ghost predicate ParentStep(g: Search, h: SearchAt, x: Node, node: Node) {
    Sensible(node) ==>
      g(node) == if !node.Encloses(x) || node.depth >= x.depth then Ok(None)
                 else if node.depth + 1 < x.depth then h(node, node.nextTokenStart) else Ok(Some(node))
  }

  ghost predicate AmongStep(g: Search, h: SearchAt, at: Where, node: Node, c: Ctx, i: nat) {
    Sensible(node) && at(i, c) && c.Up? && node.depth + 1 == c.Depth() && Spans(node, i, c.items) && c.items != [] ==>
      var j := i + Size(c.items[0]);
      && at(j, c.Rest())
      && match c.items[0]
         case Child(t) =>
           && at(i + BeginSize(t), Up(t.items, c.Rest()))
           && h(node, i) == (match g(Rec(t, i, c.Depth())) case Ok(None) => h(node, j) case r => r)
         case _ => h(node, i) == h(node, j)
  }

  ghost predicate Searches(g: Search, h: SearchAt, at: Where, x: Node) {
    && (forall node: Node :: ParentStep(g, h, x, node))
    && (forall node: Node, c: Ctx, i: nat :: AmongStep(g, h, at, node, c, i))
  }

  /** From any node above it, the search reaches the parent. */
  lemma {:induction false} FoundBelow(g: Search, h: SearchAt, at: Where, x: Node, t: Tree, i: nat, up: Ctx, q: Node)
    requires Searches(g, h, at, x) && at(i + BeginSize(t), Up(t.items, up)) && Below(t, i, up.Depth(), q, x)
    ensures g(Rec(t, i, up.Depth())) == Ok(Some(q))
    decreases t.items, 1
  {
    var node := Rec(t, i, up.Depth());
    BelowWithin(t, i, up.Depth(), q, x);
    assert ParentStep(g, h, x, node);
    if node.depth + 1 < x.depth {
      if x in Kids(t.items, i + BeginSize(t), node.depth + 1) {
        KidsWithin(t.items, i + BeginSize(t), node.depth + 1, x);
      }
      FoundAmong(g, h, at, x, node, Up(t.items, up), i + BeginSize(t), q);
    } else if BelowItems(t.items, i + BeginSize(t), node.depth + 1, q, x) {
      BelowItemsWithin(t.items, i + BeginSize(t), node.depth + 1, q, x);
    }
  }

  lemma {:induction false} FoundAmong(g: Search, h: SearchAt, at: Where, x: Node, node: Node, c: Ctx, i: nat, q: Node)
    requires Searches(g, h, at, x) && Sensible(node) && at(i, c) && c.Up? && node.depth + 1 == c.Depth()
    requires Spans(node, i, c.items)
    requires BelowItems(c.items, i, c.Depth(), q, x)
    ensures h(node, i) == Ok(Some(q))
    decreases c.items, 0
  {
    assert AmongStep(g, h, at, node, c, i);
    var j := i + Size(c.items[0]);
    if BelowItem(c.items[0], i, c.Depth(), q, x) {
      match c.items[0] { case Child(t) => FoundBelow(g, h, at, x, t, i, c.Rest(), q); }
    } else {
      BelowItemsWithin(c.items[1..], j, c.Depth(), q, x);
      if c.items[0].Child? {
        var k := Rec(c.items[0].tree, i, c.Depth());
        assert Size(c.items[0]) == TreeSize(c.items[0].tree) && !k.Encloses(x);
        assert ParentStep(g, h, x, k);
      }
      FoundAmong(g, h, at, x, node, c.Rest(), j, q);
    }
  }

  ghost function SearchFor(tok: Reader, n: nat, x: Node): Search {
    (node: Node) => if Sensible(node) then FindParent(tok, n, node, x) else Ok(None)
  }

  ghost function SearchAmong(tok: Reader, n: nat, x: Node): SearchAt {
    (node: Node, i: nat) => if Sensible(node) && node.start < i then FindAmong(tok, n, node, i, x) else Ok(None)
  }

  lemma AmongSame(tok: Reader, n: nat, node: Node, i: nat, j: nat, x: Node)
    requires Sensible(node) && node.start < i && node.start < j
    requires Continues(tok, n, node.depth + 1, i, node.depth + 1, j, node.depth + 1)
    ensures FindAmong(tok, n, node, i, x) == FindAmong(tok, n, node, j, x)
  {
  }

  lemma AmongOne(tok: Reader, n: nat, node: Node, i: nat, k: Node, x: Node)
    requires Sensible(node) && node.start < i <= k.start && Sensible(k)
    requires Answers(tok, n, i, node.depth + 1, k) && node.Encloses(k)
    ensures FindAmong(tok, n, node, i, x) ==
            match FindParent(tok, n, k, x) case Ok(None) => FindAmong(tok, n, node, k.End(), x) case r => r
  {
  }

  ghost predicate InParent(at: Where, node: Node, c: Ctx, i: nat) {
    Sensible(node) && at(i, c) && c.Up? && node.depth + 1 == c.Depth() && Spans(node, i, c.items) && c.items != []
  }

  lemma AmongStepHolds(tok: Reader, n: nat, at: Where, x: Node, node: Node, c: Ctx, i: nat)
    requires Follows(tok, n, at)
    ensures AmongStep(SearchFor(tok, n, x), SearchAmong(tok, n, x), at, node, c, i)
  {
    if InParent(at, node, c, i) {
      if c.items[0].Child? {
        AmongStepChild(tok, n, at, x, node, c, i);
      } else {
        AmongStepSimple(tok, n, at, x, node, c, i);
      }
    }
  }

  lemma AmongStepSimple(tok: Reader, n: nat, at: Where, x: Node, node: Node, c: Ctx, i: nat)
    requires Follows(tok, n, at) && InParent(at, node, c, i) && !c.items[0].Child?
    ensures AmongStep(SearchFor(tok, n, x), SearchAmong(tok, n, x), at, node, c, i)
  {
    assert FollowsAt(tok, n, at, i, c);
    PassesBy(tok, n, i, c.Depth(), Size(c.items[0]));
    AmongSame(tok, n, node, i, i + Size(c.items[0]), x);
  }

  lemma AmongStepChild(tok: Reader, n: nat, at: Where, x: Node, node: Node, c: Ctx, i: nat)
    requires Follows(tok, n, at) && InParent(at, node, c, i) && c.items[0].Child?
    ensures AmongStep(SearchFor(tok, n, x), SearchAmong(tok, n, x), at, node, c, i)
  {
    assert FollowsAt(tok, n, at, i, c);
    AmongChild(tok, n, at, x, node, c, i);
  }

  lemma AmongChild(tok: Reader, n: nat, at: Where, x: Node, node: Node, c: Ctx, i: nat)
    requires Follows(tok, n, at) && Sensible(node) && at(i, c) && node.depth + 1 == c.Depth() && Spans(node, i, c.items)
    requires c.items != [] && c.items[0].Child?
    ensures var k := Rec(c.items[0].tree, i, c.Depth());
            && Sensible(k) && k.End() == i + Size(c.items[0])
            && FindAmong(tok, n, node, i, x) ==
               match FindParent(tok, n, k, x) case Ok(None) => FindAmong(tok, n, node, k.End(), x) case r => r
  {
    var k := Rec(c.items[0].tree, i, c.Depth());
    FindsNode(tok, n, at, i, c);
    assert Size(c.items[0]) == TreeSize(c.items[0].tree)
           && ItemsSize(c.items) == Size(c.items[0]) + ItemsSize(c.items[1..]);
    AmongOne(tok, n, node, i, k, x);
  }

  lemma SearchesHolds(tok: Reader, n: nat, at: Where, x: Node)
    requires Follows(tok, n, at)
    ensures Searches(SearchFor(tok, n, x), SearchAmong(tok, n, x), at, x)
  {
    var g, h := SearchFor(tok, n, x), SearchAmong(tok, n, x);
    forall node: Node ensures ParentStep(g, h, x, node) {
      assert Sensible(node) ==> g(node) == FindParent(tok, n, node, x);
    }
    forall node: Node, c: Ctx, i: nat
      ensures AmongStep(g, h, at, node, c, i)
    {
      AmongStepHolds(tok, n, at, x, node, c, i);
    }
  }

  // ----- Blocks -----

  /** A structure block: no-ops, the root, no-ops, the end token. */
  function BlockItems(pre: nat, root: Tree, post: nat): seq<Item> {
    seq(pre, _ => Nop) + [Child(root)] + seq(post, _ => Nop)
  }

  ghost predicate Encodes(s: seq<Byte>, pre: nat, root: Tree, post: nat) {
    WellFormed(root) && s == EncCtx(Top(BlockItems(pre, root, post)))
  }

  // The recorded sizes are the encoded ones.
  lemma {:induction false} SizeIs(x: Item)
    requires WellFormedItem(x)
    ensures |EncItem(x)| == Size(x)
    decreases x
  {
    match x {
      case Child(t) => TreeSizeIs(t);
      case _ =>
    }
  }

  lemma {:induction false} TreeSizeIs(t: Tree)
    requires WellFormed(t)
    ensures |EncTree(t)| == TreeSize(t) && |BeginBytes(t.name)| == BeginSize(t)
    decreases t
  {
    ItemsSizeIs(t.items);
  }

  lemma {:induction false} ItemsSizeIs(items: seq<Item>)
    requires WellFormedItems(items)
    ensures |EncItems(items)| == ItemsSize(items)
    decreases items
  {
    if items != [] {
      SizeIs(items[0]);
      ItemsSizeIs(items[1..]);
    }
  }

  ghost function Positions(s: seq<Byte>): Where {
    (i: nat, c: Ctx) => At(s, i, c)
  }

  /** Reading an encoded block follows its tokens. */
  lemma BlockFollows(s: seq<Byte>)
    ensures Follows(Tokens(s), |s|, Positions(s))
  {
    forall i: nat, c: Ctx ensures FollowsAt(Tokens(s), |s|, Positions(s), i, c) {
      if At(s, i, c) { FollowsHere(s, i, c); }
    }
  }

  lemma FollowsHere(s: seq<Byte>, i: nat, c: Ctx)
    requires At(s, i, c)
    ensures FollowsAt(Tokens(s), |s|, Positions(s), i, c)
  {
    if c.items == [] { FollowsEnd(s, i, c); }
    else if c.items[0].Child? { FollowsChild(s, i, c); }
    else { FollowsSimple(s, i, c); }
  }

  lemma FollowsEnd(s: seq<Byte>, i: nat, c: Ctx)
    requires At(s, i, c) && c.items == []
    ensures FollowsAt(Tokens(s), |s|, Positions(s), i, c)
  {
    TokenAt(s, i, c);
  }

  lemma FollowsSimple(s: seq<Byte>, i: nat, c: Ctx)
    requires At(s, i, c) && c.items != [] && !c.items[0].Child?
    ensures FollowsAt(Tokens(s), |s|, Positions(s), i, c)
  {
    TokenAt(s, i, c);
    SizeIs(c.items[0]);
  }

  lemma FollowsChild(s: seq<Byte>, i: nat, c: Ctx)
    requires At(s, i, c) && c.items != [] && c.items[0].Child?
    ensures FollowsAt(Tokens(s), |s|, Positions(s), i, c)
  {
    TokenAt(s, i, c);
    SizeIs(c.items[0]);
    TreeSizeIs(c.items[0].tree);
  }

  // ----- What the walker promises -----

  /** Tree `t` occurs at position `i` and depth `d` in the tree `t0` at `i0`, `d0`. */
  ghost predicate Occurs(t0: Tree, i0: nat, d0: nat, t: Tree, i: nat, d: nat)
    decreases t0
  {
    (t == t0 && i == i0 && d == d0) || OccursItems(t0.items, i0 + BeginSize(t0), d0 + 1, t, i, d)
  }

  ghost predicate OccursItem(item: Item, i0: nat, d0: nat, t: Tree, i: nat, d: nat)
    decreases item
  {
    match item case Child(t0) => Occurs(t0, i0, d0, t, i, d) case _ => false
  }

  ghost predicate OccursItems(items: seq<Item>, i0: nat, d0: nat, t: Tree, i: nat, d: nat)
    decreases items
  {
    items != [] && (OccursItem(items[0], i0, d0, t, i, d) || OccursItems(items[1..], i0 + Size(items[0]), d0, t, i, d))
  }

  // Where a subtree occurs.
  lemma {:induction false} OccursAt(tok: Reader, n: nat, at: Where, t0: Tree, i0: nat, up0: Ctx, t: Tree, i: nat,
                                    d: nat) returns (up: Ctx)
    requires Follows(tok, n, at) && at(i0 + BeginSize(t0), Up(t0.items, up0)) && Occurs(t0, i0, up0.Depth(), t, i, d)
    ensures at(i + BeginSize(t), Up(t.items, up)) && up.Depth() == d
    decreases t0.items, 1
  {
    if t == t0 && i == i0 && d == up0.Depth() {
      up := up0;
    } else {
      up := OccursItemsAt(tok, n, at, Up(t0.items, up0), i0 + BeginSize(t0), t, i, d);
    }
  }

  lemma {:induction false} OccursItemsAt(tok: Reader, n: nat, at: Where, c: Ctx, i0: nat, t: Tree, i: nat, d: nat)
    returns (up: Ctx)
    requires Follows(tok, n, at) && at(i0, c) && OccursItems(c.items, i0, c.Depth(), t, i, d)
    ensures at(i + BeginSize(t), Up(t.items, up)) && up.Depth() == d
    decreases c.items, 0
  {
    assert FollowsAt(tok, n, at, i0, c);
    if OccursItem(c.items[0], i0, c.Depth(), t, i, d) {
      match c.items[0] {
        case Child(Tree(name, sub)) => up := OccursAt(tok, n, at, Tree(name, sub), i0, c.Rest(), t, i, d);
      }
    } else {
      up := OccursItemsAt(tok, n, at, c.Rest(), i0 + Size(c.items[0]), t, i, d);
    }
  }

  // The children of a subtree that occurs are below it.
  lemma {:induction false} OccursBelow(t0: Tree, i0: nat, d0: nat, t: Tree, i: nat, d: nat, x: Node)
    requires Occurs(t0, i0, d0, t, i, d) && x in Kids(t.items, i + BeginSize(t), d + 1)
    ensures Below(t0, i0, d0, Rec(t, i, d), x)
    decreases TreeSize(t0), 0
  {
    if !(t == t0 && i == i0 && d == d0) { OccursItemsBelow(t0.items, i0 + BeginSize(t0), d0 + 1, t, i, d, x); }
  }

  lemma {:induction false} OccursItemsBelow(items: seq<Item>, i0: nat, d0: nat, t: Tree, i: nat, d: nat, x: Node)
    requires OccursItems(items, i0, d0, t, i, d) && x in Kids(t.items, i + BeginSize(t), d + 1)
    ensures BelowItems(items, i0, d0, Rec(t, i, d), x)
    decreases ItemsSize(items), 1
  {
    if OccursItem(items[0], i0, d0, t, i, d) {
      assert Size(items[0]) == TreeSize(items[0].tree);
      OccursBelow(items[0].tree, i0, d0, t, i, d, x);
    } else {
      OccursItemsBelow(items[1..], i0 + Size(items[0]), d0, t, i, d, x);
    }
  }

  lemma BlockItemsNext(pre: nat, root: Tree, post: nat)
    ensures var items := BlockItems(pre, root, post);
            if pre == 0 then items[0] == Child(root) && items[1..] == seq(post, _ => Nop)
            else items[0] == Nop && items[1..] == BlockItems(pre - 1, root, post)
  {
  }

  // The no-ops before the root are passed.
  lemma {:induction false} RootAt(tok: Reader, n: nat, at: Where, pre: nat, root: Tree, post: nat, i: nat)
    requires Follows(tok, n, at) && at(i, Top(BlockItems(pre, root, post)))
    ensures at(i + 4 * pre, Top(BlockItems(0, root, post)))
    ensures Scan(tok, n, Place(i, 0, None), 0) == Scan(tok, n, Place(i + 4 * pre, 0, None), 0)
    decreases pre
  {
    if pre > 0 {
      NopPassed(tok, n, at, pre, root, post, i);
      RootAt(tok, n, at, pre - 1, root, post, i + 4);
    }
  }

  lemma NopPassed(tok: Reader, n: nat, at: Where, pre: nat, root: Tree, post: nat, i: nat)
    requires Follows(tok, n, at) && at(i, Top(BlockItems(pre, root, post))) && pre > 0
    ensures at(i + 4, Top(BlockItems(pre - 1, root, post)))
    ensures Scan(tok, n, Place(i, 0, None), 0) == Scan(tok, n, Place(i + 4, 0, None), 0)
  {
    BlockItemsNext(pre, root, post);
    assert FollowsAt(tok, n, at, i, Top(BlockItems(pre, root, post)));
    PassesBy(tok, n, i, 0, 4);
  }

  lemma {:induction false} NopsFirst(pre: nat, root: Tree, post: nat, i: nat)
    ensures PreorderItems(BlockItems(pre, root, post), i, 0) == PreorderItems(BlockItems(0, root, post), i + 4 * pre, 0)
    decreases pre
  {
    if pre > 0 {
      BlockItemsNext(pre, root, post);
      var rest := PreorderItems(BlockItems(pre - 1, root, post), i + 4, 0);
      assert PreorderItem(Nop, i, 0) == [] && [] + rest == rest;
      NopsFirst(pre - 1, root, post, i + 4);
    }
  }

  lemma {:induction false} NopsHoldNoNode(post: nat, i: nat)
    ensures PreorderItems(seq(post, _ => Nop), i, 0) == []
    decreases post
  {
    if post > 0 {
      var items: seq<Item> := seq(post, _ => Nop);
      assert items[0] == Nop && items[1..] == seq(post - 1, _ => Nop);
      assert PreorderItem(items[0], i, 0) == [];
      NopsHoldNoNode(post - 1, i + 4);
    }
  }

  lemma RootPreorder(root: Tree, post: nat, i: nat)
    ensures PreorderItems(BlockItems(0, root, post), i, 0) == Preorder(root, i, 0)
  {
    var items := BlockItems(0, root, post);
    BlockItemsNext(0, root, post);
    NopsHoldNoNode(post, i + Size(items[0]));
    assert PreorderItem(items[0], i, 0) == Preorder(root, i, 0);
    assert Preorder(root, i, 0) + [] == Preorder(root, i, 0);
  }

  // A block read token by token.
  ghost predicate Block(tok: Reader, n: nat, at: Where, pre: nat, root: Tree, post: nat) {
    Follows(tok, n, at) && at(0, Top(BlockItems(pre, root, post)))
  }

  lemma EncodedBlock(s: seq<Byte>, pre: nat, root: Tree, post: nat)
    requires Encodes(s, pre, root, post)
    ensures Block(Tokens(s), |s|, Positions(s), pre, root, post)
  {
    BlockFollows(s);
    assert s[0..] == s;
    assert forall k :: 0 <= k < |BlockItems(pre, root, post)| ==> WellFormedItem(BlockItems(pre, root, post)[k]);
  }

  lemma BlockNodes(tok: Reader, n: nat, at: Where, pre: nat, root: Tree, post: nat)
    requires Block(tok, n, at, pre, root, post)
    ensures NodesFrom(tok, n, 0, 0) == Ok(Preorder(root, 4 * pre, 0))
  {
    var c := Top(BlockItems(pre, root, post));
    NodesAre(tok, n, at, c, 0);
    NopsFirst(pre, root, post, 0);
    RootPreorder(root, post, 4 * pre);
    assert Remaining(c, 0) == PreorderItems(c.items, 0, 0) + [] == PreorderItems(c.items, 0, 0);
  }

  lemma BlockRoot(tok: Reader, n: nat, at: Where, pre: nat, root: Tree, post: nat) returns (up: Ctx)
    requires Block(tok, n, at, pre, root, post)
    ensures at(4 * pre + BeginSize(root), Up(root.items, up)) && up.Depth() == 0
    ensures Scan(tok, n, Place(0, 0, None), 0) == Ok(Some(Rec(root, 4 * pre, 0)))
  {
    RootAt(tok, n, at, pre, root, post, 0);
    var c := Top(BlockItems(0, root, post));
    BlockItemsNext(0, root, post);
    assert FollowsAt(tok, n, at, 4 * pre, c);
    FindsNode(tok, n, at, 4 * pre, c);
    up := c.Rest();
  }

  lemma BlockChildren(tok: Reader, n: nat, at: Where, pre: nat, root: Tree, post: nat, t: Tree, i: nat, d: nat)
    requires Block(tok, n, at, pre, root, post) && Occurs(root, 4 * pre, 0, t, i, d)
    ensures ChildrenFrom(tok, n, Rec(t, i, d), i + BeginSize(t)) == Ok(Kids(t.items, i + BeginSize(t), d + 1))
  {
    var up0 := BlockRoot(tok, n, at, pre, root, post);
    var up := OccursAt(tok, n, at, root, 4 * pre, up0, t, i, d);
    ChildrenAre(tok, n, at, Up(t.items, up), i + BeginSize(t), Rec(t, i, d));
  }

  lemma BlockParent(tok: Reader, n: nat, at: Where, pre: nat, root: Tree, post: nat, t: Tree, i: nat, d: nat, x: Node)
    requires Block(tok, n, at, pre, root, post) && Occurs(root, 4 * pre, 0, t, i, d)
    requires x in Kids(t.items, i + BeginSize(t), d + 1)
    ensures Parent(tok, n, x) == Ok(Some(Rec(t, i, d)))
  {
    var up0 := BlockRoot(tok, n, at, pre, root, post);
    OccursBelow(root, 4 * pre, 0, t, i, d, x);
    SearchesHolds(tok, n, at, x);
    FoundBelow(SearchFor(tok, n, x), SearchAmong(tok, n, x), at, x, root, 4 * pre, up0, Rec(t, i, d));
  }

  /** `nodes` yields exactly the nodes of the encoded tree, in preorder, with true
      depth and byte extent. */
  lemma NodesOfTree(s: seq<Byte>, pre: nat, root: Tree, post: nat)
    requires Encodes(s, pre, root, post)
    ensures NodesFrom(Tokens(s), |s|, 0, 0) == Ok(Preorder(root, 4 * pre, 0))
  {
    EncodedBlock(s, pre, root, post);
    BlockNodes(Tokens(s), |s|, Positions(s), pre, root, post);
  }

  /** For every node of the encoded tree, `children` yields exactly its direct
      children, in order. */
  lemma ChildrenOfNode(s: seq<Byte>, pre: nat, root: Tree, post: nat, t: Tree, i: nat, d: nat)
    requires Encodes(s, pre, root, post) && Occurs(root, 4 * pre, 0, t, i, d)
    ensures ChildrenFrom(Tokens(s), |s|, Rec(t, i, d), i + BeginSize(t)) == Ok(Kids(t.items, i + BeginSize(t), d + 1))
  {
    EncodedBlock(s, pre, root, post);
    BlockChildren(Tokens(s), |s|, Positions(s), pre, root, post, t, i, d);
  }

  /** `parent` undoes `children`. */
  lemma ParentUndoesChildren(s: seq<Byte>, pre: nat, root: Tree, post: nat, t: Tree, i: nat, d: nat, x: Node)
    requires Encodes(s, pre, root, post) && Occurs(root, 4 * pre, 0, t, i, d)
    requires x in Kids(t.items, i + BeginSize(t), d + 1)
    ensures Parent(Tokens(s), |s|, x) == Ok(Some(Rec(t, i, d)))
  {
    EncodedBlock(s, pre, root, post);
    BlockParent(Tokens(s), |s|, Positions(s), pre, root, post, t, i, d, x);
  }

  lemma RootHasNoParent(s: seq<Byte>, pre: nat, root: Tree, post: nat)
    requires Encodes(s, pre, root, post)
    ensures Parent(Tokens(s), |s|, Rec(root, 4 * pre, 0)) == Ok(None)
  {
    EncodedBlock(s, pre, root, post);
    var up := BlockRoot(Tokens(s), |s|, Positions(s), pre, root, post);
  }
}
