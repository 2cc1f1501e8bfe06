/** The flattened devicetree walker (core/src/fdt.rs) over the structure block of
    section 5.4 of the Devicetree Specification. */
module Fdt {
  import opened Prelude

  // ----- Tokens -----

  type Positive = n: nat | n > 0 witness 1

  datatype Token =
    | BeginNode(nameStart: nat, len: Positive)
    | EndNode
    | PropToken(nameOff: nat, valueStart: nat, valueLen: nat, len: Positive)
    | NopToken
    | EndToken

  function Length(t: Token): Positive {
    match t case BeginNode(_, len) => len case PropToken(_, _, _, len) => len case _ => 4
  }

  function Align4(n: nat): (r: nat)
    ensures n <= r < n + 4 && r % 4 == 0
  {
    n + (4 - n % 4) % 4
  }

  function ReadU32(s: seq<Byte>, i: nat): Option<nat> {
    if i + 4 <= |s| then Some(FromBe32(s[i], s[i + 1], s[i + 2], s[i + 3])) else None
  }

  function FromBe32(a: nat, b: nat, c: nat, d: nat): nat {
    a * 0x100_0000 + b * 0x1_0000 + c * 0x100 + d
  }

  // The first zero byte at or after `i`.
  function FindZero(s: seq<Byte>, i: nat): (r: Option<nat>)
    ensures r.Some? ==> i <= r.value < |s| && s[r.value] == 0
    decreases |s| - i
  {
    if i >= |s| then None else if s[i] == 0 then Some(i) else FindZero(s, i + 1)
  }

  function ParseToken(s: seq<Byte>, i: nat): Option<Token> {
    match ReadU32(s, i)
    case None => None
    case Some(tag) =>
      if tag == 1 then
        var zero := FindZero(s, i + 4);
        Some(BeginNode(i + 4, 4 + if zero.Some? then Align4(zero.value - (i + 4) + 1) else 0))
      else if tag == 2 then Some(EndNode)
      else if tag == 3 then
        var len := ReadU32(s, i + 4);
        var nameOff := ReadU32(s, i + 8);
        Some(PropToken(if nameOff.Some? then nameOff.value else 0, i + 12, if len.Some? then len.value else 0,
                       12 + Align4(if len.Some? then len.value else 0)))
      else if tag == 4 then Some(NopToken)
      else if tag == 9 then Some(EndToken)
      else None
  }

  // ----- The walker -----

  /** The walks read a block through the token at each position. */
  type Reader = nat -> Option<Token>

  function Tokens(s: seq<Byte>): Reader {
    (i: nat) => ParseToken(s, i)
  }

  datatype Node = Node(start: nat, nameStart: nat, nextTokenStart: nat, totalLen: nat, depth: nat) {
    function End(): nat { start + totalLen }

    predicate Encloses(child: Node) {
      start <= child.start && End() >= child.End()
    }
  }

  predicate Sensible(n: Node) {
    0 < n.totalLen && n.start < n.nextTokenStart
  }

  // The walk would decrement a depth of zero.
  datatype Panic = DepthUnderflow

  type Outcome<T> = Result<Option<T>, Panic>

  // The node whose begin token was found, so far.
  datatype Open = Open(start: nat, nameStart: nat, next: nat)

  function Close(o: Open, end: nat, depth: nat): Node
    requires o.start <= end
  {
    Node(o.start, o.nameStart, o.next, end - o.start, depth)
  }

  // Where the node to be returned starts, at the earliest.
  ghost function From(open: Option<Open>, i: nat): nat {
    if open.Some? then open.value.start else i
  }

  ghost predicate Before(open: Option<Open>, i: nat) {
    open.Some? ==> open.value.start < open.value.next <= i
  }

  // Where a walk stands: position, depth, and the node it has open.
  datatype Place = Place(i: nat, depth: nat, open: Option<Open>)

  // One token of a walk: on to another place, or done.
  datatype Step<T> = Go(place: Place) | Done(result: Outcome<T>)

  /** One round of the loop in `node_from_index`. */
  function ScanStep(token: Option<Token>, p: Place, target: nat): (r: Step<Node>)
    requires Before(p.open, p.i)
    ensures r.Go? ==>
      p.i < r.place.i && Before(r.place.open, r.place.i) && From(p.open, p.i) <= From(r.place.open, r.place.i)
    ensures r.Done? && r.result.Ok? && r.result.value.Some? ==>
      var n := r.result.value.value; Sensible(n) && n.End() == p.i + 4 && From(p.open, p.i) <= n.start
  {
    match token
    case None => Done(Ok(None))
    case Some(BeginNode(nameStart, len)) =>
      Go(Place(p.i + len, p.depth + 1, if p.depth == target then Some(Open(p.i, nameStart, p.i + len)) else p.open))
    case Some(EndNode) =>
      if p.depth == 0 then Done(Err(DepthUnderflow))
      else if p.depth - 1 == target
      then Done(Ok(if p.open.Some? then Some(Close(p.open.value, p.i + 4, target)) else None))
      else Go(Place(p.i + 4, p.depth - 1, p.open))
    case Some(t) => Go(Place(p.i + Length(t), p.depth, p.open))
  }

  /** `node_from_index`, from a place on. */
  function Scan(tok: Reader, n: nat, p: Place, target: nat): (r: Outcome<Node>)
    requires Before(p.open, p.i)
    ensures r.Ok? && r.value.Some? ==>
      var x := r.value.value; Sensible(x) && x.End() < n + 4 && From(p.open, p.i) <= x.start
    decreases n - p.i
  {
    if p.i >= n then Ok(None)
    else match ScanStep(tok(p.i), p, target) case Done(r) => r case Go(q) => Scan(tok, n, q, target)
  }

  method NodeFromIndex(s: seq<Byte>, start: nat, target: nat) returns (r: Outcome<Node>)
    ensures r == Scan(Tokens(s), |s|, Place(start, target, None), target)
  {
    var p := Place(start, target, None);
    while p.i < |s|
      invariant Before(p.open, p.i)
      invariant Scan(Tokens(s), |s|, Place(start, target, None), target) == Scan(Tokens(s), |s|, p, target)
      decreases |s| - p.i
    {
      match ScanStep(ParseToken(s, p.i), p, target) {
        case Done(done) => return done;
        case Go(q) => p := q;
      }
    }
    return Ok(None);
  }

  // What the iterator behind `nodes` yields: a node, and where to go on at what depth.
  datatype Found = Found(node: Node, next: nat, depth: nat)

  /** One round of the loop in `nodes`. */
  function NextStep(token: Option<Token>, p: Place, openDepth: nat): (r: (Step<Found>, nat))
    requires Before(p.open, p.i)
    ensures r.0.Go? ==>
      p.i < r.0.place.i && Before(r.0.place.open, r.0.place.i) && From(p.open, p.i) <= From(r.0.place.open, r.0.place.i)
    ensures r.0.Done? && r.0.result.Ok? && r.0.result.value.Some? ==>
      var f := r.0.result.value.value; f.next <= p.i && From(p.open, p.i) < f.next
  {
    match token
    case None => (Done(Ok(None)), openDepth)
    case Some(BeginNode(nameStart, len)) =>
      if p.open.None? then (Go(Place(p.i + len, p.depth + 1, Some(Open(p.i, nameStart, p.i + len)))), p.depth)
      else (Go(Place(p.i + len, p.depth + 1, p.open)), openDepth)
    case Some(EndNode) =>
      if p.depth == 0 then (Done(Err(DepthUnderflow)), openDepth)
      else if p.open.Some? && p.depth - 1 == openDepth
      then (Done(Ok(Some(Found(Close(p.open.value, p.i + 4, openDepth), p.open.value.next, p.depth)))), openDepth)
      else (Go(Place(p.i + 4, p.depth - 1, p.open)), openDepth)
    case Some(t) => (Go(Place(p.i + Length(t), p.depth, p.open)), openDepth)
  }

  /** One call of the iterator, from a place on. */
  function ScanNext(tok: Reader, n: nat, p: Place, openDepth: nat): (r: Outcome<Found>)
    requires Before(p.open, p.i)
    ensures r.Ok? && r.value.Some? ==> r.value.value.next < n && From(p.open, p.i) < r.value.value.next
    decreases n - p.i
  {
    if p.i >= n then Ok(None)
    else match NextStep(tok(p.i), p, openDepth) case (Done(r), _) => r case (Go(q), d) => ScanNext(tok, n, q, d)
  }

  /** All nodes the iterator yields from position `i` at `depth` on. */
  function NodesFrom(tok: Reader, n: nat, i: nat, depth: nat): Result<seq<Node>, Panic>
    decreases n + 4 - i
  {
    match ScanNext(tok, n, Place(i, depth, None), 0)
    case Err(e) => Err(e)
    case Ok(None) => Ok([])
    case Ok(Some(f)) => Prepend([f.node], NodesFrom(tok, n, f.next, f.depth))
  }

  function Prepend(a: seq<Node>, r: Result<seq<Node>, Panic>): Result<seq<Node>, Panic> {
    match r case Ok(b) => Ok(a + b) case Err(e) => Err(e)
  }

  lemma PrependTwice(a: seq<Node>, b: seq<Node>, r: Result<seq<Node>, Panic>)
    ensures Prepend(a, Prepend(b, r)) == Prepend(a + b, r) && Prepend([], r) == r
  {
    if r.Ok? { assert a + (b + r.value) == (a + b) + r.value && [] + r.value == r.value; }
  }

  lemma PrependNothing(a: seq<Node>)
    ensures Prepend(a, Ok([])) == Ok(a)
  {
    assert a + [] == a;
  }

  method NextNode(s: seq<Byte>, i: nat, depth: nat) returns (r: Outcome<Found>)
    ensures r == ScanNext(Tokens(s), |s|, Place(i, depth, None), 0)
  {
    var p, openDepth := Place(i, depth, None), 0;
    while p.i < |s|
      invariant Before(p.open, p.i)
      invariant ScanNext(Tokens(s), |s|, Place(i, depth, None), 0) == ScanNext(Tokens(s), |s|, p, openDepth)
      decreases |s| - p.i
    {
      match NextStep(ParseToken(s, p.i), p, openDepth) {
        case (Done(done), _) => return done;
        case (Go(q), d) => p, openDepth := q, d;
      }
    }
    return Ok(None);
  }

  method Nodes(s: seq<Byte>) returns (r: Result<seq<Node>, Panic>)
    ensures r == NodesFrom(Tokens(s), |s|, 0, 0)
  {
    var i: nat, depth: nat, nodes: seq<Node> := 0, 0, [];
    PrependTwice([], [], NodesFrom(Tokens(s), |s|, 0, 0));
    while true
      invariant NodesFrom(Tokens(s), |s|, 0, 0) == Prepend(nodes, NodesFrom(Tokens(s), |s|, i, depth)) && i <= |s|
      decreases |s| - i
    {
      var next := NextNode(s, i, depth);
      PrependNothing(nodes);
      match next {
        case Err(e) => return Err(e);
        case Ok(None) => return Ok(nodes);
        case Ok(Some(f)) =>
          PrependTwice(nodes, [f.node], NodesFrom(Tokens(s), |s|, f.next, f.depth));
          i, depth, nodes := f.next, f.depth, nodes + [f.node];
      }
    }
  }

  /** All nodes `children` yields from position `i` on. */
  function ChildrenFrom(tok: Reader, n: nat, parent: Node, i: nat): Result<seq<Node>, Panic>
    decreases n + 4 - i
  {
    match Scan(tok, n, Place(i, parent.depth + 1, None), parent.depth + 1)
    case Err(e) => Err(e)
    case Ok(None) => Ok([])
    case Ok(Some(child)) =>
      if parent.Encloses(child) then Prepend([child], ChildrenFrom(tok, n, parent, child.End())) else Ok([])
  }

  method Children(s: seq<Byte>, parent: Node) returns (r: Result<seq<Node>, Panic>)
    ensures r == ChildrenFrom(Tokens(s), |s|, parent, parent.nextTokenStart)
  {
    var i: nat, kids: seq<Node> := parent.nextTokenStart, [];
    PrependTwice([], [], ChildrenFrom(Tokens(s), |s|, parent, i));
    while true
      invariant ChildrenFrom(Tokens(s), |s|, parent, parent.nextTokenStart)
                == Prepend(kids, ChildrenFrom(Tokens(s), |s|, parent, i))
      decreases |s| + 4 - i
    {
      var next := NodeFromIndex(s, i, parent.depth + 1);
      PrependNothing(kids);
      match next {
        case Err(e) => return Err(e);
        case Ok(None) => return Ok(kids);
        case Ok(Some(child)) =>
          if !parent.Encloses(child) { return Ok(kids); }
          PrependTwice(kids, [child], ChildrenFrom(Tokens(s), |s|, parent, child.End()));
          i, kids := child.End(), kids + [child];
      }
    }
  }

  /** The descent of `parent`: the node, or the first answer among its children. */
  function FindParent(tok: Reader, n: nat, node: Node, child: Node): Outcome<Node>
    requires Sensible(node)
    decreases node.totalLen, 1, 0
  {
    if !node.Encloses(child) || node.depth >= child.depth then Ok(None)
    else if node.depth + 1 < child.depth then FindAmong(tok, n, node, node.nextTokenStart, child)
    else Ok(Some(node))
  }

  function FindAmong(tok: Reader, n: nat, node: Node, i: nat, child: Node): Outcome<Node>
    requires Sensible(node) && node.start < i
    decreases node.totalLen, 0, n + 4 - i
  {
    match Scan(tok, n, Place(i, node.depth + 1, None), node.depth + 1)
    case Err(e) => Err(e)
    case Ok(None) => Ok(Some(node))
    case Ok(Some(c)) =>
      if !node.Encloses(c) then Ok(Some(node))
      else match FindParent(tok, n, c, child)
        case Ok(None) => FindAmong(tok, n, node, c.End(), child)
        case r => r
  }

  function Parent(tok: Reader, n: nat, child: Node): Outcome<Node> {
    match Scan(tok, n, Place(0, 0, None), 0)
    case Ok(Some(root)) => FindParent(tok, n, root, child)
    case r => r
  }

  // ----- Trees and their encoding -----

  datatype Tree = Tree(name: seq<Byte>, items: seq<Item>)

  datatype Item = Prop(nameOff: nat, value: seq<Byte>) | Nop | Child(tree: Tree)

  predicate WellFormed(t: Tree) {
    0 !in t.name && WellFormedItems(t.items)
  }

  predicate WellFormedItem(x: Item) {
    match x
    case Prop(nameOff, value) => nameOff < 0x1_0000_0000 && |value| < 0x1_0000_0000
    case Nop => true
    case Child(t) => WellFormed(t)
  }

  predicate WellFormedItems(items: seq<Item>) {
    forall i :: 0 <= i < |items| ==> WellFormedItem(items[i])
  }

  function Be32(n: nat): (b: seq<Byte>)
    requires n < 0x1_0000_0000
    ensures |b| == 4
  {
    [n / 256 / 256 / 256, n / 256 / 256 % 256, n / 256 % 256, n % 256]
  }

  function Pad(s: seq<Byte>): (r: seq<Byte>)
    ensures |r| == Align4(|s|)
  {
    s + seq(Align4(|s|) - |s|, _ => 0)
  }

  function BeginBytes(name: seq<Byte>): (r: seq<Byte>) {
    Be32(1) + Pad(name + [0])
  }

  function EncTree(t: Tree): seq<Byte>
    requires WellFormed(t)
  {
    BeginBytes(t.name) + EncItems(t.items) + Be32(2)
  }

  function EncItem(x: Item): seq<Byte>
    requires WellFormedItem(x)
  {
    match x
    case Prop(nameOff, value) => Be32(3) + Be32(|value|) + Be32(nameOff) + Pad(value)
    case Nop => Be32(4)
    case Child(t) => EncTree(t)
  }

  function EncItems(items: seq<Item>): seq<Byte>
    requires WellFormedItems(items)
  {
    if items == [] then [] else EncItem(items[0]) + EncItems(items[1..])
  }

  // ----- Positions in a block -----

  /** What is left of a block at some position: the rest of the items of the node
      the position is in, and what follows that node. */
  datatype Ctx = Top(items: seq<Item>) | Up(items: seq<Item>, up: Ctx) {
    function Rest(): Ctx
      requires items != []
    {
      this.(items := items[1..])
    }

    function Depth(): nat { if Top? then 0 else 1 + up.Depth() }
  }

  ghost predicate WellFormedCtx(c: Ctx) {
    WellFormedItems(c.items) && (c.Up? ==> WellFormedCtx(c.up))
  }

  ghost function EncCtx(c: Ctx): seq<Byte>
    requires WellFormedCtx(c)
  {
    EncItems(c.items) + (if c.Top? then Be32(9) else Be32(2) + EncCtx(c.up))
  }

  ghost predicate At(s: seq<Byte>, i: nat, c: Ctx) {
    i <= |s| && WellFormedCtx(c) && s[i..] == EncCtx(c)
  }

  lemma ReadBack(s: seq<Byte>, i: nat, n: nat, rest: seq<Byte>)
    requires n < 0x1_0000_0000 && i <= |s| && s[i..] == Be32(n) + rest
    ensures ReadU32(s, i) == Some(n) && s[i + 4..] == rest
  {
    var t := s[i..];
    assert s[i] == t[0] && s[i + 1] == t[1] && s[i + 2] == t[2] && s[i + 3] == t[3];
    assert s[i + 4..] == t[4..];
  }

  lemma {:induction false} ZeroAfter(s: seq<Byte>, i: nat, n: nat)
    requires i + n < |s| && s[i + n] == 0 && 0 !in s[i..i + n]
    ensures FindZero(s, i) == Some(i + n)
    decreases n
  {
    if n > 0 {
      assert s[i] == s[i..i + n][0];
      assert s[i + 1..i + n] == s[i..i + n][1..];
      ZeroAfter(s, i + 1, n - 1);
    }
  }

  lemma Assoc(a: seq<Byte>, b: seq<Byte>, c: seq<Byte>)
    ensures (a + b) + c == a + (b + c)
  {
  }

  lemma Drop(s: seq<Byte>, i: nat, a: seq<Byte>, rest: seq<Byte>)
    requires i <= |s| && s[i..] == a + rest
    ensures i + |a| <= |s| && s[i + |a|..] == rest
  {
    assert s[i + |a|..] == s[i..][|a|..];
  }

  lemma ParseBegin(s: seq<Byte>, i: nat, name: seq<Byte>, rest: seq<Byte>)
    requires i <= |s| && s[i..] == BeginBytes(name) + rest && 0 !in name
    ensures ParseToken(s, i) == Some(BeginNode(i + 4, |BeginBytes(name)|))
  {
    Assoc(Be32(1), Pad(name + [0]), rest);
    ReadBack(s, i, 1, Pad(name + [0]) + rest);
    NameEnds(s, i + 4, name, rest);
    BeginParses(s, i, |name|);
  }

  lemma BeginParses(s: seq<Byte>, i: nat, n: nat)
    requires ReadU32(s, i) == Some(1) && FindZero(s, i + 4) == Some(i + 4 + n)
    ensures ParseToken(s, i) == Some(BeginNode(i + 4, 4 + Align4(n + 1)))
  {
  }

  lemma NameEnds(s: seq<Byte>, i: nat, name: seq<Byte>, rest: seq<Byte>)
    requires i <= |s| && s[i..] == Pad(name + [0]) + rest && 0 !in name
    ensures FindZero(s, i) == Some(i + |name|)
  {
    var t := s[i..];
    assert t[..|name|] == name && t[|name|] == 0;
    assert s[i..i + |name|] == t[..|name|] && s[i + |name|] == t[|name|];
    ZeroAfter(s, i, |name|);
  }

  lemma ParseProp(s: seq<Byte>, i: nat, nameOff: nat, value: seq<Byte>, rest: seq<Byte>)
    requires nameOff < 0x1_0000_0000 && |value| < 0x1_0000_0000
    requires i <= |s| && s[i..] == EncItem(Prop(nameOff, value)) + rest
    ensures ParseToken(s, i) == Some(PropToken(nameOff, i + 12, |value|, |EncItem(Prop(nameOff, value))|))
  {
    PropReads(s, i, |value|, nameOff, Pad(value), rest);
    PropParses(s, i, |value|, nameOff);
  }

  lemma PropParses(s: seq<Byte>, i: nat, len: nat, nameOff: nat)
    requires ReadU32(s, i) == Some(3) && ReadU32(s, i + 4) == Some(len) && ReadU32(s, i + 8) == Some(nameOff)
    ensures ParseToken(s, i) == Some(PropToken(nameOff, i + 12, len, 12 + Align4(len)))
  {
  }

  lemma PropReads(s: seq<Byte>, i: nat, len: nat, nameOff: nat, padded: seq<Byte>, rest: seq<Byte>)
    requires nameOff < 0x1_0000_0000 && len < 0x1_0000_0000
    requires i <= |s| && s[i..] == Be32(3) + Be32(len) + Be32(nameOff) + padded + rest
    ensures ReadU32(s, i) == Some(3) && ReadU32(s, i + 4) == Some(len) && ReadU32(s, i + 8) == Some(nameOff)
  {
    var a := padded + rest;
    var b := Be32(nameOff) + a;
    Assoc(Be32(3) + Be32(len) + Be32(nameOff), padded, rest);
    Assoc(Be32(3) + Be32(len), Be32(nameOff), a);
    Assoc(Be32(3), Be32(len), b);
    ReadBack(s, i, 3, Be32(len) + b);
    ReadBack(s, i + 4, len, b);
    ReadBack(s, i + 8, nameOff, a);
  }

  // A token other than the begin or end of a node, `len` bytes long.
  ghost predicate SimpleToken(t: Option<Token>, len: nat) {
    t.Some? && !t.value.BeginNode? && !t.value.EndNode? && Length(t.value) == len
  }

  ghost predicate ChildToken(s: seq<Byte>, i: nat, t: Tree, rest: seq<Byte>) {
    && WellFormed(t) && ParseToken(s, i) == Some(BeginNode(i + 4, |BeginBytes(t.name)|))
    && i + |BeginBytes(t.name)| <= |s| && s[i + |BeginBytes(t.name)|..] == EncItems(t.items) + (Be32(2) + rest)
  }

  // What follows the items at a position.
  ghost function Tail(c: Ctx): seq<Byte>
    requires WellFormedCtx(c)
  {
    if c.Top? then Be32(9) else Be32(2) + EncCtx(c.up)
  }

  /** The token at a position, and the position after it. */
  lemma TokenAt(s: seq<Byte>, i: nat, c: Ctx)
    requires At(s, i, c)
    ensures i < |s|
    ensures c.items == [] && c.Top? ==> ParseToken(s, i) == Some(EndToken) && i + 4 == |s|
    ensures c.items == [] && c.Up? ==> ParseToken(s, i) == Some(EndNode) && At(s, i + 4, c.up)
    ensures c.items != [] && !c.items[0].Child? ==>
      SimpleToken(ParseToken(s, i), |EncItem(c.items[0])|) && At(s, i + |EncItem(c.items[0])|, c.Rest())
    ensures c.items != [] && c.items[0].Child? ==>
      var t := c.items[0].tree;
      && WellFormed(t) && ParseToken(s, i) == Some(BeginNode(i + 4, |BeginBytes(t.name)|))
      && At(s, i + |BeginBytes(t.name)|, Up(t.items, c.Rest())) && At(s, i + |EncItem(c.items[0])|, c.Rest())
  {
    var tail := Tail(c);
    if c.items == [] {
      assert s[i..] == tail;
      if c.Top? {
        assert tail == Be32(9) + [];
        ReadBack(s, i, 9, []);
      } else {
        ReadBack(s, i, 2, EncCtx(c.up));
      }
    } else {
      var rest := EncCtx(c.Rest());
      assert s[i..] == EncItem(c.items[0]) + rest by { Assoc(EncItem(c.items[0]), EncItems(c.items[1..]), tail); }
      ItemAt(s, i, c.items[0], rest);
    }
  }

  lemma ItemAt(s: seq<Byte>, i: nat, x: Item, rest: seq<Byte>)
    requires i <= |s| && WellFormedItem(x) && s[i..] == EncItem(x) + rest
    ensures i + |EncItem(x)| <= |s| && s[i + |EncItem(x)|..] == rest && |EncItem(x)| > 0
    ensures !x.Child? ==> SimpleToken(ParseToken(s, i), |EncItem(x)|)
    ensures x.Child? ==> ChildToken(s, i, x.tree, rest)
  {
    Drop(s, i, EncItem(x), rest);
    match x {
      case Nop => ReadBack(s, i, 4, rest);
      case Prop(nameOff, value) => ParseProp(s, i, nameOff, value, rest);
      case Child(t) =>
        assert WellFormed(t);
        Assoc(BeginBytes(t.name) + EncItems(t.items), Be32(2), rest);
        Assoc(BeginBytes(t.name), EncItems(t.items), Be32(2) + rest);
        Drop(s, i, BeginBytes(t.name), EncItems(t.items) + (Be32(2) + rest));
        ParseBegin(s, i, t.name, EncItems(t.items) + (Be32(2) + rest));
    }
  }
}
