/** Which physical pages users reach: what the operations on address spaces keep of
    it, one by one and over whole runs (aarch64/src/aspace.rs). */
module UserFrames {
  import opened Prelude
  import opened Arith
  import opened PageTable
  import opened PageMap
  import opened PageRange
  import opened AspaceState

  /** The frame a user root gives the user at an ordinary address, if any. */
  ghost function UserFrame(s: Spaces, r: nat, x: nat): Option<nat> {
    var leaf := LeafAt(s.vm.mem, r, x);
    if r in s.roots && r != s.kernel && Ordinary(Indices(x)) && leaf.Some? && ForUser(leaf.value.entry)
    then Some(leaf.value.entry.frame) else None
  }

  ghost predicate Used(s: Spaces, f: nat) {
    exists r: nat, x: nat :: UserFrame(s, r, x) == Some(f)
  }

  // ----- Three promises about them -----

  ghost predicate ProtectedAt(s: Spaces, r: nat, x: nat) {
    UserFrame(s, r, x).Some? ==> !Owned(s.vm, s.roots, UserFrame(s, r, x).value)
  }

  /** No user is given a table or a page of the allocator's stock. */
  ghost predicate Protected(s: Spaces) {
    forall r: nat, x: nat :: ProtectedAt(s, r, x)
  }

  ghost predicate BackedAt(s: Spaces, r: nat, x: nat) {
    UserFrame(s, r, x).Some? ==> UserFrame(s, r, x).value < FRAMES
  }

  /** Whatever a user is given is memory there is. */
  ghost predicate AllBacked(s: Spaces) {
    forall r: nat, x: nat :: BackedAt(s, r, x)
  }

  ghost predicate ExclusiveAt(s: Spaces, r: nat, x: nat, r': nat, x': nat) {
    UserFrame(s, r, x).Some? && UserFrame(s, r, x) == UserFrame(s, r', x') ==>
      r == r' && PageOf(x, Page4K) == PageOf(x', Page4K)
  }

  /** No page is given to two users, or to one at two addresses. */
  ghost predicate Exclusive(s: Spaces) {
    forall r: nat, x: nat, r': nat, x': nat :: ExclusiveAt(s, r, x, r', x')
  }

  // ----- What a mapping does to user frames -----

  // Address `x` lies in the `n` pages from `va` on.
  predicate Among(va: nat, n: nat, x: nat) {
    PageOf(va, Page4K) <= PageOf(x, Page4K) < PageOf(va, Page4K) + n
  }

  ghost predicate Relabels(s: Spaces, target: nat, va: nat, n: nat, r: nat, x: nat) {
    r == target && r != s.kernel && Ordinary(Indices(x)) && Among(va, n, x)
  }

  ghost predicate FrameAfterAt(s: Spaces, s': Spaces, target: nat, entry: Entry, frame: nat, va: nat, n: nat, r: nat,
                               x: nat) {
    UserFrame(s', r, x) ==
    if Relabels(s, target, va, n, r, x)
    then if ForUser(entry) then Some(Stored(frame + (PageOf(x, Page4K) - PageOf(va, Page4K)))) else None
    else UserFrame(s, r, x)
  }

  /** User frames after `n` pages from `frame` on were mapped in `target` from `va` on. */
  ghost predicate FramesAfter(s: Spaces, s': Spaces, target: nat, entry: Entry, frame: nat, va: nat, n: nat) {
    && s'.roots == s.roots && s'.kernel == s.kernel && target in s.roots
    && forall r: nat, x: nat :: FrameAfterAt(s, s', target, entry, frame, va, n, r, x)
  }

  lemma MappedFrames(s: Spaces, s': Spaces, target: nat, entry: Entry, pa: nat, va: nat, n: nat)
    requires s'.roots == s.roots && s'.kernel == s.kernel && target in s.roots
    requires RangeMapped(s.vm.mem, s'.vm.mem, s.roots, target, entry, pa, va, n, Page4K)
    ensures FramesAfter(s, s', target, entry, pa / 0x1000, va, n)
  {
    var frame := pa / 0x1000;
    forall r: nat, x: nat ensures FrameAfterAt(s, s', target, entry, frame, va, n, r, x) {
      assert RangeMappedAt(s.vm.mem, s'.vm.mem, s.roots, target, entry, pa, va, n, Page4K, r, x);
    }
  }

  ghost predicate FewerOwned(s: Spaces, s': Spaces) {
    forall f: nat :: Owned(s'.vm, s'.roots, f) ==> Owned(s.vm, s.roots, f)
  }

  ghost predicate SameFrameAt(s: Spaces, s': Spaces, r: nat, x: nat) {
    UserFrame(s', r, x) == UserFrame(s, r, x)
  }

  ghost predicate SameFrames(s: Spaces, s': Spaces) {
    forall r: nat, x: nat :: SameFrameAt(s, s', r, x)
  }

  // Nothing changes for users, and no page becomes a table that was none.
  lemma SameFramesKeep(s: Spaces, s': Spaces)
    requires SameFrames(s, s') && FewerOwned(s, s')
    ensures Protected(s) ==> Protected(s')
    ensures AllBacked(s) ==> AllBacked(s')
    ensures Exclusive(s) ==> Exclusive(s')
    ensures forall f: nat :: Used(s', f) ==> Used(s, f)
  {
    if Protected(s) {
      forall r: nat, x: nat ensures ProtectedAt(s', r, x) { assert ProtectedAt(s, r, x) && SameFrameAt(s, s', r, x); }
    }
    if AllBacked(s) {
      forall r: nat, x: nat ensures BackedAt(s', r, x) { assert BackedAt(s, r, x) && SameFrameAt(s, s', r, x); }
    }
    if Exclusive(s) {
      forall r: nat, x: nat, r': nat, x': nat ensures ExclusiveAt(s', r, x, r', x') {
        assert ExclusiveAt(s, r, x, r', x') && SameFrameAt(s, s', r, x) && SameFrameAt(s, s', r', x');
      }
    }
    forall f: nat | Used(s', f) ensures Used(s, f) {
      var r: nat, x: nat :| UserFrame(s', r, x) == Some(f);
      assert SameFrameAt(s, s', r, x);
    }
  }

  // ----- A page fresh from the stock -----

  // A user frame after that is the one before, none, or the fresh one at its own page.
  ghost predicate FreshAt(s: Spaces, s': Spaces, target: nat, f: nat, va: nat, r: nat, x: nat) {
    || UserFrame(s', r, x) == UserFrame(s, r, x)
    || UserFrame(s', r, x).None?
    || (UserFrame(s', r, x) == Some(f) && r == target && PageOf(x, Page4K) == PageOf(va, Page4K))
  }

  ghost predicate Freshly(s: Spaces, s': Spaces, target: nat, f: nat, va: nat) {
    forall r: nat, x: nat :: FreshAt(s, s', target, f, va, r, x)
  }

  lemma OneFresh(s: Spaces, s': Spaces, target: nat, entry: Entry, f: nat, va: nat, n: nat)
    requires FramesAfter(s, s', target, entry, f, va, n) && n <= 1 && f < FRAMES
    ensures Freshly(s, s', target, f, va)
  {
    forall r: nat, x: nat ensures FreshAt(s, s', target, f, va, r, x) {
      assert FrameAfterAt(s, s', target, entry, f, va, n, r, x);
    }
  }

  lemma FreshProtected(s: Spaces, s': Spaces, target: nat, f: nat, va: nat)
    requires Freshly(s, s', target, f, va) && FewerOwned(s, s') && !Owned(s'.vm, s'.roots, f) && Protected(s)
    ensures Protected(s')
  {
    forall r: nat, x: nat
      ensures ProtectedAt(s', r, x)
    {
      assert ProtectedAt(s, r, x) && FreshAt(s, s', target, f, va, r, x);
    }
  }

  lemma FreshBacked(s: Spaces, s': Spaces, target: nat, f: nat, va: nat)
    requires Freshly(s, s', target, f, va) && f < FRAMES && AllBacked(s)
    ensures AllBacked(s')
  {
    forall r: nat, x: nat
      ensures BackedAt(s', r, x)
    {
      assert BackedAt(s, r, x) && FreshAt(s, s', target, f, va, r, x);
    }
  }

  lemma FreshExclusive(s: Spaces, s': Spaces, target: nat, f: nat, va: nat)
    requires Freshly(s, s', target, f, va) && Owned(s.vm, s.roots, f) && Protected(s) && Exclusive(s)
    ensures Exclusive(s')
  {
    forall r: nat, x: nat, r': nat, x': nat ensures ExclusiveAt(s', r, x, r', x') {
      assert FreshAt(s, s', target, f, va, r, x) && FreshAt(s, s', target, f, va, r', x');
      assert ExclusiveAt(s, r, x, r', x') && ProtectedAt(s, r, x) && ProtectedAt(s, r', x');
    }
  }

  lemma FreshUsed(s: Spaces, s': Spaces, target: nat, f: nat, va: nat, g: nat)
    requires Freshly(s, s', target, f, va) && Used(s', g)
    ensures Used(s, g) || g == f
  {
    var r: nat, x: nat :| UserFrame(s', r, x) == Some(g);
    assert FreshAt(s, s', target, f, va, r, x);
  }

  /** A page out of the stock given to one user keeps all three promises. */
  lemma FreshKeeps(s: Spaces, s': Spaces, target: nat, f: nat, va: nat)
    requires Freshly(s, s', target, f, va) && f < FRAMES && FewerOwned(s, s')
    requires Owned(s.vm, s.roots, f) && !Owned(s'.vm, s'.roots, f)
    ensures Protected(s) ==> Protected(s')
    ensures AllBacked(s) ==> AllBacked(s')
    ensures Protected(s) && Exclusive(s) ==> Exclusive(s')
    ensures forall g: nat :: Used(s', g) ==> Used(s, g) || g == f
  {
    if Protected(s) { FreshProtected(s, s', target, f, va); }
    if AllBacked(s) { FreshBacked(s, s', target, f, va); }
    if Protected(s) && Exclusive(s) { FreshExclusive(s, s', target, f, va); }
    forall g: nat | Used(s', g) ensures Used(s, g) || g == f { FreshUsed(s, s', target, f, va, g); }
  }

  // ----- A device range -----

  // The frame numbers of a physical range.
  predicate Lies(range: PhysRange, g: nat) {
    range.start / 0x1000 <= g && (g - range.start / 0x1000) * 0x1000 < range.end - range.start
  }

  // What descriptors store for the `n` pages from `frame` on is no table and not stock.
  ghost predicate FramesClear(s: Spaces, frame: nat, n: nat) {
    forall g: nat :: frame <= g < frame + n ==> !Owned(s.vm, s.roots, Stored(g))
  }

  ghost predicate FramesBacked(frame: nat, n: nat) {
    forall g: nat :: frame <= g < frame + n ==> Stored(g) < FRAMES
  }

  ghost predicate FreeAt(s: Spaces, target: nat, va: nat, n: nat, g: nat, r: nat, x: nat) {
    Relabels(s, target, va, n, r, x) || UserFrame(s, r, x) != Some(Stored(g))
  }

  // No user translation that survives the mapping gives one of them.
  ghost predicate FramesFree(s: Spaces, target: nat, va: nat, frame: nat, n: nat) {
    forall g: nat, r: nat, x: nat :: frame <= g < frame + n ==> FreeAt(s, target, va, n, g, r, x)
  }

  // A page of the range at an address of its own.
  lemma PageOfRange(s: Spaces, s': Spaces, target: nat, entry: Entry, frame: nat, va: nat, n: nat, g: nat)
    returns (x: nat)
    requires FramesAfter(s, s', target, entry, frame, va, n) && target != s.kernel && ForUser(entry)
    requires PageOf(va, Page4K) + n <= WINDOW && frame <= g < frame + n
    ensures UserFrame(s', target, x) == Some(Stored(g)) && PageOf(x, Page4K) == PageOf(va, Page4K) + (g - frame)
    ensures Relabels(s, target, va, n, target, x)
  {
    x := PageWithNumber(PageOf(va, Page4K) + (g - frame));
    assert FrameAfterAt(s, s', target, entry, frame, va, n, target, x);
  }

  // The page of the range that gives `x` its frame.
  lemma RangeFrame(s: Spaces, s': Spaces, target: nat, entry: Entry, frame: nat, va: nat, n: nat, r: nat, x: nat)
    returns (g: nat)
    requires FramesAfter(s, s', target, entry, frame, va, n) && Relabels(s, target, va, n, r, x) && ForUser(entry)
    ensures frame <= g < frame + n && g - frame == PageOf(x, Page4K) - PageOf(va, Page4K)
    ensures UserFrame(s', r, x) == Some(Stored(g))
  {
    assert FrameAfterAt(s, s', target, entry, frame, va, n, r, x);
    g := frame + (PageOf(x, Page4K) - PageOf(va, Page4K));
  }

  /** Tables stay out of reach if and only if none of the frames stored is one. */
  lemma DeviceProtectedIff(s: Spaces, s': Spaces, target: nat, entry: Entry, frame: nat, va: nat, n: nat)
    requires FramesAfter(s, s', target, entry, frame, va, n) && target != s.kernel && ForUser(entry)
    requires SameOwned(s.vm, s'.vm, s.roots) && Protected(s) && (n > 0 ==> PageOf(va, Page4K) + n <= WINDOW)
    ensures Protected(s') <==> FramesClear(s, frame, n)
  {
    if FramesClear(s, frame, n) {
      forall r: nat, x: nat ensures ProtectedAt(s', r, x) {
        assert ProtectedAt(s, r, x) && FrameAfterAt(s, s', target, entry, frame, va, n, r, x);
        if Relabels(s, target, va, n, r, x) { var g := RangeFrame(s, s', target, entry, frame, va, n, r, x); }
      }
    }
    if Protected(s') {
      forall g: nat | frame <= g < frame + n ensures !Owned(s.vm, s.roots, Stored(g)) {
        var x := PageOfRange(s, s', target, entry, frame, va, n, g);
        assert ProtectedAt(s', target, x);
      }
    }
  }

  /** Users are given existing memory only if and only if the frames stored exist. */
  lemma DeviceBackedIff(s: Spaces, s': Spaces, target: nat, entry: Entry, frame: nat, va: nat, n: nat)
    requires FramesAfter(s, s', target, entry, frame, va, n) && target != s.kernel && ForUser(entry)
    requires AllBacked(s) && (n > 0 ==> PageOf(va, Page4K) + n <= WINDOW)
    ensures AllBacked(s') <==> FramesBacked(frame, n)
  {
    if FramesBacked(frame, n) {
      forall r: nat, x: nat ensures BackedAt(s', r, x) {
        assert BackedAt(s, r, x) && FrameAfterAt(s, s', target, entry, frame, va, n, r, x);
        if Relabels(s, target, va, n, r, x) { var g := RangeFrame(s, s', target, entry, frame, va, n, r, x); }
      }
    }
    if AllBacked(s') {
      forall g: nat | frame <= g < frame + n ensures Stored(g) < FRAMES {
        var x := PageOfRange(s, s', target, entry, frame, va, n, g);
        assert BackedAt(s', target, x);
      }
    }
  }

  // Fewer than 2^36 consecutive frames are stored apart.
  lemma StoredApart(g: nat, h: nat)
    requires Stored(g) == Stored(h) && g < h + FIELD && h < g + FIELD
    ensures g == h
  {
    var a, b := g / FIELD, h / FIELD;
    assert g == a * FIELD + g % FIELD && h == b * FIELD + h % FIELD;
    if a < b { MulMono(a + 1, b, FIELD); MulStep(a, FIELD); }
    if b < a { MulMono(b + 1, a, FIELD); MulStep(b, FIELD); }
  }

  /** No page gets a second user if and only if no user translation that survives
      the mapping gives one of the frames stored. */
  lemma DeviceExclusiveIff(s: Spaces, s': Spaces, target: nat, entry: Entry, frame: nat, va: nat, n: nat)
    requires FramesAfter(s, s', target, entry, frame, va, n) && target != s.kernel && ForUser(entry)
    requires Exclusive(s) && (n > 0 ==> PageOf(va, Page4K) + n <= WINDOW)
    ensures Exclusive(s') <==> FramesFree(s, target, va, frame, n)
  {
    if FramesFree(s, target, va, frame, n) {
      forall r: nat, x: nat, r': nat, x': nat ensures ExclusiveAt(s', r, x, r', x') {
        FreeKeepsExclusive(s, s', target, entry, frame, va, n, r, x, r', x');
      }
    }
    if Exclusive(s') {
      forall g: nat, r: nat, x: nat | frame <= g < frame + n ensures FreeAt(s, target, va, n, g, r, x) {
        var y := PageOfRange(s, s', target, entry, frame, va, n, g);
        assert FrameAfterAt(s, s', target, entry, frame, va, n, r, x) && ExclusiveAt(s', r, x, target, y);
      }
    }
  }

  lemma FreeKeepsExclusive(s: Spaces, s': Spaces, target: nat, entry: Entry, frame: nat, va: nat, n: nat,
                           r: nat, x: nat, r': nat, x': nat)
    requires FramesAfter(s, s', target, entry, frame, va, n) && target != s.kernel && ForUser(entry)
    requires Exclusive(s) && FramesFree(s, target, va, frame, n) && (n > 0 ==> PageOf(va, Page4K) + n <= WINDOW)
    ensures ExclusiveAt(s', r, x, r', x')
  {
    var a, b := Relabels(s, target, va, n, r, x), Relabels(s, target, va, n, r', x');
    assert FrameAfterAt(s, s', target, entry, frame, va, n, r, x)
           && FrameAfterAt(s, s', target, entry, frame, va, n, r', x');
    assert ExclusiveAt(s, r, x, r', x');
    if a {
      var g := RangeFrame(s, s', target, entry, frame, va, n, r, x);
      assert FreeAt(s, target, va, n, g, r', x');
      if b {
        var h := RangeFrame(s, s', target, entry, frame, va, n, r', x');
        if Stored(g) == Stored(h) { StoredApart(g, h); }
      }
    } else if b {
      var h := RangeFrame(s, s', target, entry, frame, va, n, r', x');
      assert FreeAt(s, target, va, n, h, r, x);
    }
  }
}
