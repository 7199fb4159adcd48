/** The synthetic tree workload: make_tree, destroy_tree, count and the
    main program that drives them. The global create_garbage flag is the
    parameter `garbage`, passed down the recursion. */
module Workload {
  import opened Wrappers
  import opened Nodes
  import opened Trees
  import opened Roots
  import opened Allocator

  /** The number of allocate() calls make_tree(depth) makes: one per node
      of the result, plus those of the junk branch built first at every
      level when garbage is on. */
  function Allocations(depth: nat, garbage: bool): nat
  {
    if depth == 0 then 0
    else (if garbage then Allocations(depth - 1, garbage) else 0)
         + 2 * Allocations(depth - 1, garbage) + 1
  }

  /** The number of deallocate() calls make_tree(depth) makes with manual
      deallocation: the junk branches destroyed at every level. */
  function Deallocations(depth: nat, garbage: bool): nat
  {
    if depth == 0 then 0
    else (if garbage then Deallocations(depth - 1, garbage) + (Pow2(depth - 1) - 1) else 0)
         + 2 * Deallocations(depth - 1, garbage)
  }

  /** The root-stack operations make_tree(depth) performs when entered with
      `base` slots registered: the junk slot n (when garbage is on), then
      l, r and t pushed in that order, each set once, all cleared, and
      popped as t, r, l. */
  function RootLog(base: nat, depth: nat, garbage: bool): seq<RootOp>
    decreases depth, 2
  {
    if depth == 0 then []
    else (if garbage then JunkLog(base, depth, garbage) else [])
         + SubtreesLog(base, depth, garbage) + Epilogue(base)
  }

  /** A slot registered on top of `base` others and set to the result of
      make_tree(depth - 1), which is a node exactly when depth > 1 (lines
      30-32, 39-41 and 44-46). */
  function SlotLog(base: nat, depth: nat, garbage: bool): seq<RootOp>
    requires depth > 0
    decreases depth, 0
  {
    [Pushed(base, false)] + RootLog(base + 1, depth - 1, garbage) + [Assigned(base, depth > 1)]
  }

  /** Lines 28-36: slot n set to the junk branch, then cleared and popped. */
  function JunkLog(base: nat, depth: nat, garbage: bool): seq<RootOp>
    requires depth > 0
    decreases depth, 1
  {
    SlotLog(base, depth, garbage) + [Cleared(base), Popped(base)]
  }

  /** Lines 38-46: slots l and r set to the two subtrees. */
  function SubtreesLog(base: nat, depth: nat, garbage: bool): seq<RootOp>
    requires depth > 0
    decreases depth, 1
  {
    SlotLog(base, depth, garbage) + SlotLog(base + 1, depth, garbage)
  }

  /** Lines 49-61: t registered and set to the new node, l, r and t
      cleared, then the three pops. */
  function Epilogue(base: nat): seq<RootOp>
  {
    [Pushed(base + 2, false)] + [Assigned(base + 2, true)]
    + [Cleared(base)] + [Cleared(base + 1)] + [Cleared(base + 2)]
    + [Popped(base + 2)] + [Popped(base + 1)] + [Popped(base)]
  }

  // Sequence and map identities. Each holds by Dafny's built-in axioms
  // alone; they are stated once here so that the larger proofs and methods
  // that need them do not have to rediscover them in a big context.

  lemma SetLast<T>(t: seq<T>, y: T, v: T)
    ensures (t + [y])[|t| := v] == t + [v]
  {
  }

  lemma SetBeforeLast<T>(t: seq<T>, x: T, y: T, v: T)
    ensures (t + [x] + [y])[|t| := v] == t + [v] + [y]
  {
  }

  lemma SetThirdLast<T>(t: seq<T>, x: T, y: T, z: T, v: T)
    ensures (t + [x] + [y] + [z])[|t| := v] == t + [v] + [y] + [z]
  {
  }

  lemma DropLast<T>(t: seq<T>, x: T)
    ensures (t + [x])[..|t|] == t
  {
  }

  lemma Overwrite(h: Store, a: nat, c: Cell, c': Cell)
    ensures h[a := c][a := c'] == h[a := c']
  {
  }

  /** Lines 49-61 leave the slots as they were before l was pushed. */
  lemma EpilogueSlots(slots0: seq<Ptr>, l: Ptr, r: Ptr, t: Ptr)
    ensures var b := |slots0|;
            (slots0 + [l] + [r] + [t])[b := Null][b + 1 := Null][b + 2 := Null][..b + 2][..b + 1][..b] == slots0
  {
  }

  /** Lines 111-115 leave the slots as they were before init_n was pushed. */
  lemma MainCloseSlots(slots0: seq<Ptr>, i: Ptr, n: Ptr)
    ensures var b := |slots0|;
            (slots0 + [i] + [n])[b + 1 := Null][b := Null][..b + 1][..b] == slots0
  {
  }

  lemma ReplayThrough(a: seq<RootOp>, b: seq<RootOp>, s: seq<bool>, mid: seq<bool>, end: seq<bool>)
    requires Replay(a, s) == Some(mid) && Replay(b, mid) == Some(end)
    ensures Replay(a + b, s) == Some(end)
  {
    ReplayAppend(a, b, s);
  }

  lemma ReplayOne(op: RootOp, s: seq<bool>, s': seq<bool>)
    requires Step(op, s) == Some(s')
    ensures Replay([op], s) == Some(s')
  {
    assert [op][1..] == [];
  }

  /** Replaying ops and then one more operation. */
  lemma ReplaySnoc(ops: seq<RootOp>, op: RootOp, s: seq<bool>, mid: seq<bool>, end: seq<bool>)
    requires Replay(ops, s) == Some(mid) && Step(op, mid) == Some(end)
    ensures Replay(ops + [op], s) == Some(end)
  {
    ReplayOne(op, mid, end);
    ReplayThrough(ops, [op], s, mid, end);
  }

  lemma EpilogueReplay(base: nat, s: seq<bool>, x: bool, y: bool)
    requires |s| == base
    ensures Replay(Epilogue(base), s + [x] + [y]) == Some(s)
  {
    var s0 := s + [x] + [y];
    var e1 := [Pushed(base + 2, false)];
    ReplayOne(Pushed(base + 2, false), s0, s0 + [false]);
    var e2 := e1 + [Assigned(base + 2, true)];
    SetLast(s0, false, true);
    ReplaySnoc(e1, Assigned(base + 2, true), s0, s0 + [false], s0 + [true]);
    var e3 := e2 + [Cleared(base)];
    SetThirdLast(s, x, y, true, false);
    ReplaySnoc(e2, Cleared(base), s0, s0 + [true], s + [false] + [y] + [true]);
    var e4 := e3 + [Cleared(base + 1)];
    SetBeforeLast(s + [false], y, true, false);
    ReplaySnoc(e3, Cleared(base + 1), s0, s + [false] + [y] + [true], s + [false] + [false] + [true]);
    ClearAndPop(e4, base, s, s0);
  }

  /** The last four operations of the epilogue: t cleared, then the three
      pops. */
  lemma ClearAndPop(e4: seq<RootOp>, base: nat, s: seq<bool>, s0: seq<bool>)
    requires |s| == base
    requires Replay(e4, s0) == Some(s + [false] + [false] + [true])
    ensures Replay(e4 + [Cleared(base + 2)] + [Popped(base + 2)] + [Popped(base + 1)] + [Popped(base)], s0)
            == Some(s)
  {
    var t := s + [false] + [false];
    SetLast(t, true, false);
    ReplaySnoc(e4, Cleared(base + 2), s0, t + [true], t + [false]);
    var e5 := e4 + [Cleared(base + 2)];
    DropLast(t, false);
    ReplaySnoc(e5, Popped(base + 2), s0, t + [false], t);
    var e6 := e5 + [Popped(base + 2)];
    DropLast(s + [false], false);
    ReplaySnoc(e6, Popped(base + 1), s0, t, s + [false]);
    DropLast(s, false);
    ReplaySnoc(e6 + [Popped(base + 1)], Popped(base), s0, s + [false], s);
  }

  lemma {:induction false} SlotReplay(base: nat, depth: nat, garbage: bool, s: seq<bool>)
    requires |s| == base && depth > 0
    ensures Replay(SlotLog(base, depth, garbage), s) == Some(s + [depth > 1])
    decreases depth, 0
  {
    var sub := RootLog(base + 1, depth - 1, garbage);
    RootLogBalanced(base + 1, depth - 1, garbage, s + [false]);
    ReplayThrough([Pushed(base, false)], sub, s, s + [false], s + [false]);
    SetLast(s, false, depth > 1);
    ReplayThrough([Pushed(base, false)] + sub, [Assigned(base, depth > 1)], s, s + [false], s + [depth > 1]);
  }

  lemma {:induction false} JunkReplay(base: nat, depth: nat, garbage: bool, s: seq<bool>)
    requires |s| == base && depth > 0
    ensures Replay(JunkLog(base, depth, garbage), s) == Some(s)
    decreases depth, 1
  {
    SlotReplay(base, depth, garbage, s);
    var close := [Cleared(base), Popped(base)];
    SetLast(s, depth > 1, false);
    assert (s + [false])[..base] == s;
    assert Replay(close[2..], s) == Some(s);
    assert Replay(close[1..], s + [false]) == Some(s);
    assert close[0..] == close;
    ReplayThrough(SlotLog(base, depth, garbage), close, s, s + [depth > 1], s);
  }

  lemma {:induction false} SubtreesReplay(base: nat, depth: nat, garbage: bool, s: seq<bool>)
    requires |s| == base && depth > 0
    ensures Replay(SubtreesLog(base, depth, garbage), s) == Some(s + [depth > 1] + [depth > 1])
    decreases depth, 1
  {
    var holds := depth > 1;
    SlotReplay(base, depth, garbage, s);
    SlotReplay(base + 1, depth, garbage, s + [holds]);
    ReplayThrough(SlotLog(base, depth, garbage), SlotLog(base + 1, depth, garbage), s, s + [holds], s + [holds] + [holds]);
  }

  /** make_tree leaves the root stack as it found it, and never breaks the
      protocol: every slot is registered on top, touched only while
      registered, popped only from the top, and empty when popped. */
  lemma {:induction false} RootLogBalanced(base: nat, depth: nat, garbage: bool, s: seq<bool>)
    requires |s| == base
    ensures Replay(RootLog(base, depth, garbage), s) == Some(s)
    decreases depth, 2
  {
    if depth > 0 {
      var holds := depth > 1;
      var junk := if garbage then JunkLog(base, depth, garbage) else [];
      if garbage {
        JunkReplay(base, depth, garbage, s);
      }
      SubtreesReplay(base, depth, garbage, s);
      ReplayThrough(junk, SubtreesLog(base, depth, garbage), s, s, s + [holds] + [holds]);
      EpilogueReplay(base, s, holds, holds);
      ReplayThrough(junk + SubtreesLog(base, depth, garbage), Epilogue(base), s, s + [holds] + [holds], s);
    }
  }

  /** The root-stack operations of main (lines 96-115), entered with `base`
      slots registered: make_tree(small) runs, init_n is registered holding
      its result, slot n is registered and set to make_tree(large) exactly
      as a subtree slot is, and finally both slots are cleared and popped
      as n, init_n. */
  function MainLog(base: nat, small: nat, large: nat): seq<RootOp>
  {
    RootLog(base, small, false) + [Pushed(base, small > 0)]
    + SlotLog(base + 1, large + 1, true) + MainClose(base)
  }

  /** Lines 111-115. */
  function MainClose(base: nat): seq<RootOp>
  {
    MainClears(base) + MainPops(base)
  }

  /** Lines 111-112: n, then init_n, unset. */
  function MainClears(base: nat): seq<RootOp>
  {
    [Cleared(base + 1)] + [Cleared(base)]
  }

  /** Lines 114-115. */
  function MainPops(base: nat): seq<RootOp>
  {
    [Popped(base + 1)] + [Popped(base)]
  }

  lemma ClearsReplay(s: seq<bool>, x: bool, y: bool)
    ensures Replay(MainClears(|s|), s + [x] + [y]) == Some(s + [false] + [false])
  {
    var b := |s|;
    var s0 := s + [x] + [y];
    SetLast(s + [x], y, false);
    ReplayOne(Cleared(b + 1), s0, s + [x] + [false]);
    SetBeforeLast(s, x, false, false);
    ReplaySnoc([Cleared(b + 1)], Cleared(b), s0, s + [x] + [false], s + [false] + [false]);
  }

  lemma PopsReplay(s: seq<bool>)
    ensures Replay(MainPops(|s|), s + [false] + [false]) == Some(s)
  {
    var b := |s|;
    DropLast(s + [false], false);
    ReplayOne(Popped(b + 1), s + [false] + [false], s + [false]);
    DropLast(s, false);
    ReplaySnoc([Popped(b + 1)], Popped(b), s + [false] + [false], s + [false], s);
  }

  lemma MainCloseReplay(s: seq<bool>, x: bool, y: bool)
    ensures Replay(MainClose(|s|), s + [x] + [y]) == Some(s)
  {
    ClearsReplay(s, x, y);
    PopsReplay(s);
    ReplayThrough(MainClears(|s|), MainPops(|s|), s + [x] + [y], s + [false] + [false], s);
  }

  /** main, too, leaves the root stack as it found it without breaking
      the protocol. */
  lemma MainLogBalanced(s: seq<bool>, small: nat, large: nat)
    ensures Replay(MainLog(|s|, small, large), s) == Some(s)
  {
    var base := |s|;
    var x, y := small > 0, large > 0;
    var first := RootLog(base, small, false);
    RootLogBalanced(base, small, false, s);
    ReplayOne(Pushed(base, x), s, s + [x]);
    ReplayThrough(first, [Pushed(base, x)], s, s, s + [x]);
    var second := first + [Pushed(base, x)];
    SlotReplay(base + 1, large + 1, true, s + [x]);
    ReplayThrough(second, SlotLog(base + 1, large + 1, true), s, s + [x], s + [x] + [y]);
    MainCloseReplay(s, x, y);
    ReplayThrough(second + SlotLog(base + 1, large + 1, true), MainClose(base), s, s + [x] + [y], s);
  }

  /** Without garbage, make_tree(depth) allocates exactly the 2^depth - 1
      nodes of its result. */
  lemma {:induction false} AllocationsWithoutGarbage(depth: nat)
    ensures Allocations(depth, false) == Pow2(depth) - 1
  {
    if depth > 0 {
      AllocationsWithoutGarbage(depth - 1);
    }
  }

  function Pow3(n: nat): (r: nat)
    ensures r >= 1
  {
    if n == 0 then 1 else 3 * Pow3(n - 1)
  }

  /** With garbage, A(depth) = 1 + 3 A(depth - 1), so 2 A(depth) + 1 = 3^depth. */
  lemma {:induction false} AllocationsWithGarbage(depth: nat)
    ensures 2 * Allocations(depth, true) + 1 == Pow3(depth)
  {
    if depth > 0 {
      AllocationsWithGarbage(depth - 1);
    }
  }

  /** Garbage never saves an allocation. */
  lemma {:induction false} GarbageNeverFewer(depth: nat)
    ensures Allocations(depth, true) >= Allocations(depth, false)
  {
    if depth > 0 {
      GarbageNeverFewer(depth - 1);
    }
  }

  /** Garbage costs extra allocations exactly from depth 2 on (at depth 1
      the junk branch is make_tree(0), which allocates nothing). */
  lemma {:induction false} GarbageCostsMore(depth: nat)
    ensures Allocations(depth, true) > Allocations(depth, false) <==> depth >= 2
  {
    if depth >= 2 {
      GarbageNeverFewer(depth - 1);
      assert Allocations(depth - 1, true) >= 1;
    } else if depth == 1 {
      assert Allocations(0, true) == 0;
    }
  }

  /** With manual deallocation, make_tree(depth) deallocates every node it
      allocates except the 2^depth - 1 nodes of its result. */
  lemma {:induction false} LiveAfterMakeTree(depth: nat, garbage: bool)
    ensures Allocations(depth, garbage) == Deallocations(depth, garbage) + Pow2(depth) - 1
  {
    if depth > 0 {
      LiveAfterMakeTree(depth - 1, garbage);
    }
  }

  /** Each root slot points to the tree at the same position in held. */
  ghost predicate Rooted(h: Store, slots: seq<Ptr>, held: seq<Tree>)
    decreases |slots|
  {
    |held| == |slots| &&
    (slots != [] ==>
       Rooted(h, slots[..|slots| - 1], held[..|held| - 1]) &&
       Shape(h, slots[|slots| - 1], held[|held| - 1]))
  }

  lemma RootedPush(h: Store, slots: seq<Ptr>, held: seq<Tree>, p: Ptr, t: Tree)
    requires Rooted(h, slots, held) && Shape(h, p, t)
    ensures Rooted(h, slots + [p], held + [t])
  {
    assert (slots + [p])[..|slots|] == slots;
    assert (held + [t])[..|held|] == held;
  }

  lemma RootedPop(h: Store, slots: seq<Ptr>, held: seq<Tree>, p: Ptr, t: Tree)
    requires Rooted(h, slots + [p], held + [t])
    ensures Rooted(h, slots, held) && Shape(h, p, t)
  {
    assert (slots + [p])[..|slots|] == slots;
    assert (held + [t])[..|held|] == held;
  }

  /** The nodes of the trees the root slots point to. */
  ghost function HeldAddrs(held: seq<Tree>): set<nat>
    decreases |held|
  {
    if held == [] then {} else HeldAddrs(held[..|held| - 1]) + Addrs(held[|held| - 1])
  }

  lemma HeldAddrsAppend(held: seq<Tree>, t: Tree)
    ensures HeldAddrs(held + [t]) == HeldAddrs(held) + Addrs(t)
  {
    assert (held + [t])[..|held|] == held;
  }

  /** The rooted trees survive any change that keeps their nodes. */
  lemma {:induction false} RootedFrame(h: Store, h': Store, slots: seq<Ptr>, held: seq<Tree>)
    requires Rooted(h, slots, held)
    requires forall a :: a in HeldAddrs(held) && a in h ==> a in h' && h'[a] == h[a]
    ensures Rooted(h', slots, held)
    decreases |slots|
  {
    if slots != [] {
      var k := |slots| - 1;
      RootedFrame(h, h', slots[..k], held[..k]);
      ShapeFrame(h, h', slots[k], held[k]);
    }
  }

  /** Every node of a rooted tree is live, and lies in any set closed under
      child pointers that holds the roots. */
  lemma {:induction false} RootedInClosed(h: Store, slots: seq<Ptr>, held: seq<Tree>, kept: set<nat>)
    requires Rooted(h, slots, held) && Closed(h, kept) && RootAddrs(slots) <= kept
    ensures HeldAddrs(held) <= kept && HeldAddrs(held) <= h.Keys
    decreases |slots|
  {
    if slots != [] {
      var k := |slots| - 1;
      assert RootAddrs(slots[..k]) <= RootAddrs(slots) by {
        forall a | a in RootAddrs(slots[..k]) ensures a in RootAddrs(slots) {
          var i :| 0 <= i < k && slots[..k][i].Addr? && slots[..k][i].a == a;
          assert slots[i] == slots[..k][i];
        }
      }
      RootedInClosed(h, slots[..k], held[..k], kept);
      assert slots[k].Addr? ==> slots[k].a in RootAddrs(slots);
      ShapeInClosed(h, kept, slots[k], held[k]);
      ShapeLive(h, slots[k], held[k]);
    }
  }

  /** A reclaiming allocate() leaves every rooted tree in place, and the
      new node is none of theirs. */
  lemma RootedSurvivesAllocation(h: Store, h': Store, slots: seq<Ptr>, held: seq<Tree>, kept: set<nat>, added: nat)
    requires Rooted(h, slots, held) && KeepsReachable(h, h', slots, kept, added)
    ensures Rooted(h', slots, held) && added !in HeldAddrs(held)
  {
    RootedInClosed(h, slots, held, kept);
    RootedFrame(h, h', slots, held);
  }

  lemma InLaterSlice(s: seq<nat>, u: seq<nat>, i: nat, j: nat, a: nat)
    requires s <= u && i <= j <= |s| && a in s[j..]
    ensures a in u[i..]
  {
    var k :| j <= k < |s| && s[k] == a;
    assert u[i..][k - i] == a;
  }

  /** The allocate() calls of make_tree(depth), counted piece by piece. */
  lemma AllocationSteps(i0: seq<nat>, i2: seq<nat>, iF: seq<nat>, depth: nat, garbage: bool)
    requires depth > 0
    requires i0 <= i2
    requires |i2| == |i0| + (if garbage then Allocations(depth - 1, garbage) else 0) + 2 * Allocations(depth - 1, garbage)
    requires i2 <= iF && |iF| == |i2| + 1
    ensures i0 <= iF && |iF| == |i0| + Allocations(depth, garbage)
  {
  }

  /** The deallocate() calls of make_tree(depth), counted piece by piece. */
  lemma DeallocationSteps(f0: seq<nat>, f2: seq<nat>, depth: nat, garbage: bool)
    requires depth > 0
    requires |f2| == |f0| + (if garbage then Deallocations(depth - 1, garbage) + (Pow2(depth - 1) - 1) else 0)
                          + 2 * Deallocations(depth - 1, garbage)
    ensures |f2| == |f0| + Deallocations(depth, garbage)
  {
  }

  /** Linking two rooted subtrees under a fresh node gives the tree of
      lines 51-55. */
  lemma LinkNode(h: Store, a: nat, l: Ptr, r: Ptr, tl: Tree, tr: Tree)
    requires Shape(h, l, tl) && Shape(h, r, tr) && a !in Addrs(tl) && a !in Addrs(tr)
    ensures Shape(h[a := Cell(l, r)], Addr(a), Node(a, tl, tr))
  {
    var h' := h[a := Cell(l, r)];
    ShapeFrame(h, h', l, tl);
    ShapeFrame(h, h', r, tr);
  }

  /** With manual deallocation, the heap after the subtrees are built is
      the heap before plus exactly their nodes. */
  lemma PeelTwo(h0: Store, h1: Store, h2: Store, tl: Tree, tr: Tree)
    requires Addrs(tl) !! h0.Keys && h1 - Addrs(tl) == h0
    requires Addrs(tr) !! h1.Keys && h2 - Addrs(tr) == h1
    ensures (Addrs(tl) + Addrs(tr)) !! h0.Keys && h2 - (Addrs(tl) + Addrs(tr)) == h0
  {
    assert h0.Keys <= h1.Keys <= h2.Keys;
    assert (h2 - (Addrs(tl) + Addrs(tr))).Keys == h0.Keys;
  }

  /** With manual deallocation the heap after make_tree is the heap before
      plus exactly the nodes of the result. */
  lemma PeelNode(h0: Store, h2: Store, hF: Store, tl: Tree, tr: Tree, a: nat, c: Cell)
    requires (Addrs(tl) + Addrs(tr)) !! h0.Keys && h2 - (Addrs(tl) + Addrs(tr)) == h0
    requires a !in h2 && hF == h2[a := c]
    ensures Addrs(Node(a, tl, tr)) !! h0.Keys && hF - Addrs(Node(a, tl, tr)) == h0
  {
    assert h0.Keys <= h2.Keys;
    assert (hF - Addrs(Node(a, tl, tr))).Keys == h0.Keys;
  }

  lemma IssuedTwo(i0: seq<nat>, i1: seq<nat>, i2: seq<nat>, tl: Tree, tr: Tree)
    requires i0 <= i1 && i1 <= i2
    requires forall x :: x in Addrs(tl) ==> x in i1[|i0|..]
    requires forall x :: x in Addrs(tr) ==> x in i2[|i1|..]
    ensures forall x :: x in Addrs(tl) + Addrs(tr) ==> x in i2[|i0|..]
  {
    forall x | x in Addrs(tl) + Addrs(tr)
      ensures x in i2[|i0|..]
    {
      if x in Addrs(tl) {
        InLaterSlice(i1, i2, |i0|, |i0|, x);
      } else {
        InLaterSlice(i2, i2, |i0|, |i1|, x);
      }
    }
  }

  lemma IssuedLater(i0: seq<nat>, iA: seq<nat>, i2: seq<nat>, s: set<nat>)
    requires i0 <= iA && iA <= i2
    requires forall x :: x in s ==> x in i2[|iA|..]
    ensures forall x :: x in s ==> x in i2[|i0|..]
  {
    forall x | x in s
      ensures x in i2[|i0|..]
    {
      InLaterSlice(i2, i2, |i0|, |iA|, x);
    }
  }

  lemma IssuedPieces(i0: seq<nat>, i2: seq<nat>, iF: seq<nat>, tl: Tree, tr: Tree, a: nat)
    requires i0 <= i2 && iF == i2 + [a]
    requires forall x :: x in Addrs(tl) + Addrs(tr) ==> x in i2[|i0|..]
    ensures forall x :: x in Addrs(Node(a, tl, tr)) ==> x in iF[|i0|..]
  {
    forall x | x in Addrs(Node(a, tl, tr))
      ensures x in iF[|i0|..]
    {
      if x in Addrs(tl) + Addrs(tr) {
        InLaterSlice(i2, iF, |i0|, |i0|, x);
      } else {
        assert iF[|i0|..][|iF| - 1 - |i0|] == a;
      }
    }
  }



  /** The root log of make_tree(depth), assembled from its pieces. */
  lemma MakeTreeLog(log0: seq<RootOp>, log2: seq<RootOp>, logF: seq<RootOp>, base: nat, depth: nat, garbage: bool)
    requires depth > 0
    requires log2 == log0 + (if garbage then JunkLog(base, depth, garbage) else []) + SubtreesLog(base, depth, garbage)
    requires logF == log2 + Epilogue(base)
    ensures logF == log0 + RootLog(base, depth, garbage)
  {
  }

  lemma ChildrenLog(log0: seq<RootOp>, logA: seq<RootOp>, log2: seq<RootOp>, base: nat, depth: nat, garbage: bool)
    requires depth > 0
    requires logA == log0 + (if garbage then JunkLog(base, depth, garbage) else [])
    requires log2 == logA + SubtreesLog(base, depth, garbage)
    ensures log2 == log0 + (if garbage then JunkLog(base, depth, garbage) else []) + SubtreesLog(base, depth, garbage)
  {
  }

  lemma SubtreesLogSteps(log0: seq<RootOp>, log1: seq<RootOp>, log2: seq<RootOp>, base: nat, next: nat,
                          depth: nat, garbage: bool)
    requires depth > 0 && next == base + 1
    requires log1 == log0 + SlotLog(base, depth, garbage)
    requires log2 == log1 + SlotLog(next, depth, garbage)
    ensures log2 == log0 + SubtreesLog(base, depth, garbage)
  {
  }

  lemma SlotLogSteps(log0: seq<RootOp>, log1: seq<RootOp>, log2: seq<RootOp>, base: nat, depth: nat, garbage: bool)
    requires depth > 0
    requires log1 == log0 + [Pushed(base, false)] + RootLog(base + 1, depth - 1, garbage)
    requires log2 == log1 + [Assigned(base, depth > 1)]
    ensures log2 == log0 + SlotLog(base, depth, garbage)
  {
  }

  lemma JunkLogSteps(log0: seq<RootOp>, log1: seq<RootOp>, log2: seq<RootOp>, base: nat, depth: nat, garbage: bool)
    requires depth > 0
    requires log1 == log0 + SlotLog(base, depth, garbage)
    requires log2 == log1 + [Cleared(base)] + [Popped(base)]
    ensures log2 == log0 + JunkLog(base, depth, garbage)
  {
  }

  /** Writing a node that no rooted tree contains keeps every rooted tree. */
  lemma RootedUpdate(h: Store, a: nat, c: Cell, slots: seq<Ptr>, held: seq<Tree>)
    requires Rooted(h, slots, held) && a !in HeldAddrs(held)
    ensures Rooted(h[a := c], slots, held)
  {
    RootedFrame(h, h[a := c], slots, held);
  }

  /** The slot-stack bookkeeping of lines 49-61: registering t, clearing
      l, r and t, and popping all three. */
  lemma EpilogueLog(log0: seq<RootOp>, logF: seq<RootOp>, base: nat)
    requires logF == log0 + [Pushed(base + 2, false)] + [Assigned(base + 2, true)]
                     + [Cleared(base)] + [Cleared(base + 1)] + [Cleared(base + 2)]
                     + [Popped(base + 2)] + [Popped(base + 1)] + [Popped(base)]
    ensures logF == log0 + Epilogue(base)
  {
  }

  /** A slot registered on top of the stack and set to make_tree(depth - 1)
      (lines 30-32, 39-41 and 44-46, and lines 101-103 of main): the new
      slot roots the new tree, and the trees already rooted are untouched. */
  method PushSubtree(heap: Heap, rs: RootStack, depth: nat, garbage: bool, ghost held: seq<Tree>)
    returns (slot: nat, x: Ptr, ghost tx: Tree)
    requires depth > 0
    requires heap.Valid() && Rooted(heap.cells, rs.slots, held)
    modifies heap, rs
    decreases depth, 0
    ensures heap.Valid()
    ensures slot == |old(rs.slots)| && rs.slots == old(rs.slots) + [x]
    ensures Rooted(heap.cells, rs.slots, held + [tx])
    ensures Perfect(tx, depth - 1) && Unshared(tx) && Addrs(tx) !! HeldAddrs(held)
    ensures rs.log == old(rs.log) + SlotLog(slot, depth, garbage)
    ensures old(heap.issued) <= heap.issued
    ensures |heap.issued| == |old(heap.issued)| + Allocations(depth - 1, garbage)
    ensures forall a :: a in Addrs(tx) ==> a in heap.issued[|old(heap.issued)|..]
    ensures old(heap.freed) <= heap.freed
    ensures heap.manual ==> |heap.freed| == |old(heap.freed)| + Deallocations(depth - 1, garbage)
    ensures !heap.manual ==> heap.freed == old(heap.freed)
    ensures heap.manual ==> Addrs(tx) !! old(heap.cells).Keys && heap.cells - Addrs(tx) == old(heap.cells)
  {
    ghost var slots0, log0 := rs.slots, rs.log;
    x := Null;
    slot := rs.Push(x);
    RootedPush(heap.cells, slots0, held, Null, Empty);
    x, tx := MakeTree(heap, rs, depth - 1, garbage, held + [Empty]);
    RootedPop(heap.cells, slots0, held, Null, Empty);
    PerfectRoot(heap.cells, x, tx, depth - 1);
    ghost var log1 := rs.log;
    rs.Set(slot, x);
    SetLast(slots0, Null, x);
    RootedPush(heap.cells, slots0, held, x, tx);
    SlotLogSteps(log0, log1, rs.log, slot, depth, garbage);
  }

  /** Lines 28-36: a junk branch is built with its slot registered, then
      destroyed; the root stack and the rooted trees are as before, and a
      manual backend's heap too. */
  method MakeJunk(heap: Heap, rs: RootStack, depth: nat, garbage: bool, ghost held: seq<Tree>)
    requires depth > 0
    requires heap.Valid() && Rooted(heap.cells, rs.slots, held)
    modifies heap, rs
    decreases depth, 1
    ensures heap.Valid()
    ensures rs.slots == old(rs.slots) && Rooted(heap.cells, rs.slots, held)
    ensures rs.log == old(rs.log) + JunkLog(|old(rs.slots)|, depth, garbage)
    ensures old(heap.issued) <= heap.issued
    ensures |heap.issued| == |old(heap.issued)| + Allocations(depth - 1, garbage)
    ensures old(heap.freed) <= heap.freed
    ensures heap.manual ==> |heap.freed| == |old(heap.freed)| + Deallocations(depth - 1, garbage) + (Pow2(depth - 1) - 1)
    ensures !heap.manual ==> heap.freed == old(heap.freed)
    ensures heap.manual ==> heap.cells == old(heap.cells)
  {
    ghost var slots0, log0 := rs.slots, rs.log;
    var sn, n, tn := PushSubtree(heap, rs, depth, garbage, held);
    ghost var log1 := rs.log;
    DropJunk(heap, rs, sn, n, tn, held, slots0);
    if heap.manual {
      PerfectSize(tn, depth - 1);
    }
    JunkLogSteps(log0, log1, rs.log, sn, depth, garbage);
  }

  /** Lines 33-35: the junk tree in slot sn is destroyed, its slot
      unset and popped; the trees rooted below it are untouched. */
  method DropJunk(heap: Heap, rs: RootStack, sn: nat, n: Ptr, ghost tn: Tree, ghost held: seq<Tree>, ghost slots0: seq<Ptr>)
    requires heap.Valid()
    requires sn == |slots0| && rs.slots == slots0 + [n]
    requires Rooted(heap.cells, rs.slots, held + [tn]) && Unshared(tn) && Addrs(tn) !! HeldAddrs(held)
    modifies heap, rs
    ensures heap.Valid()
    ensures rs.slots == slots0 && Rooted(heap.cells, rs.slots, held)
    ensures rs.log == old(rs.log) + [Cleared(sn)] + [Popped(sn)]
    ensures heap.issued == old(heap.issued) && old(heap.freed) <= heap.freed
    ensures heap.manual ==> heap.cells == old(heap.cells) - Addrs(tn) && |heap.freed| == |old(heap.freed)| + Size(tn)
    ensures !heap.manual ==> heap.cells == old(heap.cells) && heap.freed == old(heap.freed)
  {
    RootedPop(heap.cells, slots0, held, n, tn);
    ghost var h1 := heap.cells;
    DestroyTree(heap, n, tn);
    if heap.manual {
      PostOrderNodes(tn);
      RootedFrame(h1, heap.cells, slots0, held);
    }
    rs.Clear(sn);
    rs.Pop(sn);
    assert rs.slots == slots0;
  }

  /** Lines 38-46: slots l and r registered on top of the stack and set
      to two new trees, which share no node with each other or with the
      trees already rooted. */
  method Subtrees(heap: Heap, rs: RootStack, depth: nat, garbage: bool, ghost held: seq<Tree>)
    returns (sl: nat, l: Ptr, sr: nat, r: Ptr, ghost tl: Tree, ghost tr: Tree)
    requires depth > 0
    requires heap.Valid() && Rooted(heap.cells, rs.slots, held)
    modifies heap, rs
    decreases depth, 1
    ensures heap.Valid()
    ensures sl == |old(rs.slots)| && sr == sl + 1 && rs.slots == old(rs.slots) + [l] + [r]
    ensures Rooted(heap.cells, rs.slots, held + [tl] + [tr])
    ensures Perfect(tl, depth - 1) && Unshared(tl) && Perfect(tr, depth - 1) && Unshared(tr)
    ensures Addrs(tl) !! HeldAddrs(held) && Addrs(tr) !! HeldAddrs(held) && Addrs(tl) !! Addrs(tr)
    ensures rs.log == old(rs.log) + SubtreesLog(|old(rs.slots)|, depth, garbage)
    ensures old(heap.issued) <= heap.issued
    ensures |heap.issued| == |old(heap.issued)| + 2 * Allocations(depth - 1, garbage)
    ensures forall a :: a in Addrs(tl) + Addrs(tr) ==> a in heap.issued[|old(heap.issued)|..]
    ensures old(heap.freed) <= heap.freed
    ensures heap.manual ==> |heap.freed| == |old(heap.freed)| + 2 * Deallocations(depth - 1, garbage)
    ensures !heap.manual ==> heap.freed == old(heap.freed)
    ensures heap.manual ==> (Addrs(tl) + Addrs(tr)) !! old(heap.cells).Keys
                            && heap.cells - (Addrs(tl) + Addrs(tr)) == old(heap.cells)
  {
    ghost var h0, i0, log0 := heap.cells, heap.issued, rs.log;
    sl, l, tl := PushSubtree(heap, rs, depth, garbage, held);
    ghost var h1, i1, log1 := heap.cells, heap.issued, rs.log;
    sr, r, tr := PushSubtree(heap, rs, depth, garbage, held + [tl]);
    HeldAddrsAppend(held, tl);
    SubtreesLogSteps(log0, log1, rs.log, sl, sr, depth, garbage);
    IssuedTwo(i0, i1, heap.issued, tl, tr);
    if heap.manual {
      PeelTwo(h0, h1, heap.cells, tl, tr);
    }
  }

  /** Lines 28-46: the junk branch when garbage is on, then slots l and r
      registered and set to the two subtrees. */
  method Children(heap: Heap, rs: RootStack, depth: nat, garbage: bool, ghost held: seq<Tree>)
    returns (sl: nat, l: Ptr, sr: nat, r: Ptr, ghost tl: Tree, ghost tr: Tree)
    requires depth > 0
    requires heap.Valid() && Rooted(heap.cells, rs.slots, held)
    modifies heap, rs
    decreases depth, 2
    ensures heap.Valid()
    ensures sl == |old(rs.slots)| && sr == sl + 1 && rs.slots == old(rs.slots) + [l] + [r]
    ensures Rooted(heap.cells, rs.slots, held + [tl] + [tr])
    ensures Perfect(tl, depth - 1) && Unshared(tl) && Perfect(tr, depth - 1) && Unshared(tr)
    ensures Addrs(tl) !! HeldAddrs(held) && Addrs(tr) !! HeldAddrs(held) && Addrs(tl) !! Addrs(tr)
    ensures rs.log == old(rs.log) + (if garbage then JunkLog(sl, depth, garbage) else []) + SubtreesLog(sl, depth, garbage)
    ensures old(heap.issued) <= heap.issued
    ensures |heap.issued| == |old(heap.issued)| + (if garbage then Allocations(depth - 1, garbage) else 0)
                             + 2 * Allocations(depth - 1, garbage)
    ensures forall a :: a in Addrs(tl) + Addrs(tr) ==> a in heap.issued[|old(heap.issued)|..]
    ensures old(heap.freed) <= heap.freed
    ensures heap.manual ==> |heap.freed| == |old(heap.freed)|
                              + (if garbage then Deallocations(depth - 1, garbage) + (Pow2(depth - 1) - 1) else 0)
                              + 2 * Deallocations(depth - 1, garbage)
    ensures !heap.manual ==> heap.freed == old(heap.freed)
    ensures heap.manual ==> (Addrs(tl) + Addrs(tr)) !! old(heap.cells).Keys
                            && heap.cells - (Addrs(tl) + Addrs(tr)) == old(heap.cells)
  {
    ghost var h0, i0, log0 := heap.cells, heap.issued, rs.log;
    if garbage {
      MakeJunk(heap, rs, depth, garbage, held);
    }
    ghost var hA, iA, logA := heap.cells, heap.issued, rs.log;
    sl, l, sr, r, tl, tr := Subtrees(heap, rs, depth, garbage, held);
    ChildrenLog(log0, logA, rs.log, sl, depth, garbage);
    IssuedLater(i0, iA, heap.issued, Addrs(tl) + Addrs(tr));
    if heap.manual {
      assert hA == h0;
    }
  }

  /** allocate() with the trees held by the root slots in view: they all
      survive, and the new node is none of theirs. */
  method AllocateRooted(heap: Heap, rs: RootStack, ghost held: seq<Tree>) returns (p: Ptr)
    requires heap.Valid() && Rooted(heap.cells, rs.slots, held)
    modifies heap
    ensures heap.Valid()
    ensures p.Addr? && p.a in heap.cells && heap.cells[p.a] == Cell(Null, Null)
    ensures Rooted(heap.cells, rs.slots, held) && p.a !in HeldAddrs(held)
    ensures heap.manual ==> p.a !in old(heap.cells) && heap.cells == old(heap.cells)[p.a := Cell(Null, Null)]
    ensures heap.issued == old(heap.issued) + [p.a] && heap.freed == old(heap.freed)
  {
    ghost var h := heap.cells;
    p := heap.Allocate(rs);
    ghost var kept :| KeepsReachable(h, heap.cells, rs.slots, kept, p.a);
    RootedSurvivesAllocation(h, heap.cells, rs.slots, held, kept, p.a);
  }

  /** Lines 49-51: t registered on top of l and r, then set to a fresh
      node; the trees l, r and those held below them survive the
      allocation, and the new node is none of theirs. */
  method AllocateNode(heap: Heap, rs: RootStack, l: Ptr, r: Ptr, ghost tl: Tree, ghost tr: Tree,
                      ghost held: seq<Tree>, ghost slots0: seq<Ptr>)
    returns (st: nat, t: Ptr)
    requires heap.Valid()
    requires rs.slots == slots0 + [l] + [r] && Rooted(heap.cells, rs.slots, held + [tl] + [tr])
    modifies heap, rs
    ensures heap.Valid()
    ensures st == |slots0| + 2 && rs.slots == slots0 + [l] + [r] + [t]
    ensures rs.log == old(rs.log) + [Pushed(st, false)] + [Assigned(st, true)]
    ensures t.Addr? && t.a in heap.cells && heap.cells[t.a] == Cell(Null, Null)
    ensures Rooted(heap.cells, slots0, held) && Shape(heap.cells, l, tl) && Shape(heap.cells, r, tr)
    ensures t.a !in HeldAddrs(held) && t.a !in Addrs(tl) && t.a !in Addrs(tr)
    ensures heap.issued == old(heap.issued) + [t.a] && heap.freed == old(heap.freed)
    ensures heap.manual ==> t.a !in old(heap.cells) && heap.cells == old(heap.cells)[t.a := Cell(Null, Null)]
  {
    ghost var h2 := heap.cells;
    ghost var heldX := held + [tl] + [tr] + [Empty];
    t := Null;
    st := rs.Push(t);
    RootedPush(h2, slots0 + [l] + [r], held + [tl] + [tr], Null, Empty);
    t := AllocateRooted(heap, rs, heldX);
    ghost var hN := heap.cells;
    RootedPop(hN, slots0 + [l] + [r], held + [tl] + [tr], Null, Empty);
    RootedPop(hN, slots0 + [l], held + [tl], r, tr);
    RootedPop(hN, slots0, held, l, tl);
    HeldAddrsAppend(held + [tl] + [tr], Empty);
    HeldAddrsAppend(held + [tl], tr);
    HeldAddrsAppend(held, tl);
    rs.Set(st, t);
    SetLast(slots0 + [l] + [r], Null, t);
  }

  /** Lines 49-61: a fresh node t, registered while it is linked to the
      subtrees l and r; afterwards the slots of l, r and t are gone and t
      denotes the tree with l and r as children. */
  method NewNode(heap: Heap, rs: RootStack, sl: nat, l: Ptr, sr: nat, r: Ptr, ghost tl: Tree, ghost tr: Tree,
                 ghost held: seq<Tree>, ghost slots0: seq<Ptr>)
    returns (p: Ptr)
    requires heap.Valid()
    requires sl == |slots0| && sr == sl + 1
    requires rs.slots == slots0 + [l] + [r] && Rooted(heap.cells, rs.slots, held + [tl] + [tr])
    modifies heap, rs
    ensures heap.Valid()
    ensures p.Addr? && Shape(heap.cells, p, Node(p.a, tl, tr))
    ensures p.a !in HeldAddrs(held) && p.a !in Addrs(tl) && p.a !in Addrs(tr)
    ensures rs.slots == slots0 && Rooted(heap.cells, rs.slots, held)
    ensures rs.log == old(rs.log) + Epilogue(|slots0|)
    ensures heap.issued == old(heap.issued) + [p.a] && heap.freed == old(heap.freed)
    ensures heap.manual ==> p.a !in old(heap.cells) && heap.cells == old(heap.cells)[p.a := Cell(l, r)]
  {
    ghost var h2, log2 := heap.cells, rs.log;
    var st, t := AllocateNode(heap, rs, l, r, tl, tr, held, slots0);
    ghost var hN := heap.cells;
    heap.SetLeft(t, l);
    ghost var hL := heap.cells;
    rs.Clear(sl);
    heap.SetRight(t, r);
    rs.Clear(sr);
    rs.Clear(st);
    rs.Pop(st);
    rs.Pop(sr);
    rs.Pop(sl);
    p := t;
    Overwrite(hN, p.a, hL[p.a], Cell(l, r));
    if heap.manual {
      Overwrite(h2, p.a, Cell(Null, Null), Cell(l, r));
    }
    LinkNode(hN, p.a, l, r, tl, tr);
    RootedUpdate(hN, p.a, Cell(l, r), slots0, held);
    EpilogueSlots(slots0, l, r, t);
    EpilogueLog(log2, rs.log, sl);
  }

  /** What one level of make_tree adds up to, given what its children
      and the new node each contribute. */
  lemma LevelFacts(depth: nat, garbage: bool, manual: bool, held: seq<Tree>, base: nat,
                   tl: Tree, tr: Tree, a: nat, l: Ptr, r: Ptr,
                   h0: Store, h2: Store, hF: Store, i0: seq<nat>, i2: seq<nat>, iF: seq<nat>,
                   f0: seq<nat>, f2: seq<nat>, log0: seq<RootOp>, log2: seq<RootOp>, logF: seq<RootOp>)
    requires depth > 0
    requires Perfect(tl, depth - 1) && Unshared(tl) && Perfect(tr, depth - 1) && Unshared(tr)
    requires Addrs(tl) !! HeldAddrs(held) && Addrs(tr) !! HeldAddrs(held) && Addrs(tl) !! Addrs(tr)
    requires a !in HeldAddrs(held) && a !in Addrs(tl) && a !in Addrs(tr)
    requires log2 == log0 + (if garbage then JunkLog(base, depth, garbage) else []) + SubtreesLog(base, depth, garbage)
    requires logF == log2 + Epilogue(base)
    requires i0 <= i2
    requires |i2| == |i0| + (if garbage then Allocations(depth - 1, garbage) else 0) + 2 * Allocations(depth - 1, garbage)
    requires forall x :: x in Addrs(tl) + Addrs(tr) ==> x in i2[|i0|..]
    requires iF == i2 + [a]
    requires manual ==> |f2| == |f0| + (if garbage then Deallocations(depth - 1, garbage) + (Pow2(depth - 1) - 1) else 0)
                                     + 2 * Deallocations(depth - 1, garbage)
    requires manual ==> (Addrs(tl) + Addrs(tr)) !! h0.Keys && h2 - (Addrs(tl) + Addrs(tr)) == h0
    requires manual ==> a !in h2 && hF == h2[a := Cell(l, r)]
    ensures Perfect(Node(a, tl, tr), depth) && Unshared(Node(a, tl, tr))
    ensures Addrs(Node(a, tl, tr)) !! HeldAddrs(held)
    ensures logF == log0 + RootLog(base, depth, garbage)
    ensures i0 <= iF && |iF| == |i0| + Allocations(depth, garbage)
    ensures forall x :: x in Addrs(Node(a, tl, tr)) ==> x in iF[|i0|..]
    ensures manual ==> |f2| == |f0| + Deallocations(depth, garbage)
    ensures manual ==> Addrs(Node(a, tl, tr)) !! h0.Keys && hF - Addrs(Node(a, tl, tr)) == h0
  {
    MakeTreeLog(log0, log2, logF, base, depth, garbage);
    IssuedPieces(i0, i2, iF, tl, tr, a);
    AllocationSteps(i0, i2, iF, depth, garbage);
    if manual {
      DeallocationSteps(f0, f2, depth, garbage);
      PeelNode(h0, h2, hF, tl, tr, a, Cell(l, r));
    }
  }

  /** make_tree(depth) (lines 23-65): NULL for depth 0, otherwise one
      level built by MakeLevel. */
  method MakeTree(heap: Heap, rs: RootStack, depth: nat, garbage: bool, ghost held: seq<Tree>)
    returns (p: Ptr, ghost t: Tree)
    requires heap.Valid() && Rooted(heap.cells, rs.slots, held)
    modifies heap, rs
    decreases depth, 4
    ensures heap.Valid()
    ensures Shape(heap.cells, p, t) && Perfect(t, depth) && Unshared(t)
    ensures Addrs(t) !! HeldAddrs(held)
    ensures Rooted(heap.cells, rs.slots, held)
    ensures rs.slots == old(rs.slots)
    ensures rs.log == old(rs.log) + RootLog(|old(rs.slots)|, depth, garbage)
    ensures old(heap.issued) <= heap.issued
    ensures |heap.issued| == |old(heap.issued)| + Allocations(depth, garbage)
    ensures forall a :: a in Addrs(t) ==> a in heap.issued[|old(heap.issued)|..]
    ensures old(heap.freed) <= heap.freed
    ensures heap.manual ==> |heap.freed| == |old(heap.freed)| + Deallocations(depth, garbage)
    ensures !heap.manual ==> heap.freed == old(heap.freed)
    ensures heap.manual ==> Addrs(t) !! old(heap.cells).Keys && heap.cells - Addrs(t) == old(heap.cells)
  {
    if depth == 0 {
      return Null, Empty;
    }
    p, t := MakeLevel(heap, rs, depth, garbage, held);
  }

  /** Lines 27-64 of make_tree: the children (and the junk tree), then the
      new node linked above them. */
  method MakeLevel(heap: Heap, rs: RootStack, depth: nat, garbage: bool, ghost held: seq<Tree>)
    returns (p: Ptr, ghost t: Tree)
    requires depth > 0
    requires heap.Valid() && Rooted(heap.cells, rs.slots, held)
    modifies heap, rs
    decreases depth, 3
    ensures heap.Valid()
    ensures Shape(heap.cells, p, t) && Perfect(t, depth) && Unshared(t)
    ensures Addrs(t) !! HeldAddrs(held)
    ensures Rooted(heap.cells, rs.slots, held)
    ensures rs.slots == old(rs.slots)
    ensures rs.log == old(rs.log) + RootLog(|old(rs.slots)|, depth, garbage)
    ensures old(heap.issued) <= heap.issued
    ensures |heap.issued| == |old(heap.issued)| + Allocations(depth, garbage)
    ensures forall a :: a in Addrs(t) ==> a in heap.issued[|old(heap.issued)|..]
    ensures old(heap.freed) <= heap.freed
    ensures heap.manual ==> |heap.freed| == |old(heap.freed)| + Deallocations(depth, garbage)
    ensures !heap.manual ==> heap.freed == old(heap.freed)
    ensures heap.manual ==> Addrs(t) !! old(heap.cells).Keys && heap.cells - Addrs(t) == old(heap.cells)
  {
    ghost var h0, i0, f0, log0, slots0 := heap.cells, heap.issued, heap.freed, rs.log, rs.slots;
    var sl, l, sr, r, tl, tr := Children(heap, rs, depth, garbage, held);
    ghost var h2, i2, f2, log2 := heap.cells, heap.issued, heap.freed, rs.log;
    p := NewNode(heap, rs, sl, l, sr, r, tl, tr, held, slots0);
    t := Node(p.a, tl, tr);
    LevelFacts(depth, garbage, heap.manual, held, sl, tl, tr, p.a, l, r,
               h0, h2, heap.cells, i0, i2, heap.issued, f0, f2, log0, log2, rs.log);
  }

  /** destroy_tree(n) (lines 69-78): with manual deallocation, frees the
      tree children first; without, does nothing. */
  method DestroyTree(heap: Heap, p: Ptr, ghost t: Tree)
    requires heap.Valid() && Shape(heap.cells, p, t) && Unshared(t)
    modifies heap
    decreases t
    ensures heap.Valid() && heap.issued == old(heap.issued)
    ensures heap.manual ==> heap.cells == old(heap.cells) - Addrs(t) && heap.freed == old(heap.freed) + PostOrder(t)
    ensures !heap.manual ==> heap.cells == old(heap.cells) && heap.freed == old(heap.freed)
  {
    if heap.manual {
      if p != Null {
        ghost var h0 := heap.cells;
        DestroyTree(heap, heap.cells[p.a].left, t.left);
        ShapeFrame(h0, heap.cells, h0[p.a].right, t.right);
        DestroyTree(heap, heap.cells[p.a].right, t.right);
        heap.Deallocate(p);
      }
    }
  }

  /** count(n) (lines 82-88): follows the child pointers of the heap; the
      tree t only witnesses that they form a finite tree. */
  function Count(h: Store, p: Ptr, ghost t: Tree): (n: nat)
    requires Shape(h, p, t)
    decreases t
    ensures n == Size(t)
  {
    if p == Null then 0 else 1 + Count(h, h[p.a].left, t.left) + Count(h, h[p.a].right, t.right)
  }

  /** main's log, assembled from its pieces. */
  lemma MainLogSteps(log0: seq<RootOp>, log2: seq<RootOp>, logF: seq<RootOp>, base: nat, small: nat, large: nat)
    requires log2 == log0 + RootLog(base, small, false) + [Pushed(base, small > 0)] + SlotLog(base + 1, large + 1, true)
    requires logF == log2 + MainClose(base)
    ensures logF == log0 + MainLog(base, small, large)
  {
  }

  /** The slot-stack bookkeeping of lines 111-115. */
  lemma MainCloseSteps(log0: seq<RootOp>, logF: seq<RootOp>, base: nat)
    requires logF == log0 + [Cleared(base + 1)] + [Cleared(base)] + [Popped(base + 1)] + [Popped(base)]
    ensures logF == log0 + MainClose(base)
  {
  }

  /** A manual backend's heap after main: the nodes of both trees were
      added and then removed again. */
  lemma PeelBoth(h0: Store, h1: Store, h2: Store, ti: Tree, tb: Tree)
    requires Addrs(ti) !! h0.Keys && h1 - Addrs(ti) == h0
    requires Addrs(tb) !! h1.Keys && h2 - Addrs(tb) == h1
    ensures h2 - Addrs(tb) - Addrs(ti) == h0
  {
  }

  /** With manual deallocation, main deallocates exactly as many nodes as
      it allocates. */
  lemma MainDeallocations(f0: seq<nat>, f2: seq<nat>, fF: seq<nat>, ti: Tree, tb: Tree, small: nat, large: nat)
    requires Perfect(ti, small) && Perfect(tb, large)
    requires |f2| == |f0| + Deallocations(small, false) + Deallocations(large, true)
    requires |fF| == |f2| + Size(tb) + Size(ti)
    ensures |fF| == |f0| + Allocations(small, false) + Allocations(large, true)
  {
    PerfectSize(ti, small);
    PerfectSize(tb, large);
    LiveAfterMakeTree(small, false);
    LiveAfterMakeTree(large, true);
  }

  /** Removing nodes that no rooted tree contains keeps every rooted tree. */
  lemma RootedPeel(h: Store, s: set<nat>, slots: seq<Ptr>, held: seq<Tree>)
    requires Rooted(h, slots, held) && s !! HeldAddrs(held)
    ensures Rooted(h - s, slots, held)
  {
    RootedFrame(h, h - s, slots, held);
  }

  /** Lines 108-109: destroy_tree(n), then destroy_tree(init_n). */
  method DestroyBoth(heap: Heap, initN: Ptr, n: Ptr, ghost ti: Tree, ghost tb: Tree)
    requires heap.Valid() && Shape(heap.cells, initN, ti) && Shape(heap.cells, n, tb)
    requires Unshared(ti) && Unshared(tb) && Addrs(ti) !! Addrs(tb)
    modifies heap
    ensures heap.Valid() && heap.issued == old(heap.issued) && old(heap.freed) <= heap.freed
    ensures heap.manual ==> heap.cells == old(heap.cells) - Addrs(tb) - Addrs(ti)
                            && |heap.freed| == |old(heap.freed)| + Size(tb) + Size(ti)
    ensures !heap.manual ==> heap.cells == old(heap.cells) && heap.freed == old(heap.freed)
  {
    ghost var h0 := heap.cells;
    DestroyTree(heap, n, tb);
    if heap.manual {
      ShapeFrame(h0, heap.cells, initN, ti);
    }
    DestroyTree(heap, initN, ti);
    if heap.manual {
      PostOrderNodes(tb);
      PostOrderNodes(ti);
    }
  }

  /** Lines 108-115: both trees destroyed, both slots unset and popped;
      the trees rooted below init_n are untouched. */
  method Teardown(heap: Heap, rs: RootStack, si: nat, initN: Ptr, sn: nat, n: Ptr,
                  ghost ti: Tree, ghost tb: Tree, ghost held: seq<Tree>, ghost slots0: seq<Ptr>)
    requires heap.Valid()
    requires si == |slots0| && sn == si + 1 && rs.slots == slots0 + [initN] + [n]
    requires Rooted(heap.cells, rs.slots, held + [ti] + [tb])
    requires Unshared(ti) && Unshared(tb)
    requires Addrs(ti) !! HeldAddrs(held) && Addrs(tb) !! HeldAddrs(held) && Addrs(ti) !! Addrs(tb)
    modifies heap, rs
    ensures heap.Valid()
    ensures rs.slots == slots0 && Rooted(heap.cells, rs.slots, held)
    ensures rs.log == old(rs.log) + MainClose(si)
    ensures heap.issued == old(heap.issued) && old(heap.freed) <= heap.freed
    ensures heap.manual ==> heap.cells == old(heap.cells) - Addrs(tb) - Addrs(ti)
                            && |heap.freed| == |old(heap.freed)| + Size(tb) + Size(ti)
    ensures !heap.manual ==> heap.cells == old(heap.cells) && heap.freed == old(heap.freed)
  {
    ghost var log0 := rs.log;
    RootedPop(heap.cells, slots0 + [initN], held + [ti], n, tb);
    RootedPop(heap.cells, slots0, held, initN, ti);
    ghost var h0 := heap.cells;
    DestroyBoth(heap, initN, n, ti, tb);
    if heap.manual {
      RootedPeel(h0, Addrs(tb), slots0, held);
      RootedPeel(h0 - Addrs(tb), Addrs(ti), slots0, held);
    }
    rs.Clear(sn);
    rs.Clear(si);
    rs.Pop(sn);
    rs.Pop(si);
    MainCloseSlots(slots0, initN, n);
    MainCloseSteps(log0, rs.log, si);
  }

  /** Lines 96-103: make_tree(small) without garbage, registered as
      init_n; then slot n registered and set to make_tree(large) with
      garbage. */
  method BuildTrees(heap: Heap, rs: RootStack, small: nat, large: nat, ghost held: seq<Tree>)
    returns (si: nat, initN: Ptr, sn: nat, n: Ptr, ghost ti: Tree, ghost tb: Tree)
    requires heap.Valid() && Rooted(heap.cells, rs.slots, held)
    modifies heap, rs
    ensures heap.Valid()
    ensures si == |old(rs.slots)| && sn == si + 1 && rs.slots == old(rs.slots) + [initN] + [n]
    ensures Rooted(heap.cells, rs.slots, held + [ti] + [tb])
    ensures Perfect(ti, small) && Unshared(ti) && Perfect(tb, large) && Unshared(tb)
    ensures Addrs(ti) !! HeldAddrs(held) && Addrs(tb) !! HeldAddrs(held) && Addrs(ti) !! Addrs(tb)
    ensures rs.log == old(rs.log) + RootLog(si, small, false) + [Pushed(si, small > 0)] + SlotLog(sn, large + 1, true)
    ensures old(heap.issued) <= heap.issued
    ensures |heap.issued| == |old(heap.issued)| + Allocations(small, false) + Allocations(large, true)
    ensures old(heap.freed) <= heap.freed
    ensures heap.manual ==> |heap.freed| == |old(heap.freed)| + Deallocations(small, false) + Deallocations(large, true)
    ensures !heap.manual ==> heap.freed == old(heap.freed)
    ensures heap.manual ==> heap.cells - Addrs(tb) - Addrs(ti) == old(heap.cells)
  {
    ghost var h0, slots0 := heap.cells, rs.slots;
    initN, ti := MakeTree(heap, rs, small, false, held);
    ghost var h1 := heap.cells;
    PerfectRoot(heap.cells, initN, ti, small);
    si := rs.Push(initN);
    RootedPush(heap.cells, slots0, held, initN, ti);
    HeldAddrsAppend(held, ti);
    sn, n, tb := PushSubtree(heap, rs, large + 1, true, held + [ti]);
    if heap.manual {
      PeelBoth(h0, h1, heap.cells, ti, tb);
    }
  }

  /** main (lines 93-120) with the two depths as parameters: a tree of
      depth `small` built without garbage and registered as init_n, then
      a tree of depth `large` built with garbage into the registered slot
      n; the sum of their node counts is reported, both trees are
      destroyed, and both slots are unset and popped. */
  method Benchmark(heap: Heap, rs: RootStack, small: nat, large: nat, ghost held: seq<Tree>)
    returns (total: nat)
    requires heap.Valid() && Rooted(heap.cells, rs.slots, held)
    modifies heap, rs
    ensures heap.Valid()
    ensures total == (Pow2(small) - 1) + (Pow2(large) - 1)
    ensures rs.slots == old(rs.slots) && Rooted(heap.cells, rs.slots, held)
    ensures rs.log == old(rs.log) + MainLog(|old(rs.slots)|, small, large)
    ensures old(heap.issued) <= heap.issued
    ensures |heap.issued| == |old(heap.issued)| + Allocations(small, false) + Allocations(large, true)
    ensures old(heap.freed) <= heap.freed
    ensures heap.manual ==> heap.cells == old(heap.cells)
    ensures heap.manual ==> |heap.freed| == |old(heap.freed)| + Allocations(small, false) + Allocations(large, true)
    ensures !heap.manual ==> heap.freed == old(heap.freed)
  {
    ghost var f0, slots0, log0 := heap.freed, rs.slots, rs.log;
    var si, initN, sn, n, ti, tb := BuildTrees(heap, rs, small, large, held);
    ghost var f2, log2 := heap.freed, rs.log;
    RootedPop(heap.cells, slots0 + [initN], held + [ti], n, tb);
    RootedPop(heap.cells, slots0, held, initN, ti);
    total := Count(heap.cells, n, tb) + Count(heap.cells, initN, ti);
    PerfectSize(ti, small);
    PerfectSize(tb, large);
    Teardown(heap, rs, si, initN, sn, n, ti, tb, held, slots0);
    MainLogSteps(log0, log2, rs.log, si, small, large);
    if heap.manual {
      MainDeallocations(f0, f2, heap.freed, ti, tb, small, large);
    }
  }

  /** The node total main prints for its depths 10 and 16 (lines 96 and
      103): (2^10 - 1) + (2^16 - 1). */
  lemma MainTotal()
    ensures (Pow2(10) - 1) + (Pow2(16) - 1) == 66558
  {
    assert Pow2(8) == 256;
    assert Pow2(10) == 4 * Pow2(8);
    assert Pow2(16) == 256 * Pow2(8) by {
      assert Pow2(12) == 16 * Pow2(8);
      assert Pow2(16) == 16 * Pow2(12);
    }
  }

  /** main as written (lines 93-120): depths 10 and 16, entered with no
      slot registered. It reports 66558 nodes and leaves no slot
      registered; a manual backend ends with the heap it started with. */
  method RunMain(heap: Heap, rs: RootStack) returns (total: nat)
    requires heap.Valid() && rs.slots == []
    modifies heap, rs
    ensures total == 66558
    ensures rs.slots == [] && rs.log == old(rs.log) + MainLog(0, 10, 16)
    ensures heap.manual ==> heap.cells == old(heap.cells)
  {
    total := Benchmark(heap, rs, 10, 16, []);
    MainTotal();
  }
}
