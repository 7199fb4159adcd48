/** The tree a node pointer denotes, and what a well-formed result of the
    workload looks like: perfect (every path from the root to NULL has the
    same length) and unshared (no node is reachable twice). */
module Trees {
  import opened Wrappers
  import opened Nodes

  /** An abstract binary tree; every node remembers the address it lives at. */
  datatype Tree = Empty | Node(addr: nat, left: Tree, right: Tree)

  /** In heap h, pointer p denotes tree t: NULL denotes Empty, and a live
      node denotes the tree built from its two children. */
  ghost predicate Shape(h: Store, p: Ptr, t: Tree)
    decreases t
  {
    match t
    case Empty => p == Null
    case Node(a, l, r) =>
      p == Addr(a) && a in h && Shape(h, h[a].left, l) && Shape(h, h[a].right, r)
  }

  function Addrs(t: Tree): set<nat>
  {
    match t
    case Empty => {}
    case Node(a, l, r) => {a} + Addrs(l) + Addrs(r)
  }

  function Size(t: Tree): nat
  {
    match t
    case Empty => 0
    case Node(_, l, r) => 1 + Size(l) + Size(r)
  }

  /** Every root-to-NULL path of t has length d. */
  ghost predicate Perfect(t: Tree, d: nat)
  {
    match t
    case Empty => d == 0
    case Node(_, l, r) => d > 0 && Perfect(l, d - 1) && Perfect(r, d - 1)
  }

  /** No address occurs twice in t: each node is its own allocation. */
  ghost predicate Unshared(t: Tree)
  {
    match t
    case Empty => true
    case Node(a, l, r) =>
      a !in Addrs(l) && a !in Addrs(r) && Addrs(l) !! Addrs(r) && Unshared(l) && Unshared(r)
  }

  /** u occurs in t as a subtree. */
  ghost predicate Subtree(u: Tree, t: Tree)
  {
    u == t || (t.Node? && (Subtree(u, t.left) || Subtree(u, t.right)))
  }

  /** The addresses of t, children before parent. */
  function PostOrder(t: Tree): seq<nat>
  {
    match t
    case Empty => []
    case Node(a, l, r) => PostOrder(l) + PostOrder(r) + [a]
  }

  /** The subtree reached by following path from the root (false = left,
      true = right); None if the path runs past NULL. */
  function Walk(t: Tree, path: seq<bool>): Option<Tree>
    decreases |path|
  {
    if path == [] then Some(t)
    else match t
      case Empty => None
      case Node(_, l, r) => Walk(if path[0] then r else l, path[1..])
  }

  function Pow2(n: nat): (r: nat)
    ensures r >= 1
  {
    if n == 0 then 1 else 2 * Pow2(n - 1)
  }

  /** u occurs in s starting at index i. */
  ghost predicate OccursAt(u: seq<nat>, s: seq<nat>, i: nat)
  {
    i + |u| <= |s| && s[i..i + |u|] == u
  }

  ghost predicate NoDuplicates(s: seq<nat>)
  {
    forall i, j :: 0 <= i < j < |s| ==> s[i] != s[j]
  }

  /** Writes to nodes outside t leave the tree p denotes unchanged. */
  lemma {:induction false} ShapeFrame(h: Store, h': Store, p: Ptr, t: Tree)
    requires Shape(h, p, t)
    requires forall a :: a in Addrs(t) && a in h ==> a in h' && h'[a] == h[a]
    ensures Shape(h', p, t)
    decreases t
  {
    match t
    case Empty =>
    case Node(a, l, r) =>
      ShapeFrame(h, h', h[a].left, l);
      ShapeFrame(h, h', h[a].right, r);
  }

  /** Every node of the tree p denotes is live. */
  lemma {:induction false} ShapeLive(h: Store, p: Ptr, t: Tree)
    requires Shape(h, p, t)
    ensures Addrs(t) <= h.Keys
    decreases t
  {
    match t
    case Empty =>
    case Node(a, l, r) =>
      ShapeLive(h, h[a].left, l);
      ShapeLive(h, h[a].right, r);
  }

  /** A set closed under child pointers that holds p holds every node of
      the tree p denotes: what a tracing collector marks from p. */
  lemma {:induction false} ShapeInClosed(h: Store, s: set<nat>, p: Ptr, t: Tree)
    requires Shape(h, p, t) && Closed(h, s) && Within(p, s)
    ensures Addrs(t) <= s
    decreases t
  {
    match t
    case Empty =>
    case Node(a, l, r) =>
      ShapeInClosed(h, s, h[a].left, l);
      ShapeInClosed(h, s, h[a].right, r);
  }

  /** The pointer to a perfect tree of depth d is NULL exactly when d is 0. */
  lemma PerfectRoot(h: Store, p: Ptr, t: Tree, d: nat)
    requires Shape(h, p, t) && Perfect(t, d)
    ensures p.Addr? <==> d > 0
  {
  }

  /** A perfect tree of depth d has 2^d - 1 nodes. */
  lemma {:induction false} PerfectSize(t: Tree, d: nat)
    requires Perfect(t, d)
    ensures Size(t) == Pow2(d) - 1
    decreases t
  {
    match t
    case Empty =>
    case Node(_, l, r) =>
      PerfectSize(l, d - 1);
      PerfectSize(r, d - 1);
  }

  /** In a perfect tree of depth d, a path ends exactly at NULL iff it has
      length d. */
  lemma {:induction false} PerfectPaths(t: Tree, d: nat, path: seq<bool>)
    requires Perfect(t, d)
    ensures Walk(t, path) == Some(Empty) <==> |path| == d
    decreases |path|
  {
    if path != [] {
      match t
      case Empty =>
      case Node(_, l, r) =>
        PerfectPaths(if path[0] then r else l, d - 1, path[1..]);
    }
  }

  /** In an unshared tree every node has its own address. */
  lemma {:induction false} UnsharedSize(t: Tree)
    requires Unshared(t)
    ensures |Addrs(t)| == Size(t)
    decreases t
  {
    match t
    case Empty =>
    case Node(a, l, r) =>
      UnsharedSize(l);
      UnsharedSize(r);
      assert {a} !! Addrs(l) + Addrs(r);
  }

  lemma NoDuplicatesConcat(s: seq<nat>, u: seq<nat>)
    requires NoDuplicates(s) && NoDuplicates(u)
    requires forall x :: x in s ==> x !in u
    ensures NoDuplicates(s + u)
  {
    forall i, j | 0 <= i < j < |s + u|
      ensures (s + u)[i] != (s + u)[j]
    {
      if i < |s| && |s| <= j {
        assert (s + u)[i] in s && (s + u)[j] in u;
      }
    }
  }

  /** The post-order lists the nodes of t, and of an unshared tree lists
      each exactly once. */
  lemma {:induction false} PostOrderNodes(t: Tree)
    ensures (set x | x in PostOrder(t)) == Addrs(t)
    ensures |PostOrder(t)| == Size(t)
    ensures Unshared(t) ==> NoDuplicates(PostOrder(t))
    decreases t
  {
    match t
    case Empty =>
    case Node(a, l, r) =>
      PostOrderNodes(l);
      PostOrderNodes(r);
      var pl, pr := PostOrder(l), PostOrder(r);
      assert PostOrder(t) == pl + pr + [a];
      assert (set x | x in PostOrder(t)) == (set x | x in pl) + (set x | x in pr) + {a};
      if Unshared(t) {
        assert forall x :: x in pl ==> x in Addrs(l);
        assert forall x :: x in pr ==> x in Addrs(r);
        NoDuplicatesConcat(pl, pr);
        NoDuplicatesConcat(pl + pr, [a]);
      }
  }

  lemma OccursInPrefix(u: seq<nat>, s: seq<nat>, v: seq<nat>, i: nat)
    requires OccursAt(u, s, i)
    ensures OccursAt(u, s + v, i)
  {
    assert (s + v)[i..i + |u|] == s[i..i + |u|];
  }

  lemma OccursInSuffix(u: seq<nat>, s: seq<nat>, v: seq<nat>, i: nat)
    requires OccursAt(u, v, i)
    ensures OccursAt(u, s + v, |s| + i)
  {
    assert (s + v)[|s| + i..|s| + i + |u|] == v[i..i + |u|];
  }

  /** Every subtree u of t is visited as one contiguous run of the
      post-order of t; since PostOrder(u) ends with u's root, the root of
      each subtree comes right after all of its descendants. */
  lemma {:induction false} PostOrderContiguous(t: Tree, u: Tree)
    requires Subtree(u, t)
    ensures exists i :: OccursAt(PostOrder(u), PostOrder(t), i)
    decreases t
  {
    if u == t {
      assert OccursAt(PostOrder(u), PostOrder(t), 0);
    } else {
      var pl, pr := PostOrder(t.left), PostOrder(t.right);
      assert PostOrder(t) == pl + (pr + [t.addr]);
      assert PostOrder(t) == (pl + pr) + [t.addr];
      if Subtree(u, t.left) {
        PostOrderContiguous(t.left, u);
        var i: nat :| OccursAt(PostOrder(u), pl, i);
        OccursInPrefix(PostOrder(u), pl, pr + [t.addr], i);
      } else {
        PostOrderContiguous(t.right, u);
        var i: nat :| OccursAt(PostOrder(u), pr, i);
        OccursInSuffix(PostOrder(u), pl, pr, i);
        OccursInPrefix(PostOrder(u), pl + pr, [t.addr], |pl| + i);
      }
    }
  }
}
