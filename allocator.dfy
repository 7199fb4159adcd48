/** The allocator contract the workload is linked against: allocate()
    returns a node with NULL children at an address no live node has, and
    deallocate() (present only when MANUAL_DEALLOCATE is set) removes a
    node. A backend without manual deallocation may reclaim nodes by
    itself, but only ones that no registered root slot can reach; it does
    not move the nodes it keeps. */
module Allocator {
  import opened Nodes
  import opened Roots

  /** The addresses the root slots refer to. */
  ghost function RootAddrs(slots: seq<Ptr>): set<nat>
  {
    set i | 0 <= i < |slots| && slots[i].Addr? :: slots[i].a
  }

  /** The addresses the live nodes' child pointers refer to. */
  ghost function ChildAddrs(h: Store): set<nat>
  {
    (set a | a in h && h[a].left.Addr? :: h[a].left.a) +
    (set a | a in h && h[a].right.Addr? :: h[a].right.a)
  }

  /** Going from heap h to heap h', nothing was reclaimed that the root
      slots reach: some set `kept`, closed under child pointers and holding
      every root, survives unchanged, and nodes were only removed, never
      altered, except for the one at address added. */
  ghost predicate KeepsReachable(h: Store, h': Store, slots: seq<Ptr>, kept: set<nat>, added: nat)
  {
    Closed(h, kept) && RootAddrs(slots) <= kept &&
    forall a :: a in kept && a in h ==> a != added && a in h' && h'[a] == h[a]
  }

  class Heap {
    /** MANUAL_DEALLOCATE: this backend expects explicit deallocation and
        reclaims nothing by itself. */
    const manual: bool
    /** The live nodes. */
    var cells: Store
    /** The next address the bump pointer hands out. */
    var next: nat
    /** Addresses returned by allocate(), in call order. */
    ghost var issued: seq<nat>
    /** Addresses passed to deallocate(), in call order. */
    ghost var freed: seq<nat>

    ghost predicate Valid()
      reads this
    {
      forall a :: a in cells ==> a < next
    }

    constructor (manual: bool)
      ensures Valid() && this.manual == manual
      ensures cells == map[] && issued == [] && freed == []
    {
      this.manual := manual;
      cells := map[];
      next := 0;
      issued := [];
      freed := [];
    }

    /** allocate(): a fresh node with NULL children. A manual backend
        only adds it; another may also drop nodes unreachable from the
        roots rs registers. */
    method Allocate(rs: RootStack) returns (p: Ptr)
      requires Valid()
      modifies this
      ensures Valid()
      ensures p.Addr? && p.a in cells && cells[p.a] == Cell(Null, Null)
      ensures forall a :: a in cells && a != p.a ==> a in old(cells) && cells[a] == old(cells)[a]
      ensures exists kept :: KeepsReachable(old(cells), cells, rs.slots, kept, p.a)
      ensures manual ==> p.a !in old(cells) && cells == old(cells)[p.a := Cell(Null, Null)]
      ensures issued == old(issued) + [p.a] && freed == old(freed)
    {
      ghost var h := cells;
      ghost var kept := h.Keys + ChildAddrs(h) + RootAddrs(rs.slots);
      forall a | a in kept && a in h
        ensures Within(h[a].left, kept) && Within(h[a].right, kept)
      {
        assert h[a].left.Addr? ==> h[a].left.a in ChildAddrs(h);
        assert h[a].right.Addr? ==> h[a].right.a in ChildAddrs(h);
      }
      p := Addr(next);
      cells := cells[next := Cell(Null, Null)];
      next := next + 1;
      issued := issued + [p.a];
      assert KeepsReachable(h, cells, rs.slots, kept, p.a);
    }

    /** deallocate(p): p must be a live node. */
    method Deallocate(p: Ptr)
      requires Valid() && manual && p.Addr? && p.a in cells
      modifies this
      ensures Valid()
      ensures cells == old(cells) - {p.a}
      ensures freed == old(freed) + [p.a] && issued == old(issued)
    {
      cells := cells - {p.a};
      freed := freed + [p.a];
    }

    /** SET_NODE(p->left, v). */
    method SetLeft(p: Ptr, v: Ptr)
      requires Valid() && p.Addr? && p.a in cells
      modifies this
      ensures Valid()
      ensures cells == old(cells)[p.a := old(cells)[p.a].(left := v)]
      ensures issued == old(issued) && freed == old(freed)
    {
      cells := cells[p.a := cells[p.a].(left := v)];
    }

    /** SET_NODE(p->right, v). */
    method SetRight(p: Ptr, v: Ptr)
      requires Valid() && p.Addr? && p.a in cells
      modifies this
      ensures Valid()
      ensures cells == old(cells)[p.a := old(cells)[p.a].(right := v)]
      ensures issued == old(issued) && freed == old(freed)
    {
      cells := cells[p.a := cells[p.a].(right := v)];
    }
  }
}
