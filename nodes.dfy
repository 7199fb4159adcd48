/** The node record of the workload (`struct node`): no payload, only two
    child pointers. The heap is a finite map from addresses to live nodes. */
module Nodes {

  /** A node pointer: NULL or the address of a node. */
  datatype Ptr = Null | Addr(a: nat)

  /** The two fields of a node. */
  datatype Cell = Cell(left: Ptr, right: Ptr)

  /** The live nodes of the heap, by address. */
  type Store = map<nat, Cell>

  /** p is NULL or points into the address set s. */
  predicate Within(p: Ptr, s: set<nat>)
  {
    p.Addr? ==> p.a in s
  }

  /** Following a child pointer of a live node in s never leaves s. */
  ghost predicate Closed(h: Store, s: set<nat>)
  {
    forall a :: a in s && a in h ==> Within(h[a].left, s) && Within(h[a].right, s)
  }
}
