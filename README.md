# gc-demo tree workload, modelled in Dafny

gc-demo is a micro-benchmark for memory allocators. One workload program
(`common/tree.c`) is linked against several allocator backends. The
backends differ in how objects die:

- some expect explicit `deallocate` calls (`MANUAL_DEALLOCATE`);
- others reclaim nodes themselves and find the live ones through a stack
  of registered root slots.

This project models that workload:

- `make_tree(depth)` builds a perfect binary tree. When `create_garbage`
  is set, every level first builds and destroys a junk branch.
- `destroy_tree` frees a tree children-first, but only under manual
  deallocation.
- `count` counts the nodes.
- `main` builds a depth-10 tree without garbage and a depth-16 tree with
  garbage, prints their total node count, and destroys both.

Every local that can hold a node is registered with the root stack
(`PUSH_STACK_POINTER`, `SET_NODE`, `UNSET_NODE`/`UNSET_RETURN_NODE`,
`POP_STACK_POINTER`).

## Files

| file | contents |
|---|---|
| `wrappers.dfy` | The `Option` type that `Replay` returns |
| `nodes.dfy` | `struct node` as `Cell(left, right)`, node pointers `Ptr` (`Null` or `Addr(a)`), the heap as a map from addresses to live cells |
| `trees.dfy` | The ghost `Tree` a pointer denotes in a heap (`Shape`), and what a well-formed result is: `Perfect` and `Unshared`. Also size, post-order, paths. |
| `roots.dfy` | The root stack as a class (`RootStack`): a sequence of slots with Push/Set/Clear/Pop and a ghost log of every operation. `Replay` checks the protocol over a log. |
| `allocator.dfy` | The allocator contract as a class (`Heap`), described below. |
| `workload.dfy` | `make_tree`, `destroy_tree`, `count` and `main` as methods over `Heap` and `RootStack`, plus the counting functions and the lemmas about them |

The `Heap` class in `allocator.dfy` works as follows:

- `Allocate` returns a fresh node with NULL children.
- A non-moving backend without manual deallocation may drop nodes
  during `Allocate`, but only nodes outside some set that holds every
  rooted node and is closed under child pointers (`KeepsReachable`).
  Kept nodes stay at their addresses with their contents.
- `Deallocate` removes a node.
- Ghost logs `issued` and `freed` record the addresses of every
  `allocate` and `deallocate` call.

How the code is modelled:

- The global `create_garbage` flag is the parameter `garbage`, passed
  down the recursion.
- The compile-time switch `MANUAL_DEALLOCATE` is the constant
  `Heap.manual`.
- `make_tree` is split along its blocks so that each piece verifies on
  its own:
  - `MakeJunk` is the junk branch; `DropJunk` is its destroy/unset/pop;
  - `PushSubtree` is one registered subtree slot;
  - `Subtrees` is `l` and `r`;
  - `Children` is all of lines 28-46;
  - `AllocateNode` and `NewNode` build `t`;
  - `MakeLevel` is the non-empty case.
- `main` is `RunMain`, which runs `Benchmark` on the source's depths 10
  and 16. `Benchmark` takes the two depths as parameters and is split
  the same way into `BuildTrees`, `DestroyBoth` and `Teardown`.

Two consequences of `tree.c` are worth stating plainly:

- `make_tree(d)` builds 2^d - 1 nodes, because `make_tree(1)` is a single
  node with two NULL children (lines 25-63). So `main` prints
  1023 + 65535 = 66558 (`AllocationsWithoutGarbage`, `PerfectSize`,
  `RunMain`).
- Garbage adds `allocate` calls only from depth 2 on. At depth 1 the junk
  branch is `make_tree(0)`, which allocates nothing (`GarbageCostsMore`).

## Model

| member | source | states |
|---|---|---|
| `Workload.MakeTree` | common/tree.c:23-65 | The result denotes a perfect tree of the requested depth with no node reachable twice, disjoint from every tree already rooted. All rooted trees survive and the root stack is restored. The log is `RootLog`. It made exactly `Allocations(depth, garbage)` allocate calls, and every node of the result is among them. With manual deallocation: exactly `Deallocations` deallocate calls, and the live heap is the old heap plus exactly the result's nodes. Otherwise: no deallocate call. For depth 0, `Perfect` forces the empty tree (so NULL), and `Allocations`, `Deallocations` and `RootLog` are 0, 0 and empty. |
| `Workload.MakeLevel` | common/tree.c:27-64 | The same guarantees for depth > 0, assembled from the children and the new node |
| `Workload.LevelFacts` | common/tree.c:27-64 | One level's tree is perfect and unshared when the two subtrees are, disjoint, and the new address is fresh. Its log, allocation count, deallocation count and heap growth are the pieces summed. |
| `Workload.Children` | common/tree.c:28-46 | Junk branch (if garbage) then slots `l` and `r`. The stack gains exactly those two slots, holding two disjoint perfect trees of depth - 1. The log and the allocate/deallocate counts are the pieces summed. With manual deallocation the heap grew by exactly the two subtrees' nodes. |
| `Workload.MakeJunk` | common/tree.c:28-36 | The junk branch leaves the stack and every rooted tree as before and adds `JunkLog` to the log. It costs `Allocations(depth-1)` allocate calls. With manual deallocation it also costs `Deallocations(depth-1) + 2^(depth-1) - 1` deallocate calls and leaves the heap exactly as before. Otherwise it costs no deallocate call. |
| `Workload.DropJunk` | common/tree.c:33-35 | Destroying the junk tree, then unsetting and popping its slot, restores the stack below it. It logs Cleared then Popped. With manual deallocation it removes exactly the junk tree's nodes and makes one deallocate call per node. |
| `Workload.PushSubtree` | common/tree.c:39-41 | A slot is pushed NULL and set to `make_tree(depth-1)`. The stack gains exactly that slot, which roots a perfect unshared tree disjoint from the rooted ones. The log gains `SlotLog`. The allocation and deallocation counts are those of the inner call. |
| `Workload.Subtrees` | common/tree.c:38-46 | Slots `l` and `r` set to two disjoint perfect trees of depth - 1, with log `SubtreesLog` and twice the inner counts |
| `Workload.AllocateRooted` | common/tree.c:51 | `allocate()` returns a fresh NULL-children node that is in no rooted tree, and every rooted tree survives the allocation |
| `Workload.AllocateNode` | common/tree.c:49-51 | Slot `t` is pushed NULL and set to the new node, which is in none of the rooted trees nor in `l` or `r`. Exactly one allocate call is made. |
| `Workload.NewNode` | common/tree.c:49-61 | `t` becomes a live node whose children are `l` and `r`, so it denotes `Node(t, tl, tr)`. The stack is restored below `l` and the log gains `Epilogue`. With manual deallocation the heap gains exactly that node. |
| `Workload.DestroyTree` | common/tree.c:69-78 | With manual deallocation, exactly the tree's nodes are removed, and the deallocate calls are the tree's post-order. Without, nothing changes. No allocate call. |
| `Workload.Count` | common/tree.c:82-88 | Following child pointers in the heap gives the number of nodes of the denoted tree |
| `Workload.Benchmark` | common/tree.c:93-120 | The printed total is (2^small - 1) + (2^large - 1). The root stack and every rooted tree are as on entry, and the log is `MainLog`. Allocate calls number `Allocations(small, false) + Allocations(large, true)`. With manual deallocation there are as many deallocate calls and the heap ends as it started. |
| `Workload.BuildTrees` | common/tree.c:96-103 | `init_n` and `n` are registered, holding disjoint perfect trees of depths small and large, with the log and counts of the two `make_tree` calls |
| `Workload.DestroyBoth` | common/tree.c:108-109 | With manual deallocation both trees' nodes are removed, one deallocate call each. Without, nothing changes. |
| `Workload.Teardown` | common/tree.c:108-115 | Both trees destroyed, both slots unset then popped as `n`, `init_n`; the stack below is restored and the log gains `MainClose` |
| `Workload.RunMain` | common/tree.c:93-120 | main on its depths 10 and 16, entered with no slot registered, reports 66558 nodes. Its root-stack log is `MainLog(0, 10, 16)`, which `MainLogBalanced` shows conforms to the protocol. It leaves no slot registered, and a manual backend ends with the heap it started with. |
| `Workload.MainTotal` | common/tree.c:96-106 | main's printed total for depths 10 and 16 is 66558 |
| `Workload.RootLogBalanced` | common/tree.c:28-61 | Replaying `make_tree`'s root-stack log never breaks the protocol: every slot is pushed on top, touched only while registered, and popped from the top while empty. The stack on return equals the stack on entry. |
| `Workload.SlotReplay` | common/tree.c:39-41 | A subtree slot leaves one more slot, holding a reference exactly when depth > 1 |
| `Workload.JunkReplay` | common/tree.c:30-35 | The junk slot `n` is pushed and popped as a pair |
| `Workload.EpilogueReplay` | common/tree.c:49-61 | `t` pushed and set, `l`, `r`, `t` unset, then popped as `t`, `r`, `l`: back to the stack before `l` |
| `Workload.MainLogBalanced` | common/tree.c:96-115 | main's root-stack use is also balanced and protocol-conforming |
| `Workload.AllocationsWithoutGarbage` | common/tree.c:38-51 | Without garbage, `make_tree(d)` makes 2^d - 1 allocate calls, one per node |
| `Workload.AllocationsWithGarbage` | common/tree.c:28-51 | With garbage, 2·A(d) + 1 = 3^d, from A(d) = 1 + 3·A(d - 1) |
| `Workload.GarbageNeverFewer` | common/tree.c:28-36 | Garbage never lowers the number of allocate calls |
| `Workload.GarbageCostsMore` | common/tree.c:28-36 | Garbage makes strictly more allocate calls exactly when depth ≥ 2 |
| `Workload.LiveAfterMakeTree` | common/tree.c:28-36 | Allocate calls = deallocate calls + 2^d - 1: under manual deallocation, only the result's nodes stay allocated |
| `Workload.MainDeallocations` | common/tree.c:96-109 | Under manual deallocation main makes as many deallocate calls as allocate calls |
| `Workload.RootedSurvivesAllocation` | common/tree.c:51 | A reclaiming `allocate()` that keeps everything reachable from the slots keeps every rooted tree, and hands out none of their nodes |
| `Workload.LinkNode` | common/tree.c:52-54 | Writing `l` and `r` into a fresh node yields the tree `Node(t, tl, tr)` |
| `Trees.PerfectRoot` | common/tree.c:25-26 | A perfect tree's pointer is NULL exactly when its depth is 0 |
| `Trees.PerfectSize` | common/tree.c:82-88 | A perfect tree of depth d has 2^d - 1 nodes |
| `Trees.PerfectPaths` | common/tree.c:39-55 | In a perfect tree of depth d a path reaches NULL exactly when it has length d |
| `Trees.UnsharedSize` | common/tree.c:39-55 | In an unshared tree the number of distinct addresses equals the number of nodes |
| `Trees.PostOrderNodes` | common/tree.c:72-76 | The deallocation order lists exactly the tree's nodes, once each for an unshared tree |
| `Trees.PostOrderContiguous` | common/tree.c:72-76 | Every subtree is freed as one contiguous run ending with its root, so children go before parents |
| `Trees.ShapeFrame` | common/tree.c:52-54 | Writes outside a tree's nodes leave the tree a pointer denotes unchanged |
| `Roots.RootStack.Push` | common/tree.c:31 | `PUSH_STACK_POINTER`: a slot holding the local's value is added on top, and its index is the old height |
| `Roots.RootStack.Set` | common/tree.c:32 | `SET_NODE` on a registered local: only that slot changes |
| `Roots.RootStack.Clear` | common/tree.c:34 | `UNSET_NODE` / `UNSET_RETURN_NODE`: the slot stops holding a reference |
| `Roots.RootStack.Pop` | common/tree.c:35 | `POP_STACK_POINTER`: only the top slot is removed |
| `Roots.ReplayAppend` | common/tree.c:28-61 | Replaying two logs in sequence is replaying their concatenation |
| `Allocator.Heap.Allocate` | common/tree.c:51 | A fresh node with NULL children; a manual backend only adds it, another may also drop nodes unreachable from the root slots; one more `issued` entry |
| `Allocator.Heap.Deallocate` | common/tree.c:75 | A live node is removed and logged |
| `Allocator.Heap.SetLeft` | common/tree.c:52 | Only the node's left field changes |
| `Allocator.Heap.SetRight` | common/tree.c:54 | Only the node's right field changes |

## Left out

- `printf` of the node total (line 106) is I/O. `Benchmark` returns the total instead, and `MainTotal` states its value for depths 10 and 16.
- Peak memory use (line 117) is kept by `mem.c`, which is not part of this model.
- Workload.RunMain: the allocate and deallocate counts and the `issued`/`freed` prefix facts are not restated for the concrete depths 10 and 16. With those depths as literals, the verifier evaluates `Allocations(16, true)` and the depth-16 log concretely, and runs out of resources. `Benchmark` states them for every pair of depths.
- The allocator backends are not modelled. Nor are the definitions of `allocate`, `deallocate` and the root-stack macros in `allocate.h` and `default.h`, which are not part of this model. They appear only as the `Heap` and `RootStack` contracts above.
- Allocator.Heap.Allocate: only non-moving backends are modelled. A reclaiming `Allocate` keeps every reachable node at its address with its contents, and never rewrites the root slots or the locals. A copying collector, which relocates nodes and updates the registered locals through their slots, is not covered.
- Concrete heap addresses: the model's bump allocator numbers nodes, and the contracts only ask that new addresses be fresh.
- Native recursion depth and stack overflow.
- Workload.MakeTree: `depth` is a natural number, while `make_tree` takes an `int`. For a negative depth the test `depth == 0` (line 25) never succeeds, so the source recurses until the native stack overflows. That diverging case is excluded here; the termination proof relies on it.
- `int` overflow: node counts are unbounded. For the depths `main` uses (at most 16) a 32-bit `int` does not overflow.
- Workload.Benchmark: the deallocate calls of a manual backend are counted, not listed in order. Each `destroy_tree` call's order is stated by `Workload.DestroyTree`.
- Aliasing between a C local and its root slot: the model passes the pointer value and the slot index separately. `SET_NODE` on a local is `RootStack.Set` with the new value.
