/** The root-tracking layer: a stack of slots, one per local variable that
    may hold a node, through which a collecting allocator finds the live
    nodes. The macros PUSH_STACK_POINTER, SET_NODE (on a local),
    UNSET_NODE / UNSET_RETURN_NODE and POP_STACK_POINTER become Push, Set,
    Clear and Pop. Each call is also logged, so that the discipline of a
    whole run can be checked by Replay. */
module Roots {
  import opened Wrappers
  import opened Nodes

  /** One root-stack operation; `holding` says whether the slot refers to
      a node afterwards. */
  datatype RootOp =
    | Pushed(slot: nat, holding: bool)
    | Assigned(slot: nat, holding: bool)
    | Cleared(slot: nat)
    | Popped(slot: nat)

  /** The effect of one operation on a stack of slots (true: the slot holds
      a reference), or None if it breaks the protocol: registering a slot
      anywhere but on top, touching a slot that is not registered, popping
      a slot other than the top one, or popping a slot that still holds a
      reference. */
  function Step(op: RootOp, stack: seq<bool>): Option<seq<bool>>
  {
    match op
    case Pushed(s, h) => if s == |stack| then Some(stack + [h]) else None
    case Assigned(s, h) => if s < |stack| then Some(stack[s := h]) else None
    case Cleared(s) => if s < |stack| then Some(stack[s := false]) else None
    case Popped(s) => if s + 1 == |stack| && !stack[s] then Some(stack[..s]) else None
  }

  /** The stack after a sequence of operations, or None if one of them
      breaks the protocol. */
  function Replay(ops: seq<RootOp>, stack: seq<bool>): Option<seq<bool>>
    decreases |ops|
  {
    if ops == [] then Some(stack)
    else match Step(ops[0], stack)
      case None => None
      case Some(next) => Replay(ops[1..], next)
  }

  /** Replaying a + b is replaying a, then b from where a left off. */
  lemma {:induction false} ReplayAppend(a: seq<RootOp>, b: seq<RootOp>, stack: seq<bool>)
    ensures Replay(a + b, stack) ==
            match Replay(a, stack)
            case None => None
            case Some(mid) => Replay(b, mid)
    decreases |a|
  {
    if a == [] {
      assert a + b == b;
    } else {
      assert (a + b)[0] == a[0] && (a + b)[1..] == a[1..] + b;
      match Step(a[0], stack)
      case None =>
      case Some(next) => ReplayAppend(a[1..], b, next);
    }
  }

  class RootStack {
    /** The registered slots, bottom first, with the pointer each holds. */
    var slots: seq<Ptr>
    /** Every operation performed so far, oldest first. */
    ghost var log: seq<RootOp>

    constructor ()
      ensures slots == [] && log == []
    {
      slots := [];
      log := [];
    }

    /** PUSH_STACK_POINTER(x): registers x's slot on top of the stack,
        holding x's current value; returns the slot's index. */
    method Push(v: Ptr) returns (slot: nat)
      modifies this
      ensures slot == |old(slots)| && slots == old(slots) + [v]
      ensures log == old(log) + [Pushed(slot, v.Addr?)]
    {
      slot := |slots|;
      slots := slots + [v];
      log := log + [Pushed(slot, v.Addr?)];
    }

    /** SET_NODE(x, v) on a registered local x. */
    method Set(slot: nat, v: Ptr)
      requires slot < |slots|
      modifies this
      ensures slots == old(slots)[slot := v]
      ensures log == old(log) + [Assigned(slot, v.Addr?)]
    {
      slots := slots[slot := v];
      log := log + [Assigned(slot, v.Addr?)];
    }

    /** UNSET_NODE(x) and UNSET_RETURN_NODE(x): the slot stops reporting a
        reference (the latter leaves the local itself intact for return). */
    method Clear(slot: nat)
      requires slot < |slots|
      modifies this
      ensures slots == old(slots)[slot := Null]
      ensures log == old(log) + [Cleared(slot)]
    {
      slots := slots[slot := Null];
      log := log + [Cleared(slot)];
    }

    /** POP_STACK_POINTER(x): slots are deregistered in the reverse order
        of registration, so only the top slot may be popped. */
    method Pop(slot: nat)
      requires slot + 1 == |slots|
      modifies this
      ensures slots == old(slots)[..slot]
      ensures log == old(log) + [Popped(slot)]
    {
      slots := slots[..slot];
      log := log + [Popped(slot)];
    }
  }
}
