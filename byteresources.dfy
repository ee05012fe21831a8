/**
 * The resource stack of bytesearch (bytesearch.c:5-51): entries linked through `older`, newest first.
 * Both actions bytesearch pushes, malloc_dtor and buffer_dtor, start by popping the head entry; the
 * freeing they then do is not modelled, and `performed` records which action ran.
 */
module ByteResources {
  import opened Wrappers

  datatype Action = MallocDtor | BufferDtor

  /** A pushed entry: the address of its record, which identifies it, and its action. */
  datatype Resource = Resource(id: nat, action: Action)

  function Actions(rs: seq<Resource>): (acts: seq<Action>)
    ensures |acts| == |rs|
    ensures forall i :: 0 <= i < |rs| ==> acts[i] == rs[i].action
  {
    if rs == [] then [] else [rs[0].action] + Actions(rs[1..])
  }

  lemma {:induction false} ActionsAppend(a: seq<Resource>, b: seq<Resource>)
    ensures Actions(a + b) == Actions(a) + Actions(b)
  {
    if a != [] {
      assert (a + b)[1..] == a[1..] + b;
      ActionsAppend(a[1..], b);
    }
  }

  class ResourceStack {
    /** The entries from rlist along `older`. */
    var rlist: seq<Resource>
    /** The actions run so far, oldest first. */
    var performed: seq<Action>

    constructor ()
      ensures rlist == [] && performed == []
    {
      rlist := [];
      performed := [];
    }

    /** push_resource: the new entry becomes the head. */
    method Push(r: Resource)
      modifies this
      ensures rlist == [r] + old(rlist) && performed == old(performed)
    {
      rlist := [r] + rlist;
    }

    /** pop_resource: unlink and return the most recently pushed entry, which must exist. */
    method Pop() returns (r: Resource)
      requires rlist != []
      modifies this
      ensures r == old(rlist)[0] && rlist == old(rlist)[1..] && performed == old(performed)
    {
      r := rlist[0];
      rlist := rlist[1..];
    }

    /** `(*rlist->action)()`: the head's action runs and pops the head. */
    method RunHeadAction()
      requires rlist != []
      modifies this
      ensures rlist == old(rlist)[1..] && performed == old(performed) + [old(rlist)[0].action]
    {
      var r := Pop();
      performed := performed + [r.action];
    }

    /**
     * release_until: whatever stop is, the actions of all entries run, newest first, and the stack
     * ends empty.
     */
    method ReleaseUntil(stop: Option<nat>)
      modifies this
      ensures rlist == []
      ensures performed == old(performed) + Actions(old(rlist))
    {
      ghost var list := rlist;
      ghost var i := 0;
      while rlist != []
        invariant i <= |list| && rlist == list[i..]
        invariant performed == old(performed) + Actions(list[..i])
        decreases |rlist|
      {
        assert list[..i + 1] == list[..i] + [list[i]];
        ActionsAppend(list[..i], [list[i]]);
        RunHeadAction();
        i := i + 1;
      }
      assert list[..i] == list;
    }
  }

  /** A push followed by a pop returns the pushed entry and restores the stack. */
  method PushThenPop(stack: ResourceStack, r: Resource) returns (popped: Resource)
    modifies stack
    ensures popped == r
    ensures stack.rlist == old(stack.rlist) && stack.performed == old(stack.performed)
  {
    stack.Push(r);
    popped := stack.Pop();
  }
}
