/**
 * The resource list of blocksearch (blocksearch.c:50-70, 90-115): a stack of cleanup actions linked
 * through `link`, newest first. release_tracked_until runs the head's action until the given entry
 * (or NULL, the end of the list) is at the head.
 *
 * Every action blocksearch tracks (malloc_dtor, buffer_dtor, usage_action, flusher_action) starts by
 * untracking the head entry; what it then does (free, printing the help text, flushing output) is
 * not modelled. The model records instead which action ran, in the sequence `performed`.
 */
module BlockResources {
  import opened Wrappers

  datatype Action = MallocDtor | BufferDtor | UsageAction | FlusherAction

  /** A tracked entry: the address of its record, which identifies it, and its action. */
  datatype Resource = Resource(id: nat, action: Action)

  function Actions(rs: seq<Resource>): (acts: seq<Action>)
    ensures |acts| == |rs|
    ensures forall i :: 0 <= i < |rs| ==> acts[i] == rs[i].action
  {
    if rs == [] then [] else [rs[0].action] + Actions(rs[1..])
  }

  /** Whether the list is in the state release_tracked_until(stop) stops at: `*rlist == stop`. */
  predicate AtStop(list: seq<Resource>, stop: Option<nat>) {
    match stop
    case None => list == []
    case Some(id) => list != [] && list[0].id == id
  }

  /** The number of entries above the first entry with identity stop; the whole list for NULL. */
  function StopIndex(list: seq<Resource>, stop: Option<nat>): (k: nat)
    ensures k <= |list|
    ensures stop.None? ==> k == |list|
    ensures stop.Some? && k < |list| ==> list[k].id == stop.value
    ensures stop.Some? ==> forall j :: 0 <= j < k ==> list[j].id != stop.value
  {
    if list == [] then 0
    else if stop.Some? && list[0].id == stop.value then 0
    else 1 + StopIndex(list[1..], stop)
  }

  /** A stop release_tracked_until can reach: NULL, or an entry on the list. */
  predicate Reachable(list: seq<Resource>, stop: Option<nat>) {
    stop.None? || exists k :: 0 <= k < |list| && list[k].id == stop.value
  }

  class ResourceList {
    /** The entries from *rlist along `link`. */
    var rlist: seq<Resource>
    /** The actions run so far, oldest first. */
    var performed: seq<Action>

    constructor ()
      ensures rlist == [] && performed == []
    {
      rlist := [];
      performed := [];
    }

    /** track_resource: the new entry becomes the head. */
    method Track(r: Resource)
      modifies this
      ensures rlist == [r] + old(rlist) && performed == old(performed)
    {
      rlist := [r] + rlist;
    }

    /** untrack_resource: unlink and return the head, which must exist. */
    method Untrack() returns (r: Resource)
      requires rlist != []
      modifies this
      ensures r == old(rlist)[0] && rlist == old(rlist)[1..] && performed == old(performed)
    {
      r := rlist[0];
      rlist := rlist[1..];
    }

    /**
     * new_tracked_buffer as seen by the list: new_tracked_resource tracks the record with malloc_dtor,
     * then the record's action is replaced by buffer_dtor.
     */
    method NewTrackedBuffer(id: nat)
      modifies this
      ensures rlist == [Resource(id, BufferDtor)] + old(rlist) && performed == old(performed)
    {
      Track(Resource(id, MallocDtor));
      rlist := [Resource(id, BufferDtor)] + rlist[1..];
    }

    /** `(*(*rlist)->action)(rlist)`: the head's action runs and untracks the head. */
    method RunHeadAction()
      requires rlist != []
      modifies this
      ensures rlist == old(rlist)[1..] && performed == old(performed) + [old(rlist)[0].action]
    {
      var r := Untrack();
      performed := performed + [r.action];
    }

    /**
     * release_tracked_until: the actions of the entries above stop run head first, that is newest
     * first, and those entries leave the list; stop itself stays at the head.
     */
    method ReleaseTrackedUntil(stop: Option<nat>)
      requires Reachable(rlist, stop)
      modifies this
      ensures rlist == old(rlist)[StopIndex(old(rlist), stop)..]
      ensures performed == old(performed) + Actions(old(rlist)[..StopIndex(old(rlist), stop)])
      ensures AtStop(rlist, stop)
    {
      ghost var list := rlist;
      ghost var k := StopIndex(list, stop);
      ghost var i := 0;
      while !AtStop(rlist, stop)
        invariant i <= k && rlist == list[i..]
        invariant performed == old(performed) + Actions(list[..i])
        decreases |rlist|
      {
        assert i < k;
        assert list[..i + 1] == list[..i] + [list[i]];
        ActionsAppend(list[..i], [list[i]]);
        RunHeadAction();
        i := i + 1;
      }
      assert i == k;
    }
  }

  lemma {:induction false} ActionsAppend(a: seq<Resource>, b: seq<Resource>)
    ensures Actions(a + b) == Actions(a) + Actions(b)
  {
    if a != [] {
      assert (a + b)[1..] == a[1..] + b;
      ActionsAppend(a[1..], b);
    }
  }

  // ---------------------------------------------------------------------------------------------
  // Last in, first out

  /** The list after tracking rs in order onto list, one Track per entry. */
  function TrackAll(list: seq<Resource>, rs: seq<Resource>): seq<Resource>
    decreases |rs|
  {
    if rs == [] then list else TrackAll([rs[0]] + list, rs[1..])
  }

  function Reversed<T>(s: seq<T>): (r: seq<T>)
    ensures |r| == |s|
    ensures forall i :: 0 <= i < |s| ==> r[i] == s[|s| - 1 - i]
  {
    if s == [] then [] else Reversed(s[1..]) + [s[0]]
  }

  /** Tracking puts the entries on top of the list in reverse order. */
  lemma {:induction false} TrackAllReverses(list: seq<Resource>, rs: seq<Resource>)
    decreases |rs|
    ensures TrackAll(list, rs) == Reversed(rs) + list
  {
    if rs != [] {
      TrackAllReverses([rs[0]] + list, rs[1..]);
      assert Reversed(rs[1..]) + ([rs[0]] + list) == Reversed(rs) + list;
    }
  }

  lemma StopIndexAbove(above: seq<Resource>, list: seq<Resource>, stop: Option<nat>)
    requires stop.Some? ==> list != [] && list[0].id == stop.value
    requires stop.None? ==> list == []
    requires forall i :: 0 <= i < |above| ==> stop.None? || above[i].id != stop.value
    ensures StopIndex(above + list, stop) == |above|
  {
    var all := above + list;
    assert forall j :: 0 <= j < |above| ==> all[j] == above[j];
    if stop.Some? {
      assert all[|above|] == list[0];
    }
  }

  /**
   * Releasing up to the entry that was the head before rs were tracked (or everything, for NULL)
   * runs exactly the actions of rs, newest first, and leaves the earlier list.
   */
  lemma ReleaseUndoesTracking(list: seq<Resource>, rs: seq<Resource>)
    requires forall i :: 0 <= i < |rs| ==> list == [] || rs[i].id != list[0].id
    ensures var stop := if list == [] then None else Some(list[0].id);
      var after := TrackAll(list, rs);
      var k := StopIndex(after, stop);
      Reachable(after, stop) && after[k..] == list && Actions(after[..k]) == Reversed(Actions(rs))
  {
    var stop := if list == [] then None else Some(list[0].id);
    TrackAllReverses(list, rs);
    var after := TrackAll(list, rs);
    var above := Reversed(rs);
    forall i | 0 <= i < |above| ensures stop.None? || above[i].id != stop.value {
      assert above[i] == rs[|rs| - 1 - i];
    }
    StopIndexAbove(above, list, stop);
    assert after[..|rs|] == above && after[|rs|..] == list;
    assert Actions(above) == Reversed(Actions(rs)) by {
      forall i | 0 <= i < |rs| ensures Actions(above)[i] == Reversed(Actions(rs))[i] {
        assert above[i] == rs[|rs| - 1 - i];
      }
    }
    if stop.Some? {
      assert after[|rs|].id == stop.value;
    }
  }

  /** The cleanup at the end of main: flusher, usage, the work buffer and the needle buffer are released newest first. */
  method MainCleanupOrder() returns (order: seq<Action>)
    ensures order == [BufferDtor, BufferDtor, UsageAction, FlusherAction]
  {
    var resources := new ResourceList();
    resources.Track(Resource(0, FlusherAction));
    resources.Track(Resource(1, UsageAction));
    resources.NewTrackedBuffer(2);
    resources.NewTrackedBuffer(3);
    resources.ReleaseTrackedUntil(None);
    order := resources.performed;
  }
}
