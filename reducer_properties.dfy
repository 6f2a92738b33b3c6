/** What the project reducer promises about each action and its list operations. */
module ReducerProperties {
  import opened Wrappers
  import opened ProjectReducer

  // ---------------------------------------------------------------------------
  // Filtering by id

  /** Filtering a concatenation filters each part: kept items stay in their original order. */
  lemma {:induction false} RemoveDistributes(a: seq<Item>, b: seq<Item>, id: string)
    ensures RemoveById(a + b, id) == RemoveById(a, id) + RemoveById(b, id)
    decreases |a|
  {
    if |a| > 0 {
      assert (a + b)[1..] == a[1..] + b;
      RemoveDistributes(a[1..], b, id);
    } else {
      assert a + b == b;
    }
  }

  /** A single item is kept exactly when its id differs. */
  lemma RemoveSingle(x: Item, id: string)
    ensures RemoveById([x], id) == if x.id == id then [] else [x]
  {
    assert [x][1..] == [];
  }

  /** A list without the id is left exactly as it is; one with it is not. */
  lemma {:induction false} RemoveUnchangedIff(items: seq<Item>, id: string)
    ensures RemoveById(items, id) == items <==> forall x :: x in items ==> x.id != id
    decreases |items|
  {
    if |items| > 0 {
      RemoveUnchangedIff(items[1..], id);
      if forall x :: x in items ==> x.id != id {
        assert forall x :: x in items[1..] ==> x in items;
        assert items == [items[0]] + items[1..];
      }
    }
  }

  /** Filtering twice by the same id equals filtering once. */
  lemma RemoveIdempotent(items: seq<Item>, id: string)
    ensures RemoveById(RemoveById(items, id), id) == RemoveById(items, id)
  {
    RemoveUnchangedIff(RemoveById(items, id), id);
  }

  // ---------------------------------------------------------------------------
  // Replacing by id

  /** Replacing twice with the same record equals replacing once. */
  lemma ReplaceIdempotent(items: seq<Item>, updated: Item)
    ensures ReplaceById(ReplaceById(items, updated), updated) == ReplaceById(items, updated)
  {}

  /** Replacing leaves a list without the record's id as it is. */
  lemma ReplaceAbsent(items: seq<Item>, updated: Item)
    requires forall x :: x in items ==> x.id != updated.id
    ensures ReplaceById(items, updated) == items
  {}

  /** A record replaced and then filtered out by its own id leaves no trace. */
  lemma {:induction false} ReplaceThenRemove(items: seq<Item>, updated: Item)
    ensures RemoveById(ReplaceById(items, updated), updated.id) == RemoveById(items, updated.id)
    decreases |items|
  {
    if |items| > 0 {
      var r := ReplaceById(items, updated);
      ReplaceThenRemove(items[1..], updated);
      assert r[1..] == ReplaceById(items[1..], updated);
    }
  }

  // ---------------------------------------------------------------------------
  // The reducer, action by action

  /** The empty starting state. */
  lemma InitialStateEmpty()
    ensures InitialState.projects == [] && InitialState.currentProject.None?
    ensures InitialState.devices == [] && InitialState.connections == []
    ensures InitialState.vlans == [] && InitialState.subnets == []
    ensures !InitialState.loading && InitialState.error.None?
  {}

  /** `after` is `before` with `x` added at the end. */
  predicate Appended(before: seq<Item>, after: seq<Item>, x: Item) {
    |after| == |before| + 1 && after[..|before|] == before && after[|before|] == x
  }

  /** Each add action appends its payload to its own list and changes nothing else. */
  lemma AddActionsAppend(state: State, x: Item)
    ensures var r := Reduce(state, AddDevice(x)); Appended(state.devices, r.devices, x) && r.(devices := state.devices) == state
    ensures var r := Reduce(state, AddConnection(x)); Appended(state.connections, r.connections, x) && r.(connections := state.connections) == state
    ensures var r := Reduce(state, AddVlan(x)); Appended(state.vlans, r.vlans, x) && r.(vlans := state.vlans) == state
    ensures var r := Reduce(state, AddSubnet(x)); Appended(state.subnets, r.subnets, x) && r.(subnets := state.subnets) == state
  {}

  /** UPDATE_DEVICE keeps length and order, swaps in the payload exactly where the id matches, and changes nothing else. */
  lemma UpdateDeviceReplaces(state: State, d: Item)
    ensures var r := Reduce(state, UpdateDevice(d));
      && |r.devices| == |state.devices|
      && (forall i :: 0 <= i < |state.devices| && state.devices[i].id == d.id ==> r.devices[i] == d)
      && (forall i :: 0 <= i < |state.devices| && state.devices[i].id != d.id ==> r.devices[i] == state.devices[i])
      && r.(devices := state.devices) == state
  {}

  /** DELETE_DEVICE keeps exactly the devices with another id, and changes nothing else; repeating it changes nothing more. */
  lemma DeleteDeviceFilters(state: State, id: string)
    ensures var r := Reduce(state, DeleteDevice(id));
      && (forall x :: x in r.devices <==> x in state.devices && x.id != id)
      && r.(devices := state.devices) == state
      && Reduce(r, DeleteDevice(id)) == r
  {
    RemoveIdempotent(state.devices, id);
  }

  /** DELETE_CONNECTION keeps exactly the connections with another id; devices and every other field are unchanged. */
  lemma DeleteConnectionFilters(state: State, id: string)
    ensures var r := Reduce(state, DeleteConnection(id));
      && (forall x :: x in r.connections <==> x in state.connections && x.id != id)
      && r.devices == state.devices
      && r.(connections := state.connections) == state
      && Reduce(r, DeleteConnection(id)) == r
  {
    RemoveIdempotent(state.connections, id);
  }

  /** Deleting what was just added removes it and whatever else had its id. */
  lemma AddThenDeleteConnection(state: State, c: Item)
    ensures Reduce(Reduce(state, AddConnection(c)), DeleteConnection(c.id)) == Reduce(state, DeleteConnection(c.id))
  {
    RemoveDistributes(state.connections, [c], c.id);
    RemoveSingle(c, c.id);
  }

  /** An update immediately followed by a delete of the same id is the delete alone. */
  lemma UpdateThenDeleteDevice(state: State, d: Item)
    ensures Reduce(Reduce(state, UpdateDevice(d)), DeleteDevice(d.id)) == Reduce(state, DeleteDevice(d.id))
  {
    ReplaceThenRemove(state.devices, d);
  }

  /** SET_ERROR and SET_PROJECTS store their payload and stop loading; SET_LOADING touches only the loading flag. */
  lemma FlagActions(state: State, b: bool, e: Option<string>, ps: seq<Item>)
    ensures var r := Reduce(state, SetError(e)); r.error == e && !r.loading && r.(error := state.error, loading := state.loading) == state
    ensures var r := Reduce(state, SetProjects(ps)); r.projects == ps && !r.loading && r.(projects := state.projects, loading := state.loading) == state
    ensures var r := Reduce(state, SetLoading(b)); r.loading == b && r.(loading := state.loading) == state
  {}

  /** Every SET_ action stores its payload in its own field and changes nothing else. */
  lemma SetActionsReplace(state: State, p: Option<Item>, xs: seq<Item>)
    ensures var r := Reduce(state, SetCurrentProject(p)); r.currentProject == p && r.(currentProject := state.currentProject) == state
    ensures var r := Reduce(state, SetDevices(xs)); r.devices == xs && r.(devices := state.devices) == state
    ensures var r := Reduce(state, SetConnections(xs)); r.connections == xs && r.(connections := state.connections) == state
    ensures var r := Reduce(state, SetVlans(xs)); r.vlans == xs && r.(vlans := state.vlans) == state
    ensures var r := Reduce(state, SetSubnets(xs)); r.subnets == xs && r.(subnets := state.subnets) == state
  {}

  /** An action of any other type returns the state unchanged. */
  lemma UnknownActionIgnored(state: State, actionType: OtherType)
    ensures Reduce(state, Unknown(actionType)) == state
  {}
}
