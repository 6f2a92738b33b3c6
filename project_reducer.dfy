/**
 * The client's project state and the reducer that computes each new state
 * from the previous one and a dispatched action.
 *
 * Devices, connections, VLANs, subnets and projects are records from the
 * server; the reducer only ever looks at their `id`, so everything else
 * about a record is kept as an uninterpreted attribute map.
 */
module ProjectReducer {
  import opened Wrappers

  datatype Item = Item(id: string, attributes: map<string, string>)

  datatype State = State(
    projects: seq<Item>,
    currentProject: Option<Item>,
    devices: seq<Item>,
    connections: seq<Item>,
    vlans: seq<Item>,
    subnets: seq<Item>,
    loading: bool,
    error: Option<string>)

  /** No projects, no current project, empty lists, not loading, no error. */
  const InitialState := State([], None, [], [], [], [], false, None)

  /** The action types the reducer's `switch` names. */
  const HandledTypes: set<string> := {
    "SET_LOADING", "SET_ERROR", "SET_PROJECTS", "SET_CURRENT_PROJECT",
    "SET_DEVICES", "ADD_DEVICE", "UPDATE_DEVICE", "DELETE_DEVICE",
    "SET_CONNECTIONS", "ADD_CONNECTION", "DELETE_CONNECTION",
    "SET_VLANS", "ADD_VLAN", "SET_SUBNETS", "ADD_SUBNET"
  }

  /** Any other action type: these reach the `default` branch. */
  type OtherType = t: string | t !in HandledTypes witness ""

  /** One constructor per action type the reducer handles, and `Unknown` for every other type. */
  datatype Action =
    | SetLoading(loading: bool)
    | SetError(error: Option<string>)
    | SetProjects(projects: seq<Item>)
    | SetCurrentProject(project: Option<Item>)
    | SetDevices(devices: seq<Item>)
    | AddDevice(device: Item)
    | UpdateDevice(device: Item)
    | DeleteDevice(deviceId: string)
    | SetConnections(connections: seq<Item>)
    | AddConnection(connection: Item)
    | DeleteConnection(connectionId: string)
    | SetVlans(vlans: seq<Item>)
    | AddVlan(vlan: Item)
    | SetSubnets(subnets: seq<Item>)
    | AddSubnet(subnet: Item)
    | Unknown(actionType: OtherType)

  // ---------------------------------------------------------------------------
  // List operations

  /** `items.map(x => x.id === updated.id ? updated : x)` */
  function ReplaceById(items: seq<Item>, updated: Item): (r: seq<Item>)
    ensures |r| == |items|
    ensures forall i :: 0 <= i < |items| ==> r[i] == if items[i].id == updated.id then updated else items[i]
  {
    if |items| == 0 then []
    else [if items[0].id == updated.id then updated else items[0]] + ReplaceById(items[1..], updated)
  }

  /** `items.filter(x => x.id !== id)` */
  function RemoveById(items: seq<Item>, id: string): (r: seq<Item>)
    ensures |r| <= |items|
    ensures forall x :: x in r <==> x in items && x.id != id
  {
    if |items| == 0 then []
    else (if items[0].id == id then [] else [items[0]]) + RemoveById(items[1..], id)
  }

  // ---------------------------------------------------------------------------
  // The reducer

  /**
   * `projectReducer`. Each field changes only under the actions that name it,
   * and an action of any other type leaves the whole state as it is.
   */
  function Reduce(state: State, action: Action): (r: State)
    ensures r.projects != state.projects ==> action.SetProjects?
    ensures r.currentProject != state.currentProject ==> action.SetCurrentProject?
    ensures r.devices != state.devices ==>
      action.SetDevices? || action.AddDevice? || action.UpdateDevice? || action.DeleteDevice?
    ensures r.connections != state.connections ==>
      action.SetConnections? || action.AddConnection? || action.DeleteConnection?
    ensures r.vlans != state.vlans ==> action.SetVlans? || action.AddVlan?
    ensures r.subnets != state.subnets ==> action.SetSubnets? || action.AddSubnet?
    ensures r.loading != state.loading ==> action.SetLoading? || action.SetError? || action.SetProjects?
    ensures r.error != state.error ==> action.SetError?
    ensures action.Unknown? ==> r == state
  {
    match action
    case SetLoading(b) => state.(loading := b)
    case SetError(e) => state.(error := e, loading := false)
    case SetProjects(ps) => state.(projects := ps, loading := false)
    case SetCurrentProject(p) => state.(currentProject := p)
    case SetDevices(ds) => state.(devices := ds)
    case AddDevice(d) => state.(devices := state.devices + [d])
    case UpdateDevice(d) => state.(devices := ReplaceById(state.devices, d))
    case DeleteDevice(id) => state.(devices := RemoveById(state.devices, id))
    case SetConnections(cs) => state.(connections := cs)
    case AddConnection(c) => state.(connections := state.connections + [c])
    case DeleteConnection(id) => state.(connections := RemoveById(state.connections, id))
    case SetVlans(vs) => state.(vlans := vs)
    case AddVlan(v) => state.(vlans := state.vlans + [v])
    case SetSubnets(ss) => state.(subnets := ss)
    case AddSubnet(s) => state.(subnets := state.subnets + [s])
    case Unknown(_) => state
  }
}
