/** The state map repository as the object it is (C++/StateMapRepository.h, C++/StateMap.cpp):
    its counters and tables are updated in place. */
module MapRepository {
  import opened StateMaps

  class StateMapRepository {
    var maps: map<nat, StateMap>
    var axis2mapId: map<string, nat>
    var lastMapId: nat
    var maxTransId: nat

    function Contents(): Repo
      reads this
    {
      Repo(maps, axis2mapId, lastMapId, maxTransId)
    }

    constructor ()
      ensures Contents() == EMPTY_REPO && ValidRepo(Contents())
    {
      maps, axis2mapId, lastMapId, maxTransId := map[], map[], 0, 0;
    }

    /** An axis keeps its id; a new axis gets the next one. */
    method GetMapId(axis: string) returns (id: nat)
      requires ValidRepo(Contents()) && lastMapId < 0x7fff
      modifies this`axis2mapId, this`lastMapId
      ensures (Contents(), id) == StateMaps.GetMapId(old(Contents()), axis)
      ensures Registers(old(Contents()), axis, Contents(), id)
      ensures ValidRepo(Contents())
      ensures axis != ROOT_AXIS ==> axis in axis2mapId && axis2mapId[axis] == id
    {
      GetMapIdKeepsValid(Contents(), axis);
      if axis == ROOT_AXIS {
        return 0;
      }
      if axis !in axis2mapId {
        lastMapId := lastMapId + 1;
        axis2mapId := axis2mapId[axis := lastMapId];
        return lastMapId;
      }
      id := axis2mapId[axis];
    }

    /** init_impl: the map of an axis, created when there is none yet. */
    method InitAxis(par: AxisPar) returns (r: Result<nat>)
      requires ValidRepo(Contents()) && Admissible(Contents(), par)
      modifies this
      ensures (Contents(), r) == StateMaps.InitAxis(old(Contents()), par)
      ensures Initializes(old(Contents()), par, Contents(), r)
      ensures ValidRepo(Contents())
    {
      InitAxisKeepsValid(Contents(), par);
      InitAxisMeans(Contents(), par);
      var id := GetMapId(par.axis);
      if GetObjectById(Contents(), id).Ok? {
        return Ok(id);
      }
      r := CreateObject(id, par);
    }

    /** create_object: the map is built first, so nothing changes when that throws. */
    method CreateObject(id: nat, par: AxisPar) returns (r: Result<nat>)
      modifies this`maps, this`maxTransId
      ensures (Contents(), r) == StateMaps.CreateObject(old(Contents()), id, par)
      ensures ValidRepo(old(Contents())) && old(maxTransId) + |par.transitions| < 0x8000 ==>
                Creates(old(Contents()), id, par, Contents(), r)
    {
      if ValidRepo(Contents()) && maxTransId + |par.transitions| < 0x8000 {
        CreateMeans(Contents(), id, par);
      }
      match GetObjectById(Contents(), par.parentMap) {
        case Err(e) => r := Err(e);
        case Ok(parent) =>
          var m, newMax := BuildStateMap(parent, id, par.states, par.transitions, maxTransId);
          match m {
            case Err(e) => r := Err(e);
            case Ok(built) =>
              maps := maps[id := built];
              maxTransId := newMax;
              r := Ok(id);
          }
      }
    }
  }
}
