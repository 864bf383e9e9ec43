/** ExistenceAxis and SingletonAxis as the state maps their declarations build (C++/Existent.cpp,
    C++/SSingleton.cpp). */
module ClassAxes {
  import opened StateMaps
  import opened AxisTables
  import opened Existence

  const NAMES := [
    "not_exist", "predec_exist_one", "preinc_exist_one", "exist_one", "moving_when_one",
    "predec_exist_several", "preinc_exist_several", "exist_several", "moving_when_several"]

  /** The index of a state: its place in the declaration, counted from 1. */
  function Idx(st: ClassState): (k: nat)
    ensures 1 <= k <= 9
  {
    match st
    case NotExist => 1
    case PredecExistOne => 2
    case PreincExistOne => 3
    case ExistOne => 4
    case MovingWhenOne => 5
    case PredecExistSeveral => 6
    case PreincExistSeveral => 7
    case ExistSeveral => 8
    case MovingWhenSeveral => 9
  }

  lemma IndexIsUnique(a: ClassState, b: ClassState)
    ensures Idx(a) == Idx(b) <==> a == b
  {
  }

  /** In the order of the declaration. */
  const EXISTENCE_PAIRS: seq<(nat, nat)> := [
    (1, 3), (3, 4), (4, 7), (7, 8), (8, 7), (8, 6), (6, 8), (6, 4), (4, 2), (2, 1), (4, 5), (5, 4),
    (8, 9), (9, 8)]

  const SINGLETON_PAIRS: seq<(nat, nat)> := [(7, 4)]

  lemma NamesAreDistinct(names: seq<string>)
    requires names == NAMES
    ensures Distinct(names) && |names| == 9
  {
    assert names[0][0] != names[3][0] && names[1][3] != names[2][3] && names[5][3] != names[6][3];
  }

  lemma ExistenceListed(from: ClassState, to: ClassState)
    ensures (Idx(from), Idx(to)) in EXISTENCE_PAIRS <==> ExistenceEdge(from, to)
  {
  }

  lemma SingletonListed(from: ClassState, to: ClassState)
    ensures (Idx(from), Idx(to)) in SINGLETON_PAIRS <==> from == PreincExistSeveral && to == ExistOne
  {
    assert SINGLETON_PAIRS[0] == (7, 4);
  }

  ghost predicate AreBuilt(e: StateMap, s: StateMap, names: seq<string>, none: seq<string>,
                           ps: seq<(nat, nat)>, qs: seq<(nat, nat)>)
  {
    && AreIndices(ps, names) && AreIndices(qs, names)
    && (exists lo :: Builds(EmptyMap, e, names, Transitions(names, ps), lo))
    && (exists lo :: Builds(e, s, none, Transitions(names, qs), lo))
  }

  /** `e` and `s` are the maps of ExistenceAxis and of SingletonAxis, whatever else was built
      before and between them. */
  ghost predicate AreAxes(e: StateMap, s: StateMap) {
    AreBuilt(e, s, NAMES, [], EXISTENCE_PAIRS, SINGLETON_PAIRS)
  }

  /** The two maps have the transitions that the protocol's tables say. */
  ghost predicate HaveTables(e: StateMap, s: StateMap) {
    && e.StateMap? && s.StateMap? && s.parent == e && WellBuilt(s)
    && |e.names| == |s.names| == 9
    && (forall from, to :: (Idx(from), Idx(to)) in e.trans <==> ExistenceEdge(from, to))
    && (forall from, to :: (Idx(from), Idx(to)) in s.trans <==> SingletonEdge(from, to))
  }

  lemma TableAt(e: StateMap, s: StateMap, names: seq<string>, none: seq<string>,
                ps: seq<(nat, nat)>, qs: seq<(nat, nat)>, lo: nat, lo': nat, p: (nat, nat))
    requires Distinct(names) && |names| == 9 && none == [] && AreIndices(ps, names) && AreIndices(qs, names)
    requires Builds(EmptyMap, e, names, Transitions(names, ps), lo)
    requires Builds(e, s, none, Transitions(names, qs), lo')
    ensures WellBuilt(s) && s.parent == e && |e.names| == |s.names| == 9
    ensures p in e.trans <==> p in ps
    ensures p in s.trans <==> p in ps || p in qs
  {
    assert names + none == names;
    BothMean(e, s, names, none, ps, qs, lo, lo');
  }

  lemma EdgeAt(e: StateMap, s: StateMap, names: seq<string>, none: seq<string>,
               ps: seq<(nat, nat)>, qs: seq<(nat, nat)>, lo: nat, lo': nat,
               from: ClassState, to: ClassState)
    requires names == NAMES && none == [] && ps == EXISTENCE_PAIRS && qs == SINGLETON_PAIRS
    requires AreIndices(ps, names) && AreIndices(qs, names)
    requires Builds(EmptyMap, e, names, Transitions(names, ps), lo)
    requires Builds(e, s, none, Transitions(names, qs), lo')
    ensures WellBuilt(s) && s.parent == e && |e.names| == |s.names| == 9
    ensures (Idx(from), Idx(to)) in e.trans <==> ExistenceEdge(from, to)
    ensures (Idx(from), Idx(to)) in s.trans <==> SingletonEdge(from, to)
  {
    NamesAreDistinct(names);
    TableAt(e, s, names, none, ps, qs, lo, lo', (Idx(from), Idx(to)));
    ExistenceListed(from, to);
    SingletonListed(from, to);
  }

  lemma TablesFollow(e: StateMap, s: StateMap, names: seq<string>, none: seq<string>,
                     ps: seq<(nat, nat)>, qs: seq<(nat, nat)>)
    requires names == NAMES && none == [] && ps == EXISTENCE_PAIRS && qs == SINGLETON_PAIRS
    requires AreBuilt(e, s, names, none, ps, qs)
    ensures HaveTables(e, s)
  {
    var lo :| Builds(EmptyMap, e, names, Transitions(names, ps), lo);
    var lo' :| Builds(e, s, none, Transitions(names, qs), lo');
    EdgeAt(e, s, names, none, ps, qs, lo, lo', NotExist, NotExist);
    forall from: ClassState, to: ClassState
      ensures (Idx(from), Idx(to)) in e.trans <==> ExistenceEdge(from, to)
      ensures (Idx(from), Idx(to)) in s.trans <==> SingletonEdge(from, to)
    {
      EdgeAt(e, s, names, none, ps, qs, lo, lo', from, to);
    }
  }

  /** The tables of the protocol are the transitions of the maps that the declarations build. */
  lemma AxesHaveTables(e: StateMap, s: StateMap)
    requires AreAxes(e, s)
    ensures HaveTables(e, s)
  {
    TablesFollow(e, s, NAMES, [], EXISTENCE_PAIRS, SINGLETON_PAIRS);
  }

  /** Such maps exist, for any counters the repository may stand at. */
  lemma AxesAreBuilt(id: nat, lo: nat, id': nat, lo': nat) returns (e: StateMap, s: StateMap)
    requires 0 < id < id' && lo + 14 <= lo' < 0x7fff
    ensures AreAxes(e, s)
  {
    e, s := BothAreBuilt(EmptyMap, id, lo, id', lo', NAMES, [], EXISTENCE_PAIRS, SINGLETON_PAIRS);
  }

  lemma BothAreBuilt(root: StateMap, id: nat, lo: nat, id': nat, lo': nat, names: seq<string>,
                     none: seq<string>, ps: seq<(nat, nat)>, qs: seq<(nat, nat)>)
    returns (e: StateMap, s: StateMap)
    requires 0 < id < id' && lo + 14 <= lo' < 0x7fff && root == EmptyMap
    requires names == NAMES && none == [] && ps == EXISTENCE_PAIRS && qs == SINGLETON_PAIRS
    ensures AreBuilt(e, s, names, none, ps, qs)
  {
    e := ExistenceIsBuilt(root, id, names, ps, lo);
    s := SingletonIsBuilt(e, id', names, none, qs, lo');
  }

  lemma ExistenceIsBuilt(root: StateMap, id: nat, names: seq<string>, ps: seq<(nat, nat)>, lo: nat)
    returns (e: StateMap)
    requires root == EmptyMap && names == NAMES && ps == EXISTENCE_PAIRS
    requires 0 < id && lo + 14 < 0x8000
    ensures AreIndices(ps, names) && Builds(root, e, names, Transitions(names, ps), lo)
    ensures e.maxTransId <= lo + 14 && WellBuilt(e) && e.names == names && e.id == id
  {
    NamesAreDistinct(names);
    assert root.Names() + names == names;
    e := MapIsBuilt(root, id, names, names, ps, lo);
  }

  lemma SingletonIsBuilt(e: StateMap, id: nat, names: seq<string>, none: seq<string>,
                         ps: seq<(nat, nat)>, lo: nat) returns (s: StateMap)
    requires none == [] && ps == SINGLETON_PAIRS && WellBuilt(e) && e.Names() == names == NAMES
    requires e.Id() < id && e.MaxTransId() <= lo < 0x7fff
    ensures AreIndices(ps, names) && Builds(e, s, none, Transitions(names, ps), lo)
  {
    NamesAreDistinct(names);
    assert e.Names() + none == names;
    s := MapIsBuilt(e, id, none, names, ps, lo);
  }
}
