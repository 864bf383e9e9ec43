/** Inputs at which the code does something other than one would expect. Each shows that a
    condition proved elsewhere can really fail. */
module Findings {
  import opened StateMaps
  import AtomicMoves
  import Events
  import EventRaces

  // ---------- is_compatible ----------

  function Single(id: nat, name: string): StateMap {
    StateMap(EmptyMap, id, [name], map[name := 1], map[], map[], {}, 0)
  }

  lemma SingleIsBuilt(id: nat, states: seq<string>, name: string, lo: nat)
    requires states == [name] && lo == 0
    ensures Extend(EmptyMap, id, states, [], lo) == Ok((Single(id, name), lo))
  {
    ExtendIs(EmptyMap, id, states, [], lo, states, map[name := 1], Filling(map[], map[], {}, lo));
  }

  function TopLevel(axis: string, name: string): AxisPar {
    AxisPar(axis, 0, [name], [])
  }

  function OneAxis(left: string, a: string): Repo {
    Repo(map[1 := Single(1, a)], map[left := 1], 1, 0)
  }

  function TwoAxes(left: string, a: string, right: string, b: string): Repo {
    Repo(map[1 := Single(1, a), 2 := Single(2, b)], map[left := 1, right := 2], 2, 0)
  }

  /** An axis not seen before gets the next id and the map that the constructor builds. */
  lemma NewAxis(r: Repo, par: AxisPar, m: StateMap)
    requires par.axis != ROOT_AXIS && par.axis !in r.axis2mapId && par.parentMap == 0
    requires r.lastMapId + 1 !in r.maps
    requires Extend(EmptyMap, r.lastMapId + 1, par.states, par.transitions, r.maxTransId)
          == Ok((m, r.maxTransId))
    ensures var id := r.lastMapId + 1;
            InitAxis(r, par).0 == WithMap(r, par.axis, id, m)
  {
  }

  function WithMap(r: Repo, axis: string, id: nat, m: StateMap): Repo {
    r.(maps := r.maps[id := m], axis2mapId := r.axis2mapId[axis := id], lastMapId := id)
  }

  lemma ReposGrow(left: string, a: string, right: string, b: string)
    requires left != right
    ensures WithMap(EMPTY_REPO, left, 1, Single(1, a)) == OneAxis(left, a)
    ensures WithMap(OneAxis(left, a), right, 2, Single(2, b)) == TwoAxes(left, a, right, b)
  {
  }

  lemma BothAdmissible(left: string, a: string, right: string, b: string)
    requires left != right
    ensures Admissible(EMPTY_REPO, TopLevel(left, a))
    ensures Admissible(OneAxis(left, a), TopLevel(right, b))
  {
  }

  /** Two axes that were not there, each with the map that the constructor builds for it. */
  lemma ReachTwo(r0: Repo, p: AxisPar, m1: StateMap, r1: Repo, q: AxisPar, m2: StateMap, r2: Repo)
    requires r0 == EMPTY_REPO && p.parentMap == q.parentMap == 0
    requires p.axis != ROOT_AXIS && q.axis != ROOT_AXIS && q.axis !in r1.axis2mapId
    requires Admissible(r0, p) && Admissible(r1, q) && r1.lastMapId == 1 && 2 !in r1.maps
    requires Extend(EmptyMap, 1, p.states, p.transitions, r0.maxTransId) == Ok((m1, r0.maxTransId))
    requires Extend(EmptyMap, 2, q.states, q.transitions, r1.maxTransId) == Ok((m2, r1.maxTransId))
    requires r1 == WithMap(r0, p.axis, 1, m1) && r2 == WithMap(r1, q.axis, 2, m2)
    ensures IsRun([EMPTY_REPO, r1, r2], [p, q])
  {
    NewAxis(r0, p, m1);
    NewAxis(r1, q, m2);
    RunOfTwo(r1, r2, p, q);
  }

  lemma SinglesAreBuilt(a: string, b: string, p: AxisPar, q: AxisPar, m1: StateMap, m2: StateMap,
                        lo: nat)
    requires p.states == [a] && q.states == [b] && p.transitions == q.transitions == [] && lo == 0
    requires m1 == Single(1, a) && m2 == Single(2, b)
    ensures Extend(EmptyMap, 1, p.states, p.transitions, lo) == Ok((m1, lo))
    ensures Extend(EmptyMap, 2, q.states, q.transitions, lo) == Ok((m2, lo))
  {
    SingleIsBuilt(1, p.states, a, lo);
    SingleIsBuilt(2, q.states, b, lo);
  }

  lemma BothReached(left: string, a: string, right: string, b: string, p: AxisPar, q: AxisPar,
                    m1: StateMap, r1: Repo, m2: StateMap, r2: Repo)
    requires left != right && left != ROOT_AXIS && right != ROOT_AXIS
    requires p == TopLevel(left, a) && q == TopLevel(right, b)
    requires m1 == Single(1, a) && m2 == Single(2, b)
    requires r1 == OneAxis(left, a) && r2 == TwoAxes(left, a, right, b)
    ensures IsRun([EMPTY_REPO, r1, r2], [p, q])
  {
    SinglesAreBuilt(a, b, p, q, m1, m2, r1.maxTransId);
    ReposGrow(left, a, right, b);
    BothAdmissible(left, a, right, b);
    ReachTwo(EMPTY_REPO, p, m1, r1, q, m2, r2);
  }

  lemma RunOfTwo(r1: Repo, r2: Repo, p: AxisPar, q: AxisPar)
    requires Admissible(EMPTY_REPO, p) && InitAxis(EMPTY_REPO, p).0 == r1
    requires Admissible(r1, q) && InitAxis(r1, q).0 == r2
    ensures IsRun([EMPTY_REPO, r1, r2], [p, q])
  {
  }

  /** Two top-level axes of one state each, as two initializations make them. The map of the
      second accepts the state of the first, which is no state of it, and gives it the name of its
      own state. */
  lemma UnrelatedStateIsAccepted(left: string, a: string, right: string, b: string)
    requires left != right && left != ROOT_AXIS && right != ROOT_AXIS
    ensures IsRun([EMPTY_REPO, OneAxis(left, a), TwoAxes(left, a, right, b)],
                  [TopLevel(left, a), TopLevel(right, b)])
    ensures var r := TwoAxes(left, a, right, b);
            && !DescendsFrom(r.maps[1], r.maps[2]) && !DescendsFrom(r.maps[2], r.maps[1])
            && IsCompatible(r, r.maps[2], State(1, 1)) == Ok(true)
            && GetStateName(r, r.maps[1], State(1, 1)) == Ok(a)
            && GetStateName(r, r.maps[2], State(1, 1)) == Ok(b)
  {
    BothReached(left, a, right, b, TopLevel(left, a), TopLevel(right, b), Single(1, a),
                OneAxis(left, a), Single(2, b), TwoAxes(left, a, right, b));
    SecondAccepts(TwoAxes(left, a, right, b), a, b);
  }

  lemma SecondAccepts(r: Repo, a: string, b: string)
    requires r.maps == map[1 := Single(1, a), 2 := Single(2, b)]
    ensures !DescendsFrom(Single(1, a), Single(2, b)) && !DescendsFrom(Single(2, b), Single(1, a))
    ensures IsCompatible(r, Single(2, b), State(1, 1)) == Ok(true)
    ensures GetStateName(r, Single(1, a), State(1, 1)) == Ok(a)
    ensures GetStateName(r, Single(2, b), State(1, 1)) == Ok(b)
  {
    assert IsSameOrDescendant(EmptyMap, EmptyMap);
    assert IsSameOrDescendant(Single(1, a), EmptyMap);
    assert IsCompatible(r, EmptyMap, State(1, 1)) == Ok(true);
  }

  // ---------- The map form of compare_and_move ----------

  /** An axis of two states with the transitions from each to the other. */
  function Pair(a: string, b: string): StateMap {
    StateMap(EmptyMap, 1, [a, b], map[a := 1, b := 2], map[(1, 2) := 1, (2, 1) := 2],
             map[1 := (1, 2), 2 := (2, 1)], {1, 2}, 2)
  }

  /** An axis derived from it that adds nothing. */
  function PairChild(a: string, b: string): StateMap {
    StateMap(Pair(a, b), 2, [a, b], map[a := 1, b := 2], map[(1, 2) := 1, (2, 1) := 2],
             map[], {}, 2)
  }

  lemma PairFills(a: string, b: string, ts: seq<(string, string)>, name2idx: map<string, nat>)
    requires a != b && ts == [(a, b), (b, a)] && name2idx == map[a := 1, b := 2]
    ensures var p := Pair(a, b);
            AddTransitions(name2idx, Filling(map[], map[], {}, 0), ts)
            == Filling(p.trans, p.trans2states, p.arrivals, 2)
  {
    var f := Filling(map[], map[], {}, 0);
    AddTransitionsStep(name2idx, f, ts, 0);
    AddTransitionsStep(name2idx, f, ts, 1);
    assert ts[..0] == [] && ts[..2] == ts;
  }

  lemma TwoNames(a: string, b: string, names: seq<string>)
    requires a != b && names == [a, b]
    ensures Distinct(names) && IsIndex(map[a := 1, b := 2], names)
  {
  }

  lemma PairIsBuilt(a: string, b: string, root: StateMap, states: seq<string>,
                    ts: seq<(string, string)>, m: StateMap, lo: nat)
    requires a != b && states == [a, b] && ts == [(a, b), (b, a)]
    requires root == EmptyMap && m == Pair(a, b) && lo == 0
    ensures Extend(root, m.id, states, ts, lo) == Ok((m, 2)) && WellBuilt(m)
  {
    TwoNames(a, b, states);
    PairFills(a, b, ts, m.name2idx);
    assert root.Trans() == map[] && root.Names() + states == m.names == states;
    BuiltMap(root, states, ts, lo, m);
  }

  lemma PairChildIsBuilt(a: string, b: string, p: StateMap, m: StateMap, lo: nat)
    requires a != b && p == Pair(a, b) && WellBuilt(p) && m == PairChild(a, b) && lo == 2
    ensures Extend(p, m.id, [], [], lo) == Ok((m, 2)) && WellBuilt(m)
  {
    TwoNames(a, b, p.names);
    BuiltMap(p, [], [], lo, m);
  }

  lemma BothPairsAreBuilt(a: string, b: string)
    requires a != b
    ensures WellBuilt(PairChild(a, b))
  {
    PairIsBuilt(a, b, EmptyMap, [a, b], [(a, b), (b, a)], Pair(a, b), 0);
    PairChildIsBuilt(a, b, Pair(a, b), PairChild(a, b), 2);
  }

  /** One thread moves the object through the derived axis to its second state; another then calls
      the map form through the base axis, to go back to the first. */
  function Mover(a: string, b: string): AtomicMoves.Call {
    AtomicMoves.MoveTo(PairChild(a, b), 2)
  }

  function Caller(a: string, b: string): AtomicMoves.Call {
    AtomicMoves.CompareAndMoveMap(Pair(a, b), map[2 := 1])
  }

  function Systems(a: string, b: string): seq<AtomicMoves.System> {
    var mover, caller := Mover(a, b), Caller(a, b);
    var moved := AtomicMoves.Finished(mover, AtomicMoves.Moved);
    var words, moves := [State(1, 1), State(2, 2)], [AtomicMoves.Move.Move(0, 0)];
    [AtomicMoves.System([State(1, 1)], map[], []),
     AtomicMoves.System([State(1, 1)], map[0 := AtomicMoves.Ready(mover)], []),
     AtomicMoves.System([State(1, 1)], map[0 := AtomicMoves.Loaded(mover, 0, State(2, 2))], []),
     AtomicMoves.System(words, map[0 := moved], moves),
     AtomicMoves.System(words, map[0 := moved, 1 := AtomicMoves.Ready(caller)], moves),
     AtomicMoves.System(words, map[0 := moved,
                                   1 := AtomicMoves.Finished(caller, AtomicMoves.AssertionFailed)],
                        moves)]
  }

  function Actions(a: string, b: string): seq<AtomicMoves.Action> {
    [AtomicMoves.Start(0, Mover(a, b)), AtomicMoves.Load(0), AtomicMoves.CompareExchange(0),
     AtomicMoves.Start(1, Caller(a, b)), AtomicMoves.Load(1)]
  }

  lemma FirstSteps(a: string, b: string)
    ensures var ss, actions := Systems(a, b), Actions(a, b);
            && AtomicMoves.IsStep(PairChild(a, b), ss[0], actions[0], ss[1])
            && AtomicMoves.IsStep(PairChild(a, b), ss[1], actions[1], ss[2])
            && AtomicMoves.IsStep(PairChild(a, b), ss[2], actions[2], ss[3])
  {
  }

  lemma LastSteps(a: string, b: string)
    ensures var ss, actions := Systems(a, b), Actions(a, b);
            && AtomicMoves.IsStep(PairChild(a, b), ss[3], actions[3], ss[4])
            && AtomicMoves.IsStep(PairChild(a, b), ss[4], actions[4], ss[5])
  {
  }

  /** The assertion in the map form fails in this run, although the object is in a state of the
      table and both axes have the transition. Had the word been written through the base axis,
      the same call would have gone on to the exchange. */
  lemma MapFormFails(a: string, b: string)
    requires a != b
    ensures WellBuilt(PairChild(a, b))
    ensures AtomicMoves.IsRun(PairChild(a, b), Systems(a, b), Actions(a, b))
    ensures Systems(a, b)[5].threads[1]
         == AtomicMoves.Finished(Caller(a, b), AtomicMoves.AssertionFailed)
    ensures AtomicMoves.Decide(Caller(a, b), State(1, 2)) == AtomicMoves.Exchange(State(1, 1))
  {
    BothPairsAreBuilt(a, b);
    CallerDecides(a, b);
    FirstSteps(a, b);
    LastSteps(a, b);
    RunOfFive(PairChild(a, b), Systems(a, b), Actions(a, b));
  }

  lemma CallerDecides(a: string, b: string)
    ensures AtomicMoves.Decide(Caller(a, b), State(1, 2)) == AtomicMoves.Exchange(State(1, 1))
  {
  }

  lemma RunOfFive(deepest: StateMap, ss: seq<AtomicMoves.System>, actions: seq<AtomicMoves.Action>)
    requires |ss| == 6 && |actions| == 5 && AtomicMoves.IsInitial(ss[0])
    requires AtomicMoves.IsStep(deepest, ss[0], actions[0], ss[1])
    requires AtomicMoves.IsStep(deepest, ss[1], actions[1], ss[2])
    requires AtomicMoves.IsStep(deepest, ss[2], actions[2], ss[3])
    requires AtomicMoves.IsStep(deepest, ss[3], actions[3], ss[4])
    requires AtomicMoves.IsStep(deepest, ss[4], actions[4], ss[5])
    ensures AtomicMoves.IsRun(deepest, ss, actions)
  {
  }

  // ---------- The splitter ----------

  /** Three axes in a chain: the split axis has two states and no transition, the one between adds
      a transition, the derived one nothing. */
  function SplitMap(a: string, b: string): StateMap {
    StateMap(EmptyMap, 1, [a, b], map[a := 1, b := 2], map[], map[], {}, 0)
  }

  function MapBetween(a: string, b: string): StateMap {
    StateMap(SplitMap(a, b), 2, [a, b], map[a := 1, b := 2], map[(1, 2) := 1], map[1 := (1, 2)],
             {2}, 1)
  }

  function DerivedMap(a: string, b: string): StateMap {
    StateMap(MapBetween(a, b), 3, [a, b], map[a := 1, b := 2], map[(1, 2) := 1], map[], {}, 1)
  }

  lemma OneTransition(a: string, b: string, ts: seq<(string, string)>, name2idx: map<string, nat>)
    requires a != b && ts == [(a, b)] && name2idx == map[a := 1, b := 2]
    ensures AddTransitions(name2idx, Filling(map[], map[], {}, 0), ts)
         == Filling(map[(1, 2) := 1], map[1 := (1, 2)], {2}, 1)
  {
    AddTransitionsStep(name2idx, Filling(map[], map[], {}, 0), ts, 0);
    assert ts[..0] == [] && ts[..1] == ts;
  }

  lemma SplitMapIsBuilt(a: string, b: string, root: StateMap, states: seq<string>, m: StateMap, lo: nat)
    requires a != b && states == [a, b] && root == EmptyMap && m == SplitMap(a, b) && lo == 0
    ensures Extend(root, m.id, states, [], lo) == Ok((m, 0)) && WellBuilt(m)
  {
    TwoNames(a, b, states);
    BuiltMap(root, states, [], lo, m);
  }

  lemma MapBetweenIsBuilt(a: string, b: string, s: StateMap, ts: seq<(string, string)>, m: StateMap,
                          lo: nat)
    requires a != b && ts == [(a, b)] && s == SplitMap(a, b) && WellBuilt(s)
    requires m == MapBetween(a, b) && lo == 0
    ensures Extend(s, m.id, [], ts, lo) == Ok((m, 1)) && WellBuilt(m)
  {
    TwoNames(a, b, s.names);
    OneTransition(a, b, ts, m.name2idx);
    BuiltMap(s, [], ts, lo, m);
  }

  lemma DerivedMapIsBuilt(a: string, b: string, s: StateMap, m: StateMap, lo: nat)
    requires a != b && s == MapBetween(a, b) && WellBuilt(s) && m == DerivedMap(a, b) && lo == 1
    ensures Extend(s, m.id, [], [], lo) == Ok((m, 1)) && WellBuilt(m)
  {
    TwoNames(a, b, s.names);
    BuiltMap(s, [], [], lo, m);
  }

  lemma AllThreeAreBuilt(a: string, b: string)
    requires a != b
    ensures WellBuilt(DerivedMap(a, b))
  {
    SplitMapIsBuilt(a, b, EmptyMap, [a, b], SplitMap(a, b), 0);
    MapBetweenIsBuilt(a, b, SplitMap(a, b), [(a, b)], MapBetween(a, b), 0);
    DerivedMapIsBuilt(a, b, MapBetween(a, b), DerivedMap(a, b), 1);
  }

  /** A move the split axis does not know, whose arrival only the delegate hears of. */
  lemma ArrivalIsNotHeard(a: string, b: string)
    requires a != b
    ensures var derived, split := DerivedMap(a, b), SplitMap(a, b);
            && WellBuilt(derived) && DescendsFrom(derived, split)
            && (1, 2) in derived.trans && (1, 2) !in split.Trans()
            && Events.StoresOf(derived, split, Events.Arrival(State(3, 2))) == {Events.Delegate}
            && Events.StoresOf(derived, split, Events.Transition(derived.trans[(1, 2)])) == {Events.Own}
  {
    AllThreeAreBuilt(a, b);
    NotHeard(a, b);
  }

  lemma NotHeard(a: string, b: string)
    ensures var derived, split := DerivedMap(a, b), SplitMap(a, b);
            && DescendsFrom(derived, split)
            && Events.StoresOf(derived, split, Events.Arrival(State(3, 2))) == {Events.Delegate}
            && Events.StoresOf(derived, split, Events.Transition(1)) == {Events.Own}
  {
    assert DescendsFrom(MapBetween(a, b), SplitMap(a, b));
  }

  // ---------- Updates of events that overlap ----------

  const HOME: nat := 0x8001

  function Race(words: seq<State>, threads: map<nat, AtomicMoves.Thread>, moves: seq<AtomicMoves.Move>,
                home: bool, updates: map<nat, EventRaces.Update>, last: map<nat, nat>): EventRaces.Race
  {
    EventRaces.Race(AtomicMoves.System(words, threads, moves), map[HOME := home], updates, last)
  }

  /** One thread moves the object from its first state to the second, another moves it back; the
      only stored event is the arrival at the first. The second mover updates it before the first
      one does. */
  function Races(a: string, b: string): seq<EventRaces.Race> {
    var there, back := AtomicMoves.MoveTo(Pair(a, b), 2), AtomicMoves.MoveTo(Pair(a, b), 1);
    var one, two := State(1, 1), State(1, 2);
    var m0, m1 := AtomicMoves.Move.Move(0, 0), AtomicMoves.Move.Move(1, 1);
    var gone, come := AtomicMoves.Finished(there, AtomicMoves.Moved),
                      AtomicMoves.Finished(back, AtomicMoves.Moved);
    var u0, u1 := EventRaces.Update(1, 0x8002, 0), EventRaces.Update(2, HOME, 0);
    var words, threads, moves := [one, two, one], map[0 := gone, 1 := come], [m0, m1];
    [Race([one], map[], [], true, map[], map[]),
     Race([one], map[0 := AtomicMoves.Ready(there)], [], true, map[], map[]),
     Race([one], map[0 := AtomicMoves.Loaded(there, 0, two)], [], true, map[], map[]),
     Race([one, two], map[0 := gone], [m0], true, map[0 := u0], map[]),
     Race([one, two], map[0 := gone, 1 := AtomicMoves.Ready(back)], [m0], true, map[0 := u0], map[]),
     Race([one, two], map[0 := gone, 1 := AtomicMoves.Loaded(back, 1, one)], [m0], true,
          map[0 := u0], map[]),
     Race(words, threads, moves, true, map[0 := u0, 1 := u1], map[]),
     Race(words, threads, moves, false, map[0 := u0, 1 := u1.(next := 1)], map[HOME := 1]),
     Race(words, threads, moves, true, map[0 := u0, 1 := u1.(next := 2)], map[HOME := 1]),
     Race(words, threads, moves, false, map[0 := u0.(next := 1), 1 := u1.(next := 2)],
          map[HOME := 0])]
  }

  function RaceActions(a: string, b: string): seq<EventRaces.RaceAction> {
    var there, back := AtomicMoves.MoveTo(Pair(a, b), 2), AtomicMoves.MoveTo(Pair(a, b), 1);
    [EventRaces.Kernel(AtomicMoves.Start(0, there)), EventRaces.Kernel(AtomicMoves.Load(0)),
     EventRaces.Kernel(AtomicMoves.CompareExchange(0)),
     EventRaces.Kernel(AtomicMoves.Start(1, back)), EventRaces.Kernel(AtomicMoves.Load(1)),
     EventRaces.Kernel(AtomicMoves.CompareExchange(1)),
     EventRaces.Touch(1), EventRaces.Touch(1), EventRaces.Touch(0)]
  }

  ghost predicate IsNthStep(a: string, b: string, stored: seq<nat>, n: nat)
    requires n < 9
  {
    EventRaces.IsRaceStep(Pair(a, b), stored, Races(a, b)[n], RaceActions(a, b)[n], Races(a, b)[n + 1])
  }

  lemma FirstStarts(a: string, b: string, stored: seq<nat>)
    ensures IsNthStep(a, b, stored, 0)
  {
  }

  lemma FirstLoads(a: string, b: string, stored: seq<nat>)
    ensures IsNthStep(a, b, stored, 1)
  {
  }

  lemma FirstMoves(a: string, b: string, stored: seq<nat>)
    ensures IsNthStep(a, b, stored, 2)
  {
  }

  lemma SecondStarts(a: string, b: string, stored: seq<nat>)
    ensures IsNthStep(a, b, stored, 3)
  {
  }

  lemma SecondLoads(a: string, b: string, stored: seq<nat>)
    ensures IsNthStep(a, b, stored, 4)
  {
  }

  lemma SecondMoves(a: string, b: string, stored: seq<nat>)
    ensures IsNthStep(a, b, stored, 5)
  {
  }

  lemma HomePrograms(stored: seq<nat>, n: nat)
    requires stored == [HOME]
    ensures EventRaces.Program(stored, EventRaces.Update(1, 0x8002, n)) == [(HOME, false)]
    ensures EventRaces.Program(stored, EventRaces.Update(2, HOME, n)) == [(HOME, false), (HOME, true)]
  {
  }

  lemma SecondResets(a: string, b: string, stored: seq<nat>)
    requires stored == [HOME]
    ensures IsNthStep(a, b, stored, 6)
  {
    HomePrograms(stored, 0);
  }

  lemma SecondSignals(a: string, b: string, stored: seq<nat>)
    requires stored == [HOME]
    ensures IsNthStep(a, b, stored, 7)
  {
    HomePrograms(stored, 1);
  }

  lemma FirstResets(a: string, b: string, stored: seq<nat>)
    requires stored == [HOME]
    ensures IsNthStep(a, b, stored, 8)
  {
    HomePrograms(stored, 0);
  }

  lemma EachStep(a: string, b: string, stored: seq<nat>, n: nat)
    requires stored == [HOME] && n < 9
    ensures IsNthStep(a, b, stored, n)
  {
    match n
    case 0 => FirstStarts(a, b, stored);
    case 1 => FirstLoads(a, b, stored);
    case 2 => FirstMoves(a, b, stored);
    case 3 => SecondStarts(a, b, stored);
    case 4 => SecondLoads(a, b, stored);
    case 5 => SecondMoves(a, b, stored);
    case 6 => SecondResets(a, b, stored);
    case 7 => SecondSignals(a, b, stored);
    case 8 => FirstResets(a, b, stored);
  }

  lemma RacesAreARace(a: string, b: string, stored: seq<nat>, rs: seq<EventRaces.Race>,
                      actions: seq<EventRaces.RaceAction>)
    requires stored == [HOME] && rs == Races(a, b) && actions == RaceActions(a, b)
    requires forall n: nat :: n < 9 ==>
               EventRaces.IsRaceStep(Pair(a, b), stored, rs[n], actions[n], rs[n + 1])
    ensures EventRaces.IsRace(Pair(a, b), stored, rs, actions)
  {
  }

  lemma StepOfRace(a: string, b: string, stored: seq<nat>, n: nat)
    requires n < 9 && IsNthStep(a, b, stored, n)
    ensures EventRaces.IsRaceStep(Pair(a, b), stored, Races(a, b)[n], RaceActions(a, b)[n],
                                  Races(a, b)[n + 1])
  {
  }

  lemma PairIsWellBuilt(a: string, b: string)
    requires a != b
    ensures WellBuilt(Pair(a, b))
  {
    PairIsBuilt(a, b, EmptyMap, [a, b], [(a, b), (b, a)], Pair(a, b), 0);
  }

  /** A run that comes to rest with the object in its first state and the arrival there not
      signalled: the earlier mover's reset came after the later one's signal. */
  lemma ArrivalIsLost(a: string, b: string, stored: seq<nat>)
    requires a != b && stored == [HOME]
    ensures WellBuilt(Pair(a, b))
    ensures EventRaces.IsRace(Pair(a, b), stored, Races(a, b), RaceActions(a, b))
    ensures var r := Races(a, b)[9];
            && EventRaces.IsAtRest(stored, r)
            && r.kernel.history[2] == State(1, 1)
            && Events.LocalId(Events.Arrival(State(1, 1))) == HOME && !r.events[HOME]
            && !EventRaces.Mirrors(Pair(a, b), stored, r)
  {
    PairIsWellBuilt(a, b);
    forall n: nat | n < 9
      ensures EventRaces.IsRaceStep(Pair(a, b), stored, Races(a, b)[n], RaceActions(a, b)[n],
                                    Races(a, b)[n + 1])
    {
      EachStep(a, b, stored, n);
      StepOfRace(a, b, stored, n);
    }
    RacesAreARace(a, b, stored, Races(a, b), RaceActions(a, b));
    EndsAtRest(a, b, stored);
  }

  lemma EndsAtRest(a: string, b: string, stored: seq<nat>)
    requires stored == [HOME]
    ensures var r := Races(a, b)[9];
            && EventRaces.IsAtRest(stored, r) && r.kernel.history[2] == State(1, 1)
            && !r.events[HOME] && !EventRaces.Mirrors(Pair(a, b), stored, r)
  {
    HomePrograms(stored, 1);
    HomePrograms(stored, 2);
    assert HOME in stored;
  }
}
