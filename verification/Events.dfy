/** Events that mirror a state (C++/RObjectWithStates.hpp) and their routing between a splitter
    and its delegate. One thread at a time, several are the subject of `EventRaces`; an event is a
    boolean that stays signalled until it is reset. */
module Events {
  import opened StateMaps
  import opened AtomicMoves

  // ---------- Event ids ----------

  /** UniversalEvent: the arrival at a state, or the passage of a transition. */
  datatype Event = Transition(id: nat) | Arrival(state: State)

  const ARRIVAL_BIT: nat := 0x8000

  /** The 32 bits of an event: arrivals have bit 15 set, which no state index uses. */
  function EventBits(e: Event): nat {
    match e
    case Transition(id) => id
    case Arrival(s) => Bits(s) + ARRIVAL_BIT
  }

  /** local_id: the key of an event in an object. */
  function LocalId(e: Event): nat {
    match e
    case Transition(id) => id
    case Arrival(s) => ARRIVAL_BIT + s.idx
  }

  predicate IsProper(e: Event) {
    match e
    case Transition(id) => id < 0x8000
    case Arrival(s) => 1 <= s.mid < 0x8000 && s.idx < 0x8000
  }

  /** The key is the lower half of the bits, and its highest bit tells arrivals apart. */
  lemma LocalIdIsLowerHalf(e: Event)
    requires IsProper(e)
    ensures EventBits(e) % 0x1_0000 == LocalId(e) < 0x1_0000
    ensures e.Arrival? <==> EventBits(e) / 0x8000 % 2 == 1
  {
    match e
    case Transition(_) =>
    case Arrival(s) => ArrivalBits(EventBits(e), s.mid, s.idx);
  }

  lemma ArrivalBits(bits: nat, mid: nat, idx: nat)
    requires idx < 0x8000 && bits == mid * 0x1_0000 + idx + ARRIVAL_BIT
    ensures bits % 0x1_0000 == ARRIVAL_BIT + idx && bits / 0x8000 == 2 * mid + 1
  {
    assert bits == 0x1_0000 * mid + (0x8000 + idx);
    assert bits == 0x8000 * (2 * mid + 1) + idx;
  }

  /** Two events share a key only if they are the same transition, or arrivals at states of the
      same index: arrivals and transitions never collide. */
  lemma KeysNeverCollide(e: Event, f: Event)
    requires IsProper(e) && IsProper(f)
    ensures EventBits(e) % 0x1_0000 == EventBits(f) % 0x1_0000 <==>
              (e.Transition? && f == e) || (e.Arrival? && f.Arrival? && e.state.idx == f.state.idx)
  {
    LocalIdIsLowerHalf(e);
    LocalIdIsLowerHalf(f);
  }

  // ---------- An object with events ----------

  /** What the object has seen: its state, the transition it took last (0 for none), the keys of
      its events, and those of them that were there when it moved last. */
  datatype Trace = Trace(state: State, last: nat, stored: set<nat>, heard: set<nat>)

  /** Which of its events are signalled: of the arrivals that at the current state, of the
      transitions the last one taken, if its event was there in time. */
  predicate Signalled(tr: Trace, k: nat) {
    if k >= ARRIVAL_BIT then k == LocalId(Arrival(tr.state)) else k == tr.last && k in tr.heard
  }

  /** How a call ends when no other thread interferes. */
  function OutcomeOf(call: Call, word: State): Outcome {
    match Decide(call, word)
    case Return(o) => o
    case Exchange(_) => Moved
  }

  function AfterMove(call: Call, tr: Trace): Trace {
    match Decide(call, tr.state)
    case Return(_) => tr
    case Exchange(to) =>
      Trace(to, GetTransitionId(call.axis, tr.state, to).value, tr.stored, tr.stored)
  }

  /** A move from a state that the call is to leave: it goes to `to` if the axis has that
      transition, and then the transition's event and the arrival's are told; otherwise it throws
      and nothing changes. */
  ghost predicate MovesOrThrows(before: Trace, axis: StateMap, to: nat, r: Outcome, after: Trace) {
    var p := (before.state.idx, to);
    if p in axis.Trans() then
      r == Moved && after == Trace(State(axis.Id(), to), axis.Trans()[p], before.stored, before.stored)
    else
      && after == before
      && r == if p.0 > axis.NStates() then InvalidStateError
              else if p.0 == 0 then AssertionFailed
              else InvalidStateTransition
  }

  class RObjectWithEvents {
    var currentState: State
    var events: map<nat, bool>
    ghost var lastTransition: nat
    ghost var heard: set<nat>

    ghost function Seen(): Trace
      reads this
    {
      Trace(currentState, lastTransition, events.Keys, heard)
    }

    ghost predicate Valid()
      reads this
    {
      && IsProper(Arrival(currentState))
      && lastTransition < 0x8000
      && heard <= events.Keys
      && forall k :: k in events ==> (events[k] <==> Signalled(Seen(), k))
    }

    constructor (initialState: State)
      requires IsProper(Arrival(initialState))
      ensures Valid() && events == map[] && Seen() == Trace(initialState, 0, {}, {})
    {
      currentState, events, lastTransition, heard := initialState, map[], 0, {};
    }

    /** create_event registers an event once; a new arrival event starts signalled exactly when
        the object is in its state. */
    method CreateEvent(e: Event) returns (signalled: bool)
      requires Valid() && IsProper(e)
      modifies this`events
      ensures Valid() && LocalId(e) in events && signalled == events[LocalId(e)]
      ensures Seen() == old(Seen()).(stored := old(Seen()).stored + {LocalId(e)})
      ensures forall k :: k in old(events) ==> events[k] == old(events)[k]
      ensures e.Arrival? ==> (signalled <==> e.state.idx == currentState.idx)
      ensures e.Transition? && LocalId(e) !in old(events) ==> !signalled
    {
      var initialState := LocalId(e) == LocalId(Arrival(currentState));
      if LocalId(e) !in events {
        events := events[LocalId(e) := initialState];
      }
      signalled := events[LocalId(e)];
    }

    /** update_events: all events are reset, then those of the transition and of the new state
        are signalled. */
    method UpdateEvents(transId: nat, to: State)
      requires 0 < transId < 0x8000 && IsProper(Arrival(to))
      modifies this`events, this`lastTransition, this`heard
      ensures Seen() == Trace(currentState, transId, old(events).Keys, old(events).Keys)
      ensures forall k :: k in events ==>
                (events[k] <==> k == transId || k == LocalId(Arrival(to)))
    {
      var rest := events.Keys;
      while rest != {}
        invariant rest <= events.Keys == old(events).Keys
        invariant forall k :: k in events && k !in rest ==> !events[k]
        decreases rest
      {
        var k :| k in rest;
        events := events[k := false];
        rest := rest - {k};
      }
      if LocalId(Transition(transId)) in events {
        events := events[LocalId(Transition(transId)) := true];
      }
      if LocalId(Arrival(to)) in events {
        events := events[LocalId(Arrival(to)) := true];
      }
      lastTransition, heard := transId, events.Keys;
    }

    /** compare_exchange_strong. */
    method CompareExchange(expected: State, to: State) returns (ok: bool)
      modifies this`currentState
      ensures ok <==> old(currentState) == expected
      ensures currentState == if ok then to else old(currentState)
    {
      ok := currentState == expected;
      if ok {
        currentState := to;
      }
    }

    method MoveTo(axis: StateMap, to: nat) returns (r: Outcome)
      requires Valid() && WellBuilt(axis) && IsOnChain(axis, Call.MoveTo(axis, to))
      requires axis.id < 0x8000
      modifies this
      ensures Valid() && r == OutcomeOf(Call.MoveTo(axis, to), old(currentState))
      ensures Seen() == AfterMove(Call.MoveTo(axis, to), old(Seen()))
      ensures MovesOrThrows(old(Seen()), axis, to, r, Seen())
      ensures r != Moved ==> unchanged(this)
    {
      var toState := State(axis.id, to);
      var transId := 0;
      var done := false;
      while !done
        invariant !done ==> unchanged(this)
        invariant done ==> currentState == toState && events == old(events)
        invariant done ==> GetTransitionId(axis, old(currentState), toState) == Ok(transId) && transId != 0
        decreases !done
      {
        var from := currentState;
        match GetTransitionId(axis, from, toState) {
          case Err(e) => return Thrown(e);
          case Ok(id) =>
            if id == 0 {
              return InvalidStateTransition;
            }
            transId := id;
        }
        done := CompareExchange(from, toState);
      }
      UpdateEvents(transId, toState);
      r := Moved;
    }

    method CompareAndMove(axis: StateMap, from: nat, to: nat) returns (r: Outcome)
      requires Valid() && WellBuilt(axis) && IsOnChain(axis, Call.CompareAndMove(axis, from, to))
      requires axis.id < 0x8000
      modifies this
      ensures Valid() && r == OutcomeOf(Call.CompareAndMove(axis, from, to), old(currentState))
      ensures Seen() == AfterMove(Call.CompareAndMove(axis, from, to), old(Seen()))
      ensures old(currentState).idx == from ==> MovesOrThrows(old(Seen()), axis, to, r, Seen())
      ensures old(currentState).idx != from ==> r == NotMoved
      ensures r != Moved ==> unchanged(this)
    {
      var toState := State(axis.id, to);
      var expected := currentState;
      if expected.idx != from {
        return NotMoved;
      }
      var transId: nat;
      match GetTransitionId(axis, State(axis.id, from), toState) {
        case Err(e) => return Thrown(e);
        case Ok(id) =>
          if id == 0 {
            return InvalidStateTransition;
          }
          transId := id;
      }
      var ok := CompareExchange(expected, toState);
      if !ok {
        return NotMoved;
      }
      UpdateEvents(transId, toState);
      r := Moved;
    }

    method CompareAndMoveSet(axis: StateMap, fromSet: set<nat>, to: nat) returns (r: Outcome)
      requires Valid() && WellBuilt(axis) && IsOnChain(axis, Call.CompareAndMoveSet(axis, fromSet, to))
      requires axis.id < 0x8000
      modifies this
      ensures Valid() && r == OutcomeOf(Call.CompareAndMoveSet(axis, fromSet, to), old(currentState))
      ensures Seen() == AfterMove(Call.CompareAndMoveSet(axis, fromSet, to), old(Seen()))
      ensures old(currentState).idx in fromSet ==> MovesOrThrows(old(Seen()), axis, to, r, Seen())
      ensures old(currentState).idx !in fromSet ==> r == NotMoved
      ensures r != Moved ==> unchanged(this)
    {
      var toState := State(axis.id, to);
      var transId := 0;
      var done := false;
      while !done
        invariant !done ==> unchanged(this)
        invariant done ==> currentState == toState && events == old(events)
        invariant done ==> old(currentState).idx in fromSet
        invariant done ==> GetTransitionId(axis, old(currentState), toState) == Ok(transId) && transId != 0
        decreases !done
      {
        var from := currentState;
        if from.idx !in fromSet {
          return NotMoved;
        }
        match GetTransitionId(axis, from, toState) {
          case Err(e) => return Thrown(e);
          case Ok(id) =>
            if id == 0 {
              return InvalidStateTransition;
            }
            transId := id;
        }
        done := CompareExchange(from, toState);
      }
      UpdateEvents(transId, toState);
      r := Moved;
    }

    method CompareAndMoveMap(axis: StateMap, trs: map<nat, nat>) returns (r: Outcome)
      requires Valid() && WellBuilt(axis) && IsOnChain(axis, Call.CompareAndMoveMap(axis, trs))
      requires axis.id < 0x8000
      modifies this
      ensures Valid() && r == OutcomeOf(Call.CompareAndMoveMap(axis, trs), old(currentState))
      ensures Seen() == AfterMove(Call.CompareAndMoveMap(axis, trs), old(Seen()))
      ensures old(currentState).idx !in trs ==> r == NotMoved
      ensures old(currentState).idx in trs && old(currentState).mid != axis.id ==> r == AssertionFailed
      ensures old(currentState).idx in trs && old(currentState).mid == axis.id ==>
                MovesOrThrows(old(Seen()), axis, trs[old(currentState).idx], r, Seen())
      ensures r != Moved ==> unchanged(this)
    {
      var toState := currentState;
      var transId := 0;
      var done := false;
      while !done
        invariant !done ==> unchanged(this)
        invariant done ==> currentState == toState && events == old(events)
        invariant done ==> old(currentState).idx in trs && old(currentState).mid == axis.id
        invariant done ==> toState == State(axis.id, trs[old(currentState).idx])
        invariant done ==> GetTransitionId(axis, old(currentState), toState) == Ok(transId) && transId != 0
        decreases !done
      {
        var from := currentState;
        if from.idx !in trs {
          return NotMoved;
        }
        toState := State(axis.id, trs[from.idx]);
        if from != State(axis.id, from.idx) {
          return AssertionFailed;
        }
        match GetTransitionId(axis, from, toState) {
          case Err(e) => return Thrown(e);
          case Ok(id) =>
            if id == 0 {
              return InvalidStateTransition;
            }
            transId := id;
        }
        done := CompareExchange(from, toState);
      }
      UpdateEvents(transId, toState);
      r := Moved;
    }

    method NegCompareAndMove(axis: StateMap, notFrom: nat, to: nat) returns (r: Outcome)
      requires Valid() && WellBuilt(axis) && IsOnChain(axis, Call.NegCompareAndMove(axis, notFrom, to))
      requires axis.id < 0x8000
      modifies this
      ensures Valid() && r == OutcomeOf(Call.NegCompareAndMove(axis, notFrom, to), old(currentState))
      ensures Seen() == AfterMove(Call.NegCompareAndMove(axis, notFrom, to), old(Seen()))
      ensures old(currentState).idx != notFrom ==> MovesOrThrows(old(Seen()), axis, to, r, Seen())
      ensures old(currentState).idx == notFrom ==> r == NotMoved
      ensures r != Moved ==> unchanged(this)
    {
      var toState := State(axis.id, to);
      var transId := 0;
      var done := false;
      while !done
        invariant !done ==> unchanged(this)
        invariant done ==> currentState == toState && events == old(events)
        invariant done ==> old(currentState).idx != notFrom
        invariant done ==> GetTransitionId(axis, old(currentState), toState) == Ok(transId) && transId != 0
        decreases !done
      {
        var from := currentState;
        if from.idx == notFrom {
          return NotMoved;
        }
        match GetTransitionId(axis, from, toState) {
          case Err(e) => return Thrown(e);
          case Ok(id) =>
            if id == 0 {
              return InvalidStateTransition;
            }
            transId := id;
        }
        done := CompareExchange(from, toState);
      }
      UpdateEvents(transId, toState);
      r := Moved;
    }
  }

  // ---------- Sequential runs ----------

  datatype Op =
    | Create(event: Event)
    | MoveOp(call: Call)

  ghost predicate IsProperOp(op: Op) {
    match op
    case Create(e) => IsProper(e)
    case MoveOp(call) =>
      call.axis.StateMap? && WellBuilt(call.axis) && call.axis.id < 0x8000
      && IsOnChain(call.axis, call)
  }

  function AfterOp(op: Op, tr: Trace): Trace {
    match op
    case Create(e) => tr.(stored := tr.stored + {LocalId(e)})
    case MoveOp(call) => AfterMove(call, tr)
  }

  function After(ops: seq<Op>, tr: Trace): Trace {
    if ops == [] then tr else AfterOp(ops[|ops| - 1], After(ops[..|ops| - 1], tr))
  }

  /** A sequence of create_event calls and moves of all forms, on any axes: the object ends as the
      operations say, and its events are signalled as their trace says. */
  method RunSequence(obj: RObjectWithEvents, ops: seq<Op>)
    requires obj.Valid() && forall k :: 0 <= k < |ops| ==> IsProperOp(ops[k])
    modifies obj
    ensures obj.Valid() && obj.Seen() == After(ops, old(obj.Seen()))
    ensures forall k :: k in obj.events ==>
              (obj.events[k] <==> Signalled(After(ops, old(obj.Seen())), k))
  {
    var k := 0;
    assert ops[..0] == [];
    while k < |ops|
      invariant 0 <= k <= |ops|
      invariant obj.Valid() && obj.Seen() == After(ops[..k], old(obj.Seen()))
    {
      assert ops[..k + 1][..k] == ops[..k];
      Apply(obj, ops[k]);
      k := k + 1;
    }
    assert ops[..k] == ops;
  }

  method Apply(obj: RObjectWithEvents, op: Op)
    requires obj.Valid() && IsProperOp(op)
    modifies obj
    ensures obj.Valid() && obj.Seen() == AfterOp(op, old(obj.Seen()))
  {
    match op {
      case Create(e) => var b := obj.CreateEvent(e);
      case MoveOp(call) =>
        match call {
          case MoveTo(axis, to) => var r := obj.MoveTo(axis, to);
          case CompareAndMove(axis, from, to) => var r := obj.CompareAndMove(axis, from, to);
          case CompareAndMoveSet(axis, fromSet, to) =>
            var r := obj.CompareAndMoveSet(axis, fromSet, to);
          case CompareAndMoveMap(axis, trs) => var r := obj.CompareAndMoveMap(axis, trs);
          case NegCompareAndMove(axis, notFrom, to) =>
            var r := obj.NegCompareAndMove(axis, notFrom, to);
        }
    }
  }

  /** The operation moves an object that is in this state. */
  predicate Takes(op: Op, word: State) {
    op.MoveOp? && Decide(op.call, word).Exchange?
  }

  /** The `k`-th operation is the last one that moves the object. */
  ghost predicate IsLastMove(ops: seq<Op>, tr: Trace, k: nat) {
    && k < |ops| && Takes(ops[k], After(ops[..k], tr).state)
    && forall j :: k < j < |ops| ==> !Takes(ops[j], After(ops[..j], tr).state)
  }

  /** After the last move the object stays where that move brought it, the transition taken last
      is the one the move's axis has there, and only the events created before it have heard. */
  lemma {:induction false} LastMoveCounts(ops: seq<Op>, tr: Trace, k: nat)
    requires IsLastMove(ops, tr, k)
    ensures var before := After(ops[..k], tr);
            var call := ops[k].call;
            && After(ops, tr).state == Decide(call, before.state).to
            && GetTransitionId(call.axis, before.state, After(ops, tr).state) == Ok(After(ops, tr).last)
            && After(ops, tr).heard == before.stored
  {
    var n := |ops| - 1;
    if k < n {
      var rest := ops[..n];
      assert rest[..k] == ops[..k];
      forall j | k < j < n ensures !Takes(rest[j], After(rest[..j], tr).state) {
        assert rest[..j] == ops[..j];
      }
      LastMoveCounts(rest, tr, k);
    }
  }

  /** Without a move nothing but the set of stored events changes. */
  lemma {:induction false} NoMoveNoChange(ops: seq<Op>, tr: Trace)
    requires forall j :: 0 <= j < |ops| ==> !Takes(ops[j], After(ops[..j], tr).state)
    ensures After(ops, tr) == tr.(stored := After(ops, tr).stored)
  {
    if ops != [] {
      var n := |ops| - 1;
      var rest := ops[..n];
      forall j | 0 <= j < n ensures !Takes(rest[j], After(rest[..j], tr).state) {
        assert rest[..j] == ops[..j];
      }
      NoMoveNoChange(rest, tr);
    }
  }

  /** The events stored are those there were and those created. */
  lemma {:induction false} StoredAreCreated(ops: seq<Op>, tr: Trace, key: nat)
    ensures key in After(ops, tr).stored <==>
              key in tr.stored
              || exists i :: 0 <= i < |ops| && ops[i].Create? && LocalId(ops[i].event) == key
  {
    if ops != [] {
      var n := |ops| - 1;
      StoredAreCreated(ops[..n], tr, key);
      forall i | 0 <= i < n ensures ops[..n][i] == ops[i] {
      }
      if exists i :: 0 <= i < n && ops[..n][i].Create? && LocalId(ops[..n][i].event) == key {
        var i :| 0 <= i < n && ops[..n][i].Create? && LocalId(ops[..n][i].event) == key;
        assert ops[i].Create?;
      }
    }
  }

  /** For an object that began without events: a stored transition event is signalled exactly when
      the last move took that transition and the event had been created before it. */
  lemma TransitionSignalled(ops: seq<Op>, initialState: State, k: nat, t: nat)
    requires IsLastMove(ops, Trace(initialState, 0, {}, {}), k) && t < ARRIVAL_BIT
    ensures var tr := Trace(initialState, 0, {}, {});
            var before := After(ops[..k], tr).state;
            Signalled(After(ops, tr), t) <==>
              && GetTransitionId(ops[k].call.axis, before, After(ops, tr).state) == Ok(t)
              && exists i :: 0 <= i < k && ops[i].Create? && LocalId(ops[i].event) == t
  {
    var tr := Trace(initialState, 0, {}, {});
    LastMoveCounts(ops, tr, k);
    StoredAreCreated(ops[..k], tr, t);
    if exists i :: 0 <= i < k && ops[i].Create? && LocalId(ops[i].event) == t {
      var i :| 0 <= i < k && ops[i].Create? && LocalId(ops[i].event) == t;
      assert ops[..k][i] == ops[i];
    }
  }

  // ---------- The splitter ----------

  /** is_this_event_store: numbers are compared with what the split map had. */
  function IsThisEventStore(split: StateMap, e: Event): bool {
    match e
    case Arrival(s) => s.idx > split.NStates()
    case Transition(t) => t % 0x8000 > split.MaxTransId()
  }

  predicate HasTransition(m: StateMap, t: nat) {
    exists p :: p in m.Trans() && m.Trans()[p] == t
  }

  /** An event of the derived axis. */
  predicate IsEventOf(derived: StateMap, e: Event) {
    match e
    case Arrival(s) => 1 <= s.idx <= derived.NStates()
    case Transition(t) => HasTransition(derived, t)
  }

  /** The split map lacks that state, by name, or that transition. */
  predicate IsNewTo(derived: StateMap, split: StateMap, e: Event)
    requires IsEventOf(derived, e)
  {
    match e
    case Arrival(s) => derived.Names()[s.idx - 1] !in split.Names()
    case Transition(t) => !HasTransition(split, t)
  }

  /** Routing is exact: an event belongs to the splitter exactly when it is new to the split map,
      although the code only compares numbers. */
  lemma RoutingIsExact(derived: StateMap, split: StateMap, e: Event)
    requires WellBuilt(derived) && DescendsFrom(derived, split) && IsEventOf(derived, e)
    ensures IsThisEventStore(split, e) <==> IsNewTo(derived, split, e)
  {
    DescendantInherits(derived, split);
    AncestorFacts(derived, split);
    match e
    case Arrival(s) => StateIsNew(derived, split, s.idx);
    case Transition(t) => TransitionIsNew(derived, split, t);
  }

  lemma NameIsNew(name2idx: map<string, nat>, names: seq<string>, n: nat, idx: nat)
    requires IsIndex(name2idx, names) && n <= |names| && 1 <= idx <= |names|
    ensures idx > n <==> names[idx - 1] !in names[..n]
  {
    var name := names[idx - 1];
    assert name2idx[name] == idx;
    if idx <= n {
      assert names[..n][idx - 1] == name;
    }
    if name in names[..n] {
      var k :| 0 <= k < n && names[..n][k] == name;
      assert names[k] == name && name2idx[names[k]] == k + 1;
    }
  }

  lemma StateIsNew(derived: StateMap, split: StateMap, idx: nat)
    requires WellBuilt(derived) && Inherits(derived, split) && 1 <= idx <= derived.NStates()
    ensures idx > split.NStates() <==> derived.Names()[idx - 1] !in split.Names()
  {
    assert split.Names() == derived.Names()[..split.NStates()];
    NameIsNew(derived.name2idx, derived.names, split.NStates(), idx);
  }

  lemma TransitionIsNew(derived: StateMap, split: StateMap, t: nat)
    requires WellBuilt(derived) && WellBuilt(split) && Inherits(derived, split)
    requires HasTransition(derived, t)
    ensures t % 0x8000 > split.MaxTransId() <==> !HasTransition(split, t)
  {
    var d, s := derived.Trans(), split.Trans();
    var p :| p in d && d[p] == t;
    assert t < 0x8000 && t % 0x8000 == t;
    if HasTransition(split, t) {
      var q :| q in s && s[q] == t;
      assert t <= split.MaxTransId();
    } else if p in s {
      assert s[p] == t;
    }
  }

  /** Where create_event of the splitter stores an event. */
  datatype Store = Own | Delegate

  function StoresOf(derived: StateMap, split: StateMap, e: Event): set<Store> {
    if IsThisEventStore(split, e) then {Own}
    else if e.Arrival? && derived.StateMap? && e.state.idx in derived.arrivals then {Delegate, Own}
    else {Delegate}
  }

  /** A transition event has one store: the delegate's if the split map has the transition, the
      splitter's own otherwise. */
  lemma TransitionStores(derived: StateMap, split: StateMap, t: nat)
    requires WellBuilt(derived) && DescendsFrom(derived, split) && HasTransition(derived, t)
    ensures StoresOf(derived, split, Transition(t))
         == if HasTransition(split, t) then {Delegate} else {Own}
  {
    DescendantInherits(derived, split);
    AncestorFacts(derived, split);
    TransitionIsNew(derived, split, t);
  }

  /** The derived map itself introduces a transition that leads to the state `idx`. */
  predicate LeadsTo(derived: StateMap, idx: nat)
    requires derived.StateMap?
  {
    exists q :: q in derived.trans && q !in derived.parent.Trans() && q.1 == idx
  }

  /** Every event has a store, and an arrival event is kept in the splitter's own store exactly
      when its state is new or a transition introduced by the derived map leads to it. */
  lemma ArrivalStores(derived: StateMap, split: StateMap, s: State)
    requires derived.StateMap? && WellBuilt(derived) && DescendsFrom(derived, split)
    requires 1 <= s.idx <= derived.NStates()
    ensures Own in StoresOf(derived, split, Arrival(s)) <==>
              derived.Names()[s.idx - 1] !in split.Names()
              || LeadsTo(derived, s.idx)
    ensures Delegate in StoresOf(derived, split, Arrival(s)) <==>
              derived.Names()[s.idx - 1] in split.Names()
  {
    DescendantInherits(derived, split);
    StateIsNew(derived, split, s.idx);
    var lo :| derived.parent.MaxTransId() <= lo && IntroducesAbove(derived, lo);
    if s.idx in derived.arrivals {
      var t :| t in derived.trans2states && derived.trans2states[t].1 == s.idx;
      assert derived.trans2states[t] in derived.trans;
    }
  }

  /** Of a move that the split axis does not know, the splitter's own store always hears the
      transition, but the arrival only if the state is new or the derived map itself introduces a
      transition to it. So it hears all of them if there is no map between the two; a transition
      introduced by a map between leaves its arrival to the delegate. */
  lemma OwnMovesAreHeard(derived: StateMap, split: StateMap, p: (nat, nat))
    requires derived.StateMap? && WellBuilt(derived) && DescendsFrom(derived, split)
    requires p in derived.trans && p !in split.Trans()
    ensures StoresOf(derived, split, Transition(derived.trans[p])) == {Own}
    ensures Own in StoresOf(derived, split, Arrival(State(derived.id, p.1))) <==>
              derived.names[p.1 - 1] !in split.Names() || LeadsTo(derived, p.1)
    ensures derived.parent == split ==>
              Own in StoresOf(derived, split, Arrival(State(derived.id, p.1)))
  {
    ArrivalStores(derived, split, State(derived.id, p.1));
    DescendantInherits(derived, split);
    UnknownIsNew(derived, split, p);
    if derived.parent == split {
      assert p !in derived.parent.Trans();
    }
  }

  lemma UnknownIsNew(derived: StateMap, split: StateMap, p: (nat, nat))
    requires WellBuilt(derived) && Inherits(derived, split)
    requires p in derived.Trans() && p !in split.Trans()
    ensures IsThisEventStore(split, Transition(derived.Trans()[p]))
  {
  }
}
