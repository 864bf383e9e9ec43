/** update_events under concurrency (C++/RState.hpp, C++/RObjectWithStates.hpp). A call that moved
    the object updates the events after its exchange: it resets all of them one by one, then
    signals those of its transition and of its arrival. Each of these is a step of its own, so
    the updates of several movers interleave, with each other and with further moves. */
module EventRaces {
  import opened StateMaps
  import opened AtomicMoves
  import Events

  /** The update of one mover: the keys of its transition and of its arrival, and how many of its
      steps it has taken. */
  datatype Update = Update(trans: nat, arrival: nat, next: nat)

  /** `events` are the stored events; `updates` belong to the threads that have moved; `last` tells
      which of them touched an event last. */
  datatype Race = Race(kernel: System, events: map<nat, bool>, updates: map<nat, Update>,
                       last: map<nat, nat>)

  datatype RaceAction = Kernel(action: Action) | Touch(id: nat)

  function Resets(stored: seq<nat>): (p: seq<(nat, bool)>)
    ensures |p| == |stored| && forall i :: 0 <= i < |p| ==> p[i] == (stored[i], false)
  {
    seq(|stored|, i requires 0 <= i < |stored| => (stored[i], false))
  }

  function SetIfStored(stored: seq<nat>, key: nat): seq<(nat, bool)> {
    if key in stored then [(key, true)] else []
  }

  /** The steps of an update, each an event and its new value. */
  function Program(stored: seq<nat>, u: Update): seq<(nat, bool)> {
    Resets(stored) + SetIfStored(stored, u.trans) + SetIfStored(stored, u.arrival)
  }

  predicate IsKeyOf(u: Update, key: nat) {
    key == u.trans || key == u.arrival
  }

  /** The update that a winning exchange entails. */
  function UpdateOf(s: System, id: nat): Update
    requires id in s.threads && s.threads[id].Loaded? && s.threads[id].at < |s.history|
  {
    Update(Cell(s.threads[id].call.axis.Trans(),
                (s.history[s.threads[id].at].idx, s.threads[id].to.idx)),
           Events.LocalId(Events.Arrival(s.threads[id].to)), 0)
  }

  ghost predicate CanStep(deepest: StateMap, stored: seq<nat>, r: Race, a: RaceAction) {
    if a.Kernel? then IsStepOf(deepest, r.kernel, a.action)
    else a.id in r.updates && r.updates[a.id].next < |Program(stored, r.updates[a.id])|
  }

  ghost predicate IsStepOf(deepest: StateMap, s: System, a: Action) {
    && Enabled(deepest, s, a) && |s.history| > 0
    && (a.CompareExchange? ==> s.threads[a.id].at < |s.history|)
  }

  function AfterKernel(r: Race, a: Action): Race
    requires |r.kernel.history| > 0
    requires !a.Start? ==> a.id in r.kernel.threads
    requires a.Load? ==> r.kernel.threads[a.id].Ready?
    requires a.CompareExchange? ==>
               r.kernel.threads[a.id].Loaded? && r.kernel.threads[a.id].at < |r.kernel.history|
  {
    var s' := Step(r.kernel, a);
    if |s'.history| > |r.kernel.history| && a.CompareExchange? then
      r.(kernel := s', updates := r.updates[a.id := UpdateOf(r.kernel, a.id)])
    else r.(kernel := s')
  }

  function AfterTouch(stored: seq<nat>, r: Race, id: nat): Race
    requires id in r.updates && r.updates[id].next < |Program(stored, r.updates[id])|
  {
    var u := r.updates[id];
    var step := Program(stored, u)[u.next];
    r.(events := r.events[step.0 := step.1], updates := r.updates[id := u.(next := u.next + 1)],
       last := r.last[step.0 := id])
  }

  ghost predicate IsRaceStep(deepest: StateMap, stored: seq<nat>, r: Race, a: RaceAction, r': Race) {
    && CanStep(deepest, stored, r, a)
    && r' == if a.Kernel? then AfterKernel(r, a.action) else AfterTouch(stored, r, a.id)
  }

  /** At the beginning the stored events tell the state of the object. */
  ghost predicate IsFresh(stored: seq<nat>, r: Race) {
    && IsInitial(r.kernel) && r.updates == map[] && r.last == map[]
    && (forall k :: k in r.events <==> k in stored)
    && forall k :: k in stored ==> (r.events[k] <==> k == Events.LocalId(Events.Arrival(r.kernel.history[0])))
  }

  ghost predicate IsRace(deepest: StateMap, stored: seq<nat>, rs: seq<Race>, actions: seq<RaceAction>) {
    && |rs| == |actions| + 1 && IsFresh(stored, rs[0])
    && forall n :: 0 <= n < |actions| ==> IsRaceStep(deepest, stored, rs[n], actions[n], rs[n + 1])
  }

  // ---------- The invariant ----------

  datatype Value = Untouched | Is(value: bool)

  /** What a program leaves in an event. */
  function Leaves(p: seq<(nat, bool)>, key: nat): Value {
    if p == [] then Untouched
    else if p[|p| - 1].0 == key then Is(p[|p| - 1].1)
    else Leaves(p[..|p| - 1], key)
  }

  /** A whole update leaves exactly its own two events signalled. */
  lemma WholeProgram(stored: seq<nat>, u: Update, key: nat)
    requires key in stored
    ensures Leaves(Program(stored, u), key) == Is(IsKeyOf(u, key))
  {
    var p, q := Resets(stored), SetIfStored(stored, u.trans);
    ResetsLeave(stored, |stored|, key);
    assert p[..|stored|] == p;
    LeavesMore(p, q, key);
    LeavesMore(p + q, SetIfStored(stored, u.arrival), key);
  }

  lemma LeavesMore(p: seq<(nat, bool)>, q: seq<(nat, bool)>, key: nat)
    requires |q| <= 1
    ensures Leaves(p + q, key) == if |q| == 1 && q[0].0 == key then Is(q[0].1) else Leaves(p, key)
  {
    if |q| == 1 {
      assert (p + q)[..|p|] == p;
    } else {
      assert p + q == p;
    }
  }

  lemma {:induction false} ResetsLeave(stored: seq<nat>, n: nat, key: nat)
    requires n <= |stored|
    ensures Leaves(Resets(stored)[..n], key) == if key in stored[..n] then Is(false) else Untouched
  {
    if n > 0 {
      var p := Resets(stored)[..n];
      assert p[..n - 1] == Resets(stored)[..n - 1];
      ResetsLeave(stored, n - 1, key);
      assert stored[..n] == stored[..n - 1] + [stored[n - 1]];
    }
  }

  /** Programs touch stored events only. */
  lemma ProgramIsStored(stored: seq<nat>, u: Update, i: nat)
    requires i < |Program(stored, u)|
    ensures Program(stored, u)[i].0 in stored
  {
  }

  /** The event at `key` is as the thread that touched it last has left it so far, or as it was. */
  ghost predicate EventInv(stored: seq<nat>, r: Race, key: nat)
    requires |r.kernel.history| > 0 && key in r.events
  {
    if key in r.last then
      && r.last[key] in r.updates
      && var u := r.updates[r.last[key]];
         u.next <= |Program(stored, u)|
         && Leaves(Program(stored, u)[..u.next], key) == Is(r.events[key])
    else r.events[key] <==> key == Events.LocalId(Events.Arrival(r.kernel.history[0]))
  }

  /** An update has touched what its steps so far say. */
  ghost predicate UpdateInv(stored: seq<nat>, r: Race, id: nat)
    requires id in r.updates
  {
    var u := r.updates[id];
    && u.next <= |Program(stored, u)|
    && forall i :: 0 <= i < u.next ==> Program(stored, u)[i].0 in r.last
  }

  /** Each mover's update is about its own move. */
  ghost predicate MoverInv(deepest: StateMap, r: Race, n: nat)
    requires n < |r.kernel.moves| && |r.kernel.history| == |r.kernel.moves| + 1
  {
    && r.kernel.moves[n].thread in r.updates
    && var u := r.updates[r.kernel.moves[n].thread];
       && u.arrival == Events.LocalId(Events.Arrival(r.kernel.history[n + 1]))
       && u.trans == Cell(deepest.Trans(), (r.kernel.history[n].idx, r.kernel.history[n + 1].idx))
  }

  ghost predicate EventsInv(stored: seq<nat>, r: Race) {
    && |r.kernel.history| > 0
    && (forall k :: k in r.events <==> k in stored)
    && (forall k :: k in r.events ==> EventInv(stored, r, k))
    && (forall id :: id in r.updates ==> UpdateInv(stored, r, id))
  }

  ghost predicate MoversInv(deepest: StateMap, r: Race) {
    && |r.kernel.history| == |r.kernel.moves| + 1
    && (forall id :: id in r.updates <==> HasMoved(r.kernel, id))
    && (forall n :: 0 <= n < |r.kernel.moves| ==> MoverInv(deepest, r, n))
  }

  ghost predicate RaceInv(deepest: StateMap, stored: seq<nat>, r: Race) {
    Inv(deepest, r.kernel) && EventsInv(stored, r) && MoversInv(deepest, r)
  }

  lemma TouchTakesStep(stored: seq<nat>, r: Race, id: nat)
    requires id in r.updates && r.updates[id].next < |Program(stored, r.updates[id])|
    ensures var r', u := AfterTouch(stored, r, id), r.updates[id];
            var p := Program(stored, u);
            var key := p[u.next].0;
            && key in stored && r'.last == r.last[key := id]
            && r'.updates == r.updates[id := u.(next := u.next + 1)]
            && r'.events == r.events[key := p[u.next].1]
            && Program(stored, r'.updates[id]) == p
            && Leaves(p[..u.next + 1], key) == Is(p[u.next].1)
            && forall k :: k != key ==> Leaves(p[..u.next + 1], k) == Leaves(p[..u.next], k)
  {
    var u := r.updates[id];
    var p := Program(stored, u);
    assert p[..u.next + 1][..u.next] == p[..u.next];
    ProgramIsStored(stored, u, u.next);
  }

  lemma TouchKeepsEvent(stored: seq<nat>, r: Race, id: nat, k: nat)
    requires |r.kernel.history| > 0 && k in r.events && EventInv(stored, r, k)
    requires id in r.updates && r.updates[id].next < |Program(stored, r.updates[id])|
    ensures k in AfterTouch(stored, r, id).events && EventInv(stored, AfterTouch(stored, r, id), k)
  {
    TouchTakesStep(stored, r, id);
  }

  lemma TouchKeepsEvents(stored: seq<nat>, r: Race, id: nat)
    requires EventsInv(stored, r)
    requires id in r.updates && r.updates[id].next < |Program(stored, r.updates[id])|
    ensures EventsInv(stored, AfterTouch(stored, r, id))
  {
    var r' := AfterTouch(stored, r, id);
    TouchTakesStep(stored, r, id);
    forall k | k in r'.events ensures EventInv(stored, r', k) {
      TouchKeepsEvent(stored, r, id, k);
    }
    forall j | j in r'.updates ensures UpdateInv(stored, r', j) {
      assert UpdateInv(stored, r, j);
    }
  }

  lemma TouchKeepsMovers(deepest: StateMap, stored: seq<nat>, r: Race, id: nat)
    requires MoversInv(deepest, r)
    requires id in r.updates && r.updates[id].next < |Program(stored, r.updates[id])|
    ensures MoversInv(deepest, AfterTouch(stored, r, id))
  {
    var r' := AfterTouch(stored, r, id);
    forall n | 0 <= n < |r'.kernel.moves| ensures MoverInv(deepest, r', n) {
      assert MoverInv(deepest, r, n);
    }
  }

  /** A step of the kernel adds an update, of a thread that had none, or none. */
  lemma KernelKeepsEvents(stored: seq<nat>, r: Race, r': Race, id: nat)
    requires EventsInv(stored, r) && r.kernel.history <= r'.kernel.history
    requires r'.events == r.events && r'.last == r.last
    requires r'.updates == r.updates
             || (id !in r.updates && id in r'.updates
                 && r'.updates == r.updates[id := r'.updates[id]] && r'.updates[id].next == 0)
    ensures EventsInv(stored, r')
  {
    forall k | k in r'.events ensures EventInv(stored, r', k) {
      assert EventInv(stored, r, k);
    }
    forall j | j in r'.updates ensures UpdateInv(stored, r', j) {
      assert j in r.updates ==> UpdateInv(stored, r, j);
    }
  }

  lemma QuietKeepsMovers(deepest: StateMap, r: Race, r': Race)
    requires MoversInv(deepest, r) && r'.updates == r.updates
    requires r'.kernel.history == r.kernel.history && r'.kernel.moves == r.kernel.moves
    requires forall i :: HasMoved(r'.kernel, i) <==> HasMoved(r.kernel, i)
    ensures MoversInv(deepest, r')
  {
    forall n | 0 <= n < |r'.kernel.moves| ensures MoverInv(deepest, r', n) {
      assert MoverInv(deepest, r, n);
    }
  }

  lemma WinKeepsMovers(deepest: StateMap, r: Race, r': Race, id: nat)
    requires MoversInv(deepest, r) && MovesInv(r.kernel) && !HasMoved(r.kernel, id)
    requires forall i :: HasMoved(r'.kernel, i) <==> HasMoved(r.kernel, i) || i == id
    requires id in r'.updates && r'.updates == r.updates[id := r'.updates[id]]
    requires |r'.kernel.moves| == |r.kernel.moves| + 1 && r.kernel.moves <= r'.kernel.moves
    requires |r'.kernel.history| == |r'.kernel.moves| + 1 && r.kernel.history <= r'.kernel.history
    requires MoverInv(deepest, r', |r.kernel.moves|)
    ensures MoversInv(deepest, r')
  {
    forall n | 0 <= n < |r.kernel.moves| ensures MoverInv(deepest, r', n) {
      assert MoverInv(deepest, r, n);
      assert HasMoved(r.kernel, r.kernel.moves[n].thread);
    }
  }

  lemma QuietStep(deepest: StateMap, r: Race, a: Action)
    requires IsStepOf(deepest, r.kernel, a) && Step(r.kernel, a).history == r.kernel.history
    ensures AfterKernel(r, a).updates == r.updates
    ensures Step(r.kernel, a).moves == r.kernel.moves
  {
  }

  /** How the threads that have moved change in one step of the kernel. */
  lemma MoversAfter(deepest: StateMap, s: System, a: Action, s': System)
    requires IsStep(deepest, s, a, s')
    ensures forall i :: HasMoved(s', i) <==> HasMoved(s, i) || (a.id == i && s'.history != s.history)
  {
    forall i ensures HasMoved(s', i) <==> HasMoved(s, i) || (a.id == i && s'.history != s.history) {
      WritingIsMoving(deepest, s, a, s', i);
    }
  }

  lemma KernelKeepsMovers(deepest: StateMap, r: Race, a: Action)
    requires WellBuilt(deepest) && Inv(deepest, r.kernel) && MoversInv(deepest, r)
    requires IsStepOf(deepest, r.kernel, a)
    ensures MoversInv(deepest, AfterKernel(r, a))
  {
    MoversAfter(deepest, r.kernel, a, Step(r.kernel, a));
    if Step(r.kernel, a).history == r.kernel.history {
      QuietStep(deepest, r, a);
      QuietKeepsMovers(deepest, r, AfterKernel(r, a));
    } else {
      WinIsRecorded(deepest, r, a);
      WinKeepsMovers(deepest, r, AfterKernel(r, a), a.id);
    }
  }

  /** What the kernel and the updates look like after a step that changed the word. */
  ghost predicate Won(r: Race, a: Action, r': Race) {
    && a.CompareExchange? && a.id in r.kernel.threads && r.kernel.threads[a.id].Loaded?
    && var s, t := r.kernel, r.kernel.threads[a.id];
       && t.at < |s.history| && s.history[|s.history| - 1] == s.history[t.at]
       && r'.kernel.history == s.history + [t.to] && r'.kernel.moves == s.moves + [Move(a.id, t.at)]
       && r'.updates == r.updates[a.id := UpdateOf(s, a.id)]
  }

  lemma WordChanges(deepest: StateMap, r: Race, a: Action)
    requires IsStepOf(deepest, r.kernel, a) && Step(r.kernel, a).history != r.kernel.history
    ensures Won(r, a, AfterKernel(r, a))
  {
  }

  lemma WinnerMovedSo(deepest: StateMap, r: Race, a: Action, r': Race)
    requires WellBuilt(deepest) && Won(r, a, r') && |r.kernel.history| == |r.kernel.moves| + 1
    requires ThreadInv(deepest, r.kernel, r.kernel.threads[a.id])
    ensures MoverInv(deepest, r', |r.kernel.moves|)
  {
    var t := r.kernel.threads[a.id];
    DescendantInherits(deepest, t.call.axis);
    ExchangeHasCell(t.call, r.kernel.history[t.at], t.to);
  }

  lemma WinIsRecorded(deepest: StateMap, r: Race, a: Action)
    requires WellBuilt(deepest) && Inv(deepest, r.kernel) && IsStepOf(deepest, r.kernel, a)
    requires Step(r.kernel, a).history != r.kernel.history
    ensures a.CompareExchange? && !HasMoved(r.kernel, a.id)
    ensures var s, s', r' := r.kernel, Step(r.kernel, a), AfterKernel(r, a);
            && a.id in s.threads && s.threads[a.id].Loaded? && s.threads[a.id].at < |s.history|
            && r'.updates == r.updates[a.id := UpdateOf(s, a.id)]
            && |s'.moves| == |s.moves| + 1 && |s'.history| == |s'.moves| + 1
            && s.moves <= s'.moves && s.history <= s'.history
            && MoverInv(deepest, r', |s.moves|)
  {
    WordChanges(deepest, r, a);
    assert ThreadInv(deepest, r.kernel, r.kernel.threads[a.id]);
    WinnerMovedSo(deepest, r, a, AfterKernel(r, a));
  }

  lemma ExchangeHasCell(call: Call, word: State, to: State)
    requires Decide(call, word) == Exchange(to)
    ensures (word.idx, to.idx) in call.axis.Trans()
  {
  }

  lemma KernelStepKeepsEvents(deepest: StateMap, stored: seq<nat>, r: Race, a: Action)
    requires WellBuilt(deepest) && Inv(deepest, r.kernel) && IsStepOf(deepest, r.kernel, a)
    requires EventsInv(stored, r) && MoversInv(deepest, r)
    ensures EventsInv(stored, AfterKernel(r, a))
  {
    if Step(r.kernel, a).history == r.kernel.history {
      QuietStep(deepest, r, a);
    } else {
      WinIsRecorded(deepest, r, a);
    }
    KernelKeepsEvents(stored, r, AfterKernel(r, a), a.id);
  }

  lemma RaceStepKeepsInv(deepest: StateMap, stored: seq<nat>, r: Race, a: RaceAction, r': Race)
    requires WellBuilt(deepest) && RaceInv(deepest, stored, r)
    requires IsRaceStep(deepest, stored, r, a, r')
    ensures RaceInv(deepest, stored, r')
  {
    match a
    case Touch(id) =>
      TouchKeepsEvents(stored, r, id);
      TouchKeepsMovers(deepest, stored, r, id);
    case Kernel(action) =>
      StepKeepsInv(deepest, r.kernel, action, r'.kernel);
      KernelKeepsMovers(deepest, r, action);
      KernelStepKeepsEvents(deepest, stored, r, action);
  }

  lemma FreshInv(deepest: StateMap, stored: seq<nat>, r: Race)
    requires IsFresh(stored, r)
    ensures RaceInv(deepest, stored, r)
  {
    InitialInv(deepest, r.kernel);
  }

  lemma NextRaceInv(deepest: StateMap, stored: seq<nat>, rs: seq<Race>, actions: seq<RaceAction>, n: nat)
    requires WellBuilt(deepest) && IsRace(deepest, stored, rs, actions) && 0 < n < |rs|
    requires RaceInv(deepest, stored, rs[n - 1])
    ensures RaceInv(deepest, stored, rs[n])
  {
    assert IsRaceStep(deepest, stored, rs[n - 1], actions[n - 1], rs[n - 1 + 1]);
    RaceStepKeepsInv(deepest, stored, rs[n - 1], actions[n - 1], rs[n]);
  }

  lemma {:induction false} RaceKeepsInv(deepest: StateMap, stored: seq<nat>, rs: seq<Race>,
                                        actions: seq<RaceAction>, n: nat)
    requires WellBuilt(deepest) && IsRace(deepest, stored, rs, actions) && n < |rs|
    ensures RaceInv(deepest, stored, rs[n])
    decreases n
  {
    if n == 0 {
      FreshInv(deepest, stored, rs[0]);
    } else {
      RaceKeepsInv(deepest, stored, rs, actions, n - 1);
      NextRaceInv(deepest, stored, rs, actions, n);
    }
  }

  // ---------- At rest ----------

  /** Every call has returned, and every mover has finished its update. */
  ghost predicate IsAtRest(stored: seq<nat>, r: Race) {
    && (forall id :: id in r.kernel.threads ==> r.kernel.threads[id].Finished?)
    && forall id :: id in r.updates ==> r.updates[id].next == |Program(stored, r.updates[id])|
  }

  /** The stored events tell the state of the object: of the arrivals that of its state is
      signalled, of the transitions the one taken last, and no others. */
  ghost predicate Mirrors(deepest: StateMap, stored: seq<nat>, r: Race)
    requires |r.kernel.history| > 0
  {
    var h := r.kernel.history;
    var n := |h| - 1;
    forall k :: k in stored && k in r.events ==>
      (r.events[k] <==>
         || k == Events.LocalId(Events.Arrival(h[n]))
         || (n > 0 && k == Cell(deepest.Trans(), (h[n - 1].idx, h[n].idx))))
  }

  /** Each stored event tells of the mover that touched it last. */
  ghost predicate TellsOfLast(stored: seq<nat>, r: Race) {
    forall k :: k in stored ==>
      && k in r.last && k in r.events && r.last[k] in r.updates
      && (r.events[k] <==> IsKeyOf(r.updates[r.last[k]], k))
  }

  /** For each stored event, the mover that touched it last and the mover that moved last would
      leave it the same. */
  ghost predicate LastMoverPrevails(stored: seq<nat>, r: Race) {
    && r.kernel.moves != [] && r.kernel.moves[|r.kernel.moves| - 1].thread in r.updates
    && var u := r.updates[r.kernel.moves[|r.kernel.moves| - 1].thread];
       forall k :: k in stored ==>
         k in r.last && r.last[k] in r.updates
         && (IsKeyOf(r.updates[r.last[k]], k) <==> IsKeyOf(u, k))
  }

  lemma RestTellsOfLast(deepest: StateMap, stored: seq<nat>, r: Race)
    requires RaceInv(deepest, stored, r) && IsAtRest(stored, r) && r.kernel.moves != []
    ensures TellsOfLast(stored, r)
  {
    var id := r.kernel.moves[0].thread;
    assert MoverInv(deepest, r, 0);
    forall k | k in stored
      ensures k in r.last && k in r.events && r.last[k] in r.updates
      ensures r.events[k] <==> IsKeyOf(r.updates[r.last[k]], k)
    {
      AllTouched(stored, r, id, k);
      assert EventInv(stored, r, k);
      var u := r.updates[r.last[k]];
      assert Program(stored, u)[..u.next] == Program(stored, u);
      WholeProgram(stored, u, k);
    }
  }

  lemma AllTouched(stored: seq<nat>, r: Race, id: nat, key: nat)
    requires id in r.updates && UpdateInv(stored, r, id) && key in stored
    requires r.updates[id].next == |Program(stored, r.updates[id])|
    ensures key in r.last
  {
    var i :| 0 <= i < |stored| && stored[i] == key;
    assert Program(stored, r.updates[id])[i] == Resets(stored)[i];
  }

  /** When a run has come to rest, the events mirror the state if and only if, for each of them,
      the mover that touched it last would leave it as the last mover would. If nobody moved they
      do. */
  lemma RestMirrorsExactly(deepest: StateMap, stored: seq<nat>, rs: seq<Race>,
                           actions: seq<RaceAction>, n: nat)
    requires WellBuilt(deepest) && IsRace(deepest, stored, rs, actions) && n < |rs|
    requires IsAtRest(stored, rs[n])
    ensures |rs[n].kernel.history| == |rs[n].kernel.moves| + 1
    ensures rs[n].kernel.moves == [] ==> Mirrors(deepest, stored, rs[n])
    ensures rs[n].kernel.moves != [] ==>
              TellsOfLast(stored, rs[n])
              && (Mirrors(deepest, stored, rs[n]) <==> LastMoverPrevails(stored, rs[n]))
  {
    RaceKeepsInv(deepest, stored, rs, actions, n);
    if rs[n].kernel.moves == [] {
      NobodyTouched(deepest, stored, rs[n]);
    } else {
      RestTellsOfLast(deepest, stored, rs[n]);
      MirrorsIfPrevails(deepest, stored, rs[n]);
    }
  }

  lemma MirrorsIfPrevails(deepest: StateMap, stored: seq<nat>, r: Race)
    requires r.kernel.moves != [] && |r.kernel.history| == |r.kernel.moves| + 1
    requires MoverInv(deepest, r, |r.kernel.moves| - 1) && TellsOfLast(stored, r)
    ensures Mirrors(deepest, stored, r) <==> LastMoverPrevails(stored, r)
  {
    var u := r.updates[r.kernel.moves[|r.kernel.moves| - 1].thread];
    forall k | k in stored
      ensures (r.events[k] <==> IsKeyOf(u, k))
              <==> (IsKeyOf(r.updates[r.last[k]], k) <==> IsKeyOf(u, k))
    {
    }
  }

  lemma NobodyTouched(deepest: StateMap, stored: seq<nat>, r: Race)
    requires RaceInv(deepest, stored, r) && r.kernel.moves == []
    ensures Mirrors(deepest, stored, r)
  {
    forall id ensures !HasMoved(r.kernel, id) {
    }
    forall k | k in r.events ensures k !in r.last {
      assert EventInv(stored, r, k);
    }
    forall k | k in r.events
      ensures r.events[k] <==> k == Events.LocalId(Events.Arrival(r.kernel.history[0]))
    {
      assert EventInv(stored, r, k);
    }
  }

  /** What `last` records: the thread of the latest step on an event. */
  lemma {:induction false} LastIsLatest(deepest: StateMap, stored: seq<nat>, rs: seq<Race>,
                                        actions: seq<RaceAction>, j: nat, n: nat, key: nat)
    requires IsRace(deepest, stored, rs, actions) && j < n < |rs|
    requires Touches(stored, rs[j], actions[j], key)
    requires forall i :: j < i < n ==> !Touches(stored, rs[i], actions[i], key)
    ensures key in rs[n].last && rs[n].last[key] == actions[j].id
    decreases n
  {
    assert IsRaceStep(deepest, stored, rs[n - 1], actions[n - 1], rs[n - 1 + 1]);
    if n - 1 > j {
      LastIsLatest(deepest, stored, rs, actions, j, n - 1, key);
    }
  }

  predicate Touches(stored: seq<nat>, r: Race, a: RaceAction, key: nat) {
    && a.Touch? && a.id in r.updates && r.updates[a.id].next < |Program(stored, r.updates[a.id])|
    && Program(stored, r.updates[a.id])[r.updates[a.id].next].0 == key
  }

  // ---------- Updates that do not overlap with moves ----------

  ghost predicate IsDone(stored: seq<nat>, r: Race, id: nat)
    requires id in r.updates
  {
    r.updates[id].next == |Program(stored, r.updates[id])|
  }

  ghost predicate MoveWaits(stored: seq<nat>, r: Race, r': Race) {
    r'.kernel.history != r.kernel.history ==> forall id :: id in r.updates ==> IsDone(stored, r, id)
  }

  /** Whenever a call moves the object, the updates of all earlier movers are done. */
  ghost predicate MovesWait(stored: seq<nat>, rs: seq<Race>, actions: seq<RaceAction>)
    requires |rs| == |actions| + 1
  {
    forall n :: 0 <= n < |actions| ==> MoveWaits(stored, rs[n], rs[n + 1])
  }

  /** All movers but the last have done their updates, and what the last one has touched nobody has
      touched since. */
  ghost predicate InTurn(stored: seq<nat>, r: Race) {
    r.kernel.moves != [] ==>
      var m := r.kernel.moves[|r.kernel.moves| - 1].thread;
      && m in r.updates
      && (forall id :: id in r.updates && id != m ==> IsDone(stored, r, id))
      && r.updates[m].next <= |Program(stored, r.updates[m])|
      && forall i :: 0 <= i < r.updates[m].next ==>
           Program(stored, r.updates[m])[i].0 in r.last
           && r.last[Program(stored, r.updates[m])[i].0] == m
  }

  lemma TouchKeepsTurn(stored: seq<nat>, r: Race, id: nat)
    requires InTurn(stored, r)
    requires id in r.updates && r.updates[id].next < |Program(stored, r.updates[id])|
    ensures InTurn(stored, AfterTouch(stored, r, id))
  {
    TouchTakesStep(stored, r, id);
  }

  lemma WinStartsTurn(stored: seq<nat>, r: Race, a: Action, r': Race)
    requires Won(r, a, r') && forall i :: i in r.updates ==> IsDone(stored, r, i)
    ensures InTurn(stored, r')
  {
    forall i | i in r'.updates && i != a.id ensures IsDone(stored, r', i) {
      assert IsDone(stored, r, i);
    }
  }

  lemma KernelKeepsTurn(deepest: StateMap, stored: seq<nat>, r: Race, a: Action, r': Race)
    requires InTurn(stored, r) && IsStepOf(deepest, r.kernel, a) && r' == AfterKernel(r, a)
    requires MoveWaits(stored, r, r')
    ensures InTurn(stored, r')
  {
    if Step(r.kernel, a).history == r.kernel.history {
      QuietStep(deepest, r, a);
      QuietKeepsTurn(stored, r, r');
    } else {
      WordChanges(deepest, r, a);
      WinStartsTurn(stored, r, a, r');
    }
  }

  lemma QuietKeepsTurn(stored: seq<nat>, r: Race, r': Race)
    requires InTurn(stored, r) && r'.updates == r.updates && r'.last == r.last
    requires r'.kernel.moves == r.kernel.moves
    ensures InTurn(stored, r')
  {
    if r.kernel.moves != [] {
      var m := r.kernel.moves[|r.kernel.moves| - 1].thread;
      forall id | id in r'.updates && id != m ensures IsDone(stored, r', id) {
        assert IsDone(stored, r, id);
      }
    }
  }

  lemma StepKeepsTurn(deepest: StateMap, stored: seq<nat>, r: Race, a: RaceAction, r': Race)
    requires InTurn(stored, r) && IsRaceStep(deepest, stored, r, a, r') && MoveWaits(stored, r, r')
    ensures InTurn(stored, r')
  {
    match a
    case Touch(id) => TouchKeepsTurn(stored, r, id);
    case Kernel(action) => KernelKeepsTurn(deepest, stored, r, action, r');
  }

  lemma {:induction false} TurnsAreKept(deepest: StateMap, stored: seq<nat>, rs: seq<Race>,
                                        actions: seq<RaceAction>, n: nat)
    requires IsRace(deepest, stored, rs, actions) && n < |rs| && MovesWait(stored, rs, actions)
    ensures InTurn(stored, rs[n])
    decreases n
  {
    if n > 0 {
      TurnsAreKept(deepest, stored, rs, actions, n - 1);
      NextTurn(deepest, stored, rs, actions, n);
    }
  }

  lemma NextTurn(deepest: StateMap, stored: seq<nat>, rs: seq<Race>, actions: seq<RaceAction>, n: nat)
    requires IsRace(deepest, stored, rs, actions) && 0 < n < |rs|
    requires MovesWait(stored, rs, actions) && InTurn(stored, rs[n - 1])
    ensures InTurn(stored, rs[n])
  {
    assert IsRaceStep(deepest, stored, rs[n - 1], actions[n - 1], rs[n - 1 + 1]);
    assert MoveWaits(stored, rs[n - 1], rs[n - 1 + 1]);
    StepKeepsTurn(deepest, stored, rs[n - 1], actions[n - 1], rs[n]);
  }

  /** If every move waits for the updates of the moves before it, the events mirror the state
      whenever the run is at rest. */
  lemma MovesInTurnMirror(deepest: StateMap, stored: seq<nat>, rs: seq<Race>,
                          actions: seq<RaceAction>, n: nat)
    requires WellBuilt(deepest) && IsRace(deepest, stored, rs, actions) && n < |rs|
    requires MovesWait(stored, rs, actions) && IsAtRest(stored, rs[n])
    ensures |rs[n].kernel.history| > 0 && Mirrors(deepest, stored, rs[n])
  {
    RestMirrorsExactly(deepest, stored, rs, actions, n);
    if rs[n].kernel.moves != [] {
      TurnsAreKept(deepest, stored, rs, actions, n);
      LastPrevailsInTurn(stored, rs[n]);
    }
  }

  lemma LastPrevailsInTurn(stored: seq<nat>, r: Race)
    requires r.kernel.moves != [] && InTurn(stored, r) && IsAtRest(stored, r)
    ensures LastMoverPrevails(stored, r)
  {
    var m := r.kernel.moves[|r.kernel.moves| - 1].thread;
    forall k | k in stored ensures k in r.last && r.last[k] == m {
      var i :| 0 <= i < |stored| && stored[i] == k;
      assert Program(stored, r.updates[m])[i] == Resets(stored)[i];
    }
  }
}
