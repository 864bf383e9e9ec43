/** The atomic moves of RMixedAxis (C++/RState.hpp) run by any number of threads on one state
    word. A call loads the word, decides with its axis's map, and tries to exchange the word;
    the load and the exchange are separate steps, so anything can happen in between. The axes
    of the calls lie on one chain of maps below the map `deepest`. */
module AtomicMoves {
  import opened StateMaps

  /** States given to a call are bound to the map of the call's axis. */
  datatype Call =
    | MoveTo(axis: StateMap, to: nat)
    | CompareAndMove(axis: StateMap, from: nat, to: nat)
    | CompareAndMoveSet(axis: StateMap, fromSet: set<nat>, to: nat)
    | CompareAndMoveMap(axis: StateMap, trs: map<nat, nat>)
    | NegCompareAndMove(axis: StateMap, notFrom: nat, to: nat)

  datatype Outcome = Moved | NotMoved | InvalidStateTransition | InvalidStateError | AssertionFailed

  datatype Decision = Return(outcome: Outcome) | Exchange(to: State)

  function CheckTransition(axis: StateMap, from: State, to: State): Decision {
    match GetTransitionId(axis, from, to)
    case Err(e) => Return(Thrown(e))
    case Ok(id) => if id == 0 then Return(InvalidStateTransition) else Exchange(to)
  }

  function Thrown(e: Error): Outcome {
    if e == BadIndex then AssertionFailed else InvalidStateError
  }

  /** The states a call is to leave. */
  predicate IsSource(call: Call, idx: nat) {
    match call
    case MoveTo(_, _) => true
    case CompareAndMove(_, from, _) => idx == from
    case CompareAndMoveSet(_, fromSet, _) => idx in fromSet
    case CompareAndMoveMap(_, trs) => idx in trs
    case NegCompareAndMove(_, notFrom, _) => idx != notFrom
  }

  function Goal(call: Call, idx: nat): nat
    requires IsSource(call, idx)
  {
    if call.CompareAndMoveMap? then call.trs[idx] else call.to
  }

  /** What a call does with the word it loaded. The map form also asserts that the whole word,
      not only its index, is a key of its map. */
  function Decide(call: Call, word: State): Decision {
    var mid := call.axis.Id();
    if !IsSource(call, word.idx) then Return(NotMoved)
    else if call.CompareAndMoveMap? && word != State(mid, word.idx) then
      Return(AssertionFailed)
    else CheckTransition(call.axis, word, State(mid, Goal(call, word.idx)))
  }

  /** A thread inside one call; `at` is the place in the history where it loaded the word. */
  datatype Thread =
    | Ready(call: Call)
    | Loaded(call: Call, at: nat, to: State)
    | Finished(call: Call, outcome: Outcome)

  /** Who replaced the k-th value of the word, and where it had loaded that value. */
  datatype Move = Move(thread: nat, loadedAt: nat)

  /** The word is the last element of its history. */
  datatype System = System(history: seq<State>, threads: map<nat, Thread>, moves: seq<Move>)

  datatype Action = Start(id: nat, call: Call) | Load(id: nat) | CompareExchange(id: nat)

  predicate IsOnChain(deepest: StateMap, call: Call) {
    && call.axis.StateMap? && DescendsFrom(deepest, call.axis)
    && (match call
        case CompareAndMoveMap(axis, trs) =>
          forall i :: i in trs ==> 1 <= trs[i] <= axis.NStates()
        case _ => 1 <= call.to <= call.axis.NStates())
  }

  predicate Enabled(deepest: StateMap, s: System, a: Action) {
    match a
    case Start(id, call) => id !in s.threads && IsOnChain(deepest, call)
    case Load(id) => id in s.threads && s.threads[id].Ready?
    case CompareExchange(id) => id in s.threads && s.threads[id].Loaded?
  }

  function Step(s: System, a: Action): System
    requires |s.history| > 0
    requires !a.Start? ==> a.id in s.threads
    requires a.Load? ==> s.threads[a.id].Ready?
    requires a.CompareExchange? ==>
               s.threads[a.id].Loaded? && s.threads[a.id].at < |s.history|
  {
    var last := |s.history| - 1;
    match a
    case Start(id, call) => s.(threads := s.threads[id := Ready(call)])
    case Load(id) =>
      var call := s.threads[id].call;
      var next := match Decide(call, s.history[last])
                  case Return(outcome) => Finished(call, outcome)
                  case Exchange(to) => Loaded(call, last, to);
      s.(threads := s.threads[id := next])
    case CompareExchange(id) =>
      var t := s.threads[id];
      if s.history[last] == s.history[t.at] then
        System(s.history + [t.to], s.threads[id := Finished(t.call, Moved)],
               s.moves + [Move(id, t.at)])
      else if t.call.CompareAndMove? then
        s.(threads := s.threads[id := Finished(t.call, NotMoved)])
      else
        s.(threads := s.threads[id := Ready(t.call)])
  }

  // ---------- The invariant ----------

  ghost predicate IsEdge(deepest: StateMap, from: State, to: State) {
    (from.idx, to.idx) in deepest.Trans()
  }

  /** The history starts in a state and is a path in the transition relation of the deepest map. */
  ghost predicate IsPath(deepest: StateMap, history: seq<State>) {
    && (|history| > 0 ==> history[0].idx >= 1)
    && forall k :: 0 < k < |history| ==> IsEdge(deepest, history[k - 1], history[k])
  }

  ghost predicate ThreadInv(deepest: StateMap, s: System, t: Thread) {
    && IsOnChain(deepest, t.call)
    && (t.Loaded? ==> t.at < |s.history| && Decide(t.call, s.history[t.at]) == Exchange(t.to))
  }

  /** Every value but the last was replaced by one call, which had loaded an equal value; and
      the calls that moved are exactly those. */
  ghost predicate MovesInv(s: System) {
    && |s.moves| + 1 == |s.history|
    && (forall k :: 0 <= k < |s.moves| ==>
          s.moves[k].loadedAt <= k && s.history[s.moves[k].loadedAt] == s.history[k])
    && (forall k :: 0 <= k < |s.moves| ==> HasMoved(s, s.moves[k].thread))
    && (forall j, k :: 0 <= j < k < |s.moves| ==> s.moves[j].thread != s.moves[k].thread)
    && (forall id :: HasMoved(s, id) ==> exists k :: 0 <= k < |s.moves| && s.moves[k].thread == id)
  }

  /** Each value carries the map id of the axis through which it was written. */
  ghost predicate WritersInv(s: System)
    requires |s.moves| + 1 == |s.history|
  {
    forall k :: 0 <= k < |s.moves| ==>
      s.moves[k].thread in s.threads
      && s.history[k + 1].mid == s.threads[s.moves[k].thread].call.axis.Id()
  }

  ghost predicate HasMoved(s: System, id: nat) {
    id in s.threads && s.threads[id].Finished? && s.threads[id].outcome == Moved
  }

  ghost predicate ThreadsInv(deepest: StateMap, s: System) {
    forall id :: id in s.threads ==> ThreadInv(deepest, s, s.threads[id])
  }

  ghost predicate Inv(deepest: StateMap, s: System) {
    && IsPath(deepest, s.history)
    && ThreadsInv(deepest, s)
    && MovesInv(s)
    && WritersInv(s)
  }

  lemma ExchangeIsEdge(deepest: StateMap, call: Call, word: State, to: State)
    requires WellBuilt(deepest) && IsOnChain(deepest, call) && Decide(call, word) == Exchange(to)
    ensures IsEdge(deepest, word, to)
  {
    DescendantInherits(deepest, call.axis);
  }

  lemma StartKeepsInv(deepest: StateMap, s: System, a: Action)
    requires Inv(deepest, s) && Enabled(deepest, s, a) && a.Start?
    ensures Inv(deepest, Step(s, a))
  {
    var s' := Step(s, a);
    ThreadsSurvive(deepest, s, s', a.id, s'.threads[a.id]);
    MovesUnaffected(s, s', a.id);
    WritersUnaffected(s, s', a.id);
  }

  lemma LoadKeepsInv(deepest: StateMap, s: System, a: Action)
    requires Inv(deepest, s) && Enabled(deepest, s, a) && a.Load?
    ensures Inv(deepest, Step(s, a))
  {
    var s' := Step(s, a);
    NeverDecidesMoved(s.threads[a.id].call, s.history[|s.history| - 1]);
    assert ThreadInv(deepest, s, s.threads[a.id]);
    ThreadsSurvive(deepest, s, s', a.id, s'.threads[a.id]);
    MovesUnaffected(s, s', a.id);
    WritersUnaffected(s, s', a.id);
  }

  lemma NeverDecidesMoved(call: Call, word: State)
    ensures Decide(call, word) != Return(Moved)
  {
  }

  lemma MovesUnaffected(s: System, s': System, id: nat)
    requires MovesInv(s) && s'.history == s.history && s'.moves == s.moves
    requires !HasMoved(s, id) && !HasMoved(s', id)
    requires forall i :: i != id ==> (HasMoved(s', i) <==> HasMoved(s, i))
    ensures MovesInv(s')
  {
  }

  lemma WritersUnaffected(s: System, s': System, id: nat)
    requires MovesInv(s) && WritersInv(s) && s'.history == s.history && s'.moves == s.moves
    requires !HasMoved(s, id) && forall i :: i != id && i in s.threads ==>
               i in s'.threads && s'.threads[i] == s.threads[i]
    ensures WritersInv(s')
  {
    forall k | 0 <= k < |s.moves| ensures s.moves[k].thread != id {
      assert HasMoved(s, s.moves[k].thread);
    }
  }

  lemma ThreadsSurvive(deepest: StateMap, s: System, s': System, id: nat, t': Thread)
    requires ThreadsInv(deepest, s) && s.history <= s'.history
    requires s'.threads == s.threads[id := t'] && ThreadInv(deepest, s', t')
    ensures ThreadsInv(deepest, s')
  {
    forall i | i in s'.threads && i != id ensures ThreadInv(deepest, s', s'.threads[i]) {
      assert ThreadInv(deepest, s, s.threads[i]);
    }
  }

  lemma PathGrows(deepest: StateMap, history: seq<State>, to: State)
    requires IsPath(deepest, history) && |history| > 0
    requires IsEdge(deepest, history[|history| - 1], to)
    ensures IsPath(deepest, history + [to])
  {
    var h := history + [to];
    forall k | 0 < k < |h| ensures IsEdge(deepest, h[k - 1], h[k]) {
      if k < |history| {
        assert IsEdge(deepest, history[k - 1], history[k]);
      }
    }
  }

  /** The state after the thread `id` won its exchange. */
  ghost predicate Wins(s: System, s': System, id: nat) {
    && id in s.threads && s.threads[id].Loaded?
    && var t := s.threads[id];
       t.at < |s.history| && s.history[|s.history| - 1] == s.history[t.at]
       && s' == System(s.history + [t.to], s.threads[id := Finished(t.call, Moved)],
                       s.moves + [Move(id, t.at)])
  }

  lemma WinKeepsPath(deepest: StateMap, s: System, s': System, id: nat)
    requires IsPath(deepest, s.history) && Wins(s, s', id)
    requires IsEdge(deepest, s.history[s.threads[id].at], s.threads[id].to)
    ensures IsPath(deepest, s'.history)
  {
    PathGrows(deepest, s.history, s.threads[id].to);
  }

  lemma WinKeepsThreads(deepest: StateMap, s: System, s': System, id: nat)
    requires ThreadsInv(deepest, s) && Wins(s, s', id)
    ensures ThreadsInv(deepest, s')
  {
    assert ThreadInv(deepest, s, s.threads[id]);
    ThreadsSurvive(deepest, s, s', id, Finished(s.threads[id].call, Moved));
  }

  lemma GoalIsOfAxis(call: Call, word: State, to: State)
    requires Decide(call, word) == Exchange(to)
    ensures to.mid == call.axis.Id()
  {
  }

  lemma WinKeepsInv(deepest: StateMap, s: System, s': System, id: nat)
    requires WellBuilt(deepest) && Inv(deepest, s) && Wins(s, s', id)
    ensures Inv(deepest, s')
  {
    var t := s.threads[id];
    assert ThreadInv(deepest, s, t);
    GoalIsOfAxis(t.call, s.history[t.at], t.to);
    ExchangeIsEdge(deepest, t.call, s.history[t.at], t.to);
    WinKeepsPath(deepest, s, s', id);
    WinKeepsThreads(deepest, s, s', id);
    WinKeepsMoves(s, s', id);
    WinKeepsWriters(s, s', id);
  }

  lemma LossKeepsInv(deepest: StateMap, s: System, s': System, id: nat, t': Thread)
    requires Inv(deepest, s) && id in s.threads && s.threads[id].Loaded?
    requires s' == s.(threads := s.threads[id := t'])
    requires ThreadInv(deepest, s', t') && !(t'.Finished? && t'.outcome == Moved)
    ensures Inv(deepest, s')
  {
    ThreadsSurvive(deepest, s, s', id, t');
    MovesUnaffected(s, s', id);
    WritersUnaffected(s, s', id);
  }

  lemma ExchangeKeepsInv(deepest: StateMap, s: System, a: Action)
    requires WellBuilt(deepest) && Inv(deepest, s) && Enabled(deepest, s, a) && a.CompareExchange?
    requires s.threads[a.id].at < |s.history|
    ensures Inv(deepest, Step(s, a))
  {
    var t := s.threads[a.id];
    assert ThreadInv(deepest, s, t);
    if s.history[|s.history| - 1] == s.history[t.at] {
      WinKeepsInv(deepest, s, Step(s, a), a.id);
    } else {
      LossKeepsInv(deepest, s, Step(s, a), a.id,
                   if t.call.CompareAndMove? then Finished(t.call, NotMoved) else Ready(t.call));
    }
  }

  lemma WinKeepsMoves(s: System, s': System, id: nat)
    requires MovesInv(s) && Wins(s, s', id)
    ensures MovesInv(s')
  {
    var n := |s.moves|;
    forall k | 0 <= k < |s'.moves| ensures HasMoved(s', s'.moves[k].thread) {
      if k < n {
        assert HasMoved(s, s.moves[k].thread);
      }
    }
    forall i | HasMoved(s', i) ensures exists k :: 0 <= k < |s'.moves| && s'.moves[k].thread == i {
      if i == id {
        assert s'.moves[n].thread == i;
      } else {
        assert HasMoved(s, i);
        var k :| 0 <= k < |s.moves| && s.moves[k].thread == i;
        assert s'.moves[k].thread == i;
      }
    }
    forall j, k | 0 <= j < k < |s'.moves| ensures s'.moves[j].thread != s'.moves[k].thread {
      assert HasMoved(s, s.moves[j].thread);
    }
  }

  lemma WinKeepsWriters(s: System, s': System, id: nat)
    requires MovesInv(s) && WritersInv(s) && Wins(s, s', id)
    requires s.threads[id].to.mid == s.threads[id].call.axis.Id()
    ensures WritersInv(s')
  {
    forall k | 0 <= k < |s.moves| ensures s'.moves[k].thread != id {
      assert HasMoved(s, s.moves[k].thread);
    }
  }

  ghost predicate IsInitial(s: System) {
    |s.history| == 1 && s.history[0].idx >= 1 && s.threads == map[] && s.moves == []
  }

  lemma InitialInv(deepest: StateMap, s: System)
    requires IsInitial(s)
    ensures Inv(deepest, s)
  {
  }

  /** A run: the system after each of a sequence of actions, from one initial word. */
  ghost predicate IsRun(deepest: StateMap, ss: seq<System>, actions: seq<Action>) {
    && |ss| == |actions| + 1
    && IsInitial(ss[0])
    && forall k :: 0 <= k < |actions| ==> IsStep(deepest, ss[k], actions[k], ss[k + 1])
  }

  ghost predicate IsStep(deepest: StateMap, s: System, a: Action, s': System) {
    && Enabled(deepest, s, a) && |s.history| > 0
    && (a.CompareExchange? ==> s.threads[a.id].at < |s.history|)
    && s' == Step(s, a)
  }

  lemma StepOfRun(deepest: StateMap, ss: seq<System>, actions: seq<Action>, k: nat)
    requires IsRun(deepest, ss, actions) && k < |actions|
    ensures IsStep(deepest, ss[k], actions[k], ss[k + 1])
  {
  }

  lemma StepKeepsInv(deepest: StateMap, s: System, a: Action, s': System)
    requires WellBuilt(deepest) && Inv(deepest, s) && IsStep(deepest, s, a, s')
    ensures Inv(deepest, s')
  {
    match a
    case Start(_, _) => StartKeepsInv(deepest, s, a);
    case Load(_) => LoadKeepsInv(deepest, s, a);
    case CompareExchange(_) => ExchangeKeepsInv(deepest, s, a);
  }

  lemma NextKeepsInv(deepest: StateMap, ss: seq<System>, actions: seq<Action>, k: nat)
    requires WellBuilt(deepest) && IsRun(deepest, ss, actions) && 0 < k < |ss|
    requires Inv(deepest, ss[k - 1])
    ensures Inv(deepest, ss[k])
  {
    StepOfRun(deepest, ss, actions, k - 1);
    StepKeepsInv(deepest, ss[k - 1], actions[k - 1], ss[k]);
  }

  /** In every interleaving: the history of the word is a path of the deepest map; each change
      of the word is one call that returned `Moved`, and all other calls changed nothing. */
  lemma {:induction false} RunKeepsInv(deepest: StateMap, ss: seq<System>, actions: seq<Action>, k: nat)
    requires WellBuilt(deepest) && IsRun(deepest, ss, actions) && k < |ss|
    ensures Inv(deepest, ss[k])
    decreases k
  {
    if k == 0 {
      InitialInv(deepest, ss[0]);
    } else {
      RunKeepsInv(deepest, ss, actions, k - 1);
      NextKeepsInv(deepest, ss, actions, k);
    }
  }

  /** The word only grows a history: nothing already in it is rewritten. */
  lemma {:induction false} HistoryGrows(deepest: StateMap, ss: seq<System>, actions: seq<Action>,
                                        j: nat, k: nat)
    requires IsRun(deepest, ss, actions) && j <= k < |ss|
    ensures ss[j].history <= ss[k].history
    decreases k
  {
    if j < k {
      HistoryGrows(deepest, ss, actions, j, k - 1);
      assert IsStep(deepest, ss[k - 1], actions[k - 1], ss[k]);
    }
  }

  /** The `j`-th action writes the word, and thread `id` does it. */
  ghost predicate Writes(ss: seq<System>, actions: seq<Action>, j: nat, id: nat)
    requires |ss| == |actions| + 1
  {
    j < |actions| && actions[j].id == id && ss[j + 1].history != ss[j].history
  }

  /** One action: a thread that has not moved has moved after it exactly if it wrote the word. */
  lemma WritingIsMoving(deepest: StateMap, s: System, a: Action, s': System, id: nat)
    requires IsStep(deepest, s, a, s')
    ensures HasMoved(s', id) <==> HasMoved(s, id) || (a.id == id && s'.history != s.history)
    ensures a.id == id && s'.history != s.history ==> !HasMoved(s, id)
    ensures s'.history == s.history || |s'.history| == |s.history| + 1
  {
    if a.Load? {
      NeverDecidesMoved(s.threads[a.id].call, s.history[|s.history| - 1]);
    }
  }

  /** Thread `id` has moved exactly if one of the first `k` actions was its writing, and only one
      was. */
  ghost predicate WroteIfMoved(ss: seq<System>, actions: seq<Action>, k: nat, id: nat)
    requires |ss| == |actions| + 1 && k < |ss|
  {
    && (HasMoved(ss[k], id) <==> exists j :: 0 <= j < k && Writes(ss, actions, j, id))
    && forall i, j :: 0 <= i < j < k && Writes(ss, actions, i, id) ==> !Writes(ss, actions, j, id)
  }

  lemma WritingStep(ss: seq<System>, actions: seq<Action>, k: nat, id: nat)
    requires |ss| == |actions| + 1 && 0 < k < |ss| && WroteIfMoved(ss, actions, k - 1, id)
    requires HasMoved(ss[k], id) <==> HasMoved(ss[k - 1], id) || Writes(ss, actions, k - 1, id)
    requires Writes(ss, actions, k - 1, id) ==> !HasMoved(ss[k - 1], id)
    ensures WroteIfMoved(ss, actions, k, id)
  {
  }

  lemma NextWrote(deepest: StateMap, ss: seq<System>, actions: seq<Action>, k: nat, id: nat)
    requires IsRun(deepest, ss, actions) && 0 < k < |ss| && WroteIfMoved(ss, actions, k - 1, id)
    ensures WroteIfMoved(ss, actions, k, id)
  {
    StepOfRun(deepest, ss, actions, k - 1);
    WritingIsMoving(deepest, ss[k - 1], actions[k - 1], ss[k], id);
    WritingStep(ss, actions, k, id);
  }

  /** In every run a call that has moved wrote the word in exactly one step; a call that returned
      without moving, or threw, or is not done, wrote it in none. */
  lemma {:induction false} OnlyMovedCallsWrite(deepest: StateMap, ss: seq<System>,
                                               actions: seq<Action>, k: nat, id: nat)
    requires IsRun(deepest, ss, actions) && k < |ss|
    ensures WroteIfMoved(ss, actions, k, id)
    decreases k
  {
    if k > 0 {
      OnlyMovedCallsWrite(deepest, ss, actions, k - 1, id);
      NextWrote(deepest, ss, actions, k, id);
    }
  }

  /** Where the word came back to the value `w`. */
  ghost predicate Reenters(history: seq<State>, i: nat, w: State) {
    0 < i < |history| && history[i - 1] != w && history[i] == w
  }

  lemma {:induction false} FindReentry(history: seq<State>, j: nat, k: nat, w: State) returns (i: nat)
    requires j < k < |history| && history[j] != w && history[k] == w
    ensures j < i <= k && Reenters(history, i, w)
    decreases k - j
  {
    if history[j + 1] == w {
      i := j + 1;
    } else {
      i := FindReentry(history, j + 1, k, w);
    }
  }

  /** Of two calls that loaded the same occurrence of a state at most one moves it, unless the
      first went round a self-loop or the word left that value and came back in between. */
  lemma RivalsExclude(deepest: StateMap, ss: seq<System>, actions: seq<Action>, n: nat, j: nat, k: nat)
    requires WellBuilt(deepest) && IsRun(deepest, ss, actions) && n < |ss| && j < k < |ss[n].moves|
    requires ss[n].moves[j].loadedAt == ss[n].moves[k].loadedAt
    ensures |ss[n].history| == |ss[n].moves| + 1
    ensures OnlyByReturn(deepest, ss[n].history, j, k)
  {
    RunKeepsInv(deepest, ss, actions, n);
    RivalsMeet(deepest, ss[n], j, k);
  }

  /** The word was the same when each of the two moves replaced it; the first went round a
      self-loop, or the word left that value and came back before the second. */
  ghost predicate OnlyByReturn(deepest: StateMap, history: seq<State>, j: nat, k: nat)
    requires j < k < |history| - 1
  {
    && history[j] == history[k]
    && (history[j + 1] == history[j]
        || exists i :: j + 1 < i <= k && Reenters(history, i, history[j]))
    && ((forall i :: j <= i <= k ==> history[i] == history[j]) ==>
          IsEdge(deepest, history[j], history[j]))
  }

  lemma RivalsMeet(deepest: StateMap, s: System, j: nat, k: nat)
    requires Inv(deepest, s) && j < k < |s.moves|
    requires s.moves[j].loadedAt == s.moves[k].loadedAt
    ensures s.history[j] == s.history[k]
    ensures s.history[j + 1] == s.history[j]
            || exists i :: j + 1 < i <= k && Reenters(s.history, i, s.history[j])
    ensures (forall i :: j <= i <= k ==> s.history[i] == s.history[j]) ==>
              IsEdge(deepest, s.history[j], s.history[j])
  {
    if s.history[j + 1] != s.history[j] {
      var i := FindReentry(s.history, j + 1, k, s.history[j]);
    } else {
      assert IsEdge(deepest, s.history[j], s.history[j + 1]);
    }
  }

  /** What a call does with a word that it is to leave, told by the map of the whole chain: it goes
      on to the exchange exactly when that map has the transition under an id that the call's own
      axis already had. */
  lemma DecidesExactly(deepest: StateMap, call: Call, word: State)
    requires WellBuilt(deepest) && IsOnChain(deepest, call) && word.idx >= 1
    requires IsSource(call, word.idx)
    requires call.CompareAndMoveMap? ==> word.mid == call.axis.Id()
    ensures var goal := State(call.axis.Id(), Goal(call, word.idx));
            && (Decide(call, word) == Exchange(goal) <==>
                  IsEdge(deepest, word, goal)
                  && deepest.Trans()[(word.idx, goal.idx)] <= call.axis.MaxTransId())
            && (Decide(call, word) == Return(InvalidStateError) <==> word.idx > call.axis.NStates())
            && (Decide(call, word) != Exchange(goal) && word.idx <= call.axis.NStates() ==>
                  Decide(call, word) == Return(InvalidStateTransition))
  {
    DescendantInherits(deepest, call.axis);
    AncestorFacts(deepest, call.axis);
  }

  /** The moves are lock-free: an exchange fails only if another call has moved the word since it
      was loaded, so whenever one call has to retry, or to return false, another one has won. */
  lemma RetryMeansProgress(deepest: StateMap, ss: seq<System>, actions: seq<Action>, n: nat)
    requires WellBuilt(deepest) && IsRun(deepest, ss, actions) && n < |actions|
    requires actions[n].CompareExchange? && !HasMoved(ss[n + 1], actions[n].id)
    ensures actions[n].id in ss[n].threads && ss[n].threads[actions[n].id].Loaded?
    ensures var s, id := ss[n], actions[n].id;
            MovedMeanwhile(s, id, s.threads[id].at) && ss[n + 1].history == s.history
  {
    RunKeepsInv(deepest, ss, actions, n);
    StepOfRun(deepest, ss, actions, n);
    RetryIsCaused(deepest, ss[n], actions[n].id);
  }

  /** Another thread has replaced the value loaded at `at` by a different one. */
  ghost predicate MovedMeanwhile(s: System, id: nat, at: nat) {
    exists k :: at <= k < |s.moves| && k + 1 < |s.history| && at < |s.history|
      && s.moves[k].thread != id
      && s.history[k] == s.history[at] && s.history[k + 1] != s.history[at]
  }

  lemma RetryIsCaused(deepest: StateMap, s: System, id: nat)
    requires Inv(deepest, s) && |s.history| > 0 && id in s.threads && s.threads[id].Loaded?
    requires s.threads[id].at < |s.history|
    requires s.history[|s.history| - 1] != s.history[s.threads[id].at]
    ensures MovedMeanwhile(s, id, s.threads[id].at)
  {
    var at, last := s.threads[id].at, |s.history| - 1;
    var k := FindDeparture(s.history, at, last);
    assert HasMoved(s, s.moves[k].thread);
  }

  lemma {:induction false} FindDeparture(history: seq<State>, j: nat, k: nat) returns (i: nat)
    requires j < k < |history| && history[k] != history[j]
    ensures j <= i < k && history[i] == history[j] && history[i + 1] != history[j]
    decreases k - j
  {
    if history[j + 1] != history[j] {
      i := j;
    } else {
      i := FindDeparture(history, j + 1, k);
    }
  }

  /** The map of the axis through which the word was last written: that of the call that moved
      last, or the one the object began with. */
  ghost function LastWriter(s: System): nat
    requires |s.history| > 0
    requires s.moves != [] ==> s.moves[|s.moves| - 1].thread in s.threads
  {
    if s.moves == [] then s.history[0].mid
    else s.threads[s.moves[|s.moves| - 1].thread].call.axis.Id()
  }

  lemma WordIsAState(deepest: StateMap, history: seq<State>)
    requires WellBuilt(deepest) && IsPath(deepest, history) && |history| > 0
    ensures history[|history| - 1].idx >= 1
  {
    var n := |history| - 1;
    if n > 0 {
      assert IsEdge(deepest, history[n - 1], history[n]);
    }
  }

  /** In every run the assertion inside the map form fails exactly when the object stands in one
      of the states to leave, but its word was last written through another axis of the chain. */
  lemma MapFormAssertion(deepest: StateMap, ss: seq<System>, actions: seq<Action>, k: nat)
    requires WellBuilt(deepest) && IsRun(deepest, ss, actions) && k < |actions|
    requires actions[k].Load? && actions[k].id in ss[k].threads
    requires ss[k].threads[actions[k].id].call.CompareAndMoveMap?
    ensures var s, id := ss[k], actions[k].id;
            var call := s.threads[id].call;
            && |s.history| > 0
            && (s.moves != [] ==> s.moves[|s.moves| - 1].thread in s.threads)
            && id in ss[k + 1].threads
            && (ss[k + 1].threads[id] == Finished(call, AssertionFailed) <==>
                  s.history[|s.history| - 1].idx in call.trs && LastWriter(s) != call.axis.Id())
  {
    RunKeepsInv(deepest, ss, actions, k);
    StepOfRun(deepest, ss, actions, k);
    WordIsAState(deepest, ss[k].history);
    LastWriterWrote(ss[k]);
    MapFormDecides(deepest, ss[k].threads[actions[k].id].call, ss[k].history[|ss[k].history| - 1]);
  }

  lemma LastWriterWrote(s: System)
    requires MovesInv(s) && WritersInv(s)
    ensures s.moves != [] ==> s.moves[|s.moves| - 1].thread in s.threads
    ensures s.history[|s.history| - 1].mid == LastWriter(s)
  {
  }

  lemma MapFormDecides(deepest: StateMap, call: Call, word: State)
    requires WellBuilt(deepest) && IsOnChain(deepest, call) && word.idx >= 1
    requires call.CompareAndMoveMap?
    ensures Decide(call, word) == Return(AssertionFailed) <==>
              word.idx in call.trs && word.mid != call.axis.Id()
  {
  }

  // ---------- What each call does ----------

  lemma ActionMeans(deepest: StateMap, ss: seq<System>, actions: seq<Action>, k: nat)
    requires WellBuilt(deepest) && IsRun(deepest, ss, actions) && k < |actions|
    ensures Inv(deepest, ss[k]) && IsStep(deepest, ss[k], actions[k], ss[k + 1])
    ensures |ss[k].history| > 0 && ss[k].history[|ss[k].history| - 1].idx >= 1
    ensures actions[k].id in ss[k + 1].threads
    ensures !actions[k].Start? ==>
              actions[k].id in ss[k].threads && IsOnChain(deepest, ss[k].threads[actions[k].id].call)
  {
    RunKeepsInv(deepest, ss, actions, k);
    StepOfRun(deepest, ss, actions, k);
    WordIsAState(deepest, ss[k].history);
    if !actions[k].Start? {
      assert ThreadInv(deepest, ss[k], ss[k].threads[actions[k].id]);
    }
  }

  /** A call starts ready to load the word. */
  lemma CallStarts(deepest: StateMap, ss: seq<System>, actions: seq<Action>, k: nat)
    requires WellBuilt(deepest) && IsRun(deepest, ss, actions) && k < |actions| && actions[k].Start?
    ensures ss[k + 1] == ss[k].(threads := ss[k].threads[actions[k].id := Ready(actions[k].call)])
    ensures actions[k].id !in ss[k].threads
  {
    ActionMeans(deepest, ss, actions, k);
  }

  /** The thread has loaded the word in a state that its call is to leave for `to`: it goes on to
      the exchange if its axis has that transition, and throws otherwise. */
  ghost predicate Tries(s: System, axis: StateMap, to: nat, t: Thread, call: Call)
    requires |s.history| > 0
  {
    var word := s.history[|s.history| - 1];
    t == if word.idx > axis.NStates() then Finished(call, InvalidStateError)
         else if (word.idx, to) in axis.Trans() then
           Loaded(call, |s.history| - 1, State(axis.Id(), to))
         else Finished(call, InvalidStateTransition)
  }

  /** The step of a thread that loads the word: only the thread changes. */
  ghost predicate LoadsAs(s: System, s': System, id: nat, t: Thread) {
    s' == s.(threads := s.threads[id := t])
  }

  lemma CheckMeans(deepest: StateMap, s: System, axis: StateMap, to: nat, call: Call)
    requires WellBuilt(deepest) && DescendsFrom(deepest, axis) && 1 <= to <= axis.NStates()
    requires |s.history| > 0 && s.history[|s.history| - 1].idx >= 1
    ensures var last := |s.history| - 1;
            Tries(s, axis, to,
                  match CheckTransition(axis, s.history[last], State(axis.Id(), to))
                  case Return(outcome) => Finished(call, outcome)
                  case Exchange(goal) => Loaded(call, last, goal),
                  call)
  {
    AncestorFacts(deepest, axis);
  }

  /** move_to leaves every state. */
  lemma MoveToLoads(deepest: StateMap, ss: seq<System>, actions: seq<Action>, k: nat, id: nat,
                    axis: StateMap, to: nat)
    requires WellBuilt(deepest) && IsRun(deepest, ss, actions) && k < |actions|
    requires actions[k] == Load(id) && id in ss[k].threads
    requires ss[k].threads[id].call == MoveTo(axis, to)
    ensures id in ss[k + 1].threads && |ss[k].history| > 0
    ensures LoadsAs(ss[k], ss[k + 1], id, ss[k + 1].threads[id])
    ensures Tries(ss[k], axis, to, ss[k + 1].threads[id], MoveTo(axis, to))
  {
    ActionMeans(deepest, ss, actions, k);
    CheckMeans(deepest, ss[k], axis, to, MoveTo(axis, to));
  }

  /** compare_and_move with one state leaves that state and returns false in any other. */
  lemma CompareLoads(deepest: StateMap, ss: seq<System>, actions: seq<Action>, k: nat, id: nat,
                     axis: StateMap, from: nat, to: nat)
    requires WellBuilt(deepest) && IsRun(deepest, ss, actions) && k < |actions|
    requires actions[k] == Load(id) && id in ss[k].threads
    requires ss[k].threads[id].call == CompareAndMove(axis, from, to)
    ensures id in ss[k + 1].threads && |ss[k].history| > 0
    ensures LoadsAs(ss[k], ss[k + 1], id, ss[k + 1].threads[id])
    ensures var word, call := ss[k].history[|ss[k].history| - 1], ss[k].threads[id].call;
            if word.idx == from then Tries(ss[k], axis, to, ss[k + 1].threads[id], call)
            else ss[k + 1].threads[id] == Finished(call, NotMoved)
  {
    ActionMeans(deepest, ss, actions, k);
    CheckMeans(deepest, ss[k], axis, to, CompareAndMove(axis, from, to));
  }

  /** compare_and_move with a set leaves the states of the set. */
  lemma CompareSetLoads(deepest: StateMap, ss: seq<System>, actions: seq<Action>, k: nat, id: nat,
                        axis: StateMap, fromSet: set<nat>, to: nat)
    requires WellBuilt(deepest) && IsRun(deepest, ss, actions) && k < |actions|
    requires actions[k] == Load(id) && id in ss[k].threads
    requires ss[k].threads[id].call == CompareAndMoveSet(axis, fromSet, to)
    ensures id in ss[k + 1].threads && |ss[k].history| > 0
    ensures LoadsAs(ss[k], ss[k + 1], id, ss[k + 1].threads[id])
    ensures var word, call := ss[k].history[|ss[k].history| - 1], ss[k].threads[id].call;
            if word.idx in fromSet then Tries(ss[k], axis, to, ss[k + 1].threads[id], call)
            else ss[k + 1].threads[id] == Finished(call, NotMoved)
  {
    ActionMeans(deepest, ss, actions, k);
    CheckMeans(deepest, ss[k], axis, to, CompareAndMoveSet(axis, fromSet, to));
  }

  /** compare_and_move with a map leaves its keys, each for its own value. */
  lemma CompareMapLoads(deepest: StateMap, ss: seq<System>, actions: seq<Action>, k: nat, id: nat,
                        axis: StateMap, trs: map<nat, nat>)
    requires WellBuilt(deepest) && IsRun(deepest, ss, actions) && k < |actions|
    requires actions[k] == Load(id) && id in ss[k].threads
    requires ss[k].threads[id].call == CompareAndMoveMap(axis, trs)
    ensures id in ss[k + 1].threads && |ss[k].history| > 0
    ensures LoadsAs(ss[k], ss[k + 1], id, ss[k + 1].threads[id])
    ensures var word, call := ss[k].history[|ss[k].history| - 1], ss[k].threads[id].call;
            if word.idx !in trs then ss[k + 1].threads[id] == Finished(call, NotMoved)
            else if word.mid != axis.Id() then ss[k + 1].threads[id] == Finished(call, AssertionFailed)
            else Tries(ss[k], axis, trs[word.idx], ss[k + 1].threads[id], call)
  {
    ActionMeans(deepest, ss, actions, k);
    MapDecides(deepest, ss[k], axis, trs, ss[k].threads[id].call);
  }

  lemma MapDecides(deepest: StateMap, s: System, axis: StateMap, trs: map<nat, nat>, call: Call)
    requires WellBuilt(deepest) && call == CompareAndMoveMap(axis, trs) && IsOnChain(deepest, call)
    requires |s.history| > 0 && s.history[|s.history| - 1].idx >= 1
    ensures var last := |s.history| - 1;
            var word := s.history[last];
            var t := match Decide(call, word)
                     case Return(outcome) => Finished(call, outcome)
                     case Exchange(goal) => Loaded(call, last, goal);
            if word.idx !in trs then t == Finished(call, NotMoved)
            else if word.mid != axis.Id() then t == Finished(call, AssertionFailed)
            else Tries(s, axis, trs[word.idx], t, call)
  {
    var word := s.history[|s.history| - 1];
    if word.idx in trs && word.mid == axis.Id() {
      assert word == State(axis.Id(), word.idx);
      CheckMeans(deepest, s, axis, trs[word.idx], call);
    }
  }

  /** neg_compare_and_move leaves all states but one. */
  lemma NegCompareLoads(deepest: StateMap, ss: seq<System>, actions: seq<Action>, k: nat, id: nat,
                        axis: StateMap, notFrom: nat, to: nat)
    requires WellBuilt(deepest) && IsRun(deepest, ss, actions) && k < |actions|
    requires actions[k] == Load(id) && id in ss[k].threads
    requires ss[k].threads[id].call == NegCompareAndMove(axis, notFrom, to)
    ensures id in ss[k + 1].threads && |ss[k].history| > 0
    ensures LoadsAs(ss[k], ss[k + 1], id, ss[k + 1].threads[id])
    ensures var word, call := ss[k].history[|ss[k].history| - 1], ss[k].threads[id].call;
            if word.idx != notFrom then Tries(ss[k], axis, to, ss[k + 1].threads[id], call)
            else ss[k + 1].threads[id] == Finished(call, NotMoved)
  {
    ActionMeans(deepest, ss, actions, k);
    CheckMeans(deepest, ss[k], axis, to, NegCompareAndMove(axis, notFrom, to));
  }

  /** An exchange writes exactly when the word is still the one loaded, and then ends the call. One
      that does not write ends the one-state form, which returns false, and sends every other form
      back to load again. */
  lemma ExchangeMeans(deepest: StateMap, ss: seq<System>, actions: seq<Action>, k: nat, id: nat)
    requires WellBuilt(deepest) && IsRun(deepest, ss, actions) && k < |actions|
    requires actions[k] == CompareExchange(id)
    ensures id in ss[k].threads && ss[k].threads[id].Loaded? && id in ss[k + 1].threads
    ensures var s, s', t := ss[k], ss[k + 1], ss[k].threads[id];
            && |s.history| > 0 && t.at < |s.history|
            && s'.threads == s.threads[id := s'.threads[id]]
            && if s.history[|s.history| - 1] == s.history[t.at] then
                 s'.history == s.history + [t.to] && s'.threads[id] == Finished(t.call, Moved)
               else
                 s'.history == s.history
                 && s'.threads[id] == if t.call.CompareAndMove? then Finished(t.call, NotMoved)
                                      else Ready(t.call)
  {
    ActionMeans(deepest, ss, actions, k);
  }

  /** A call that returned false: it loaded a word in none of the states it is to leave, or it was
      a one-state call that lost its exchange. */
  ghost predicate GaveUp(ss: seq<System>, actions: seq<Action>, j: nat, id: nat, call: Call)
    requires j < |actions| && |ss| == |actions| + 1
  {
    && actions[j].id == id && |ss[j].history| > 0
    && if actions[j].CompareExchange? then call.CompareAndMove? && ss[j + 1].history == ss[j].history
       else actions[j].Load? && !IsSource(call, ss[j].history[|ss[j].history| - 1].idx)
  }

  ghost predicate NotMovedIsCaused(ss: seq<System>, actions: seq<Action>, k: nat, id: nat)
    requires |ss| == |actions| + 1 && k < |ss|
  {
    id in ss[k].threads && ss[k].threads[id].Finished? && ss[k].threads[id].outcome == NotMoved ==>
      exists j :: 0 <= j < k && GaveUp(ss, actions, j, id, ss[k].threads[id].call)
  }

  /** How a call comes to return false in one step. */
  lemma GivesUp(deepest: StateMap, s: System, a: Action, s': System, id: nat)
    requires IsStep(deepest, s, a, s') && id in s'.threads
    requires s'.threads[id].Finished? && s'.threads[id].outcome == NotMoved
    ensures (id in s.threads && s'.threads[id] == s.threads[id])
            || (a.id == id && |s.history| > 0
                && if a.CompareExchange? then
                     s'.threads[id].call.CompareAndMove? && s'.history == s.history
                   else a.Load? && !IsSource(s'.threads[id].call, s.history[|s.history| - 1].idx))
  {
  }

  lemma NextIsCaused(deepest: StateMap, ss: seq<System>, actions: seq<Action>, k: nat, id: nat)
    requires IsRun(deepest, ss, actions) && 0 < k < |ss| && NotMovedIsCaused(ss, actions, k - 1, id)
    ensures NotMovedIsCaused(ss, actions, k, id)
  {
    StepOfRun(deepest, ss, actions, k - 1);
    if id in ss[k].threads && ss[k].threads[id].Finished? && ss[k].threads[id].outcome == NotMoved {
      GivesUp(deepest, ss[k - 1], actions[k - 1], ss[k], id);
      if !(id in ss[k - 1].threads && ss[k].threads[id] == ss[k - 1].threads[id]) {
        assert GaveUp(ss, actions, k - 1, id, ss[k].threads[id].call);
      }
    }
  }

  /** In every run, a call that returned false had a reason. */
  lemma {:induction false} FalseHasAReason(deepest: StateMap, ss: seq<System>, actions: seq<Action>,
                                           k: nat, id: nat)
    requires IsRun(deepest, ss, actions) && k < |ss|
    ensures NotMovedIsCaused(ss, actions, k, id)
    decreases k
  {
    if k > 0 {
      FalseHasAReason(deepest, ss, actions, k - 1, id);
      NextIsCaused(deepest, ss, actions, k, id);
    }
  }

  /** So move_to never just returns: it moves the object or throws. */
  lemma MoveToMovesOrThrows(deepest: StateMap, ss: seq<System>, actions: seq<Action>, k: nat, id: nat)
    requires IsRun(deepest, ss, actions) && k < |ss| && id in ss[k].threads
    requires ss[k].threads[id].Finished? && ss[k].threads[id].call.MoveTo?
    ensures ss[k].threads[id].outcome != NotMoved
  {
    FalseHasAReason(deepest, ss, actions, k, id);
  }

  /** A call that nobody disturbs is over after its next load and exchange: whatever it has loaded
      it writes, and if it did not go on to the exchange it is over already. */
  lemma UndisturbedCallEnds(deepest: StateMap, ss: seq<System>, actions: seq<Action>, k: nat, id: nat)
    requires WellBuilt(deepest) && IsRun(deepest, ss, actions) && k < |actions|
    requires actions[k] == Load(id)
    ensures id in ss[k].threads && id in ss[k + 1].threads && !ss[k + 1].threads[id].Ready?
    ensures ss[k + 1].threads[id].call == ss[k].threads[id].call
    ensures k + 1 < |actions| && actions[k + 1] == CompareExchange(id) ==>
              id in ss[k + 2].threads && ss[k + 1].threads[id].Loaded?
              && ss[k + 2].threads[id] == Finished(ss[k + 1].threads[id].call, Moved)
              && ss[k + 2].history == ss[k].history + [ss[k + 1].threads[id].to]
  {
    ActionMeans(deepest, ss, actions, k);
    if k + 1 < |actions| && actions[k + 1] == CompareExchange(id) {
      ActionMeans(deepest, ss, actions, k + 1);
    }
  }

  /** The next step of a call that has not ended. */
  function NextAction(t: Thread, id: nat): Action {
    if t.Ready? then Load(id) else CompareExchange(id)
  }

  lemma NextIsStep(deepest: StateMap, s: System, id: nat) returns (s': System)
    requires Inv(deepest, s) && |s.history| > 0 && id in s.threads && !s.threads[id].Finished?
    ensures IsStep(deepest, s, NextAction(s.threads[id], id), s')
  {
    assert ThreadInv(deepest, s, s.threads[id]);
    s' := Step(s, NextAction(s.threads[id], id));
  }

  lemma RunGrows(deepest: StateMap, ss: seq<System>, actions: seq<Action>, a: Action, s': System)
    requires IsRun(deepest, ss, actions) && IsStep(deepest, ss[|actions|], a, s')
    ensures IsRun(deepest, ss + [s'], actions + [a])
  {
    var longer, more := ss + [s'], actions + [a];
    forall k | 0 <= k < |more| ensures IsStep(deepest, longer[k], more[k], longer[k + 1]) {
      if k < |actions| {
        StepOfRun(deepest, ss, actions, k);
      }
    }
  }

  lemma OneMore(deepest: StateMap, ss: seq<System>, actions: seq<Action>, id: nat)
    returns (longer: seq<System>, more: seq<Action>)
    requires WellBuilt(deepest) && IsRun(deepest, ss, actions)
    requires id in ss[|actions|].threads && !ss[|actions|].threads[id].Finished?
    ensures IsRun(deepest, longer, more) && |more| == |actions| + 1 && ss <= longer
    ensures more == actions + [NextAction(ss[|actions|].threads[id], id)]
  {
    RunKeepsInv(deepest, ss, actions, |actions|);
    var s' := NextIsStep(deepest, ss[|actions|], id);
    RunGrows(deepest, ss, actions, NextAction(ss[|actions|].threads[id], id), s');
    longer, more := ss + [s'], actions + [NextAction(ss[|actions|].threads[id], id)];
  }

  /** How a run goes on with steps of one thread. */
  ghost predicate GoesOnWith(deepest: StateMap, actions: seq<Action>, longer: seq<System>,
                             more: seq<Action>, id: nat) {
    && IsRun(deepest, longer, more) && actions <= more && id in longer[|more|].threads
    && forall k :: |actions| <= k < |more| ==> more[k].id == id && !more[k].Start?
  }

  lemma ExchangesNow(deepest: StateMap, ss: seq<System>, actions: seq<Action>, k: nat, id: nat)
    returns (longer: seq<System>, more: seq<Action>)
    requires WellBuilt(deepest) && IsRun(deepest, ss, actions) && |actions| == k + 1
    requires actions[k] == Load(id) && id in ss[k + 1].threads && ss[k + 1].threads[id].Loaded?
    ensures IsRun(deepest, longer, more) && more == actions + [CompareExchange(id)]
    ensures id in longer[k + 2].threads && longer[k + 2].threads[id].Finished?
    ensures longer[k + 2].threads[id].call == ss[k + 1].threads[id].call
  {
    longer, more := OneMore(deepest, ss, actions, id);
    UndisturbedCallEnds(deepest, longer, more, k, id);
  }

  /** Loads the word and, if it comes to that, exchanges it. */
  lemma LoadAndExchange(deepest: StateMap, ss: seq<System>, actions: seq<Action>, id: nat)
    returns (longer: seq<System>, more: seq<Action>)
    requires WellBuilt(deepest) && IsRun(deepest, ss, actions)
    requires id in ss[|actions|].threads && ss[|actions|].threads[id].Ready?
    ensures IsRun(deepest, longer, more) && id in longer[|more|].threads
    ensures more == actions + [Load(id)] || more == actions + [Load(id)] + [CompareExchange(id)]
    ensures longer[|more|].threads[id].Finished?
    ensures longer[|more|].threads[id].call == ss[|actions|].threads[id].call
  {
    longer, more := OneMore(deepest, ss, actions, id);
    UndisturbedCallEnds(deepest, longer, more, |actions|, id);
    if longer[|more|].threads[id].Loaded? {
      longer, more := ExchangesNow(deepest, longer, more, |actions|, id);
    }
  }

  /** From wherever a run has left it, a call ends after at most three more steps of its own, if no
      other thread comes in between. */
  lemma CallEndsAlone(deepest: StateMap, ss: seq<System>, actions: seq<Action>, id: nat)
    returns (longer: seq<System>, more: seq<Action>)
    requires WellBuilt(deepest) && IsRun(deepest, ss, actions) && id in ss[|actions|].threads
    ensures GoesOnWith(deepest, actions, longer, more, id) && |more| <= |actions| + 3
    ensures longer[|more|].threads[id].Finished?
    ensures longer[|more|].threads[id].call == ss[|actions|].threads[id].call
  {
    longer, more := ss, actions;
    if longer[|more|].threads[id].Loaded? {
      longer, more := OneMore(deepest, ss, actions, id);
      ExchangeMeans(deepest, longer, more, |actions|, id);
    }
    if longer[|more|].threads[id].Ready? {
      longer, more := LoadAndExchange(deepest, longer, more, id);
    }
  }
}
