/** The existence protocol runs on the atomic moves of the state kernel: every run of its machine
    is a run of `AtomicMoves` on the maps of ExistenceAxis and SingletonAxis, with the same history
    of the class state. */
module ClassRuns {
  import opened StateMaps
  import opened Existence
  import opened ClassAxes
  import AM = AtomicMoves

  // ---------- The calls inside the constructors and destructors ----------

  /** Where a task is about to load the word for one of its calls. */
  predicate IsLoad(pc: Pc) {
    pc.IncFirst? || pc.IncSecond? || pc.Hook? || pc.IncMove? || pc.DecFirst? || pc.DecSecond?
    || pc.DecMove?
  }

  /** Where it has loaded the word and is about to exchange it. */
  predicate IsExchange(pc: Pc) {
    pc.IncFirstX? || pc.IncSecondX? || pc.HookX? || pc.IncMoveX? || pc.DecFirstX? || pc.DecSecondX?
    || pc.DecMoveX?
  }

  /** The call a task is in. */
  function CallOf(e: StateMap, s: StateMap, pc: Pc): AM.Call
    requires IsLoad(pc) || IsExchange(pc)
  {
    if pc.IncFirst? || pc.IncFirstX? then AM.CompareAndMove(e, Idx(NotExist), Idx(PreincExistOne))
    else if pc.IncSecond? || pc.IncSecondX? then
      AM.CompareAndMoveSet(e, {Idx(ExistOne), Idx(ExistSeveral)}, Idx(PreincExistSeveral))
    else if pc.Hook? || pc.HookX? then AM.CompareAndMove(s, Idx(PreincExistSeveral), Idx(ExistOne))
    else if pc.DecFirst? || pc.DecFirstX? then
      AM.CompareAndMove(e, Idx(ExistSeveral), Idx(PredecExistSeveral))
    else if pc.DecSecond? || pc.DecSecondX? then
      AM.CompareAndMove(e, Idx(ExistOne), Idx(PredecExistOne))
    else AM.MoveTo(e, Idx(GoalOf(pc).st))
  }

  /** The word it wants to write. */
  function GoalOf(pc: Pc): Word
    requires IsLoad(pc) || IsExchange(pc)
  {
    match pc
    case IncFirst => Word(PreincExistOne, false)
    case IncFirstX(_) => Word(PreincExistOne, false)
    case IncSecond => Word(PreincExistSeveral, false)
    case IncSecondX(_) => Word(PreincExistSeveral, false)
    case Hook => Word(ExistOne, true)
    case HookX(_) => Word(ExistOne, true)
    case IncMove(a) => Word(IncTarget(a), false)
    case IncMoveX(a, _) => Word(IncTarget(a), false)
    case DecFirst => Word(PredecExistSeveral, false)
    case DecFirstX(_) => Word(PredecExistSeveral, false)
    case DecSecond => Word(PredecExistOne, false)
    case DecSecondX(_) => Word(PredecExistOne, false)
    case DecMove(_, to) => Word(to, false)
    case DecMoveX(_, to, _) => Word(to, false)
  }

  /** The class state word as the kernel keeps it. */
  function AsState(e: StateMap, s: StateMap, w: Word): State {
    State(if w.derived then s.Id() else e.Id(), Idx(w.st))
  }

  lemma WordsAreStates(e: StateMap, s: StateMap, w: Word, w': Word)
    requires HaveTables(e, s)
    ensures AsState(e, s, w) == AsState(e, s, w') <==> w == w'
  {
    assert e.id < s.id;
    IndexIsUnique(w.st, w'.st);
  }

  // ---------- One step ----------

  /** A load decides as the call does, and a task goes on to the exchange exactly when the call
      does, with the word it saw. */
  ghost predicate LoadAgrees(e: StateMap, s: StateMap, sys: System, sys': System, id: nat)
    requires id in sys.tasks && IsLoad(sys.tasks[id])
  {
    var pc := sys.tasks[id];
    && id in sys'.tasks && sys' == Goto(sys, id, sys'.tasks[id])
    && var pc', d := sys'.tasks[id], AM.Decide(CallOf(e, s, pc), AsState(e, s, sys.word));
       if d.Exchange? then
         && IsExchange(pc') && pc'.seen == sys.word && GoalOf(pc') == GoalOf(pc)
         && CallOf(e, s, pc') == CallOf(e, s, pc) && d.to == AsState(e, s, GoalOf(pc))
       else !IsExchange(pc')
  }

  /** An exchange writes the word exactly when it is the one seen. A call that retries is the same
      call again. */
  ghost predicate ExchangeAgrees(e: StateMap, s: StateMap, sys: System, sys': System, id: nat)
    requires id in sys.tasks && IsExchange(sys.tasks[id])
  {
    var pc := sys.tasks[id];
    && id in sys'.tasks && !IsExchange(sys'.tasks[id])
    && sys' == Goto(sys.(word := if sys.word == pc.seen then GoalOf(pc) else sys.word), id,
                    sys'.tasks[id])
    && (sys.word != pc.seen && !CallOf(e, s, pc).CompareAndMove? ==>
          IsLoad(sys'.tasks[id]) && CallOf(e, s, sys'.tasks[id]) == CallOf(e, s, pc))
  }

  /** Any other step leaves the word alone. */
  ghost predicate OtherAgrees(sys: System, sys': System, id: nat) {
    && id in sys'.tasks && sys'.word == sys.word && !IsExchange(sys'.tasks[id])
    && sys'.tasks == sys.tasks[id := sys'.tasks[id]]
  }

  lemma CompareDecides(e: StateMap, s: StateMap, hook: bool, from: ClassState, to: ClassState, w: Word)
    requires HaveTables(e, s)
    ensures var axis := if hook then s else e;
            var edge := if hook then SingletonEdge(from, to) else ExistenceEdge(from, to);
            AM.Decide(AM.CompareAndMove(axis, Idx(from), Idx(to)), AsState(e, s, w))
            == if w.st != from then AM.Return(AM.NotMoved)
               else if edge then AM.Exchange(AsState(e, s, Word(to, hook)))
               else AM.Return(AM.InvalidStateTransition)
  {
    IndexIsUnique(w.st, from);
    CellMeans(e, s, hook, from, to);
  }

  lemma CellMeans(e: StateMap, s: StateMap, hook: bool, from: ClassState, to: ClassState)
    requires HaveTables(e, s)
    ensures WellBuilt(e)
    ensures var axis := if hook then s else e;
            var edge := if hook then SingletonEdge(from, to) else ExistenceEdge(from, to);
            Cell(axis.Trans(), (Idx(from), Idx(to))) != 0 <==> edge
  {
    var p := (Idx(from), Idx(to));
    assert p in e.trans <==> ExistenceEdge(from, to);
    assert p in s.trans <==> SingletonEdge(from, to);
  }

  lemma MoveDecides(e: StateMap, s: StateMap, to: ClassState, w: Word)
    requires HaveTables(e, s)
    ensures AM.Decide(AM.MoveTo(e, Idx(to)), AsState(e, s, w))
         == if ExistenceEdge(w.st, to) then AM.Exchange(AsState(e, s, Word(to, false)))
            else AM.Return(AM.InvalidStateTransition)
  {
    CellMeans(e, s, false, w.st, to);
  }

  lemma SetDecides(e: StateMap, s: StateMap, to: ClassState, w: Word)
    requires HaveTables(e, s)
    ensures AM.Decide(AM.CompareAndMoveSet(e, {Idx(ExistOne), Idx(ExistSeveral)}, Idx(to)),
                      AsState(e, s, w))
         == if w.st != ExistOne && w.st != ExistSeveral then AM.Return(AM.NotMoved)
            else if ExistenceEdge(w.st, to) then AM.Exchange(AsState(e, s, Word(to, false)))
            else AM.Return(AM.InvalidStateTransition)
  {
    CellMeans(e, s, false, w.st, to);
    IndexInSet(w.st);
  }

  lemma IndexInSet(st: ClassState)
    ensures Idx(st) in {Idx(ExistOne), Idx(ExistSeveral)} <==> st == ExistOne || st == ExistSeveral
  {
    IndexIsUnique(st, ExistOne);
    IndexIsUnique(st, ExistSeveral);
  }

  lemma IncTryLoads(e: StateMap, s: StateMap, sys: System, id: nat)
    requires HaveTables(e, s) && id in sys.tasks
    requires sys.tasks[id].IncFirst? || sys.tasks[id].IncSecond?
    ensures LoadAgrees(e, s, sys, IncTry(sys, id), id)
  {
    CompareDecides(e, s, false, NotExist, PreincExistOne, sys.word);
    SetDecides(e, s, PreincExistSeveral, sys.word);
  }

  lemma IncOwnLoads(e: StateMap, s: StateMap, sys: System, id: nat)
    requires HaveTables(e, s) && id in sys.tasks
    requires sys.tasks[id].IncMove?
    ensures LoadAgrees(e, s, sys, IncOwn(sys, id), id)
  {
    MoveDecides(e, s, GoalOf(sys.tasks[id]).st, sys.word);
  }

  lemma HookLoads(e: StateMap, s: StateMap, sys: System, id: nat)
    requires HaveTables(e, s) && id in sys.tasks && sys.tasks[id].Hook?
    ensures LoadAgrees(e, s, sys, IncOwn(sys, id), id)
  {
    CompareDecides(e, s, true, PreincExistSeveral, ExistOne, sys.word);
  }

  lemma DecTryLoads(e: StateMap, s: StateMap, sys: System, id: nat)
    requires HaveTables(e, s) && id in sys.tasks
    requires sys.tasks[id].DecFirst?
    ensures LoadAgrees(e, s, sys, DecTry(sys, id), id)
  {
    CompareDecides(e, s, false, ExistSeveral, PredecExistSeveral, sys.word);
  }

  lemma DecSecondLoads(e: StateMap, s: StateMap, sys: System, id: nat)
    requires HaveTables(e, s) && id in sys.tasks && sys.tasks[id].DecSecond?
    ensures LoadAgrees(e, s, sys, DecTry(sys, id), id)
  {
    CompareDecides(e, s, false, ExistOne, PredecExistOne, sys.word);
  }

  lemma DecOwnLoads(e: StateMap, s: StateMap, sys: System, id: nat)
    requires HaveTables(e, s) && id in sys.tasks && sys.tasks[id].DecMove?
    ensures LoadAgrees(e, s, sys, DecOwn(sys, id), id)
  {
    MoveDecides(e, s, GoalOf(sys.tasks[id]).st, sys.word);
  }

  lemma LoadStep(e: StateMap, s: StateMap, sys: System, id: nat)
    requires HaveTables(e, s) && id in sys.tasks && IsLoad(sys.tasks[id])
    ensures LoadAgrees(e, s, sys, Advance(sys, id), id)
  {
    var pc := sys.tasks[id];
    if pc.IncFirst? || pc.IncSecond? {
      IncTryLoads(e, s, sys, id);
    } else if pc.Hook? {
      HookLoads(e, s, sys, id);
    } else if pc.IncMove? {
      IncOwnLoads(e, s, sys, id);
    } else if pc.DecFirst? {
      DecTryLoads(e, s, sys, id);
    } else if pc.DecSecond? {
      DecSecondLoads(e, s, sys, id);
    } else {
      DecOwnLoads(e, s, sys, id);
    }
  }

  lemma IncTryExchanges(e: StateMap, s: StateMap, sys: System, id: nat)
    requires id in sys.tasks && (sys.tasks[id].IncFirstX? || sys.tasks[id].IncSecondX?)
    ensures ExchangeAgrees(e, s, sys, IncTry(sys, id), id)
  {
  }

  lemma IncOwnExchanges(e: StateMap, s: StateMap, sys: System, id: nat)
    requires id in sys.tasks && (sys.tasks[id].HookX? || sys.tasks[id].IncMoveX?)
    ensures ExchangeAgrees(e, s, sys, IncOwn(sys, id), id)
  {
  }

  lemma DecTryExchanges(e: StateMap, s: StateMap, sys: System, id: nat)
    requires id in sys.tasks && (sys.tasks[id].DecFirstX? || sys.tasks[id].DecSecondX?)
    ensures ExchangeAgrees(e, s, sys, DecTry(sys, id), id)
  {
  }

  lemma DecOwnExchanges(e: StateMap, s: StateMap, sys: System, id: nat)
    requires id in sys.tasks && sys.tasks[id].DecMoveX?
    ensures ExchangeAgrees(e, s, sys, DecOwn(sys, id), id)
  {
  }

  lemma ExchangeStep(e: StateMap, s: StateMap, sys: System, id: nat)
    requires id in sys.tasks && IsExchange(sys.tasks[id])
    ensures ExchangeAgrees(e, s, sys, Advance(sys, id), id)
  {
    var pc := sys.tasks[id];
    if pc.IncFirstX? || pc.IncSecondX? {
      IncTryExchanges(e, s, sys, id);
    } else if pc.HookX? || pc.IncMoveX? {
      IncOwnExchanges(e, s, sys, id);
    } else if pc.DecFirstX? || pc.DecSecondX? {
      DecTryExchanges(e, s, sys, id);
    } else {
      DecOwnExchanges(e, s, sys, id);
    }
  }

  lemma OtherStep(sys: System, id: nat)
    requires id in sys.tasks && !IsLoad(sys.tasks[id]) && !IsExchange(sys.tasks[id])
    ensures OtherAgrees(sys, Advance(sys, id), id)
  {
  }

  // ---------- Runs ----------

  /** Whether an action writes the class state word. */
  predicate Writes(sys: System, a: Action) {
    a.Run? && a.id in sys.tasks && IsExchange(sys.tasks[a.id]) && sys.word == sys.tasks[a.id].seen
  }

  /** The values the word has had in a run, the present one last. */
  function Trail(singleton: bool, actions: seq<Action>): (trail: seq<Word>)
    ensures |trail| > 0
  {
    if actions == [] then [Word(NotExist, false)]
    else
      var n := |actions| - 1;
      var sys, a := Execute(Initial(singleton), actions[..n]), actions[n];
      Trail(singleton, actions[..n])
      + (if Writes(sys, a) then [GoalOf(sys.tasks[a.id])] else [])
  }

  /** A run of the kernel, and which of its threads makes, or made, the latest call of each task.
      Threads are numbered in the order of their calls. */
  datatype KernelRun = KernelRun(ss: seq<AM.System>, actions: seq<AM.Action>, threadOf: map<nat, nat>,
                                 next: nat)

  ghost predicate IsKernelRun(s: StateMap, k: KernelRun) {
    AM.IsRun(s, k.ss, k.actions) && forall i :: i in Now(k).threads ==> i < k.next
  }

  ghost function Now(k: KernelRun): AM.System
    requires |k.ss| > 0
  {
    k.ss[|k.ss| - 1]
  }

  /** The kernel's history is the trail of the class state. */
  ghost predicate SameHistory(e: StateMap, s: StateMap, now: AM.System, trail: seq<Word>) {
    |now.history| == |trail| && forall j :: 0 <= j < |trail| ==> now.history[j] == AsState(e, s, trail[j])
  }

  /** A task about to exchange is a thread that has loaded the word that the task saw. */
  ghost predicate IsAt(e: StateMap, s: StateMap, now: AM.System, pc: Pc, thread: nat)
    requires IsExchange(pc)
  {
    && thread in now.threads && now.threads[thread].Loaded?
    && var t := now.threads[thread];
       && t.call == CallOf(e, s, pc) && t.to == AsState(e, s, GoalOf(pc))
       && t.at < |now.history| && now.history[t.at] == AsState(e, s, pc.seen)
  }

  predicate IsExchanging(sys: System, id: nat) {
    id in sys.tasks && IsExchange(sys.tasks[id])
  }

  /** The thread of a task is in its call: about to exchange, about to load again, or done. */
  ghost predicate IsThreadOf(e: StateMap, s: StateMap, now: AM.System, pc: Pc, thread: nat) {
    && thread in now.threads
    && if IsExchange(pc) then IsAt(e, s, now, pc, thread)
       else now.threads[thread].Finished?
            || (IsLoad(pc) && now.threads[thread] == AM.Ready(CallOf(e, s, pc)))
  }

  /** Each call of a task is one call of the kernel, retries included: no two tasks share a thread,
      and every thread that is not done is the thread of a task. */
  ghost predicate TasksAreThreads(e: StateMap, s: StateMap, sys: System, k: KernelRun)
    requires |k.ss| > 0
  {
    && (forall id :: IsExchanging(sys, id) ==> id in k.threadOf)
    && (forall id :: id in k.threadOf ==>
          id in sys.tasks && IsThreadOf(e, s, Now(k), sys.tasks[id], k.threadOf[id]))
    && (forall i, j :: i in k.threadOf && j in k.threadOf && i != j ==> k.threadOf[i] != k.threadOf[j])
    && (forall n :: n in Now(k).threads && !Now(k).threads[n].Finished? ==>
          exists id :: id in k.threadOf && k.threadOf[id] == n)
  }

  ghost predicate Simulates(e: StateMap, s: StateMap, sys: System, trail: seq<Word>, k: KernelRun) {
    && IsKernelRun(s, k) && SameHistory(e, s, Now(k), trail) && TasksAreThreads(e, s, sys, k)
    && |trail| > 0 && trail[|trail| - 1] == sys.word
  }

  /** One action more. */
  lemma RunGrows(s: StateMap, ss: seq<AM.System>, actions: seq<AM.Action>, a: AM.Action, now: AM.System)
    requires AM.IsRun(s, ss, actions) && AM.IsStep(s, ss[|ss| - 1], a, now)
    ensures AM.IsRun(s, ss + [now], actions + [a])
  {
    var ss', actions' := ss + [now], actions + [a];
    forall j | 0 <= j < |actions'| ensures AM.IsStep(s, ss'[j], actions'[j], ss'[j + 1]) {
      if j < |actions| {
        assert AM.IsStep(s, ss[j], actions[j], ss[j + 1]);
      }
    }
  }

  lemma CallsAreOnChain(e: StateMap, s: StateMap, pc: Pc)
    requires HaveTables(e, s) && (IsLoad(pc) || IsExchange(pc))
    ensures AM.IsOnChain(s, CallOf(e, s, pc))
  {
    assert DescendsFrom(s.parent, e);
  }

  lemma Begin(e: StateMap, s: StateMap, singleton: bool) returns (k: KernelRun)
    requires HaveTables(e, s)
    ensures Simulates(e, s, Initial(singleton), [Word(NotExist, false)], k)
  {
    k := KernelRun([AM.System([AsState(e, s, Word(NotExist, false))], map[], [])], [], map[], 0);
  }

  /** Only the task `id` and its thread have moved on. */
  ghost predicate OnlyOne(sys: System, k: KernelRun, sys': System, k': KernelRun, id: nat)
    requires |k.ss| > 0 && |k'.ss| > 0
  {
    && (forall i :: i != id ==> (i in k'.threadOf <==> i in k.threadOf))
    && (forall i :: i != id && i in k.threadOf ==> k'.threadOf[i] == k.threadOf[i])
    && (forall i :: i != id ==> (i in sys'.tasks <==> i in sys.tasks))
    && (forall i :: i != id && i in sys.tasks ==> sys'.tasks[i] == sys.tasks[i])
    && (forall n :: !(id in k'.threadOf && n == k'.threadOf[id]) ==>
          (n in Now(k').threads <==> n in Now(k).threads))
    && (forall n :: !(id in k'.threadOf && n == k'.threadOf[id]) && n in Now(k).threads ==>
          Now(k').threads[n] == Now(k).threads[n])
    && Now(k).history <= Now(k').history
  }

  /** The thread of the task that moved on: the one it had, or a new one after that was done. */
  ghost predicate ThreadFollows(e: StateMap, s: StateMap, k: KernelRun, sys': System, k': KernelRun,
                                id: nat)
    requires |k.ss| > 0 && |k'.ss| > 0
  {
    && (IsExchanging(sys', id) ==> id in k'.threadOf)
    && (id in k'.threadOf ==>
          && id in sys'.tasks && IsThreadOf(e, s, Now(k'), sys'.tasks[id], k'.threadOf[id])
          && forall i :: i != id && i in k.threadOf ==> k.threadOf[i] != k'.threadOf[id])
    && (id in k.threadOf ==>
          && id in k'.threadOf && k.threadOf[id] in Now(k).threads
          && (k'.threadOf[id] == k.threadOf[id] || Now(k).threads[k.threadOf[id]].Finished?))
  }

  lemma OthersStay(e: StateMap, s: StateMap, sys: System, k: KernelRun, sys': System, k': KernelRun,
                   id: nat)
    requires |k.ss| > 0 && |k'.ss| > 0 && TasksAreThreads(e, s, sys, k)
    requires OnlyOne(sys, k, sys', k', id) && ThreadFollows(e, s, k, sys', k', id)
    ensures TasksAreThreads(e, s, sys', k')
  {
    forall i | i != id && i in k'.threadOf
      ensures i in sys'.tasks && IsThreadOf(e, s, Now(k'), sys'.tasks[i], k'.threadOf[i])
    {
      assert IsThreadOf(e, s, Now(k), sys.tasks[i], k.threadOf[i]);
    }
    forall n | n in Now(k').threads && !Now(k').threads[n].Finished?
      ensures exists i :: i in k'.threadOf && k'.threadOf[i] == n
    {
      if !(id in k'.threadOf && n == k'.threadOf[id]) {
        var i :| i in k.threadOf && k.threadOf[i] == n;
        assert i in k'.threadOf && k'.threadOf[i] == n;
      }
    }
  }

  /** The kernel takes one action more, and only the thread of the task `id` moves on. */
  lemma KernelStep(e: StateMap, s: StateMap, sys: System, k: KernelRun, a: AM.Action, now: AM.System,
                   sys': System, id: nat) returns (k': KernelRun)
    requires IsKernelRun(s, k) && TasksAreThreads(e, s, sys, k) && AM.IsStep(s, Now(k), a, now)
    requires id in k.threadOf && k.threadOf[id] in Now(k).threads
    requires now.threads == Now(k).threads[k.threadOf[id] := now.threads[k.threadOf[id]]]
    requires k.threadOf[id] in now.threads && Now(k).history <= now.history
    requires id in sys'.tasks && sys'.tasks == sys.tasks[id := sys'.tasks[id]]
    requires IsThreadOf(e, s, now, sys'.tasks[id], k.threadOf[id])
    ensures IsKernelRun(s, k') && Now(k') == now && TasksAreThreads(e, s, sys', k')
  {
    RunGrows(s, k.ss, k.actions, a, now);
    k' := KernelRun(k.ss + [now], k.actions + [a], k.threadOf, k.next);
    OthersStay(e, s, sys, k, sys', k', id);
  }

  lemma LoadsInThread(e: StateMap, s: StateMap, sys: System, sys': System, id: nat, now: AM.System,
                      n: nat)
    requires id in sys.tasks && IsLoad(sys.tasks[id]) && LoadAgrees(e, s, sys, sys', id)
    requires n in now.threads && now.threads[n] == AM.Ready(CallOf(e, s, sys.tasks[id]))
    requires |now.history| > 0 && now.history[|now.history| - 1] == AsState(e, s, sys.word)
    ensures var loaded := AM.Step(now, AM.Load(n));
            && loaded.history == now.history && n in loaded.threads
            && loaded.threads == now.threads[n := loaded.threads[n]]
            && IsThreadOf(e, s, loaded, sys'.tasks[id], n)
  {
  }

  lemma ExchangesInThread(e: StateMap, s: StateMap, sys: System, sys': System, id: nat,
                          now: AM.System, n: nat)
    requires HaveTables(e, s) && IsExchanging(sys, id) && ExchangeAgrees(e, s, sys, sys', id)
    requires IsAt(e, s, now, sys.tasks[id], n)
    requires |now.history| > 0 && now.history[|now.history| - 1] == AsState(e, s, sys.word)
    ensures var after := AM.Step(now, AM.CompareExchange(n));
            && after.history == now.history
               + (if sys.word == sys.tasks[id].seen then [AsState(e, s, GoalOf(sys.tasks[id]))] else [])
            && n in after.threads && after.threads == now.threads[n := after.threads[n]]
            && IsThreadOf(e, s, after, sys'.tasks[id], n)
  {
    WordsAreStates(e, s, sys.word, sys.tasks[id].seen);
  }

  /** A task that is about to load has a thread that is ready to: it loads in that thread. */
  lemma SimulateReload(e: StateMap, s: StateMap, sys: System, sys': System, id: nat, trail: seq<Word>,
                       k: KernelRun) returns (k': KernelRun)
    requires HaveTables(e, s) && Simulates(e, s, sys, trail, k)
    requires id in sys.tasks && IsLoad(sys.tasks[id]) && LoadAgrees(e, s, sys, sys', id)
    requires id in k.threadOf && k.threadOf[id] in Now(k).threads
    requires Now(k).threads[k.threadOf[id]].Ready?
    ensures Simulates(e, s, sys', trail, k')
  {
    var n := k.threadOf[id];
    assert IsThreadOf(e, s, Now(k), sys.tasks[id], n);
    LoadsInThread(e, s, sys, sys', id, Now(k), n);
    k' := KernelStep(e, s, sys, k, AM.Load(n), AM.Step(Now(k), AM.Load(n)), sys', id);
  }

  /** A new call starts in a new thread. */
  lemma SimulateStart(e: StateMap, s: StateMap, sys: System, id: nat, trail: seq<Word>, k: KernelRun)
    returns (k': KernelRun)
    requires HaveTables(e, s) && Simulates(e, s, sys, trail, k)
    requires id in sys.tasks && IsLoad(sys.tasks[id])
    requires id in k.threadOf ==>
               k.threadOf[id] in Now(k).threads && Now(k).threads[k.threadOf[id]].Finished?
    ensures Simulates(e, s, sys, trail, k')
    ensures id in k'.threadOf && k'.threadOf[id] in Now(k').threads
            && Now(k').threads[k'.threadOf[id]].Ready?
  {
    var n := k.next;
    var call := CallOf(e, s, sys.tasks[id]);
    CallsAreOnChain(e, s, sys.tasks[id]);
    var started := AM.Step(Now(k), AM.Start(n, call));
    RunGrows(s, k.ss, k.actions, AM.Start(n, call), started);
    k' := KernelRun(k.ss + [started], k.actions + [AM.Start(n, call)], k.threadOf[id := n], n + 1);
    NewThread(sys, k, id);
    OthersStay(e, s, sys, k, sys, k', id);
  }

  lemma NewThread(sys: System, k: KernelRun, id: nat)
    requires |k.ss| > 0 && forall i :: i in Now(k).threads ==> i < k.next
    requires forall i :: i in k.threadOf ==> k.threadOf[i] in Now(k).threads
    ensures forall i :: i in k.threadOf ==> k.threadOf[i] != k.next
  {
  }

  lemma SimulateLoad(e: StateMap, s: StateMap, sys: System, sys': System, id: nat, trail: seq<Word>,
                     k: KernelRun) returns (k': KernelRun)
    requires HaveTables(e, s) && Simulates(e, s, sys, trail, k)
    requires id in sys.tasks && IsLoad(sys.tasks[id]) && LoadAgrees(e, s, sys, sys', id)
    ensures Simulates(e, s, sys', trail, k')
  {
    assert id in k.threadOf ==> IsThreadOf(e, s, Now(k), sys.tasks[id], k.threadOf[id]);
    k' := k;
    if id !in k.threadOf || Now(k).threads[k.threadOf[id]].Finished? {
      k' := SimulateStart(e, s, sys, id, trail, k);
    }
    k' := SimulateReload(e, s, sys, sys', id, trail, k');
  }

  lemma SimulateExchange(e: StateMap, s: StateMap, sys: System, sys': System, id: nat,
                         trail: seq<Word>, k: KernelRun) returns (k': KernelRun)
    requires HaveTables(e, s) && Simulates(e, s, sys, trail, k)
    requires IsExchanging(sys, id) && ExchangeAgrees(e, s, sys, sys', id)
    ensures Simulates(e, s, sys',
                      trail + (if sys.word == sys.tasks[id].seen then [GoalOf(sys.tasks[id])] else []),
                      k')
  {
    var n := k.threadOf[id];
    assert IsThreadOf(e, s, Now(k), sys.tasks[id], n);
    ExchangesInThread(e, s, sys, sys', id, Now(k), n);
    var a := AM.CompareExchange(n);
    k' := KernelStep(e, s, sys, k, a, AM.Step(Now(k), a), sys', id);
  }

  lemma SimulateStep(e: StateMap, s: StateMap, sys: System, a: Action, trail: seq<Word>, k: KernelRun)
    returns (k': KernelRun)
    requires HaveTables(e, s) && Simulates(e, s, sys, trail, k)
    ensures Simulates(e, s, Step(sys, a),
                      trail + (if Writes(sys, a) then [GoalOf(sys.tasks[a.id])] else []), k')
  {
    if a.Run? && a.id in sys.tasks {
      if IsLoad(sys.tasks[a.id]) {
        LoadStep(e, s, sys, a.id);
        k' := SimulateLoad(e, s, sys, Advance(sys, a.id), a.id, trail, k);
      } else if IsExchange(sys.tasks[a.id]) {
        ExchangeStep(e, s, sys, a.id);
        k' := SimulateExchange(e, s, sys, Advance(sys, a.id), a.id, trail, k);
      } else {
        OtherStep(sys, a.id);
        k' := k;
        OthersStay(e, s, sys, k, Step(sys, a), k, a.id);
      }
    } else {
      k' := k;
      OthersStay(e, s, sys, k, Step(sys, a), k, a.id);
    }
  }

  // ---------- Main results ----------

  /** Every run of the existence protocol, in both variants, is a run of atomic moves on the maps
      of the two axes: the kernel's history is what the class state has been. */
  lemma {:induction false} EveryRunIsAtomicMoves(e: StateMap, s: StateMap, singleton: bool,
                                                 actions: seq<Action>) returns (k: KernelRun)
    requires AreAxes(e, s)
    ensures Simulates(e, s, Execute(Initial(singleton), actions), Trail(singleton, actions), k)
  {
    AxesHaveTables(e, s);
    if actions == [] {
      k := Begin(e, s, singleton);
    } else {
      var n := |actions| - 1;
      k := EveryRunIsAtomicMoves(e, s, singleton, actions[..n]);
      k := SimulateStep(e, s, Execute(Initial(singleton), actions[..n]), actions[n],
                        Trail(singleton, actions[..n]), k);
    }
  }

  /** So what the kernel guarantees holds of the class state: its trail is a path of the map. */
  lemma TrailIsPath(e: StateMap, s: StateMap, singleton: bool, actions: seq<Action>, j: nat)
    requires AreAxes(e, s) && 0 < j < |Trail(singleton, actions)|
    ensures var trail := Trail(singleton, actions);
            AM.IsEdge(s, AsState(e, s, trail[j - 1]), AsState(e, s, trail[j]))
  {
    AxesHaveTables(e, s);
    var k := EveryRunIsAtomicMoves(e, s, singleton, actions);
    AM.RunKeepsInv(s, k.ss, k.actions, |k.ss| - 1);
  }
}
