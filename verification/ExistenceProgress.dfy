/** Progress of the existence protocol (C++/Existent.hpp): a task whose turn it is, again and
    again, finishes its constructor or destructor in a bounded number of steps, from wherever any
    interleaving has left it. */
module ExistenceProgress {
  import opened Existence

  // ---------- A task that runs alone ----------

  /** The system after `k` steps of the task `id`. */
  function Turns(s: System, id: nat, k: nat): System
    decreases k
  {
    if k == 0 then s else Turns(Step(s, Run(id)), id, k - 1)
  }

  function Alone(id: nat, k: nat): seq<Action> {
    if k == 0 then [] else [Run(id)] + Alone(id, k - 1)
  }

  lemma {:induction false} TurnsAreARun(s: System, actions: seq<Action>, id: nat, k: nat)
    ensures |Alone(id, k)| == k && forall i :: 0 <= i < k ==> Alone(id, k)[i] == Run(id)
    ensures Execute(s, actions + Alone(id, k)) == Turns(Execute(s, actions), id, k)
    decreases k
  {
    if k == 0 {
      assert actions + Alone(id, 0) == actions;
    } else {
      var longer := actions + [Run(id)];
      assert actions + Alone(id, k) == longer + Alone(id, k - 1);
      assert longer[..|actions|] == actions;
      TurnsAreARun(s, longer, id, k - 1);
    }
  }

  /** Nobody but `id` can own the class state. */
  ghost predicate IsUnhindered(s: System, id: nat) {
    Inv(s) && id in s.tasks && forall j :: IsOwner(s, j) ==> j == id
  }

  lemma OthersStay(s: System, id: nat)
    requires id in s.tasks
    ensures var s' := Advance(s, id);
            OnlyMoves(s, s', id)
  {
  }

  lemma StaysUnhindered(s: System, id: nat)
    requires IsUnhindered(s, id)
    ensures IsUnhindered(Advance(s, id), id)
  {
    StepKeepsInv(s, Run(id));
    OthersStay(s, id);
    forall j | IsOwner(Advance(s, id), j) && j != id ensures IsOwner(s, j) {
    }
  }

  /** Only the task itself has changed, and perhaps the word, the counter and the pointer. */
  ghost predicate OnlyMoves(s: System, s': System, id: nat) {
    id in s'.tasks && s'.tasks == s.tasks[id := s'.tasks[id]] && s'.singleton == s.singleton
  }

  lemma NextTurn(s: System, id: nat, k: nat) returns (s': System)
    requires IsUnhindered(s, id) && k > 0
    ensures s' == Advance(s, id) && OnlyMoves(s, s', id) && IsUnhindered(s', id)
    ensures Turns(s, id, k) == Turns(s', id, k - 1)
    ensures k == 1 ==> Turns(s, id, k) == s'
  {
    s' := Advance(s, id);
    OthersStay(s, id);
    StaysUnhindered(s, id);
  }

  /** What the task can rely on while nobody hinders it. */
  ghost predicate HasItsTurn(s: System, id: nat) {
    && id in s.tasks && TaskInv(s, id)
    && (!IsCritical(s.tasks[id]) ==> CounterInv(s) && !IsPre(s.word.st))
    && (IsCounted(s.tasks[id]) ==> s.objCount >= 1)
    && (s.singleton ==> s.objCount <= 1)
  }

  lemma TurnOf(s: System, id: nat)
    requires IsUnhindered(s, id)
    ensures HasItsTurn(s, id)
  {
    if IsCounted(s.tasks[id]) {
      CountBounds(s, id, id);
    }
    if !IsCritical(s.tasks[id]) {
      assert !IsOwner(s, id);
    }
  }

  // ---------- Constructors ----------

  /** Within a constructor, that of SSingleton included. */
  predicate IsMaking(pc: Pc) {
    IsInc(pc) || pc.Constructor? || pc.SetInstance?
  }

  /** A constructor that will find an object and must not make a second one. */
  predicate IsTooLate(s: System, id: nat)
    requires id in s.tasks
  {
    s.singleton && s.objCount == 1 && !IsCounted(s.tasks[id])
  }

  /** The steps from the first call of the loop, from the second, and from its exchange. */
  function FromIncSecondX(singleton: bool): nat { if singleton then 3 else 5 }

  function FromIncFirst(singleton: bool, w: Word): nat {
    if w.st != NotExist then 2 + FromIncSecondX(singleton) else if singleton then 8 else 6
  }

  function FromIncSecond(singleton: bool, w: Word): nat {
    if w.st == NotExist then 1 + FromIncFirst(singleton, w) else 1 + FromIncSecondX(singleton)
  }

  /** How many steps of its own a constructor still has to take. */
  function ToLive(singleton: bool, w: Word, pc: Pc): nat {
    var more := if singleton then 2 else 0;
    match pc
    case IncFirst => FromIncFirst(singleton, w)
    case IncFirstX(seen) => if seen == w then 5 + more else 1 + FromIncSecond(singleton, w)
    case IncSecond => FromIncSecond(singleton, w)
    case IncSecondX(seen) => if seen == w then FromIncSecondX(singleton) else 1 + FromIncSecond(singleton, w)
    case Hook => 2
    case HookX(_) => 1
    case IncCount(_) => 4 + more
    case IncAssert(_) => 3 + more
    case IncMove(_) => 2 + more
    case IncMoveX(_, _) => 1 + more
    case Constructor => 2
    case SetInstance => 1
    case _ => 0
  }

  function CountOf(pc: Pc): nat { if IsCounted(pc) then 1 else 0 }

  /** One turn of a constructor brings it one step nearer to its end, which stays the same. */
  ghost predicate MakesProgress(s: System, s': System, id: nat)
    requires id in s.tasks && id in s'.tasks
  {
    var pc, pc' := s.tasks[id], s'.tasks[id];
    var left := ToLive(s.singleton, s.word, pc);
    && left >= 1 && s'.objCount - CountOf(pc') == s.objCount - CountOf(pc)
    && if left == 1 then pc' == if IsTooLate(s, id) then MustBeSingleton else Live
       else IsMaking(pc') && ToLive(s.singleton, s'.word, pc') == left - 1
            && IsTooLate(s', id) == IsTooLate(s, id)
  }

  lemma FirstMakes(s: System, id: nat)
    requires HasItsTurn(s, id) && (s.tasks[id].IncFirst? || s.tasks[id].IncFirstX?)
    ensures id in Advance(s, id).tasks && MakesProgress(s, Advance(s, id), id)
  {
  }

  lemma SecondMakes(s: System, id: nat)
    requires HasItsTurn(s, id) && (s.tasks[id].IncSecond? || s.tasks[id].IncSecondX?)
    ensures id in Advance(s, id).tasks && MakesProgress(s, Advance(s, id), id)
  {
  }

  lemma HookMakes(s: System, id: nat)
    requires HasItsTurn(s, id) && (s.tasks[id].Hook? || s.tasks[id].HookX?)
    ensures id in Advance(s, id).tasks && MakesProgress(s, Advance(s, id), id)
  {
  }

  lemma OwnerMakes(s: System, id: nat)
    requires HasItsTurn(s, id) && IsCritical(s.tasks[id]) && IsInc(s.tasks[id])
    requires !s.tasks[id].Hook? && !s.tasks[id].HookX?
    ensures id in Advance(s, id).tasks && MakesProgress(s, Advance(s, id), id)
  {
  }

  lemma ObjectMakes(s: System, id: nat)
    requires HasItsTurn(s, id) && (s.tasks[id].Constructor? || s.tasks[id].SetInstance?)
    ensures id in Advance(s, id).tasks && MakesProgress(s, Advance(s, id), id)
  {
  }

  lemma MakingTurn(s: System, id: nat)
    requires HasItsTurn(s, id) && IsMaking(s.tasks[id])
    ensures id in Advance(s, id).tasks && MakesProgress(s, Advance(s, id), id)
  {
    var pc := s.tasks[id];
    if pc.IncFirst? || pc.IncFirstX? {
      FirstMakes(s, id);
    } else if pc.IncSecond? || pc.IncSecondX? {
      SecondMakes(s, id);
    } else if pc.Hook? || pc.HookX? {
      HookMakes(s, id);
    } else if IsInc(pc) {
      OwnerMakes(s, id);
    } else {
      ObjectMakes(s, id);
    }
  }

  /** The end of a constructor: only its own task has changed, and the counter with it. */
  ghost predicate IsMade(s: System, s': System, id: nat)
    requires id in s.tasks
  {
    && s'.singleton == s.singleton
    && s'.tasks == s.tasks[id := if IsTooLate(s, id) then MustBeSingleton else Live]
    && s'.objCount - CountOf(s'.tasks[id]) == s.objCount - CountOf(s.tasks[id])
  }

  lemma IsMadeNow(s: System, s': System, id: nat)
    requires id in s.tasks && id in s'.tasks && MakesProgress(s, s', id) && OnlyMoves(s, s', id)
    requires ToLive(s.singleton, s.word, s.tasks[id]) == 1
    ensures IsMade(s, s', id)
  {
  }

  lemma IsMadeLater(s: System, s1: System, s': System, id: nat)
    requires id in s.tasks && id in s1.tasks && MakesProgress(s, s1, id) && OnlyMoves(s, s1, id)
    requires ToLive(s.singleton, s.word, s.tasks[id]) > 1 && IsMade(s1, s', id)
    ensures IsMade(s, s', id)
  {
  }

  lemma {:induction false} MakingEnds(s: System, id: nat, k: nat)
    requires IsUnhindered(s, id) && IsMaking(s.tasks[id])
    requires k == ToLive(s.singleton, s.word, s.tasks[id])
    ensures IsMade(s, Turns(s, id, k), id)
    decreases k
  {
    TurnOf(s, id);
    MakingTurn(s, id);
    var s1 := NextTurn(s, id, k);
    if k == 1 {
      IsMadeNow(s, s1, id);
    } else {
      MakingEnds(s1, id, k - 1);
      IsMadeLater(s, s1, Turns(s1, id, k - 1), id);
    }
  }

  // ---------- Destructors ----------

  /** Alive or within a destructor, that of SSingleton included. */
  predicate IsUnmaking(pc: Pc) {
    pc.Live? || pc.Destructor? || pc.ClearInstance?
    || pc.DecFirst? || pc.DecFirstX? || pc.DecSecond? || pc.DecSecondX?
    || pc.DecCount? || pc.DecAssert? || pc.DecMove? || pc.DecMoveX?
  }

  function FromDecFirst(w: Word): nat { if w.st == ExistSeveral then 6 else 7 }

  function FromDecSecond(w: Word): nat { if w.st == ExistOne then 6 else 7 }

  /** How many steps of its own a live object still has to take. */
  function ToDead(singleton: bool, w: Word, pc: Pc): nat {
    match pc
    case Live => (if singleton then 3 else 1) + FromDecFirst(w)
    case Destructor => 2 + FromDecFirst(w)
    case ClearInstance => 1 + FromDecFirst(w)
    case DecFirst => FromDecFirst(w)
    case DecFirstX(seen) => if seen == w then 5 else 1 + FromDecSecond(w)
    case DecSecond => FromDecSecond(w)
    case DecSecondX(seen) => if seen == w then 5 else 1 + FromDecFirst(w)
    case DecCount(_) => 4
    case DecAssert(_) => 3
    case DecMove(_, _) => 2
    case DecMoveX(_, _, _) => 1
    case _ => 0
  }

  ghost predicate UnmakesProgress(s: System, s': System, id: nat)
    requires id in s.tasks && id in s'.tasks
  {
    var pc, pc' := s.tasks[id], s'.tasks[id];
    var left := ToDead(s.singleton, s.word, pc);
    && left >= 1 && s'.objCount - CountOf(pc') == s.objCount - CountOf(pc)
    && if left == 1 then pc' == Dead
       else IsUnmaking(pc') && ToDead(s.singleton, s'.word, pc') == left - 1
  }

  lemma FirstUnmakes(s: System, id: nat)
    requires HasItsTurn(s, id) && (s.tasks[id].DecFirst? || s.tasks[id].DecFirstX?)
    ensures id in Advance(s, id).tasks && UnmakesProgress(s, Advance(s, id), id)
  {
  }

  lemma SecondUnmakes(s: System, id: nat)
    requires HasItsTurn(s, id) && (s.tasks[id].DecSecond? || s.tasks[id].DecSecondX?)
    ensures id in Advance(s, id).tasks && UnmakesProgress(s, Advance(s, id), id)
  {
  }

  lemma OwnerUnmakes(s: System, id: nat)
    requires HasItsTurn(s, id) && IsCritical(s.tasks[id]) && !IsInc(s.tasks[id])
    ensures id in Advance(s, id).tasks && UnmakesProgress(s, Advance(s, id), id)
  {
  }

  lemma ObjectUnmakes(s: System, id: nat)
    requires HasItsTurn(s, id) && IsHolder(s.tasks[id])
    ensures id in Advance(s, id).tasks && UnmakesProgress(s, Advance(s, id), id)
  {
  }

  lemma UnmakingTurn(s: System, id: nat)
    requires HasItsTurn(s, id) && IsUnmaking(s.tasks[id])
    ensures id in Advance(s, id).tasks && UnmakesProgress(s, Advance(s, id), id)
  {
    if s.tasks[id].DecFirst? || s.tasks[id].DecFirstX? {
      FirstUnmakes(s, id);
    } else if s.tasks[id].DecSecond? || s.tasks[id].DecSecondX? {
      SecondUnmakes(s, id);
    } else if IsCritical(s.tasks[id]) {
      OwnerUnmakes(s, id);
    } else {
      ObjectUnmakes(s, id);
    }
  }

  ghost predicate IsUnmade(s: System, s': System, id: nat)
    requires id in s.tasks
  {
    && s'.singleton == s.singleton && s'.tasks == s.tasks[id := Dead]
    && s'.objCount == s.objCount - CountOf(s.tasks[id])
  }

  lemma IsUnmadeNow(s: System, s': System, id: nat)
    requires id in s.tasks && id in s'.tasks && UnmakesProgress(s, s', id) && OnlyMoves(s, s', id)
    requires ToDead(s.singleton, s.word, s.tasks[id]) == 1
    ensures IsUnmade(s, s', id)
  {
  }

  lemma IsUnmadeLater(s: System, s1: System, s': System, id: nat)
    requires id in s.tasks && id in s1.tasks && UnmakesProgress(s, s1, id) && OnlyMoves(s, s1, id)
    requires ToDead(s.singleton, s.word, s.tasks[id]) > 1 && IsUnmade(s1, s', id)
    ensures IsUnmade(s, s', id)
  {
  }

  lemma {:induction false} UnmakingEnds(s: System, id: nat, k: nat)
    requires IsUnhindered(s, id) && IsUnmaking(s.tasks[id])
    requires k == ToDead(s.singleton, s.word, s.tasks[id])
    ensures IsUnmade(s, Turns(s, id, k), id)
    decreases k
  {
    TurnOf(s, id);
    UnmakingTurn(s, id);
    var s1 := NextTurn(s, id, k);
    if k == 1 {
      IsUnmadeNow(s, s1, id);
    } else {
      UnmakingEnds(s1, id, k - 1);
      IsUnmadeLater(s, s1, Turns(s1, id, k - 1), id);
    }
  }

  // ---------- Main results ----------

  lemma {:induction false} TurnsStayUnhindered(s: System, id: nat, k: nat, s': System)
    requires IsUnhindered(s, id) && s' == Turns(s, id, k)
    ensures IsUnhindered(s', id)
    decreases k
  {
    if k > 0 {
      var s1 := NextTurn(s, id, k);
      TurnsStayUnhindered(s1, id, k - 1, s');
    }
  }

  /** At most ten steps, from wherever the task stands. */
  lemma FewSteps(singleton: bool, w: Word, pc: Pc)
    ensures ToLive(singleton, w, pc) <= 10 && ToDead(singleton, w, pc) <= 10
  {
  }

  /** Nobody has the class state, or the task itself has it. */
  ghost predicate MayGoOn(s: System, id: nat) {
    id in s.tasks && forall j :: IsOwner(s, j) ==> j == id
  }

  ghost predicate OnlyRuns(run: seq<Action>, id: nat) {
    forall k :: 0 <= k < |run| ==> run[k] == Run(id)
  }

  lemma GoOn(singleton: bool, actions: seq<Action>, id: nat, k: nat) returns (run: seq<Action>)
    requires MayGoOn(Execute(Initial(singleton), actions), id)
    ensures |run| == k && OnlyRuns(run, id)
    ensures var s := Execute(Initial(singleton), actions);
            var s' := Execute(Initial(singleton), actions + run);
            IsUnhindered(s, id) && s' == Turns(s, id, k) && IsUnhindered(s', id)
            && s.singleton == singleton
  {
    EveryRunKeepsInv(singleton, actions);
    TurnsAreARun(Initial(singleton), actions, id, k);
    run := Alone(id, k);
    TurnsStayUnhindered(Execute(Initial(singleton), actions), id, k,
                        Execute(Initial(singleton), actions + run));
  }

  /** No task owns the class state after one that may go on has got to a place outside. */
  lemma FreeAfter(s: System, id: nat)
    requires IsUnhindered(s, id) && !IsCritical(s.tasks[id])
    ensures !IsPre(s.word.st)
  {
  }

  /** A constructor finishes by itself from wherever an interleaving has left it, unless another
      task has the class state: in a bounded number of its own steps the object is alive, or, if the
      hook is installed and the one object exists, it throws; the counter tells which. */
  lemma ConstructorFinishes(singleton: bool, actions: seq<Action>, id: nat) returns (run: seq<Action>)
    requires var s := Execute(Initial(singleton), actions);
             MayGoOn(s, id) && IsMaking(s.tasks[id])
    ensures |run| <= 10 && OnlyRuns(run, id)
    ensures var s := Execute(Initial(singleton), actions);
            var s' := Execute(Initial(singleton), actions + run);
            var counted := IsCounted(s.tasks[id]);
            var throws := singleton && s.objCount == 1 && !counted;
            && s'.tasks == s.tasks[id := if throws then MustBeSingleton else Live]
            && s'.objCount == s.objCount + (if throws || counted then 0 else 1)
            && !IsPre(s'.word.st)
  {
    var s := Execute(Initial(singleton), actions);
    var k := ToLive(singleton, s.word, s.tasks[id]);
    FewSteps(singleton, s.word, s.tasks[id]);
    run := GoOn(singleton, actions, id, k);
    MakingEnds(s, id, k);
    FreeAfter(Turns(s, id, k), id);
  }

  /** So does a destructor: the object is gone and not counted any more. */
  lemma DestructorFinishes(singleton: bool, actions: seq<Action>, id: nat) returns (run: seq<Action>)
    requires var s := Execute(Initial(singleton), actions);
             MayGoOn(s, id) && IsUnmaking(s.tasks[id])
    ensures |run| <= 10 && OnlyRuns(run, id)
    ensures var s := Execute(Initial(singleton), actions);
            var s' := Execute(Initial(singleton), actions + run);
            && s'.tasks == s.tasks[id := Dead]
            && s'.objCount == s.objCount - (if IsCounted(s.tasks[id]) then 1 else 0)
            && !IsPre(s'.word.st)
  {
    var s := Execute(Initial(singleton), actions);
    var k := ToDead(singleton, s.word, s.tasks[id]);
    FewSteps(singleton, s.word, s.tasks[id]);
    run := GoOn(singleton, actions, id, k);
    UnmakingEnds(s, id, k);
    FreeAfter(Turns(s, id, k), id);
  }

  /** A new object: whenever nobody has the class state, its constructor gets through, or throws if
      it would be the second with the hook installed. */
  lemma NewObject(singleton: bool, actions: seq<Action>, id: nat) returns (run: seq<Action>)
    requires var s := Execute(Initial(singleton), actions);
             id !in s.tasks && forall j :: !IsOwner(s, j)
    ensures |run| <= 10 && OnlyRuns(run, id)
    ensures var s := Execute(Initial(singleton), actions);
            var s' := Execute(Initial(singleton), actions + [Spawn(id)] + run);
            var throws := singleton && s.objCount == 1;
            && s'.tasks == s.tasks[id := if throws then MustBeSingleton else Live]
            && s'.objCount == s.objCount + (if throws then 0 else 1)
            && !IsPre(s'.word.st)
  {
    var s := Execute(Initial(singleton), actions);
    var longer := actions + [Spawn(id)];
    assert longer[..|actions|] == actions;
    var s1 := Execute(Initial(singleton), longer);
    assert s1 == Goto(s, id, IncFirst);
    forall j | IsOwner(s1, j) ensures j == id {
      assert !IsOwner(s, j);
    }
    run := ConstructorFinishes(singleton, longer, id);
  }

  // ---------- No deadlock ----------

  predicate IsOver(pc: Pc) {
    pc.Dead? || pc.MustBeSingleton?
  }

  function Unfinished(tasks: map<nat, Pc>): set<nat> {
    set id | id in tasks && !IsOver(tasks[id])
  }

  lemma OneLess(tasks: map<nat, Pc>, tasks': map<nat, Pc>, id: nat)
    requires id in Unfinished(tasks) && id in tasks' && tasks' == tasks[id := tasks'[id]]
    requires IsOver(tasks'[id])
    ensures |Unfinished(tasks')| < |Unfinished(tasks)|
  {
    assert Unfinished(tasks') == Unfinished(tasks) - {id};
  }

  lemma OthersDoNotOwn(s: System, s': System, id: nat)
    requires MayGoOn(s, id) && OnlyMoves(s, s', id)
    ensures MayGoOn(s', id)
  {
    forall j | IsOwner(s', j) ensures j == id {
      assert j != id ==> IsOwner(s, j);
    }
  }

  lemma SomePlace(s: System, id: nat)
    requires id in s.tasks && TaskInv(s, id)
    ensures IsMaking(s.tasks[id]) || IsUnmaking(s.tasks[id]) || IsOver(s.tasks[id])
  {
  }

  lemma MovesTwice(s: System, s1: System, s2: System, id: nat)
    requires OnlyMoves(s, s1, id) && OnlyMoves(s1, s2, id)
    ensures OnlyMoves(s, s2, id)
  {
  }

  lemma FinishMaking(singleton: bool, actions: seq<Action>, s: System, id: nat)
    returns (run: seq<Action>, s': System)
    requires s == Execute(Initial(singleton), actions) && MayGoOn(s, id) && IsMaking(s.tasks[id])
    ensures OnlyRuns(run, id) && s' == Execute(Initial(singleton), actions + run)
    ensures OnlyMoves(s, s', id) && (s'.tasks[id].MustBeSingleton? || s'.tasks[id].Live?)
  {
    run := ConstructorFinishes(singleton, actions, id);
    s' := Execute(Initial(singleton), actions + run);
    EveryRunKeepsInv(singleton, actions);
    EveryRunKeepsInv(singleton, actions + run);
  }

  lemma FinishUnmaking(singleton: bool, actions: seq<Action>, s: System, id: nat)
    returns (run: seq<Action>, s': System)
    requires s == Execute(Initial(singleton), actions) && MayGoOn(s, id) && IsUnmaking(s.tasks[id])
    ensures OnlyRuns(run, id) && s' == Execute(Initial(singleton), actions + run)
    ensures OnlyMoves(s, s', id) && s'.tasks[id].Dead?
  {
    run := DestructorFinishes(singleton, actions, id);
    s' := Execute(Initial(singleton), actions + run);
    EveryRunKeepsInv(singleton, actions);
    EveryRunKeepsInv(singleton, actions + run);
  }

  lemma Joined(singleton: bool, actions: seq<Action>, first: seq<Action>, second: seq<Action>)
    ensures Execute(Initial(singleton), actions + (first + second))
         == Execute(Initial(singleton), actions + first + second)
  {
    assert actions + (first + second) == actions + first + second;
  }

  /** The task goes through the rest of its life. */
  lemma Finish(singleton: bool, actions: seq<Action>, s: System, id: nat)
    returns (run: seq<Action>, s': System)
    requires s == Execute(Initial(singleton), actions) && MayGoOn(s, id)
    requires IsMaking(s.tasks[id]) || IsUnmaking(s.tasks[id])
    ensures OnlyRuns(run, id) && s' == Execute(Initial(singleton), actions + run)
    ensures OnlyMoves(s, s', id) && IsOver(s'.tasks[id])
  {
    if IsUnmaking(s.tasks[id]) {
      run, s' := FinishUnmaking(singleton, actions, s, id);
    } else {
      run, s' := FinishMaking(singleton, actions, s, id);
      if s'.tasks[id].Live? {
        OthersDoNotOwn(s, s', id);
        var s1, first, second := s', run, [];
        second, s' := FinishUnmaking(singleton, actions + first, s1, id);
        MovesTwice(s, s1, s', id);
        Joined(singleton, actions, first, second);
        run := first + second;
      }
    }
  }

  /** Who can go on: the owner, or anybody if there is none. */
  lemma Someone(s: System) returns (id: nat)
    requires Inv(s) && Unfinished(s.tasks) != {}
    ensures MayGoOn(s, id) && id in Unfinished(s.tasks)
    ensures IsMaking(s.tasks[id]) || IsUnmaking(s.tasks[id])
  {
    if i :| IsOwner(s, i) {
      id := i;
    } else {
      id :| id in Unfinished(s.tasks);
    }
    SomePlace(s, id);
  }

  /** All tasks of `s` are over, and the class is as before the first object. */
  ghost predicate IsEmptied(s: System, s': System) {
    && s'.tasks.Keys == s.tasks.Keys && (forall id :: id in s'.tasks ==> IsOver(s'.tasks[id]))
    && s'.objCount == 0 && s'.word.st == NotExist
  }

  lemma Emptied(s: System)
    requires Inv(s) && Unfinished(s.tasks) == {}
    ensures IsEmptied(s, s)
  {
    assert forall id :: id in s.tasks ==> id !in Unfinished(s.tasks);
    assert Counted(s.tasks) == {};
    assert forall id :: !IsOwner(s, id);
  }

  /** No interleaving leads to a deadlock: whatever has run, the tasks there are can all finish, one
      after another, and the class is then as it was before the first object. */
  lemma {:induction false} ClassCanBeEmptied(singleton: bool, actions: seq<Action>, s: System)
    returns (run: seq<Action>, s': System)
    requires s == Execute(Initial(singleton), actions)
    ensures s' == Execute(Initial(singleton), actions + run) && IsEmptied(s, s')
    ensures forall k :: 0 <= k < |run| ==> run[k].Run?
    decreases |Unfinished(s.tasks)|
  {
    assert Inv(s) by {
      EveryRunKeepsInv(singleton, actions);
    }
    if Unfinished(s.tasks) == {} {
      Emptied(s);
      run, s' := [], s;
      assert actions + run == actions;
    } else {
      var id := Someone(s);
      var first, s1 := Finish(singleton, actions, s, id);
      OneLess(s.tasks, s1.tasks, id);
      var rest: seq<Action>;
      rest, s' := ClassCanBeEmptied(singleton, actions + first, s1);
      Joined(singleton, actions, first, rest);
      run := first + rest;
    }
  }
}
