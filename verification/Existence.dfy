/** The existence protocol (C++/Existent.hpp) and its singleton variant (C++/SSingleton.hpp) as
    interleaved steps of any number of constructors and destructors. The class state word is
    changed by compare-and-exchange only; between its winning exchange and its final move_to a
    task owns the counter obj_count.

    A task is the life of one object: its constructor, the time it lives, its destructor. Every
    access to the shared word or counter is a step of its own. */
module Existence {

  // ---------- ExistenceAxis and SingletonAxis ----------

  datatype ClassState =
    | NotExist | PredecExistOne | PreincExistOne | ExistOne | MovingWhenOne
    | PredecExistSeveral | PreincExistSeveral | ExistSeveral | MovingWhenSeveral

  /** The transitions of ExistenceAxis (C++/Existent.cpp). */
  predicate ExistenceEdge(from: ClassState, to: ClassState) {
    match (from, to)
    case (NotExist, PreincExistOne) => true
    case (PreincExistOne, ExistOne) => true
    case (ExistOne, PreincExistSeveral) => true
    case (PreincExistSeveral, ExistSeveral) => true
    case (ExistSeveral, PreincExistSeveral) => true
    case (ExistSeveral, PredecExistSeveral) => true
    case (PredecExistSeveral, ExistSeveral) => true
    case (PredecExistSeveral, ExistOne) => true
    case (ExistOne, PredecExistOne) => true
    case (PredecExistOne, NotExist) => true
    case (ExistOne, MovingWhenOne) => true
    case (MovingWhenOne, ExistOne) => true
    case (ExistSeveral, MovingWhenSeveral) => true
    case (MovingWhenSeveral, ExistSeveral) => true
    case _ => false
  }

  /** SingletonAxis adds the way back of a constructor that comes too late. */
  predicate SingletonEdge(from: ClassState, to: ClassState) {
    ExistenceEdge(from, to) || (from == PreincExistSeveral && to == ExistOne)
  }

  /** The state word: a state and whether it was last written through SingletonAxis. */
  datatype Word = Word(st: ClassState, derived: bool)

  // ---------- The tasks ----------

  /** Where a task stands. `seen` is the word it loaded for the exchange that comes next. */
  datatype Pc =
    // inc_existence
    | IncFirst                              // the first call of the loop
    | IncFirstX(seen: Word)
    | IncSecond                             // the second
    | IncSecondX(seen: Word)
    | Hook                                  // SingletonStateHook, inside the second form
    | HookX(seen: Word)
    | IncCount(a: bool)                     // ++obj_count
    | IncAssert(a: bool)                    // the three asserts
    | IncMove(a: bool)                      // move_to
    | IncMoveX(a: bool, seen: Word)
    // the object exists; SSingleton's own constructor and destructor
    | Constructor                           // assert(get_obj_count() == 1)
    | SetInstance                           // complete_construction: _instance = this
    | Live
    | Destructor                            // SCHECK(get_obj_count() == 1)
    | ClearInstance                         // _instance = nullptr
    // dec_existence
    | DecFirst                              // the first call of the loop
    | DecFirstX(seen: Word)
    | DecSecond                             // the second
    | DecSecondX(seen: Word)
    | DecCount(a: bool)                     // --obj_count
    | DecAssert(a: bool)                    // assert and the choice of the final state
    | DecMove(a: bool, to: ClassState)      // move_to
    | DecMoveX(a: bool, to: ClassState, seen: Word)
    | Dead
    // exceptions and failed assertions
    | MustBeSingleton
    | ProgramError
    | InvalidTransition
    | AssertFailed

  datatype Pointer = Null | To(id: nat)

  /** `singleton` tells whether the singleton hook is installed; `instance` is SSingleton's
      static pointer. */
  datatype System = System(singleton: bool, word: Word, objCount: int, tasks: map<nat, Pc>,
                           instance: Pointer)

  function Initial(singleton: bool): System {
    System(singleton, Word(NotExist, false), 0, map[], Null)
  }

  // ---------- The steps ----------

  function Goto(s: System, id: nat, pc: Pc): System {
    s.(tasks := s.tasks[id := pc])
  }

  /** compare_exchange_strong: on success the word is replaced. */
  function Exchange(s: System, id: nat, seen: Word, to: Word, won: Pc, lost: Pc): System {
    if s.word == seen then Goto(s.(word := to), id, won) else Goto(s, id, lost)
  }

  /** The loading half of the one-state compare_and_move, with its transition check. */
  function LoadIf(s: System, id: nat, from: ClassState, edge: bool, x: Pc, otherwise: Pc): System {
    Goto(s, id, if s.word.st != from then otherwise else if edge then x else InvalidTransition)
  }

  /** The loading half of move_to, with its transition check. */
  function LoadMove(s: System, id: nat, to: ClassState, x: Pc): System {
    Goto(s, id, if ExistenceEdge(s.word.st, to) then x else InvalidTransition)
  }

  function IncTarget(a: bool): ClassState {
    if a then ExistOne else ExistSeveral
  }

  /** inc_existence up to its winning compare_and_move. */
  function IncTry(s: System, id: nat): System
    requires id in s.tasks
  {
    match s.tasks[id]
    // first try to leave not_exist, then exist_one or exist_several, until one of them succeeds
    case IncFirst =>
      LoadIf(s, id, NotExist, ExistenceEdge(NotExist, PreincExistOne), IncFirstX(s.word), IncSecond)
    case IncFirstX(seen) =>
      Exchange(s, id, seen, Word(PreincExistOne, false), IncCount(true), IncSecond)
    case IncSecond =>
      Goto(s, id,
           if s.word.st == ExistOne || s.word.st == ExistSeveral then
             (if ExistenceEdge(s.word.st, PreincExistSeveral) then IncSecondX(s.word)
              else InvalidTransition)
           else IncFirst)
    case IncSecondX(seen) =>
      Exchange(s, id, seen, Word(PreincExistSeveral, false),
               if s.singleton then Hook else IncCount(false), IncSecond)
    case _ => s
  }

  /** The rest of inc_existence, with the hook that runs inside its second compare_and_move. */
  function IncOwn(s: System, id: nat): System
    requires id in s.tasks
  {
    match s.tasks[id]
    // the hook goes back to exist_one through SingletonAxis
    case Hook =>
      LoadIf(s, id, PreincExistSeveral, SingletonEdge(PreincExistSeveral, ExistOne), HookX(s.word),
             ProgramError)
    case HookX(seen) => Exchange(s, id, seen, Word(ExistOne, true), MustBeSingleton, ProgramError)
    // the counter
    case IncCount(a) => Goto(s.(objCount := s.objCount + 1), id, IncAssert(a))
    case IncAssert(a) =>
      Goto(s, id, if s.objCount > 0 && (s.objCount == 1) == a && (s.objCount > 1) == !a
                  then IncMove(a) else AssertFailed)
    case IncMove(a) => LoadMove(s, id, IncTarget(a), IncMoveX(a, s.word))
    case IncMoveX(a, seen) =>
      Exchange(s, id, seen, Word(IncTarget(a), false),
               if s.singleton then Constructor else Live, IncMove(a))
    case _ => s
  }

  /** What SSingleton adds around the life of an object. */
  function ObjectStep(s: System, id: nat): System
    requires id in s.tasks
  {
    match s.tasks[id]
    case Constructor => Goto(s, id, if s.objCount == 1 then SetInstance else AssertFailed)
    case SetInstance => Goto(s.(instance := To(id)), id, Live)
    case Live => Goto(s, id, if s.singleton then Destructor else DecFirst)
    case Destructor => Goto(s, id, if s.objCount == 1 then ClearInstance else AssertFailed)
    case ClearInstance => Goto(s.(instance := Null), id, DecFirst)
    case _ => s
  }

  /** dec_existence up to its winning compare_and_move. */
  function DecTry(s: System, id: nat): System
    requires id in s.tasks
  {
    match s.tasks[id]
    // first try to leave exist_several, then exist_one, until one of them succeeds
    case DecFirst =>
      LoadIf(s, id, ExistSeveral, ExistenceEdge(ExistSeveral, PredecExistSeveral),
             DecFirstX(s.word), DecSecond)
    case DecFirstX(seen) =>
      Exchange(s, id, seen, Word(PredecExistSeveral, false), DecCount(true), DecSecond)
    case DecSecond =>
      LoadIf(s, id, ExistOne, ExistenceEdge(ExistOne, PredecExistOne), DecSecondX(s.word), DecFirst)
    case DecSecondX(seen) =>
      Exchange(s, id, seen, Word(PredecExistOne, false), DecCount(false), DecFirst)
    case _ => s
  }

  /** The rest of dec_existence. */
  function DecOwn(s: System, id: nat): System
    requires id in s.tasks
  {
    match s.tasks[id]
    case DecCount(a) => Goto(s.(objCount := s.objCount - 1), id, DecAssert(a))
    case DecAssert(a) =>
      Goto(s, id, if s.objCount < 0 then AssertFailed
                  else DecMove(a, if s.objCount == 1 then ExistOne
                                  else if a then ExistSeveral else NotExist))
    case DecMove(a, to) => LoadMove(s, id, to, DecMoveX(a, to, s.word))
    case DecMoveX(a, to, seen) => Exchange(s, id, seen, Word(to, false), Dead, DecMove(a, to))
    case _ => s
  }

  function Advance(s: System, id: nat): System
    requires id in s.tasks
  {
    var pc := s.tasks[id];
    if IsTrying(pc) then (if IsInc(pc) then IncTry(s, id) else DecTry(s, id))
    else if IsObject(pc) then ObjectStep(s, id)
    else if IsInc(pc) then IncOwn(s, id)
    else DecOwn(s, id)
  }

  predicate IsInc(pc: Pc) {
    pc.IncFirst? || pc.IncFirstX? || pc.IncSecond? || pc.IncSecondX? || pc.Hook? || pc.HookX?
    || pc.IncCount? || pc.IncAssert? || pc.IncMove? || pc.IncMoveX?
  }

  /** One scheduling decision: a new constructor starts, or a task takes its next step. A live
      object's next step is the start of its destructor, whenever that comes. */
  datatype Action = Spawn(id: nat) | Run(id: nat)

  function Step(s: System, a: Action): System {
    match a
    case Spawn(id) => if id in s.tasks then s else Goto(s, id, IncFirst)
    case Run(id) => if id in s.tasks then Advance(s, id) else s
  }

  /** Any interleaving. */
  function Execute(s: System, actions: seq<Action>): System {
    if actions == [] then s
    else Step(Execute(s, actions[..|actions| - 1]), actions[|actions| - 1])
  }

  // ---------- The invariant ----------

  predicate IsPre(st: ClassState) {
    st == PreincExistOne || st == PreincExistSeveral || st == PredecExistOne || st == PredecExistSeveral
  }

  /** Between the winning compare_and_move and the final move_to. */
  predicate IsCritical(pc: Pc) {
    pc.Hook? || pc.HookX? || pc.IncCount? || pc.IncAssert? || pc.IncMove? || pc.IncMoveX?
    || pc.DecCount? || pc.DecAssert? || pc.DecMove? || pc.DecMoveX?
  }

  /** The object is counted by obj_count. */
  predicate IsCounted(pc: Pc) {
    pc.IncAssert? || pc.IncMove? || pc.IncMoveX? || IsObject(pc)
    || pc.DecFirst? || pc.DecFirstX? || pc.DecSecond? || pc.DecSecondX? || pc.DecCount?
  }

  /** The object has been made and its destruction has not reached dec_existence. */
  predicate IsObject(pc: Pc) {
    pc.Constructor? || pc.SetInstance? || pc.Live? || pc.Destructor? || pc.ClearInstance?
  }

  predicate IsError(pc: Pc) {
    pc.ProgramError? || pc.InvalidTransition? || pc.AssertFailed?
  }

  function Counted(tasks: map<nat, Pc>): set<nat> {
    set id | id in tasks && IsCounted(tasks[id])
  }

  /** What the owner of the class state knows of the word and the counter. */
  predicate OwnerInv(pc: Pc, w: Word, n: int) {
    match pc
    case Hook => w.st == PreincExistSeveral && n >= 1
    case HookX(seen) => w.st == PreincExistSeveral && n >= 1 && seen == w
    case IncCount(a) => if a then w.st == PreincExistOne && n == 0
                        else w.st == PreincExistSeveral && n >= 1
    case IncAssert(a) => Counting(a, w.st, n)
    case IncMove(a) => Counting(a, w.st, n)
    case IncMoveX(a, seen) => Counting(a, w.st, n) && seen == w
    case DecCount(a) => if a then w.st == PredecExistSeveral && n >= 2
                        else w.st == PredecExistOne && n == 1
    case DecAssert(a) => if a then w.st == PredecExistSeveral && n >= 1
                         else w.st == PredecExistOne && n == 0
    case DecMove(a, to) => Leaving(a, to, w.st, n)
    case DecMoveX(a, to, seen) => Leaving(a, to, w.st, n) && seen == w
    case _ => true
  }

  predicate Counting(a: bool, st: ClassState, n: int) {
    if a then st == PreincExistOne && n == 1 else st == PreincExistSeveral && n >= 2
  }

  predicate Leaving(a: bool, to: ClassState, st: ClassState, n: int) {
    if a then st == PredecExistSeveral && n >= 1 && to == (if n == 1 then ExistOne else ExistSeveral)
    else st == PredecExistOne && n == 0 && to == NotExist
  }

  /** What a loaded word was found to be before the exchange. */
  predicate SeenInv(pc: Pc) {
    match pc
    case IncFirstX(seen) => seen.st == NotExist
    case IncSecondX(seen) => seen.st == ExistOne || seen.st == ExistSeveral
    case DecFirstX(seen) => seen.st == ExistSeveral
    case DecSecondX(seen) => seen.st == ExistOne
    case _ => true
  }

  /** The places only the singleton variant has, and the ones it never reaches. */
  predicate VariantInv(pc: Pc, singleton: bool) {
    match pc
    case Hook => singleton
    case HookX(_) => singleton
    case Constructor => singleton
    case SetInstance => singleton
    case Destructor => singleton
    case ClearInstance => singleton
    case MustBeSingleton => singleton
    case IncCount(a) => singleton ==> a
    case IncAssert(a) => singleton ==> a
    case IncMove(a) => singleton ==> a
    case IncMoveX(a, _) => singleton ==> a
    case DecFirstX(_) => !singleton
    case DecCount(a) => singleton ==> !a
    case DecAssert(a) => singleton ==> !a
    case DecMove(a, _) => singleton ==> !a
    case DecMoveX(a, _, _) => singleton ==> !a
    case _ => true
  }

  /** In the states between critical sections the word says how many objects there are. */
  predicate StableInv(st: ClassState, n: int) {
    match st
    case NotExist => n == 0
    case ExistOne => n == 1
    case ExistSeveral => n >= 2
    case MovingWhenOne => false
    case MovingWhenSeveral => false
    case _ => true
  }

  ghost predicate TaskInv(s: System, id: nat)
    requires id in s.tasks
  {
    var pc := s.tasks[id];
    !IsError(pc) && SeenInv(pc) && OwnerInv(pc, s.word, s.objCount) && VariantInv(pc, s.singleton)
  }

  ghost predicate IsOwner(s: System, id: nat) {
    id in s.tasks && IsCritical(s.tasks[id])
  }

  ghost predicate Inv(s: System) {
    && (forall id :: id in s.tasks ==> TaskInv(s, id))
    && OwnershipInv(s)
    && StableInv(s.word.st, s.objCount)
    && s.objCount == |Counted(s.tasks)|
    && InstanceInv(s)
  }

  /** At most one task is in its critical section, and one is exactly in the pre-states. */
  ghost predicate OwnershipInv(s: System) {
    && (forall i, j :: IsOwner(s, i) && IsOwner(s, j) ==> i == j)
    && (IsPre(s.word.st) ==> exists id :: IsOwner(s, id))
    && (forall id :: IsOwner(s, id) ==> IsPre(s.word.st))
  }

  /** With the hook there is never a second object, and _instance points to the one that has
      completed its construction and not begun to be destroyed. */
  ghost predicate InstanceInv(s: System) {
    && (s.singleton ==> s.objCount <= 1 && s.word.st != PredecExistSeveral)
    && (forall id :: id in s.tasks && HoldsInstance(s, id) ==> s.instance == To(id))
    && (s.instance.To? ==> s.instance.id in s.tasks && HoldsInstance(s, s.instance.id))
  }

  predicate HoldsInstance(s: System, id: nat)
    requires id in s.tasks
  {
    s.singleton && IsHolder(s.tasks[id])
  }

  predicate IsHolder(pc: Pc) {
    pc.Live? || pc.Destructor? || pc.ClearInstance?
  }

  // ---------- The invariant is kept ----------

  lemma CountedUpdate(tasks: map<nat, Pc>, id: nat, pc: Pc)
    ensures Counted(tasks[id := pc])
         == if IsCounted(pc) then Counted(tasks) + {id} else Counted(tasks) - {id}
  {
  }

  /** The counter after a task moved on. */
  lemma CountAfter(tasks: map<nat, Pc>, id: nat, pc: Pc)
    ensures |Counted(tasks[id := pc])| - |Counted(tasks)|
         == (if IsCounted(pc) then 1 else 0)
            - (if id in tasks && IsCounted(tasks[id]) then 1 else 0)
  {
    CountedUpdate(tasks, id, pc);
    assert id in Counted(tasks) <==> id in tasks && IsCounted(tasks[id]);
  }

  /** A task that has not started counts as one that has not entered its loop. */
  function PcOf(s: System, id: nat): Pc {
    if id in s.tasks then s.tasks[id] else IncFirst
  }

  lemma OwnersAfter(s: System, s': System, id: nat, pc: Pc)
    requires OwnershipInv(s) && s'.tasks == s.tasks[id := pc]
    requires IsPre(s'.word.st) == IsPre(s.word.st) && IsCritical(pc) == IsCritical(PcOf(s, id))
    ensures OwnershipInv(s')
  {
    forall i | i != id ensures IsOwner(s', i) == IsOwner(s, i) {
    }
    assert IsOwner(s', id) == IsOwner(s, id);
    if IsPre(s'.word.st) {
      var o :| IsOwner(s, o);
      assert IsOwner(s', o);
    }
  }

  lemma InstanceAfter(s: System, s': System, id: nat, pc: Pc)
    requires InstanceInv(s) && s'.tasks == s.tasks[id := pc] && s'.singleton == s.singleton
    requires s'.instance == s.instance
    requires s.singleton ==> IsHolder(pc) == IsHolder(PcOf(s, id))
    requires s.singleton ==> s'.objCount <= 1 && s'.word.st != PredecExistSeveral
    ensures InstanceInv(s')
  {
  }

  lemma OthersAfter(s: System, s': System, id: nat, pc: Pc)
    requires forall i :: i in s.tasks ==> TaskInv(s, i)
    requires s'.tasks == s.tasks[id := pc] && s'.singleton == s.singleton
    requires TaskInv(s', id)
    requires (s'.word == s.word && s'.objCount == s.objCount)
             || forall i :: i != id ==> !IsOwner(s, i)
    ensures forall i :: i in s'.tasks ==> TaskInv(s', i)
  {
    forall i | i in s'.tasks && i != id ensures TaskInv(s', i) {
      assert TaskInv(s, i);
      if s'.word != s.word || s'.objCount != s.objCount {
        assert !IsOwner(s, i);
      }
    }
  }

  /** A step that changes neither the word nor the counter nor the task's standing. */
  lemma LocalStep(s: System, id: nat, pc: Pc)
    requires Inv(s)
    requires IsCritical(pc) == IsCritical(PcOf(s, id)) && IsCounted(pc) == IsCounted(PcOf(s, id))
    requires s.singleton ==> IsHolder(pc) == IsHolder(PcOf(s, id))
    requires TaskInv(Goto(s, id, pc), id)
    ensures Inv(Goto(s, id, pc))
  {
    var s' := Goto(s, id, pc);
    CountAfter(s.tasks, id, pc);
    OthersAfter(s, s', id, pc);
    OwnersAfter(s, s', id, pc);
    InstanceAfter(s, s', id, pc);
  }

  /** A step that may change the word and the counter, while no other task is critical. */
  lemma SoleStep(s: System, s': System, id: nat, pc: Pc)
    requires Inv(s) && id in s.tasks && s'.tasks == s.tasks[id := pc]
    requires s'.singleton == s.singleton && s'.instance == s.instance
    requires forall i :: i != id ==> !IsOwner(s, i)
    requires TaskInv(s', id) && IsCritical(pc) == IsPre(s'.word.st)
    requires StableInv(s'.word.st, s'.objCount)
    requires s.singleton ==> s'.objCount <= 1 && s'.word.st != PredecExistSeveral
    requires s'.objCount - s.objCount
             == (if IsCounted(pc) then 1 else 0) - (if IsCounted(s.tasks[id]) then 1 else 0)
    requires s.singleton ==> IsHolder(pc) == IsHolder(s.tasks[id])
    ensures Inv(s')
  {
    CountAfter(s.tasks, id, pc);
    OthersAfter(s, s', id, pc);
    forall i | i != id ensures !IsOwner(s', i) {
      assert !IsOwner(s, i);
    }
    assert IsOwner(s', id) == IsCritical(pc);
  }

  /** Counted tasks are not more than the counter says. */
  lemma CountBounds(s: System, i: nat, j: nat)
    requires Inv(s) && i in s.tasks && IsCounted(s.tasks[i])
    ensures s.objCount >= 1
    ensures j in s.tasks && IsCounted(s.tasks[j]) && s.objCount == 1 ==> i == j
  {
    assert i in Counted(s.tasks);
    if j in s.tasks && IsCounted(s.tasks[j]) && i != j {
      assert j in Counted(s.tasks) - {i};
      assert |Counted(s.tasks) - {i}| == |Counted(s.tasks)| - 1;
    }
  }

  lemma SoleOwner(s: System, id: nat)
    requires Inv(s) && id in s.tasks && (IsOwner(s, id) || !IsPre(s.word.st))
    ensures forall i :: i != id ==> !IsOwner(s, i)
  {
  }

  /** The places where a task waits for its turn. */
  predicate IsTrying(pc: Pc) {
    pc.IncFirst? || pc.IncFirstX? || pc.IncSecond? || pc.IncSecondX?
    || pc.DecFirst? || pc.DecFirstX? || pc.DecSecond? || pc.DecSecondX?
  }

  /** A task that waits either goes on waiting or becomes the owner of a stable class state. */
  lemma TryingStep(s: System, id: nat)
    requires Inv(s) && id in s.tasks && IsTrying(s.tasks[id])
    ensures Inv(Advance(s, id))
  {
    if Advance(s, id).word != s.word {
      WinningStep(s, id);
    } else {
      WaitingStep(s, id);
    }
  }

  /** What a waiting task knows of the counter while nobody owns the class state. */
  ghost predicate CounterInv(s: System) {
    StableInv(s.word.st, s.objCount) && (s.singleton ==> s.objCount <= 1)
  }

  /** The task moved on from `pc` to `pc'` and nothing else changed. */
  ghost predicate OnlyTaskChanged(s: System, s': System, id: nat) {
    id in s'.tasks && s' == Goto(s, id, s'.tasks[id]) && TaskInv(s', id)
  }

  lemma IncWaits(s: System, id: nat)
    requires id in s.tasks && TaskInv(s, id) && IsTrying(s.tasks[id]) && IsInc(s.tasks[id])
    requires IncTry(s, id).word == s.word
    ensures OnlyTaskChanged(s, IncTry(s, id), id) && IsTrying(IncTry(s, id).tasks[id])
            && IsInc(IncTry(s, id).tasks[id])
  {
  }

  lemma DecWaits(s: System, id: nat)
    requires id in s.tasks && TaskInv(s, id) && IsTrying(s.tasks[id]) && !IsInc(s.tasks[id])
    requires CounterInv(s) && DecTry(s, id).word == s.word
    ensures OnlyTaskChanged(s, DecTry(s, id), id) && IsTrying(DecTry(s, id).tasks[id])
            && !IsInc(DecTry(s, id).tasks[id])
  {
  }

  lemma TryingStandsStill(pc: Pc, pc': Pc)
    requires IsTrying(pc) && IsTrying(pc') && IsInc(pc) == IsInc(pc')
    ensures IsCritical(pc) == IsCritical(pc') && IsCounted(pc) == IsCounted(pc')
    ensures IsHolder(pc) == IsHolder(pc')
  {
  }

  lemma TryingChanged(s: System, id: nat, pc: Pc)
    requires Inv(s) && id in s.tasks && IsTrying(s.tasks[id]) && IsTrying(pc)
    requires TaskInv(Goto(s, id, pc), id) && IsInc(pc) == IsInc(s.tasks[id])
    ensures Inv(Goto(s, id, pc))
  {
    TryingStandsStill(s.tasks[id], pc);
    LocalStep(s, id, pc);
  }

  lemma WaitingStep(s: System, id: nat)
    requires Inv(s) && id in s.tasks && IsTrying(s.tasks[id])
    requires Advance(s, id).word == s.word
    ensures Inv(Advance(s, id))
  {
    assert TaskInv(s, id);
    if IsInc(s.tasks[id]) {
      IncWaits(s, id);
    } else {
      DecWaits(s, id);
    }
    TryingChanged(s, id, Advance(s, id).tasks[id]);
  }

  /** A winning exchange: a stable word makes place for a pre-state, the counter stays. */
  ghost predicate Wins(s: System, s': System, id: nat)
    requires id in s.tasks && id in s'.tasks
  {
    var pc := s'.tasks[id];
    && s' == Goto(s.(word := s'.word), id, pc)
    && !IsPre(s.word.st) && IsPre(s'.word.st) && IsCritical(pc) && TaskInv(s', id)
    && IsCounted(pc) == IsCounted(s.tasks[id]) && !IsHolder(pc)
    && (s.singleton ==> s'.word.st != PredecExistSeveral)
  }

  lemma IncWins(s: System, id: nat)
    requires id in s.tasks && TaskInv(s, id) && CounterInv(s) && IsTrying(s.tasks[id])
    requires IsInc(s.tasks[id]) && IncTry(s, id).word != s.word
    ensures Wins(s, IncTry(s, id), id)
  {
    IncWinsTo(s, id);
    if s.tasks[id].IncFirstX? {
      FirstWins(s, id);
    } else {
      SecondWins(s, id);
    }
  }

  lemma FirstWins(s: System, id: nat)
    requires id in s.tasks && s.tasks[id].IncFirstX? && s.tasks[id].seen == s.word
    requires TaskInv(s, id) && CounterInv(s)
    ensures Wins(s, Goto(s.(word := Word(PreincExistOne, false)), id, IncCount(true)), id)
  {
  }

  lemma SecondWins(s: System, id: nat)
    requires id in s.tasks && s.tasks[id].IncSecondX? && s.tasks[id].seen == s.word
    requires TaskInv(s, id) && CounterInv(s)
    ensures Wins(s, Goto(s.(word := Word(PreincExistSeveral, false)), id,
                         if s.singleton then Hook else IncCount(false)), id)
  {
  }

  lemma IncWinsTo(s: System, id: nat)
    requires id in s.tasks && IsTrying(s.tasks[id])
    requires IsInc(s.tasks[id]) && IncTry(s, id).word != s.word
    ensures s.tasks[id].IncFirstX? || s.tasks[id].IncSecondX?
    ensures IncTry(s, id)
         == if s.tasks[id].IncFirstX? then
              Goto(s.(word := Word(PreincExistOne, false)), id, IncCount(true))
            else
              Goto(s.(word := Word(PreincExistSeveral, false)), id,
                   if s.singleton then Hook else IncCount(false))
    ensures s.tasks[id].seen == s.word
  {
  }

  lemma DecWins(s: System, id: nat)
    requires id in s.tasks && TaskInv(s, id) && CounterInv(s) && IsTrying(s.tasks[id])
    requires !IsInc(s.tasks[id]) && DecTry(s, id).word != s.word
    ensures Wins(s, DecTry(s, id), id)
  {
  }

  lemma WinningStep(s: System, id: nat)
    requires Inv(s) && id in s.tasks && IsTrying(s.tasks[id])
    requires Advance(s, id).word != s.word
    ensures Inv(Advance(s, id))
  {
    assert TaskInv(s, id);
    if IsInc(s.tasks[id]) {
      IncWins(s, id);
    } else {
      DecWins(s, id);
    }
    SoleOwner(s, id);
    SoleStep(s, Advance(s, id), id, Advance(s, id).tasks[id]);
  }

  /** The owner's steps: the hook, the counter, the assertions and the final move. */
  lemma OwnerStep(s: System, id: nat)
    requires Inv(s) && IsOwner(s, id)
    ensures Inv(Advance(s, id))
  {
    var pc := s.tasks[id];
    if OwnerWaits(pc) {
      OwnerPrepares(s, id);
    } else if pc.IncCount? || pc.DecCount? {
      OwnerCounts(s, id);
    } else {
      OwnerLeaves(s, id);
    }
  }

  predicate OwnerWaits(pc: Pc) {
    pc.Hook? || pc.IncAssert? || pc.IncMove? || pc.DecAssert? || pc.DecMove?
  }

  lemma OwnerFacts(s: System, id: nat)
    requires id in s.tasks && TaskInv(s, id) && OwnerWaits(s.tasks[id])
    ensures var pc := Advance(s, id).tasks[id];
            Advance(s, id) == Goto(s, id, pc) && IsCritical(pc)
            && IsCounted(pc) == IsCounted(s.tasks[id]) && TaskInv(Goto(s, id, pc), id)
  {
  }

  lemma OwnerPrepares(s: System, id: nat)
    requires Inv(s) && IsOwner(s, id) && OwnerWaits(s.tasks[id])
    ensures Inv(Advance(s, id))
  {
    assert TaskInv(s, id);
    OwnerFacts(s, id);
    LocalStep(s, id, Advance(s, id).tasks[id]);
  }

  lemma OwnerCounts(s: System, id: nat)
    requires Inv(s) && IsOwner(s, id) && (s.tasks[id].IncCount? || s.tasks[id].DecCount?)
    ensures Inv(Advance(s, id))
  {
    assert TaskInv(s, id);
    SoleOwner(s, id);
    var s' := Advance(s, id);
    SoleStep(s, s', id, s'.tasks[id]);
  }

  /** The owner leaves: by the final move_to, or by the hook's way back. */
  ghost predicate Leaves(s: System, s': System, id: nat)
    requires id in s.tasks && id in s'.tasks
  {
    var pc := s'.tasks[id];
    && s' == Goto(s.(word := s'.word), id, pc) && TaskInv(s', id)
    && StableInv(s'.word.st, s'.objCount) && !IsPre(s'.word.st) && !IsCritical(pc)
    && IsCounted(pc) == IsCounted(s.tasks[id]) && (s.singleton ==> !IsHolder(pc))
  }

  lemma HookLeaves(s: System, id: nat)
    requires id in s.tasks && TaskInv(s, id) && s.tasks[id].HookX? && (s.singleton ==> s.objCount <= 1)
    ensures Leaves(s, IncOwn(s, id), id)
  {
  }

  lemma IncMoveLeaves(s: System, id: nat)
    requires id in s.tasks && TaskInv(s, id) && s.tasks[id].IncMoveX?
    ensures Leaves(s, IncOwn(s, id), id)
  {
  }

  lemma DecLeaves(s: System, id: nat)
    requires id in s.tasks && TaskInv(s, id) && s.tasks[id].DecMoveX?
    ensures Leaves(s, DecOwn(s, id), id)
  {
  }

  lemma OwnerLeaves(s: System, id: nat)
    requires Inv(s) && IsOwner(s, id) && !OwnerWaits(s.tasks[id])
    requires s.tasks[id].HookX? || s.tasks[id].IncMoveX? || s.tasks[id].DecMoveX?
    ensures Inv(Advance(s, id))
  {
    assert TaskInv(s, id);
    if s.tasks[id].HookX? {
      HookLeaves(s, id);
    } else if s.tasks[id].IncMoveX? {
      IncMoveLeaves(s, id);
    } else {
      DecLeaves(s, id);
    }
    SoleOwner(s, id);
    SoleStep(s, Advance(s, id), id, Advance(s, id).tasks[id]);
  }

  /** The steps of an existing object. */
  lemma ObjectStepKeepsInv(s: System, id: nat)
    requires Inv(s) && id in s.tasks && IsObject(s.tasks[id])
    ensures Inv(Advance(s, id))
  {
    assert TaskInv(s, id);
    CountBounds(s, id, id);
    var s' := Advance(s, id);
    if s'.instance == s.instance && !s.tasks[id].SetInstance? && !s.tasks[id].ClearInstance? {
      LocalStep(s, id, s'.tasks[id]);
    } else {
      InstanceStep(s, id);
    }
  }

  /** The one object there is, by the count, is the only one _instance can point to. */
  lemma SoleHolder(s: System, id: nat)
    requires Inv(s) && id in s.tasks && IsCounted(s.tasks[id]) && s.singleton
    ensures forall i :: i in s.tasks && HoldsInstance(s, i) ==> i == id
  {
    forall i | i in s.tasks && HoldsInstance(s, i) ensures i == id {
      CountBounds(s, id, i);
    }
  }

  lemma InstanceMoves(s: System, s': System, id: nat, pc: Pc)
    requires InstanceInv(s) && s.singleton && s' == Goto(s.(instance := s'.instance), id, pc)
    requires forall i :: i in s.tasks && HoldsInstance(s, i) ==> i == id
    requires s'.instance == if IsHolder(pc) then To(id) else Null
    ensures InstanceInv(s')
  {
  }

  lemma InstanceAdvance(s: System, id: nat)
    requires id in s.tasks && TaskInv(s, id) && (s.tasks[id].SetInstance? || s.tasks[id].ClearInstance?)
    ensures var pc := if s.tasks[id].SetInstance? then Live else DecFirst;
            Advance(s, id) == Goto(s.(instance := if IsHolder(pc) then To(id) else Null), id, pc)
            && s.singleton && IsCounted(s.tasks[id]) && IsCounted(pc)
            && IsCritical(pc) == IsCritical(s.tasks[id]) && TaskInv(Advance(s, id), id)
  {
  }

  lemma InstanceStep(s: System, id: nat)
    requires Inv(s) && id in s.tasks && (s.tasks[id].SetInstance? || s.tasks[id].ClearInstance?)
    ensures Inv(Advance(s, id))
  {
    assert TaskInv(s, id);
    InstanceAdvance(s, id);
    SoleHolder(s, id);
    InstanceMoved(s, Advance(s, id), id, if s.tasks[id].SetInstance? then Live else DecFirst);
  }

  lemma InstanceMoved(s: System, s': System, id: nat, pc: Pc)
    requires Inv(s) && s.singleton && id in s.tasks && s' == Goto(s.(instance := s'.instance), id, pc)
    requires forall i :: i in s.tasks && HoldsInstance(s, i) ==> i == id
    requires s'.instance == if IsHolder(pc) then To(id) else Null
    requires IsCounted(s.tasks[id]) && IsCounted(pc) && IsCritical(pc) == IsCritical(s.tasks[id])
    requires TaskInv(s', id)
    ensures Inv(s')
  {
    CountAfter(s.tasks, id, pc);
    OthersAfter(s, s', id, pc);
    OwnersAfter(s, s', id, pc);
    InstanceMoves(s, s', id, pc);
  }

  lemma StepKeepsInv(s: System, a: Action)
    requires Inv(s)
    ensures Inv(Step(s, a))
  {
    match a
    case Spawn(id) =>
      if id !in s.tasks {
        LocalStep(s, id, IncFirst);
      }
    case Run(id) =>
      if id in s.tasks {
        if IsTrying(s.tasks[id]) {
          TryingStep(s, id);
        } else if IsCritical(s.tasks[id]) {
          OwnerStep(s, id);
        } else if IsObject(s.tasks[id]) {
          ObjectStepKeepsInv(s, id);
        }
      }
  }

  // ---------- Main results, for every interleaving ----------

  lemma InitialInv(singleton: bool)
    ensures Inv(Initial(singleton))
  {
    assert Counted(map[]) == {};
  }

  lemma {:induction false} EveryRunKeepsInv(singleton: bool, actions: seq<Action>)
    ensures Inv(Execute(Initial(singleton), actions))
    ensures Execute(Initial(singleton), actions).singleton == singleton
  {
    if actions == [] {
      InitialInv(singleton);
    } else {
      var n := |actions| - 1;
      EveryRunKeepsInv(singleton, actions[..n]);
      StepKeepsInv(Execute(Initial(singleton), actions[..n]), actions[n]);
      StepKeepsVariant(Execute(Initial(singleton), actions[..n]), actions[n]);
    }
  }

  lemma StepKeepsVariant(s: System, a: Action)
    ensures Step(s, a).singleton == s.singleton
  {
  }

  /** At most one task is between its winning compare_and_move and its final move_to, and the
      class is in a pre-state exactly while there is one. */
  lemma MutualExclusion(singleton: bool, actions: seq<Action>)
    ensures var s := Execute(Initial(singleton), actions);
            && (forall i, j :: IsOwner(s, i) && IsOwner(s, j) ==> i == j)
            && (IsPre(s.word.st) <==> exists id :: IsOwner(s, id))
  {
    EveryRunKeepsInv(singleton, actions);
  }

  /** Outside the pre-states the class state says how many objects there are; the moving states
      never occur. */
  lemma StableStatesCount(singleton: bool, actions: seq<Action>)
    ensures var s := Execute(Initial(singleton), actions);
            !IsPre(s.word.st) ==>
              && (s.word.st == NotExist <==> s.objCount == 0)
              && (s.word.st == ExistOne <==> s.objCount == 1)
              && (s.word.st == ExistSeveral <==> s.objCount >= 2)
  {
    EveryRunKeepsInv(singleton, actions);
  }

  /** No assertion on obj_count fails, no move_to throws, and the hook's "check the state design"
      branch is never taken. */
  lemma NothingFails(singleton: bool, actions: seq<Action>, id: nat)
    ensures var s := Execute(Initial(singleton), actions);
            id in s.tasks ==> !IsError(s.tasks[id])
  {
    EveryRunKeepsInv(singleton, actions);
    var s := Execute(Initial(singleton), actions);
    if id in s.tasks {
      assert TaskInv(s, id);
    }
  }

  /** What the code asserts or checks holds where it does so, in every interleaving: the three
      assertions of inc_existence, that of dec_existence, the transitions of the final moves and of
      the hook, and the checks of SSingleton's constructor and destructor. */
  ghost predicate AssertionsHold(s: System, pc: Pc) {
    && (pc.IncAssert? ==> s.objCount > 0 && (s.objCount == 1) == pc.a && (s.objCount > 1) == !pc.a)
    && (pc.DecAssert? ==> s.objCount >= 0)
    && (pc.IncMove? ==> ExistenceEdge(s.word.st, if pc.a then ExistOne else ExistSeveral))
    && (pc.DecMove? ==> ExistenceEdge(s.word.st, pc.to)
                        && pc.to == (if s.objCount == 0 then NotExist
                                     else if s.objCount == 1 then ExistOne else ExistSeveral))
    && (pc.Hook? ==> s.word.st == PreincExistSeveral)
    && (pc.Constructor? || pc.Destructor? ==> s.objCount == 1)
  }

  lemma EveryAssertionHolds(singleton: bool, actions: seq<Action>, id: nat)
    ensures var s := Execute(Initial(singleton), actions);
            id in s.tasks ==> AssertionsHold(s, s.tasks[id])
  {
    EveryRunKeepsInv(singleton, actions);
    var s := Execute(Initial(singleton), actions);
    if id in s.tasks {
      AssertionsOf(s, id);
    }
  }

  lemma AssertionsOf(s: System, id: nat)
    requires Inv(s) && id in s.tasks
    ensures AssertionsHold(s, s.tasks[id])
  {
    assert TaskInv(s, id);
    if IsCounted(s.tasks[id]) {
      CountBounds(s, id, id);
    }
  }

  /** While a task owns the class state, the steps of all others leave the word and the counter
      alone: the state word is a lock. The owner's successive reads of obj_count therefore see
      one value, so it makes no difference that its assertions are one step here. */
  lemma OwnerIsUndisturbed(singleton: bool, actions: seq<Action>, id: nat, a: Action)
    ensures var s := Execute(Initial(singleton), actions);
            IsOwner(s, id) && a != Run(id) ==>
              var s' := Step(s, a);
              s'.word == s.word && s'.objCount == s.objCount
              && IsOwner(s', id) && s'.tasks[id] == s.tasks[id]
  {
    EveryRunKeepsInv(singleton, actions);
    var s := Execute(Initial(singleton), actions);
    if IsOwner(s, id) && a != Run(id) && a.Run? && a.id in s.tasks {
      OutsiderIsShut(s, id, a.id);
      OutsiderStep(s, a.id);
    }
  }

  lemma OutsiderIsShut(s: System, id: nat, other: nat)
    requires Inv(s) && IsOwner(s, id) && other != id && other in s.tasks
    ensures TaskInv(s, other) && !IsCritical(s.tasks[other]) && IsPre(s.word.st)
  {
    assert !IsOwner(s, other);
  }

  lemma OutsiderStep(s: System, id: nat)
    requires id in s.tasks && TaskInv(s, id) && !IsCritical(s.tasks[id]) && IsPre(s.word.st)
    ensures Advance(s, id).word == s.word && Advance(s, id).objCount == s.objCount
    ensures forall i :: i != id && i in s.tasks ==>
              i in Advance(s, id).tasks && Advance(s, id).tasks[i] == s.tasks[i]
  {
  }

  /** How many steps the owner still has to take. */
  function StepsLeft(pc: Pc): nat {
    match pc
    case IncCount(_) => 4
    case IncAssert(_) => 3
    case DecCount(_) => 4
    case DecAssert(_) => 3
    case IncMove(_) => 2
    case DecMove(_, _) => 2
    case Hook => 2
    case IncMoveX(_, _) => 1
    case DecMoveX(_, _, _) => 1
    case HookX(_) => 1
    case _ => 0
  }

  lemma Countdown(s: System, id: nat)
    requires id in s.tasks && TaskInv(s, id) && IsCritical(s.tasks[id])
    ensures 1 <= StepsLeft(s.tasks[id]) <= 4
    ensures StepsLeft(Advance(s, id).tasks[id]) == StepsLeft(s.tasks[id]) - 1
  {
  }

  /** An owner leaves after at most four steps of its own: none of its exchanges is repeated. */
  lemma OwnerLeavesInTime(singleton: bool, actions: seq<Action>, id: nat)
    ensures var s := Execute(Initial(singleton), actions);
            IsOwner(s, id) ==>
              1 <= StepsLeft(s.tasks[id]) <= 4
              && StepsLeft(Step(s, Run(id)).tasks[id]) == StepsLeft(s.tasks[id]) - 1
  {
    EveryRunKeepsInv(singleton, actions);
    var s := Execute(Initial(singleton), actions);
    if IsOwner(s, id) {
      assert TaskInv(s, id);
      Countdown(s, id);
    }
  }

  lemma ChangeIsEdge(s: System, id: nat)
    requires id in s.tasks && TaskInv(s, id)
    ensures var to := Advance(s, id).word.st;
            Advance(s, id).word != s.word ==>
              SingletonEdge(s.word.st, to) && (!s.singleton ==> ExistenceEdge(s.word.st, to))
  {
  }

  /** Every change of the class state, in every interleaving, is a transition of its axis:
      ExistenceAxis, or SingletonAxis when the hook is installed. */
  lemma EveryChangeIsAnEdge(singleton: bool, actions: seq<Action>, a: Action)
    ensures var s := Execute(Initial(singleton), actions);
            var to := Step(s, a).word.st;
            Step(s, a).word != s.word ==>
              SingletonEdge(s.word.st, to) && (!singleton ==> ExistenceEdge(s.word.st, to))
  {
    EveryRunKeepsInv(singleton, actions);
    var s := Execute(Initial(singleton), actions);
    if a.Run? && a.id in s.tasks {
      assert TaskInv(s, a.id);
      ChangeIsEdge(s, a.id);
    }
  }

  /** Every task has finished its constructor or its destructor. */
  ghost predicate IsQuiescent(s: System) {
    forall id :: id in s.tasks ==> s.tasks[id] in {Live, Dead, MustBeSingleton}
  }

  function LiveObjects(s: System): set<nat> {
    set id | id in s.tasks && s.tasks[id] == Live
  }

  lemma QuiescentCounted(s: System)
    requires IsQuiescent(s)
    ensures Counted(s.tasks) == LiveObjects(s) && forall id :: !IsOwner(s, id)
  {
  }

  /** When no constructor or destructor is running, obj_count is the number of live objects. */
  lemma QuiescentCount(singleton: bool, actions: seq<Action>)
    ensures var s := Execute(Initial(singleton), actions);
            IsQuiescent(s) ==> s.objCount == |LiveObjects(s)| && !IsPre(s.word.st)
  {
    EveryRunKeepsInv(singleton, actions);
    var s := Execute(Initial(singleton), actions);
    if IsQuiescent(s) {
      QuiescentCounted(s);
    }
  }

  // ---------- The singleton ----------

  /** With the hook installed the class never gets to several objects. */
  lemma NeverSeveral(actions: seq<Action>)
    ensures var s := Execute(Initial(true), actions);
            s.objCount <= 1 && s.word.st != ExistSeveral && s.word.st != PredecExistSeveral
  {
    EveryRunKeepsInv(true, actions);
  }

  /** _instance is null or the one object whose construction is complete. */
  lemma InstanceIsTheObject(actions: seq<Action>, id: nat)
    ensures var s := Execute(Initial(true), actions);
            s.instance == To(id) <==> id in s.tasks && IsHolder(s.tasks[id])
  {
    EveryRunKeepsInv(true, actions);
  }

  /** A constructor that finds an object throws MustBeSingleton at its hook's second step,
      whatever ran in between; it leaves the count alone and puts the class back. */
  lemma LoserPutsBack(actions: seq<Action>, id: nat)
    ensures var s := Execute(Initial(true), actions);
            id in s.tasks && s.tasks[id].HookX? ==>
              && s.objCount == 1
              && Step(s, Run(id)) == s.(word := Word(ExistOne, true),
                                        tasks := s.tasks[id := MustBeSingleton])
  {
    EveryRunKeepsInv(true, actions);
    var s := Execute(Initial(true), actions);
    if id in s.tasks {
      assert TaskInv(s, id);
    }
  }
}
