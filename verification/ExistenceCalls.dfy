/** inc_existence and dec_existence as the loops they are (C++/Existent.hpp), for one thread that
    meets no other. Each call ends where a run of the interleaved machine with this one task
    ends. */
module ExistenceCalls {
  import opened Existence

  /** The machine with one task. */
  function Solo(singleton: bool, w: Word, n: int, pc: Pc): System {
    System(singleton, w, n, map[0 := pc], Null)
  }

  predicate OnlyRuns(run: seq<Action>) {
    forall k :: 0 <= k < |run| ==> run[k] == Run(0)
  }

  /** A stable class state that tells the number of objects. */
  predicate IsBetweenCalls(singleton: bool, w: Word, n: int) {
    !IsPre(w.st) && StableInv(w.st, n) && (singleton ==> n <= 1)
  }

  datatype CallResult = Returned | ThrewMustBeSingleton | ThrewProgramError

  class ExistentClass {
    var word: Word
    var objCount: int
    const singleton: bool

    predicate Valid()
      reads this
    {
      IsBetweenCalls(singleton, word, objCount)
    }

    /** The machine in this state, with a task at `pc`. */
    function Machine(pc: Pc): System
      reads this
    {
      Solo(singleton, word, objCount, pc)
    }

    constructor (singleton: bool)
      ensures Valid() && word == Word(NotExist, false) && objCount == 0 && this.singleton == singleton
    {
      this.singleton := singleton;
      word, objCount := Word(NotExist, false), 0;
    }

    /** compare_and_move from a set of states; all its transitions exist. */
    method CompareAndMove(froms: set<ClassState>, to: Word) returns (ok: bool)
      requires word.st in froms ==> SingletonEdge(word.st, to.st)
      modifies this`word
      ensures ok <==> old(word).st in froms
      ensures word == if ok then to else old(word)
    {
      ok := word.st in froms;
      if ok {
        word := to;
      }
    }

    /** move_to: the transition exists, so it does not throw. */
    method MoveTo(to: ClassState)
      requires ExistenceEdge(word.st, to)
      modifies this`word
      ensures word == Word(to, false)
    {
      word := Word(to, false);
    }

    method IncExistence() returns (r: CallResult, ghost run: seq<Action>)
      requires Valid()
      modifies this
      ensures Valid()
      ensures r != ThrewProgramError
      ensures r == ThrewMustBeSingleton <==> singleton && old(word).st == ExistOne
      ensures objCount == old(objCount) + (if r == Returned then 1 else 0)
      ensures OnlyRuns(run)
      ensures Execute(old(Machine(IncFirst)), run)
           == Machine(if r == ThrewMustBeSingleton then MustBeSingleton
                      else if singleton then Constructor else Live)
    {
      run := SoloInc(singleton, word, objCount);
      var a, b := false, false;
      while !(a || b)
        invariant !(a || b) ==> unchanged(this)
        invariant a ==> !b && word.st == PreincExistOne && objCount == 0 && old(word).st == NotExist
        invariant b ==> !singleton && word.st == PreincExistSeveral && objCount >= 1
        invariant b ==> old(word).st != NotExist
        invariant objCount == old(objCount)
        decreases !(a || b)
      {
        a := CompareAndMove({NotExist}, Word(PreincExistOne, false));
        if !a {
          b := CompareAndMove({ExistOne, ExistSeveral}, Word(PreincExistSeveral, false));
          if b && singleton {
            // the hook inside compare_and_move
            var back := CompareAndMove({PreincExistSeveral}, Word(ExistOne, true));
            return if back then ThrewMustBeSingleton else ThrewProgramError, run;
          }
        }
      }
      objCount := objCount + 1;
      assert objCount > 0;
      assert (objCount == 1) == a;
      assert (objCount > 1) == b;
      if a {
        MoveTo(ExistOne);
      } else if b {
        MoveTo(ExistSeveral);
      }
      r := Returned;
    }

    method DecExistence() returns (ghost run: seq<Action>)
      requires Valid() && objCount >= 1
      modifies this
      ensures Valid() && objCount == old(objCount) - 1
      ensures OnlyRuns(run) && Execute(old(Machine(DecFirst)), run) == Machine(Dead)
    {
      run := SoloDec(singleton, word, objCount);
      var a, b := false, false;
      while !(a || b)
        invariant !(a || b) ==> unchanged(this)
        invariant a ==> !b && word.st == PredecExistSeveral && objCount >= 2
        invariant b ==> word.st == PredecExistOne && objCount == 1
        invariant objCount == old(objCount)
        decreases !(a || b)
      {
        a := CompareAndMove({ExistSeveral}, Word(PredecExistSeveral, false));
        if !a {
          b := CompareAndMove({ExistOne}, Word(PredecExistOne, false));
        }
      }
      objCount := objCount - 1;
      assert objCount >= 0;
      if objCount == 1 {
        MoveTo(ExistOne);
      } else if a {
        MoveTo(ExistSeveral);
      } else if b {
        MoveTo(NotExist);
      }
    }
  }

  // ---------- The machine with one task ----------

  /** One step more. */
  lemma Then(s: System, run: seq<Action>, t: System) returns (longer: seq<Action>)
    requires OnlyRuns(run) && 0 in Execute(s, run).tasks && Advance(Execute(s, run), 0) == t
    ensures OnlyRuns(longer) && Execute(s, longer) == t
  {
    longer := run + [Run(0)];
    assert longer[..|run|] == run;
  }

  lemma IncCounts(g: bool, w: Word, n: int, a: bool)
    requires OwnerInv(IncCount(a), w, n)
    ensures Advance(Solo(g, w, n, IncCount(a)), 0) == Solo(g, w, n + 1, IncAssert(a))
    ensures Advance(Solo(g, w, n + 1, IncAssert(a)), 0) == Solo(g, w, n + 1, IncMove(a))
  {
  }

  lemma IncMoves(g: bool, w: Word, n: int, a: bool)
    requires OwnerInv(IncCount(a), w, n)
    ensures Advance(Solo(g, w, n + 1, IncMove(a)), 0) == Solo(g, w, n + 1, IncMoveX(a, w))
    ensures Advance(Solo(g, w, n + 1, IncMoveX(a, w)), 0)
         == Solo(g, Word(IncTarget(a), false), n + 1, if g then Constructor else Live)
  {
  }

  lemma SoloCount(s: System, start: seq<Action>, g: bool, w: Word, n: int, a: bool)
    returns (run: seq<Action>)
    requires OnlyRuns(start) && Execute(s, start) == Solo(g, w, n, IncCount(a))
    requires OwnerInv(IncCount(a), w, n)
    ensures OnlyRuns(run)
    ensures Execute(s, run)
         == Solo(g, Word(IncTarget(a), false), n + 1, if g then Constructor else Live)
  {
    IncCounts(g, w, n, a);
    IncMoves(g, w, n, a);
    run := Then(s, start, Solo(g, w, n + 1, IncAssert(a)));
    run := Then(s, run, Solo(g, w, n + 1, IncMove(a)));
    run := Then(s, run, Solo(g, w, n + 1, IncMoveX(a, w)));
    run := Then(s, run, Solo(g, Word(IncTarget(a), false), n + 1, if g then Constructor else Live));
  }

  lemma IncHead(g: bool, w: Word, n: int)
    ensures Advance(Solo(g, w, n, IncFirst), 0)
         == Solo(g, w, n, if w.st == NotExist then IncFirstX(w) else IncSecond)
    ensures Advance(Solo(g, w, n, IncFirstX(w)), 0)
         == Solo(g, Word(PreincExistOne, false), n, IncCount(true))
    ensures w.st == ExistOne || w.st == ExistSeveral ==>
              Advance(Solo(g, w, n, IncSecond), 0) == Solo(g, w, n, IncSecondX(w))
    ensures Advance(Solo(g, w, n, IncSecondX(w)), 0)
         == Solo(g, Word(PreincExistSeveral, false), n, if g then Hook else IncCount(false))
  {
  }

  lemma HookSteps(g: bool, n: int)
    ensures var w := Word(PreincExistSeveral, false);
            && Advance(Solo(g, w, n, Hook), 0) == Solo(g, w, n, HookX(w))
            && Advance(Solo(g, w, n, HookX(w)), 0) == Solo(g, Word(ExistOne, true), n, MustBeSingleton)
  {
  }

  /** The run of inc_existence. */
  lemma SoloInc(g: bool, w: Word, n: int) returns (run: seq<Action>)
    requires IsBetweenCalls(g, w, n)
    ensures OnlyRuns(run)
    ensures Execute(Solo(g, w, n, IncFirst), run)
         == if w.st == NotExist then Solo(g, Word(ExistOne, false), 1, if g then Constructor else Live)
            else if g then Solo(g, Word(ExistOne, true), n, MustBeSingleton)
            else Solo(g, Word(ExistSeveral, false), n + 1, Live)
  {
    var s := Solo(g, w, n, IncFirst);
    IncHead(g, w, n);
    if w.st == NotExist {
      run := Then(s, [], Solo(g, w, n, IncFirstX(w)));
      run := Then(s, run, Solo(g, Word(PreincExistOne, false), n, IncCount(true)));
      run := SoloCount(s, run, g, Word(PreincExistOne, false), n, true);
    } else {
      var pre := Word(PreincExistSeveral, false);
      run := Then(s, [], Solo(g, w, n, IncSecond));
      run := Then(s, run, Solo(g, w, n, IncSecondX(w)));
      run := Then(s, run, Solo(g, pre, n, if g then Hook else IncCount(false)));
      if g {
        HookSteps(g, n);
        run := Then(s, run, Solo(g, pre, n, HookX(pre)));
        run := Then(s, run, Solo(g, Word(ExistOne, true), n, MustBeSingleton));
      } else {
        run := SoloCount(s, run, g, pre, n, false);
      }
    }
  }

  function StateOf(n: int): ClassState {
    if n <= 0 then NotExist else if n == 1 then ExistOne else ExistSeveral
  }

  lemma DecCounts(g: bool, w: Word, n: int, a: bool)
    requires OwnerInv(DecCount(a), w, n)
    ensures Advance(Solo(g, w, n, DecCount(a)), 0) == Solo(g, w, n - 1, DecAssert(a))
    ensures Advance(Solo(g, w, n - 1, DecAssert(a)), 0) == Solo(g, w, n - 1, DecMove(a, StateOf(n - 1)))
  {
  }

  lemma DecMoves(g: bool, w: Word, n: int, a: bool)
    requires OwnerInv(DecCount(a), w, n)
    ensures var to := StateOf(n - 1);
            Advance(Solo(g, w, n - 1, DecMove(a, to)), 0) == Solo(g, w, n - 1, DecMoveX(a, to, w))
  {
  }

  lemma DecEnds(g: bool, w: Word, n: int, a: bool, to: ClassState)
    ensures Advance(Solo(g, w, n, DecMoveX(a, to, w)), 0) == Solo(g, Word(to, false), n, Dead)
  {
  }

  lemma SoloUncount(s: System, start: seq<Action>, g: bool, w: Word, n: int, a: bool)
    returns (run: seq<Action>)
    requires OnlyRuns(start) && Execute(s, start) == Solo(g, w, n, DecCount(a))
    requires OwnerInv(DecCount(a), w, n)
    ensures OnlyRuns(run)
    ensures Execute(s, run) == Solo(g, Word(StateOf(n - 1), false), n - 1, Dead)
  {
    var to := StateOf(n - 1);
    DecCounts(g, w, n, a);
    DecMoves(g, w, n, a);
    DecEnds(g, w, n - 1, a, to);
    run := Then(s, start, Solo(g, w, n - 1, DecAssert(a)));
    run := Then(s, run, Solo(g, w, n - 1, DecMove(a, to)));
    run := Then(s, run, Solo(g, w, n - 1, DecMoveX(a, to, w)));
    run := Then(s, run, Solo(g, Word(to, false), n - 1, Dead));
  }

  lemma DecHead(g: bool, w: Word, n: int)
    ensures Advance(Solo(g, w, n, DecFirst), 0)
         == Solo(g, w, n, if w.st == ExistSeveral then DecFirstX(w) else DecSecond)
    ensures Advance(Solo(g, w, n, DecFirstX(w)), 0)
         == Solo(g, Word(PredecExistSeveral, false), n, DecCount(true))
  {
  }

  lemma DecSecondHead(g: bool, w: Word, n: int)
    ensures w.st == ExistOne ==>
              Advance(Solo(g, w, n, DecSecond), 0) == Solo(g, w, n, DecSecondX(w))
    ensures Advance(Solo(g, w, n, DecSecondX(w)), 0)
         == Solo(g, Word(PredecExistOne, false), n, DecCount(false))
  {
  }

  /** The run of dec_existence. */
  lemma SoloDec(g: bool, w: Word, n: int) returns (run: seq<Action>)
    requires IsBetweenCalls(g, w, n) && n >= 1
    ensures OnlyRuns(run)
    ensures Execute(Solo(g, w, n, DecFirst), run)
         == Solo(g, Word(StateOf(n - 1), false), n - 1, Dead)
  {
    var s := Solo(g, w, n, DecFirst);
    DecHead(g, w, n);
    DecSecondHead(g, w, n);
    if w.st == ExistSeveral {
      run := Then(s, [], Solo(g, w, n, DecFirstX(w)));
      run := Then(s, run, Solo(g, Word(PredecExistSeveral, false), n, DecCount(true)));
      run := SoloUncount(s, run, g, Word(PredecExistSeveral, false), n, true);
    } else {
      run := Then(s, [], Solo(g, w, n, DecSecond));
      run := Then(s, run, Solo(g, w, n, DecSecondX(w)));
      run := Then(s, run, Solo(g, Word(PredecExistOne, false), n, DecCount(false)));
      run := SoloUncount(s, run, g, Word(PredecExistOne, false), n, false);
    }
  }
}
