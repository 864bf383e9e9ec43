/** State maps and their repository (C++/StateMap.cpp, C++/StateMap.h): a map extends a parent
    map with new states and transitions; transition ids are numbered across all maps. */
module StateMaps {

  datatype Error = NoSuchId | BadParameters | IncompatibleMap | NoStateWithTheName
                 | InvalidState | OutOfRange | BadIndex
  datatype Result<T> = Ok(value: T) | Err(error: Error)

  // ---------- State words ----------

  /** The 32-bit word of a state: the id of its map and its index there. */
  datatype State = State(mid: nat, idx: nat)

  /** The bits of the word: the map id in the upper half, the index in the lower. */
  function Bits(s: State): nat {
    s.mid * 0x1_0000 + s.idx
  }

  /** STATE_MAP and STATE_IDX, the mask-and-shift macros of StateMap.h. */
  function StateMapMacro(bits: nat): nat {
    bits / 0x1_0000 % 0x8000
  }

  function StateIdxMacro(bits: nat): nat {
    bits % 0x8000
  }

  /** The macros recover both parts, so words are equal exactly when both parts are. */
  lemma BitsAreFaithful(s: State, s': State)
    requires s.mid < 0x8000 && s.idx < 0x8000 && s'.mid < 0x8000 && s'.idx < 0x8000
    ensures StateMapMacro(Bits(s)) == s.mid && StateIdxMacro(Bits(s)) == s.idx
    ensures Bits(s) == Bits(s') <==> s == s'
    ensures Bits(s) < 0x8000_0000
  {
    var w := Bits(s);
    assert w / 0x1_0000 == s.mid;
    assert w == 0x8000 * (2 * s.mid) + s.idx;
    assert w % 0x8000 == s.idx;
  }

  // ---------- A state map ----------

  /** `names[k - 1]` is the name of state `k`; `trans` holds the nonzero cells of the transition
      matrix; `trans2states` and `arrivals` describe the transitions this map introduced. */
  datatype StateMap =
    | EmptyMap
    | StateMap(parent: StateMap, id: nat, names: seq<string>, name2idx: map<string, nat>,
               trans: map<(nat, nat), nat>, trans2states: map<nat, (nat, nat)>,
               arrivals: set<nat>, maxTransId: nat)
  {
    function Id(): nat { if EmptyMap? then 0 else id }

    function Names(): seq<string> { if EmptyMap? then [] else names }

    function Trans(): map<(nat, nat), nat> { if EmptyMap? then map[] else trans }

    function MaxTransId(): nat { if EmptyMap? then 0 else maxTransId }

    function NStates(): nat { |Names()| }
  }

  /** A cell of the transition matrix. */
  function Cell(trans: map<(nat, nat), nat>, p: (nat, nat)): nat {
    if p in trans then trans[p] else 0
  }

  // ---------- The constructor ----------

  /** What the transition loop of the constructor updates. */
  datatype Filling = Filling(trans: map<(nat, nat), nat>, trans2states: map<nat, (nat, nat)>,
                             arrivals: set<nat>, maxTransId: nat)

  /** The counter's C++ type has 16 bits: it wraps at 2^16. */
  function NextTransId(t: nat): nat {
    (t + 1) % 0x1_0000
  }

  function AddTransition(name2idx: map<string, nat>, f: Filling, t: (string, string)): Filling {
    if t.0 in name2idx && t.1 in name2idx then
      var p := (name2idx[t.0], name2idx[t.1]);
      if Cell(f.trans, p) == 0 then
        var id := NextTransId(f.maxTransId);
        Filling(f.trans[p := id], f.trans2states[id := p], f.arrivals + {p.1}, id)
      else f
    else f
  }

  function AddTransitions(name2idx: map<string, nat>, f: Filling, ts: seq<(string, string)>): Filling
  {
    if ts == [] then f
    else AddTransition(name2idx, AddTransitions(name2idx, f, ts[..|ts| - 1]), ts[|ts| - 1])
  }

  lemma AddTransitionsStep(name2idx: map<string, nat>, f: Filling, ts: seq<(string, string)>, k: nat)
    requires k < |ts|
    ensures AddTransitions(name2idx, f, ts[..k + 1])
         == AddTransition(name2idx, AddTransitions(name2idx, f, ts[..k]), ts[k])
  {
    assert ts[..k + 1][..k] == ts[..k];
  }

  predicate Distinct(names: seq<string>) {
    forall i, j :: 0 <= i < j < |names| ==> names[i] != names[j]
  }

  /** `name2idx` is the inverse of `names`. */
  predicate IsIndex(name2idx: map<string, nat>, names: seq<string>) {
    && (forall k :: 0 <= k < |names| ==> names[k] in name2idx && name2idx[names[k]] == k + 1)
    && (forall n :: n in name2idx ==>
          1 <= name2idx[n] <= |names| && names[name2idx[n] - 1] == n)
  }

  function IndexOf(names: seq<string>): (name2idx: map<string, nat>)
    requires Distinct(names)
    ensures IsIndex(name2idx, names)
  {
    if names == [] then map[]
    else
      var k := |names| - 1;
      assert names[..k + 1] == names;
      IndexStep(IndexOf(names[..k]), names, k);
      IndexOf(names[..k])[names[k] := k + 1]
  }

  lemma IndexStep(m: map<string, nat>, names: seq<string>, k: nat)
    requires k < |names| && IsIndex(m, names[..k])
    ensures names[k] !in m <==> forall i :: 0 <= i < k ==> names[i] != names[k]
    ensures names[k] !in m ==> IsIndex(m[names[k] := k + 1], names[..k + 1])
  {
    if names[k] in m {
      assert names[..k][m[names[k]] - 1] == names[k];
      assert names[m[names[k]] - 1] == names[k];
    } else {
      forall i | 0 <= i < k ensures names[i] != names[k] && m[names[i]] == i + 1 {
        assert names[..k][i] in m;
      }
      var m' := m[names[k] := k + 1];
      forall n | n in m' ensures 1 <= m'[n] <= k + 1 && names[..k + 1][m'[n] - 1] == n {
        if n != names[k] {
          assert names[..k][m[n] - 1] == n;
        }
      }
    }
  }

  lemma IndexUnique(m1: map<string, nat>, m2: map<string, nat>, names: seq<string>)
    requires IsIndex(m1, names) && IsIndex(m2, names)
    ensures m1 == m2
  {
    forall n | n in m1 ensures n in m2 && m2[n] == m1[n] {
      assert names[m1[n] - 1] in m2;
    }
    forall n | n in m2 ensures n in m1 {
      assert names[m2[n] - 1] in m1;
    }
  }

  /** The map built by the constructor, and the repository's transition counter after it. */
  function Extend(parent: StateMap, id: nat, states: seq<string>, ts: seq<(string, string)>,
                  maxTransId: nat): Result<(StateMap, nat)>
  {
    var names := parent.Names() + states;
    if !Distinct(names) then Err(BadParameters)
    else
      var f := AddTransitions(IndexOf(names), Filling(parent.Trans(), map[], {}, maxTransId), ts);
      Ok((StateMap(parent, id, names, IndexOf(names), f.trans, f.trans2states, f.arrivals,
                   f.maxTransId), f.maxTransId))
  }

  /** Extend in terms of any index of the names. */
  lemma ExtendIs(parent: StateMap, id: nat, states: seq<string>, ts: seq<(string, string)>, lo: nat,
                 names: seq<string>, name2idx: map<string, nat>, f: Filling)
    requires names == parent.Names() + states && Distinct(names) && IsIndex(name2idx, names)
    requires f == AddTransitions(name2idx, Filling(parent.Trans(), map[], {}, lo), ts)
    ensures Extend(parent, id, states, ts, lo)
         == Ok((StateMap(parent, id, names, name2idx, f.trans, f.trans2states, f.arrivals,
                         f.maxTransId), f.maxTransId))
  {
    IndexUnique(name2idx, IndexOf(names), names);
  }

  /** The constructor of StateMap as the loops it is. */
  method BuildStateMap(parent: StateMap, id: nat, states: seq<string>, ts: seq<(string, string)>,
                       repoMaxTransId: nat) returns (r: Result<StateMap>, newMax: nat)
    ensures match Extend(parent, id, states, ts, repoMaxTransId)
            case Ok(built) => r == Ok(built.0) && newMax == built.1
            case Err(e) => r == Err(e) && newMax == repoMaxTransId
  {
    newMax := repoMaxTransId;
    var idx2name := parent.Names() + states;
    var index := FillNames(idx2name);
    match index {
      case Err(e) => r := Err(e);
      case Ok(name2idx) =>
        var f := FillTransitions(name2idx, parent.Trans(), ts, repoMaxTransId);
        newMax := f.maxTransId;
        r := Ok(StateMap(parent, id, idx2name, name2idx, f.trans, f.trans2states, f.arrivals,
                         newMax));
    }
  }

  /** Fill name2idx and check repetitions. */
  method FillNames(idx2name: seq<string>) returns (r: Result<map<string, nat>>)
    ensures r == if Distinct(idx2name) then Ok(IndexOf(idx2name)) else Err(BadParameters)
  {
    var name2idx: map<string, nat> := map[];
    var k := 0;
    while k < |idx2name|
      invariant 0 <= k <= |idx2name|
      invariant Distinct(idx2name[..k])
      invariant IsIndex(name2idx, idx2name[..k])
    {
      IndexStep(name2idx, idx2name, k);
      if idx2name[k] in name2idx {
        return Err(BadParameters);
      }
      name2idx := name2idx[idx2name[k] := k + 1];
      k := k + 1;
    }
    assert idx2name[..k] == idx2name;
    IndexUnique(name2idx, IndexOf(idx2name), idx2name);
    r := Ok(name2idx);
  }

  /** The transition loop of the constructor. */
  method FillTransitions(name2idx: map<string, nat>, parentTrans: map<(nat, nat), nat>,
                         ts: seq<(string, string)>, repoMaxTransId: nat) returns (f: Filling)
    ensures f == AddTransitions(name2idx, Filling(parentTrans, map[], {}, repoMaxTransId), ts)
  {
    ghost var start := Filling(parentTrans, map[], {}, repoMaxTransId);
    var newMax: nat := repoMaxTransId;
    var transitions: map<(nat, nat), nat> := parentTrans;
    var trans2states: map<nat, (nat, nat)> := map[];
    var arrivals: set<nat> := {};
    var k := 0;
    while k < |ts|
      invariant 0 <= k <= |ts|
      invariant Filling(transitions, trans2states, arrivals, newMax)
        == AddTransitions(name2idx, start, ts[..k])
    {
      AddTransitionsStep(name2idx, start, ts, k);
      if ts[k].0 in name2idx && ts[k].1 in name2idx {
        var st1, st2 := name2idx[ts[k].0], name2idx[ts[k].1];
        if Cell(transitions, (st1, st2)) == 0 {
          newMax := NextTransId(newMax);
          transitions := transitions[(st1, st2) := newMax];
          trans2states := trans2states[newMax := (st1, st2)];
          arrivals := arrivals + {st2};
        }
      }
      k := k + 1;
    }
    assert ts[..k] == ts;
    f := Filling(transitions, trans2states, arrivals, newMax);
  }

  // ---------- What the constructor guarantees ----------

  predicate InRange(p: (nat, nat), n: nat) {
    1 <= p.0 <= n && 1 <= p.1 <= n
  }

  /** The transitions of `f` are those of `base` and, apart from them, the ones recorded in
      `trans2states`, whose ids are above `lo`. */
  ghost predicate Introduces(f: Filling, base: map<(nat, nat), nat>, lo: nat, n: nat) {
    && lo <= f.maxTransId
    && (forall p :: p in base ==> p in f.trans && f.trans[p] == base[p])
    && (forall t :: t in f.trans2states ==>
          lo < t <= f.maxTransId && InRange(f.trans2states[t], n)
          && f.trans2states[t] !in base
          && f.trans2states[t] in f.trans && f.trans[f.trans2states[t]] == t)
    && (forall p :: p in f.trans && p !in base ==>
          f.trans[p] in f.trans2states && f.trans2states[f.trans[p]] == p)
    && (forall t :: lo < t <= f.maxTransId ==> t in f.trans2states)
    && f.arrivals == set t | t in f.trans2states :: f.trans2states[t].1
  }

  /** A map and all its ancestors are well built. */
  ghost predicate WellBuilt(m: StateMap) {
    m.StateMap? ==>
      && WellBuilt(m.parent)
      && m.parent.Id() < m.id
      && m.parent.Names() <= m.names
      && |m.names| < 0x8000
      && IsIndex(m.name2idx, m.names)
      && m.parent.MaxTransId() <= m.maxTransId < 0x8000
      && CellsInRange(m.trans, |m.names|, m.maxTransId)
      && exists lo :: m.parent.MaxTransId() <= lo && IntroducesAbove(m, lo)
  }

  ghost predicate IntroducesAbove(m: StateMap, lo: nat)
    requires m.StateMap?
  {
    Introduces(Filling(m.trans, m.trans2states, m.arrivals, m.maxTransId), m.parent.Trans(), lo,
               |m.names|)
  }

  /** Every pair stands for states of the map, under an id in use. */
  ghost predicate CellsInRange(trans: map<(nat, nat), nat>, n: nat, max: nat) {
    forall p :: p in trans ==> InRange(p, n) && 0 < trans[p] <= max
  }

  lemma AddIntroduces(f: Filling, base: map<(nat, nat), nat>, lo: nat, n: nat, p: (nat, nat))
    requires Introduces(f, base, lo, n) && CellsInRange(f.trans, n, f.maxTransId)
    requires p !in f.trans && InRange(p, n)
    ensures var id := f.maxTransId + 1;
            var g := Filling(f.trans[p := id], f.trans2states[id := p], f.arrivals + {p.1}, id);
            Introduces(g, base, lo, n) && CellsInRange(g.trans, n, id)
  {
    var id := f.maxTransId + 1;
    var t2s := f.trans2states[id := p];
    assert id !in f.trans2states;
    var arrivals := set t | t in t2s :: t2s[t].1;
    forall x | x in f.arrivals + {p.1} ensures x in arrivals {
      if x in f.arrivals {
        var t :| t in f.trans2states && f.trans2states[t].1 == x;
        assert t2s[t].1 == x;
      } else {
        assert t2s[id].1 == x;
      }
    }
    assert f.arrivals + {p.1} == arrivals;
  }

  lemma {:induction false} AddTransitionsIntroduces(
    name2idx: map<string, nat>, names: seq<string>, base: map<(nat, nat), nat>, lo: nat,
    ts: seq<(string, string)>)
    requires IsIndex(name2idx, names)
    requires lo + |ts| < 0x8000
    requires CellsInRange(base, |names|, lo)
    ensures var f := AddTransitions(name2idx, Filling(base, map[], {}, lo), ts);
            Introduces(f, base, lo, |names|) && f.maxTransId <= lo + |ts|
            && CellsInRange(f.trans, |names|, f.maxTransId)
  {
    if ts != [] {
      var n := |ts| - 1;
      AddTransitionsIntroduces(name2idx, names, base, lo, ts[..n]);
      AddOneIntroduces(name2idx, names, base, lo,
                       AddTransitions(name2idx, Filling(base, map[], {}, lo), ts[..n]), ts[n]);
    }
  }

  /** A declared transition is new, under the next id, or adds nothing. */
  lemma AddTransitionCases(name2idx: map<string, nat>, n: nat, f: Filling, t: (string, string))
    returns (p: (nat, nat))
    requires forall s :: s in name2idx ==> 1 <= name2idx[s] <= n
    requires CellsInRange(f.trans, n, f.maxTransId) && f.maxTransId + 1 < 0x1_0000
    ensures var id := f.maxTransId + 1;
            var g := AddTransition(name2idx, f, t);
            g == f
            || (p !in f.trans && InRange(p, n)
                && g == Filling(f.trans[p := id], f.trans2states[id := p], f.arrivals + {p.1}, id))
  {
    if t.0 in name2idx && t.1 in name2idx {
      p := (name2idx[t.0], name2idx[t.1]);
    } else {
      p := (0, 0);
    }
  }

  lemma AddOneIntroduces(name2idx: map<string, nat>, names: seq<string>,
                         base: map<(nat, nat), nat>, lo: nat, f: Filling, t: (string, string))
    requires forall n :: n in name2idx ==> 1 <= name2idx[n] <= |names|
    requires Introduces(f, base, lo, |names|) && CellsInRange(f.trans, |names|, f.maxTransId)
    requires f.maxTransId + 1 < 0x1_0000
    ensures var g := AddTransition(name2idx, f, t);
            Introduces(g, base, lo, |names|) && CellsInRange(g.trans, |names|, g.maxTransId)
            && g.maxTransId <= f.maxTransId + 1
  {
    var p := AddTransitionCases(name2idx, |names|, f, t);
    if AddTransition(name2idx, f, t) != f {
      AddIntroduces(f, base, lo, |names|, p);
    }
  }

  /** `p` is the pair of states a declared transition names; unknown names declare nothing. */
  predicate Names2Pair(name2idx: map<string, nat>, t: (string, string), p: (nat, nat)) {
    t.0 in name2idx && t.1 in name2idx && p == (name2idx[t.0], name2idx[t.1])
  }

  ghost predicate IsDeclared(name2idx: map<string, nat>, ts: seq<(string, string)>, p: (nat, nat)) {
    exists k :: 0 <= k < |ts| && Names2Pair(name2idx, ts[k], p)
  }

  /** The map has exactly the transitions of its parent and the ones declared for it. */
  lemma {:induction false} AddTransitionsExactly(
    name2idx: map<string, nat>, base: map<(nat, nat), nat>, lo: nat, ts: seq<(string, string)>,
    p: (nat, nat))
    requires lo + |ts| < 0x8000
    requires forall q :: q in base ==> 0 < base[q] <= lo
    ensures var f := AddTransitions(name2idx, Filling(base, map[], {}, lo), ts);
            (p in f.trans <==> p in base || IsDeclared(name2idx, ts, p))
            && f.maxTransId <= lo + |ts|
            && forall q :: q in f.trans ==> 0 < f.trans[q]
  {
    if ts != [] {
      var n := |ts| - 1;
      AddTransitionsExactly(name2idx, base, lo, ts[..n], p);
      DeclaredStep(name2idx, ts, n, p);
    }
  }

  lemma DeclaredStep(name2idx: map<string, nat>, ts: seq<(string, string)>, n: nat, p: (nat, nat))
    requires |ts| == n + 1
    ensures IsDeclared(name2idx, ts, p) <==>
              IsDeclared(name2idx, ts[..n], p) || Names2Pair(name2idx, ts[n], p)
  {
    if IsDeclared(name2idx, ts[..n], p) {
      var k :| 0 <= k < n && Names2Pair(name2idx, ts[..n][k], p);
      assert Names2Pair(name2idx, ts[k], p);
    }
    if IsDeclared(name2idx, ts, p) {
      var k :| 0 <= k < |ts| && Names2Pair(name2idx, ts[k], p);
      assert k < n ==> Names2Pair(name2idx, ts[..n][k], p);
    }
  }

  /** A map has the states of its parent followed by its own, and exactly the transitions of its
      parent and the declared ones between known names. */
  lemma ExtendMeansDeclared(parent: StateMap, id: nat, states: seq<string>,
                            ts: seq<(string, string)>, lo: nat, p: (nat, nat))
    requires WellBuilt(parent) && parent.MaxTransId() <= lo && lo + |ts| < 0x8000
    requires Distinct(parent.Names() + states)
    ensures var m := Extend(parent, id, states, ts, lo).value.0;
            m.StateMap? && m.names == parent.Names() + states && IsIndex(m.name2idx, m.names)
            && (p in m.trans <==> p in parent.Trans() || IsDeclared(m.name2idx, ts, p))
  {
    AddTransitionsExactly(IndexOf(parent.Names() + states), parent.Trans(), lo, ts, p);
  }

  lemma ExtendIsWellBuilt(parent: StateMap, id: nat, states: seq<string>,
                          ts: seq<(string, string)>, lo: nat)
    requires WellBuilt(parent) && parent.Id() < id && parent.MaxTransId() <= lo
    requires lo + |ts| < 0x8000 && parent.NStates() + |states| < 0x8000
    requires Distinct(parent.Names() + states)
    ensures var (m, newMax) := Extend(parent, id, states, ts, lo).value;
            m.StateMap? && WellBuilt(m) && IntroducesAbove(m, lo) && newMax == m.maxTransId
            && m.parent == parent && m.id == id
  {
    var names := parent.Names() + states;
    assert CellsInRange(parent.Trans(), |names|, lo);
    AddTransitionsIntroduces(IndexOf(names), names, parent.Trans(), lo, ts);
    var (m, newMax) := Extend(parent, id, states, ts, lo).value;
    assert IntroducesAbove(m, lo);
  }

  /** A map whose fields are those the constructor would fill in is the one it builds. */
  lemma BuiltMap(parent: StateMap, states: seq<string>, ts: seq<(string, string)>, lo: nat, m: StateMap)
    requires m.StateMap? && m.parent == parent && m.names == parent.Names() + states
    requires WellBuilt(parent) && parent.Id() < m.id && parent.MaxTransId() <= lo
    requires lo + |ts| < 0x8000 && |m.names| < 0x8000
    requires Distinct(m.names) && IsIndex(m.name2idx, m.names)
    requires AddTransitions(m.name2idx, Filling(parent.Trans(), map[], {}, lo), ts)
          == Filling(m.trans, m.trans2states, m.arrivals, m.maxTransId)
    ensures Extend(parent, m.id, states, ts, lo) == Ok((m, m.maxTransId)) && WellBuilt(m)
  {
    ExtendIs(parent, m.id, states, ts, lo, m.names, m.name2idx,
             Filling(m.trans, m.trans2states, m.arrivals, m.maxTransId));
    ExtendIsWellBuilt(parent, m.id, states, ts, lo);
  }

  // ---------- Ancestry ----------

  /** `a` is `m` or one of its ancestors. */
  predicate DescendsFrom(m: StateMap, a: StateMap) {
    m == a || (m.StateMap? && DescendsFrom(m.parent, a))
  }

  /** is_same_or_descendant: the walk upwards that compares ids. */
  predicate IsSameOrDescendant(m: StateMap, map2: StateMap) {
    m.Id() == map2.Id() || (m.StateMap? && IsSameOrDescendant(m.parent, map2))
  }

  lemma {:induction false} AncestorFacts(m: StateMap, a: StateMap)
    requires WellBuilt(m) && DescendsFrom(m, a)
    ensures WellBuilt(a) && a.Id() <= m.Id() && (a.Id() == m.Id() ==> a == m)
    decreases m
  {
    if m != a {
      AncestorFacts(m.parent, a);
    }
  }

  lemma {:induction false} DescendsTransitive(m: StateMap, a: StateMap, b: StateMap)
    requires DescendsFrom(m, a) && DescendsFrom(a, b)
    ensures DescendsFrom(m, b)
    decreases m
  {
    if m != a {
      DescendsTransitive(m.parent, a, b);
    }
  }

  /** The ancestors of a map are a chain. */
  lemma {:induction false} AncestorsAreAChain(m: StateMap, a: StateMap, b: StateMap)
    requires WellBuilt(m) && DescendsFrom(m, a) && DescendsFrom(m, b) && a.Id() <= b.Id()
    ensures DescendsFrom(b, a)
    decreases m
  {
    AncestorFacts(m, a);
    AncestorFacts(m, b);
    if m != b {
      assert a != m;
      AncestorsAreAChain(m.parent, a, b);
    }
  }

  lemma {:induction false} RootIsAncestor(m: StateMap)
    ensures DescendsFrom(m, EmptyMap)
    decreases m
  {
    if m.StateMap? {
      RootIsAncestor(m.parent);
    }
  }

  /** What a descendant keeps of an ancestor, along any chain of maps. */
  ghost predicate Inherits(d: StateMap, a: StateMap) {
    && a.Names() <= d.Names()
    && (forall p :: p in a.Trans() ==> p in d.Trans() && d.Trans()[p] == a.Trans()[p])
    && a.MaxTransId() <= d.MaxTransId()
    && (forall p :: p in d.Trans() && p !in a.Trans() ==> d.Trans()[p] > a.MaxTransId())
  }

  /** A descendant conservatively extends each of its ancestors: every state keeps its index
      and name, every transition its id, and what is new has an id the ancestor does not use. */
  lemma {:induction false} DescendantInherits(d: StateMap, a: StateMap)
    requires WellBuilt(d) && DescendsFrom(d, a)
    ensures Inherits(d, a)
    decreases d
  {
    if d != a {
      DescendantInherits(d.parent, a);
      var lo :| d.parent.MaxTransId() <= lo && IntroducesAbove(d, lo);
    }
  }

  // ---------- The repository ----------

  datatype Repo = Repo(maps: map<nat, StateMap>, axis2mapId: map<string, nat>,
                       lastMapId: nat, maxTransId: nat)

  const ROOT_AXIS := "StateAxis"

  const EMPTY_REPO := Repo(map[], map[], 0, 0)

  /** get_map_id: the id of an axis, new when the axis is. */
  function GetMapId(r: Repo, axis: string): (Repo, nat) {
    if axis == ROOT_AXIS then (r, 0)
    else if axis in r.axis2mapId then (r, r.axis2mapId[axis])
    else (r.(axis2mapId := r.axis2mapId[axis := r.lastMapId + 1], lastMapId := r.lastMapId + 1),
          r.lastMapId + 1)
  }

  function GetObjectById(r: Repo, id: nat): Result<StateMap> {
    if id == 0 then Ok(EmptyMap) else if id in r.maps then Ok(r.maps[id]) else Err(NoSuchId)
  }

  /** One axis declaration: its parent's map and what it adds. */
  datatype AxisPar = AxisPar(axis: string, parentMap: nat, states: seq<string>,
                             transitions: seq<(string, string)>)

  /** StateMapInstance::init_impl after the parent has been initialized: find the map of the
      axis or create it. */
  function InitAxis(r0: Repo, par: AxisPar): (Repo, Result<nat>) {
    var (r, id) := GetMapId(r0, par.axis);
    if GetObjectById(r, id).Ok? then (r, Ok(id)) else CreateObject(r, id, par)
  }

  /** create_object: build the map and put it into the repository. */
  function CreateObject(r: Repo, id: nat, par: AxisPar): (Repo, Result<nat>) {
    match GetObjectById(r, par.parentMap)
    case Err(e) => (r, Err(e))
    case Ok(parent) =>
      match Extend(parent, id, par.states, par.transitions, r.maxTransId)
      case Err(e) => (r, Err(e))
      case Ok((m, newMax)) => (r.(maps := r.maps[id := m], maxTransId := newMax), Ok(id))
  }

  /** The counters do not overflow, and the parent of an axis, fixed by its C++ type, got its
      id first. */
  predicate Admissible(r: Repo, par: AxisPar) {
    && r.lastMapId < 0x7fff
    && r.maxTransId + |par.transitions| < 0x8000
    && (par.axis in r.axis2mapId ==> par.parentMap < r.axis2mapId[par.axis])
    && (GetObjectById(r, par.parentMap).Ok? ==>
          GetObjectById(r, par.parentMap).value.NStates() + |par.states| < 0x8000)
  }

  /** `m` is a map of the repository, the empty map included. */
  predicate IsMapOf(r: Repo, m: StateMap) {
    m == EmptyMap || (m.id in r.maps && r.maps[m.id] == m)
  }

  ghost predicate ValidRepo(r: Repo) {
    && r.lastMapId < 0x8000
    && (forall a :: a in r.axis2mapId ==> 1 <= r.axis2mapId[a] <= r.lastMapId)
    && (forall a, b :: a in r.axis2mapId && b in r.axis2mapId && a != b ==>
          r.axis2mapId[a] != r.axis2mapId[b])
    && (forall id :: id in r.maps ==> MapIsValid(r, id))
    && IdsAreValid(r)
  }

  ghost predicate MapIsValid(r: Repo, id: nat)
    requires id in r.maps
  {
    var m := r.maps[id];
    && m.StateMap? && m.id == id && 1 <= id <= r.lastMapId
    && WellBuilt(m) && IsMapOf(r, m.parent) && m.maxTransId <= r.maxTransId
  }

  /** Each id up to the counter was introduced by exactly one map. */
  ghost predicate IdsAreValid(r: Repo) {
    && (forall i, j, t :: IntroducedBy(r, t, i) && IntroducedBy(r, t, j) ==> i == j)
    && (forall t :: 0 < t <= r.maxTransId ==> IsIntroduced(r, t))
  }

  ghost predicate IntroducedBy(r: Repo, t: nat, id: nat) {
    id in r.maps && r.maps[id].StateMap? && t in r.maps[id].trans2states
  }

  ghost predicate IsIntroduced(r: Repo, t: nat) {
    exists id :: IntroducedBy(r, t, id)
  }

  lemma InitAxisKeepsMaps(r: Repo, par: AxisPar)
    ensures forall id :: id in r.maps ==>
              id in InitAxis(r, par).0.maps && InitAxis(r, par).0.maps[id] == r.maps[id]
  {
  }

  lemma GetMapIdKeepsValid(r: Repo, axis: string)
    requires ValidRepo(r) && r.lastMapId < 0x7fff
    ensures ValidRepo(GetMapId(r, axis).0) && GetMapId(r, axis).0.maps == r.maps
    ensures GetMapId(r, axis).1 <= GetMapId(r, axis).0.lastMapId
  {
    var r' := GetMapId(r, axis).0;
    forall id | id in r'.maps ensures MapIsValid(r', id) {
      assert MapIsValid(r, id);
    }
    forall t: nat, i | IntroducedBy(r', t, i) ensures IntroducedBy(r, t, i) {
    }
    forall t: nat | 0 < t <= r'.maxTransId ensures IsIntroduced(r', t) {
      assert IsIntroduced(r, t);
      var i :| IntroducedBy(r, t, i);
      assert IntroducedBy(r', t, i);
    }
  }

  lemma InitAxisKeepsValid(r0: Repo, par: AxisPar)
    requires ValidRepo(r0) && Admissible(r0, par)
    ensures ValidRepo(InitAxis(r0, par).0)
  {
    GetMapIdKeepsValid(r0, par.axis);
    var (r, id) := GetMapId(r0, par.axis);
    var r' := InitAxis(r0, par).0;
    if r' != r {
      var parent := GetObjectById(r, par.parentMap).value;
      assert parent.Id() < id;
      ExtendIsWellBuilt(parent, id, par.states, par.transitions, r.maxTransId);
      CreationKeepsValid(r, parent, r'.maps[id]);
    }
  }

  /** The map that a declaration describes: the states of its parent followed by its own, and the
      transitions of its parent and the declared ones between known names. */
  ghost predicate IsMapFor(m: StateMap, parent: StateMap, par: AxisPar) {
    && m.StateMap? && m.parent == parent
    && m.names == parent.Names() + par.states && IsIndex(m.name2idx, m.names)
    && forall p :: p in m.trans <==> p in parent.Trans() || IsDeclared(m.name2idx, par.transitions, p)
  }

  predicate ParentIsKnown(r: Repo, par: AxisPar) {
    par.parentMap == 0 || par.parentMap in r.maps
  }

  function ParentOf(r: Repo, par: AxisPar): StateMap
    requires ParentIsKnown(r, par)
  {
    if par.parentMap == 0 then EmptyMap else r.maps[par.parentMap]
  }

  /** What create_object does with a declaration: an unknown parent and a repeated name make it
      fail and leave the repository alone; otherwise the one map it adds is that of the
      declaration, and its new transitions are numbered after all there are. */
  ghost predicate Creates(r: Repo, id: nat, par: AxisPar, r': Repo, res: Result<nat>) {
    if !ParentIsKnown(r, par) then res == Err(NoSuchId) && r' == r
    else if !Distinct(ParentOf(r, par).Names() + par.states) then res == Err(BadParameters) && r' == r
    else
      && res == Ok(id) && id in r'.maps && IsMapFor(r'.maps[id], ParentOf(r, par), par)
      && r'.maps[id].id == id && IntroducesAbove(r'.maps[id], r.maxTransId)
      && r' == r.(maps := r.maps[id := r'.maps[id]], maxTransId := r'.maps[id].maxTransId)
  }

  lemma ExtendIsMapFor(parent: StateMap, id: nat, par: AxisPar, lo: nat)
    requires WellBuilt(parent) && parent.MaxTransId() <= lo && lo + |par.transitions| < 0x8000
    requires Distinct(parent.Names() + par.states)
    ensures var (m, newMax) := Extend(parent, id, par.states, par.transitions, lo).value;
            IsMapFor(m, parent, par) && m.id == id && newMax == m.maxTransId
            && IntroducesAbove(m, lo)
  {
    var names := parent.Names() + par.states;
    var m := Extend(parent, id, par.states, par.transitions, lo).value.0;
    forall p: (nat, nat)
      ensures p in m.trans <==> p in parent.Trans() || IsDeclared(m.name2idx, par.transitions, p)
    {
      ExtendMeansDeclared(parent, id, par.states, par.transitions, lo, p);
    }
    assert CellsInRange(parent.Trans(), |names|, lo);
    AddTransitionsIntroduces(IndexOf(names), names, parent.Trans(), lo, par.transitions);
  }

  lemma CreateMeans(r: Repo, id: nat, par: AxisPar)
    requires ValidRepo(r) && r.maxTransId + |par.transitions| < 0x8000
    ensures Creates(r, id, par, CreateObject(r, id, par).0, CreateObject(r, id, par).1)
  {
    if ParentIsKnown(r, par) && Distinct(ParentOf(r, par).Names() + par.states) {
      ParentFits(r, par);
      ExtendIsMapFor(ParentOf(r, par), id, par, r.maxTransId);
    }
  }

  lemma ParentFits(r: Repo, par: AxisPar)
    requires ValidRepo(r) && ParentIsKnown(r, par)
    ensures WellBuilt(ParentOf(r, par)) && ParentOf(r, par).MaxTransId() <= r.maxTransId
  {
    if par.parentMap != 0 {
      assert MapIsValid(r, par.parentMap);
    }
  }

  /** An axis has one id for all times; the abstract axis has id 0, a new one gets the next. */
  ghost predicate Registers(r: Repo, axis: string, r': Repo, id: nat) {
    if axis == ROOT_AXIS then id == 0 && r' == r
    else if axis in r.axis2mapId then id == r.axis2mapId[axis] && r' == r
    else id == r.lastMapId + 1
         && r' == r.(axis2mapId := r.axis2mapId[axis := id], lastMapId := id)
  }

  /** What the initialization of an axis does: it finds the map there is, or registers the axis
      and creates the map of the declaration. */
  ghost predicate Initializes(r: Repo, par: AxisPar, r': Repo, res: Result<nat>) {
    exists r1, id ::
      Registers(r, par.axis, r1, id)
      && if id == 0 || id in r.maps then r' == r1 && res == Ok(id)
         else Creates(r1, id, par, r', res)
  }

  lemma InitAxisMeans(r: Repo, par: AxisPar)
    requires ValidRepo(r) && Admissible(r, par)
    ensures Initializes(r, par, InitAxis(r, par).0, InitAxis(r, par).1)
  {
    GetMapIdKeepsValid(r, par.axis);
    var (r1, id) := GetMapId(r, par.axis);
    CreateMeans(r1, id, par);
    assert Registers(r, par.axis, r1, id);
  }

  /** An axis that has no map yet, whose parent has one, and which repeats no name: afterwards the
      axis stands for a map of that parent with the declared states and transitions, and all other
      maps are as before. */
  lemma NewAxisIsDeclared(r: Repo, par: AxisPar)
    requires ValidRepo(r) && Admissible(r, par) && par.axis != ROOT_AXIS
    requires par.axis in r.axis2mapId ==> r.axis2mapId[par.axis] !in r.maps
    requires ParentIsKnown(r, par) && Distinct(ParentOf(r, par).Names() + par.states)
    ensures var (r', res) := InitAxis(r, par);
            && res.Ok? && par.axis in r'.axis2mapId && r'.axis2mapId[par.axis] == res.value
            && res.value in r'.maps && res.value !in r.maps
            && IsMapFor(r'.maps[res.value], ParentOf(r, par), par)
            && r'.maps == r.maps[res.value := r'.maps[res.value]]
            && r'.maxTransId == r'.maps[res.value].maxTransId
  {
    InitAxisMeans(r, par);
    assert r.lastMapId + 1 !in r.maps;
  }

  lemma OldMapStaysValid(r: Repo, r': Repo, id: nat)
    requires id in r.maps && MapIsValid(r, id) && r'.lastMapId == r.lastMapId
    requires forall i :: i in r.maps ==> i in r'.maps && r'.maps[i] == r.maps[i]
    requires r.maxTransId <= r'.maxTransId
    ensures MapIsValid(r', id)
  {
  }

  lemma CreationKeepsMaps(r: Repo, r': Repo, parent: StateMap, m: StateMap)
    requires forall id :: id in r.maps ==> MapIsValid(r, id)
    requires IsMapOf(r, parent) && m.StateMap? && m.parent == parent && WellBuilt(m)
    requires m.id !in r.maps && 1 <= m.id <= r.lastMapId && r.maxTransId <= m.maxTransId
    requires r' == r.(maps := r.maps[m.id := m], maxTransId := m.maxTransId)
    ensures forall id :: id in r'.maps ==> MapIsValid(r', id)
  {
    forall id | id in r'.maps ensures MapIsValid(r', id) {
      if id != m.id {
        OldMapStaysValid(r, r', id);
      } else {
        NewMapIsValid(r, r', parent, m);
      }
    }
  }

  lemma CreationKeepsValid(r: Repo, parent: StateMap, m: StateMap)
    requires ValidRepo(r) && IsMapOf(r, parent)
    requires m.StateMap? && m.parent == parent && WellBuilt(m) && IntroducesAbove(m, r.maxTransId)
    requires m.id !in r.maps && 1 <= m.id <= r.lastMapId
    ensures ValidRepo(r.(maps := r.maps[m.id := m], maxTransId := m.maxTransId))
  {
    CreationKeepsIds(r, parent, m);
    CreationKeepsMaps(r, r.(maps := r.maps[m.id := m], maxTransId := m.maxTransId), parent, m);
  }

  lemma NewMapIsValid(r: Repo, r': Repo, parent: StateMap, m: StateMap)
    requires IsMapOf(r, parent) && m.StateMap? && m.parent == parent && WellBuilt(m)
    requires m.id !in r.maps && 1 <= m.id <= r'.lastMapId && m.maxTransId <= r'.maxTransId
    requires r'.maps == r.maps[m.id := m]
    ensures MapIsValid(r', m.id)
  {
  }

  lemma CreationKeepsIds(r: Repo, parent: StateMap, m: StateMap)
    requires ValidRepo(r) && IsMapOf(r, parent)
    requires m.StateMap? && m.parent == parent && WellBuilt(m) && IntroducesAbove(m, r.maxTransId)
    requires m.id !in r.maps && 1 <= m.id <= r.lastMapId
    ensures IdsAreValid(r.(maps := r.maps[m.id := m], maxTransId := m.maxTransId))
  {
    var r' := r.(maps := r.maps[m.id := m], maxTransId := m.maxTransId);
    forall i, t: nat | IntroducedBy(r, t, i) ensures t <= r.maxTransId && IntroducedBy(r', t, i) {
      IntroducedIsInUse(r, t, i);
    }
    forall t | 0 < t <= r'.maxTransId ensures IsIntroduced(r', t) {
      if t <= r.maxTransId {
        assert IsIntroduced(r, t);
      } else {
        assert IntroducedBy(r', t, m.id);
      }
    }
    forall i, j, t | IntroducedBy(r', t, i) && IntroducedBy(r', t, j) ensures i == j {
      if i != m.id && j != m.id {
        assert IntroducedBy(r, t, i) && IntroducedBy(r, t, j);
      }
    }
  }

  lemma IntroducedIsInUse(r: Repo, t: nat, id: nat)
    requires ValidRepo(r) && IntroducedBy(r, t, id)
    ensures 0 < t <= r.maxTransId
  {
    var m := r.maps[id];
    var lo :| m.parent.MaxTransId() <= lo && IntroducesAbove(m, lo);
  }

  /** A run: the repository after each of a sequence of axis initializations. */
  ghost predicate IsRun(rs: seq<Repo>, pars: seq<AxisPar>) {
    && |rs| == |pars| + 1 && rs[0] == EMPTY_REPO
    && forall k :: 0 <= k < |pars| ==>
         Admissible(rs[k], pars[k]) && rs[k + 1] == InitAxis(rs[k], pars[k]).0
  }

  /** Every repository of every run is valid. */
  lemma {:induction false} RunIsValid(rs: seq<Repo>, pars: seq<AxisPar>, k: nat)
    requires IsRun(rs, pars) && k < |rs|
    ensures ValidRepo(rs[k])
    decreases k
  {
    if k > 0 {
      RunIsValid(rs, pars, k - 1);
      InitAxisKeepsValid(rs[k - 1], pars[k - 1]);
    }
  }

  /** A map once created never changes, so what holds of it holds for the rest of the run. */
  lemma {:induction false} MapsNeverChange(rs: seq<Repo>, pars: seq<AxisPar>, j: nat, k: nat, id: nat)
    requires IsRun(rs, pars) && j <= k < |rs| && id in rs[j].maps
    ensures id in rs[k].maps && rs[k].maps[id] == rs[j].maps[id]
    decreases k
  {
    if j < k {
      MapsNeverChange(rs, pars, j, k - 1, id);
      InitAxisKeepsMaps(rs[k - 1], pars[k - 1]);
    }
  }

  /** An axis initialized once keeps its id and its map: initializing it again, with any
      declaration and whatever was initialized in between, finds that map and changes nothing. */
  lemma InitOnce(rs: seq<Repo>, pars: seq<AxisPar>, j: nat, k: nat)
    requires IsRun(rs, pars) && j < k < |pars| && pars[k].axis == pars[j].axis
    ensures InitAxis(rs[j], pars[j]).1.Ok? ==>
              InitAxis(rs[k], pars[k]) == (rs[k], InitAxis(rs[j], pars[j]).1)
  {
    if InitAxis(rs[j], pars[j]).1.Ok? && pars[j].axis != ROOT_AXIS {
      var id := InitAxis(rs[j], pars[j]).1.value;
      RunIsValid(rs, pars, j);
      GetMapIdKeepsValid(rs[j], pars[j].axis);
      IdsNeverChange(rs, pars, j + 1, k, pars[j].axis);
      MapsNeverChange(rs, pars, j + 1, k, id);
    }
  }

  lemma {:induction false} IdsNeverChange(rs: seq<Repo>, pars: seq<AxisPar>, j: nat, k: nat, axis: string)
    requires IsRun(rs, pars) && j <= k < |rs| && axis in rs[j].axis2mapId
    ensures axis in rs[k].axis2mapId && rs[k].axis2mapId[axis] == rs[j].axis2mapId[axis]
    decreases k
  {
    if j < k {
      IdsNeverChange(rs, pars, j, k - 1, axis);
      assert rs[k] == InitAxis(rs[k - 1], pars[k - 1]).0;
    }
  }

  // ---------- Transition ids ----------

  lemma {:induction false} AncestorInRepo(r: Repo, m: StateMap, a: StateMap)
    requires ValidRepo(r) && IsMapOf(r, m) && DescendsFrom(m, a)
    ensures IsMapOf(r, a)
    decreases m
  {
    if m != a {
      AncestorInRepo(r, m.parent, a);
    }
  }

  /** Each id of a transition in a map was introduced by that map or an ancestor, at the same
      pair of states. */
  lemma {:induction false} IdHasIntroducer(m: StateMap, p: (nat, nat)) returns (o: StateMap)
    requires WellBuilt(m) && p in m.Trans()
    ensures o.StateMap? && DescendsFrom(m, o)
    ensures m.Trans()[p] in o.trans2states && o.trans2states[m.Trans()[p]] == p
    decreases m
  {
    var lo :| m.parent.MaxTransId() <= lo && IntroducesAbove(m, lo);
    if p in m.parent.Trans() {
      o := IdHasIntroducer(m.parent, p);
    } else {
      o := m;
    }
  }

  /** In a valid repository every id in use is introduced by exactly one map, names one pair
      of states, and stands at that pair in that map and its descendants and nowhere else. */
  lemma TransitionIdsAreGlobal(r: Repo, o: StateMap, t: nat, m: StateMap, p: (nat, nat))
    requires ValidRepo(r) && IsMapOf(r, o) && IsMapOf(r, m)
    requires o.StateMap? && t in o.trans2states
    ensures p in m.Trans() && m.Trans()[p] == t <==>
              p == o.trans2states[t] && DescendsFrom(m, o)
  {
    if p in m.Trans() && m.Trans()[p] == t {
      WellBuiltInRepo(r, m);
      var o' := IdHasIntroducer(m, p);
      AncestorInRepo(r, m, o');
      assert IntroducedBy(r, t, o.id) && IntroducedBy(r, t, o'.id);
    }
    if p == o.trans2states[t] && DescendsFrom(m, o) {
      WellBuiltInRepo(r, m);
      AncestorFacts(m, o);
      DescendantInherits(m, o);
      var lo :| o.parent.MaxTransId() <= lo && IntroducesAbove(o, lo);
    }
  }

  lemma WellBuiltInRepo(r: Repo, m: StateMap)
    requires ValidRepo(r) && IsMapOf(r, m)
    ensures WellBuilt(m) && (m.StateMap? ==> 1 <= m.id < 0x8000)
  {
  }

  /** At every moment of every run the ids in use are exactly 1 to max_trans_id, and each was
      introduced by exactly one map. */
  lemma IdsAreDense(rs: seq<Repo>, pars: seq<AxisPar>, k: nat, t: nat)
    requires IsRun(rs, pars) && k < |rs|
    ensures 0 < t <= rs[k].maxTransId <==> IsIntroduced(rs[k], t)
    ensures forall i, j :: IntroducedBy(rs[k], t, i) && IntroducedBy(rs[k], t, j) ==> i == j
  {
    var r := rs[k];
    RunIsValid(rs, pars, k);
    forall i | IntroducedBy(r, t, i) ensures 0 < t <= r.maxTransId {
      IntroducedIsInUse(r, t, i);
    }
  }

  // ---------- Compatibility ----------

  /** In one repository the walk by ids finds exactly the ancestors. */
  lemma {:induction false} WalkFindsAncestors(r: Repo, m: StateMap, a: StateMap)
    requires ValidRepo(r) && IsMapOf(r, m) && IsMapOf(r, a)
    ensures IsSameOrDescendant(m, a) <==> DescendsFrom(m, a)
    decreases m
  {
    if m.StateMap? {
      WalkFindsAncestors(r, m.parent, a);
    }
  }

  /** is_compatible: the walk upwards stops at the first map whose id does not exceed that of
      the state's map; it terminates because the ids of the parents decrease to 0. */
  function IsCompatible(r: Repo, m: StateMap, state: State): Result<bool> {
    var mid := state.mid;
    if mid == m.Id() then Ok(true)
    else if mid < m.Id() then IsCompatible(r, m.parent, state)
    else
      match GetObjectById(r, mid)
      case Err(e) => Err(e)
      case Ok(stateMap) =>
        Ok(IsSameOrDescendant(stateMap, m) && state.idx <= stateMap.NStates())
  }

  /** `a` is the nearest ancestor-or-self of `m` whose id does not exceed `mid`. */
  ghost predicate IsNearest(m: StateMap, mid: nat, a: StateMap) {
    && DescendsFrom(m, a) && a.Id() <= mid
    && forall b :: DescendsFrom(m, b) && b.Id() <= mid ==> b.Id() <= a.Id()
  }

  lemma {:induction false} NearestExists(m: StateMap, mid: nat) returns (a: StateMap)
    requires WellBuilt(m)
    ensures IsNearest(m, mid, a)
    decreases m
  {
    if m.Id() <= mid {
      a := m;
      forall b | DescendsFrom(m, b) ensures b.Id() <= m.Id() {
        AncestorFacts(m, b);
      }
    } else {
      a := NearestExists(m.parent, mid);
    }
  }

  /** The exact meaning of is_compatible. */
  lemma {:induction false} IsCompatibleExactly(r: Repo, m: StateMap, state: State, a: StateMap)
    requires ValidRepo(r) && IsMapOf(r, m) && IsNearest(m, state.mid, a)
    ensures a.Id() == state.mid ==> IsCompatible(r, m, state) == Ok(true)
    ensures a.Id() != state.mid && state.mid !in r.maps ==>
              IsCompatible(r, m, state) == Err(NoSuchId)
    ensures a.Id() != state.mid && state.mid in r.maps ==>
              IsCompatible(r, m, state)
              == Ok(DescendsFrom(r.maps[state.mid], a)
                    && state.idx <= r.maps[state.mid].NStates())
    decreases m
  {
    var mid := state.mid;
    WellBuiltInRepo(r, m);
    AncestorFacts(m, a);
    if m.Id() <= mid {
      assert DescendsFrom(m, m);
      assert a == m;
      if mid in r.maps {
        WalkFindsAncestors(r, r.maps[mid], m);
      }
    } else {
      assert a != m;
      IsCompatibleExactly(r, m.parent, state, a);
    }
  }

  /** States of the map itself, of its ancestors, and of its descendants within their range are
      accepted. */
  lemma RelatedStatesAreCompatible(r: Repo, m: StateMap, s: StateMap, state: State)
    requires ValidRepo(r) && IsMapOf(r, m) && IsMapOf(r, s) && state.mid == s.Id()
    requires DescendsFrom(m, s) || (DescendsFrom(s, m) && state.idx <= s.NStates())
    ensures IsCompatible(r, m, state) == Ok(true)
  {
    WellBuiltInRepo(r, m);
    WellBuiltInRepo(r, s);
    var a := NearestExists(m, s.Id());
    IsCompatibleExactly(r, m, state, a);
    if DescendsFrom(m, s) {
      assert s.Id() <= a.Id();
    } else {
      AncestorFacts(s, m);
      assert DescendsFrom(m, m);
      AncestorFacts(m, a);
    }
  }

  /** States of an unrelated map are accepted too, whenever the walk passes every common
      ancestor but the one the two maps share: then only the index is checked. */
  lemma UnrelatedStatesAccepted(r: Repo, m: StateMap, s: StateMap, state: State)
    requires ValidRepo(r) && IsMapOf(r, m) && IsMapOf(r, s) && state.mid == s.Id()
    requires !DescendsFrom(m, s) && !DescendsFrom(s, m)
    ensures IsCompatible(r, m, state) == Ok(true) <==>
              state.idx <= s.NStates()
              && forall b :: DescendsFrom(m, b) && b.Id() <= s.Id() ==> DescendsFrom(s, b)
  {
    WellBuiltInRepo(r, m);
    var a := NearestExists(m, s.Id());
    RootIsAncestor(m);
    IsCompatibleExactly(r, m, state, a);
    AncestorInRepo(r, m, a);
    if DescendsFrom(s, a) {
      forall b | DescendsFrom(m, b) && b.Id() <= s.Id() ensures DescendsFrom(s, b) {
        AncestorsAreAChain(m, b, a);
        DescendsTransitive(s, a, b);
      }
    }
  }

  // ---------- Names, indices and transition lookups ----------

  function CreateState(m: StateMap, name: string): Result<State> {
    if m.StateMap? && name in m.name2idx then Ok(State(m.id, m.name2idx[name]))
    else Err(NoStateWithTheName)
  }

  function GetStateName(r: Repo, m: StateMap, state: State): Result<string> {
    match IsCompatible(r, m, state)
    case Err(e) => Err(e)
    case Ok(false) => Err(IncompatibleMap)
    case Ok(true) =>
      if state.idx == 0 then Ok("")
      else if state.idx <= m.NStates() then Ok(m.Names()[state.idx - 1])
      else Err(OutOfRange)
  }

  /** get_transition_id; 0 means that there is no transition. The rows and columns of the matrix
      start at 1, which is asserted when a cell is read. */
  function GetTransitionId(m: StateMap, from: State, to: State): Result<nat> {
    if from.idx > m.NStates() || to.idx > m.NStates() then Err(InvalidState)
    else if from.idx == 0 || to.idx == 0 then Err(BadIndex)
    else Ok(Cell(m.Trans(), (from.idx, to.idx)))
  }

  /** get_transition_id with two names. */
  function GetTransitionIdByName(m: StateMap, from: string, to: string): Result<nat> {
    match CreateState(m, from)
    case Err(e) => Err(e)
    case Ok(st1) =>
      match CreateState(m, to)
      case Err(e) => Err(e)
      case Ok(st2) => GetTransitionId(m, st1, st2)
  }

  lemma ByName(m: StateMap, from: string, to: string)
    requires WellBuilt(m)
    ensures from !in m.Names() || to !in m.Names() ==>
              GetTransitionIdByName(m, from, to) == Err(NoStateWithTheName)
    ensures from in m.Names() && to in m.Names() ==>
              m.StateMap? && from in m.name2idx && to in m.name2idx
              && GetTransitionIdByName(m, from, to)
              == Ok(Cell(m.trans, (m.name2idx[from], m.name2idx[to])))
  {
    KnownNames(m, from);
    KnownNames(m, to);
  }

  lemma DeclaredNames(name2idx: map<string, nat>, names: seq<string>, ts: seq<(string, string)>,
                      from: string, to: string)
    requires IsIndex(name2idx, names) && from in name2idx && to in name2idx
    ensures IsDeclared(name2idx, ts, (name2idx[from], name2idx[to])) <==> (from, to) in ts
  {
    var p := (name2idx[from], name2idx[to]);
    if IsDeclared(name2idx, ts, p) {
      var k :| 0 <= k < |ts| && Names2Pair(name2idx, ts[k], p);
      assert names[name2idx[ts[k].0] - 1] == from && names[name2idx[ts[k].1] - 1] == to;
    }
    if (from, to) in ts {
      var k :| 0 <= k < |ts| && ts[k] == (from, to);
      assert Names2Pair(name2idx, ts[k], p);
    }
  }

  lemma InheritedByName(m: StateMap, from: string, to: string)
    requires m.StateMap? && WellBuilt(m) && from in m.name2idx && to in m.name2idx
    ensures var p, t := (m.name2idx[from], m.name2idx[to]),
                        GetTransitionIdByName(m.parent, from, to);
            && (p in m.parent.Trans() <==> t.Ok? && t.value != 0)
            && (p in m.parent.Trans() ==> p in m.trans && t == Ok(m.trans[p]))
  {
    var index := if m.parent.StateMap? then m.parent.name2idx else map[];
    SameIndex(index, m.names, m.name2idx, from, m.parent.Names());
    SameIndex(index, m.names, m.name2idx, to, m.parent.Names());
    ByName(m.parent, from, to);
    DescendantInherits(m, m.parent);
  }

  /** Between two states an axis has a transition exactly when it declares one itself or its parent
      has one, all by name; and no transition leaves or reaches an unknown name. */
  lemma TransitionByName(m: StateMap, par: AxisPar, from: string, to: string)
    requires m.StateMap? && WellBuilt(m) && IsMapFor(m, m.parent, par)
    ensures from in m.names && to in m.names ==>
              var t, inherited := GetTransitionIdByName(m, from, to),
                                  GetTransitionIdByName(m.parent, from, to);
              && t.Ok?
              && (t.value != 0 <==> (from, to) in par.transitions || (inherited.Ok? && inherited.value != 0))
              && (inherited.Ok? && inherited.value != 0 ==> t == inherited)
    ensures from !in m.names || to !in m.names ==>
              GetTransitionIdByName(m, from, to) == Err(NoStateWithTheName)
  {
    ByName(m, from, to);
    if from in m.names && to in m.names {
      DeclaredNames(m.name2idx, m.names, par.transitions, from, to);
      InheritedByName(m, from, to);
    }
  }

  /** A name of the parent has the same index in the map, and the other way round. */
  lemma SameIndex(m: map<string, nat>, names: seq<string>, name2idx: map<string, nat>, name: string,
                  parentNames: seq<string>)
    requires IsIndex(name2idx, names) && name in name2idx && parentNames <= names
    requires |parentNames| > 0 ==> IsIndex(m, parentNames)
    ensures name2idx[name] <= |parentNames| <==> name in parentNames
    ensures name in parentNames ==> name in m && m[name] == name2idx[name]
  {
    if name2idx[name] <= |parentNames| {
      assert parentNames[name2idx[name] - 1] == names[name2idx[name] - 1];
    }
    if name in parentNames {
      var k :| 0 <= k < |parentNames| && parentNames[k] == name;
      assert names[k] == name && parentNames[k] in m;
    }
  }

  lemma OwnStateName(r: Repo, m: StateMap, state: State)
    requires state.mid == m.Id() && 1 <= state.idx <= m.NStates()
    ensures GetStateName(r, m, state) == Ok(m.Names()[state.idx - 1])
  {
  }

  lemma OwnNameState(m: StateMap, idx: nat)
    requires m.StateMap? && IsIndex(m.name2idx, m.names) && 1 <= idx <= |m.names|
    ensures CreateState(m, m.names[idx - 1]) == Ok(State(m.id, idx))
  {
    var name := m.names[idx - 1];
    assert name in m.name2idx && m.name2idx[name] == idx;
  }

  /** A state of a map leads to its name and back. */
  lemma StateRoundTrip(r: Repo, m: StateMap, idx: nat)
    requires ValidRepo(r) && IsMapOf(r, m) && 1 <= idx <= m.NStates()
    ensures GetStateName(r, m, State(m.Id(), idx)) == Ok(m.Names()[idx - 1])
    ensures CreateState(m, m.Names()[idx - 1]) == Ok(State(m.Id(), idx))
  {
    WellBuiltInRepo(r, m);
    OwnNameState(m, idx);
    OwnStateName(r, m, State(m.Id(), idx));
  }

  lemma IndexKnows(name2idx: map<string, nat>, names: seq<string>, name: string)
    requires IsIndex(name2idx, names)
    ensures name in name2idx <==> name in names
  {
    if name in names {
      var k :| 0 <= k < |names| && names[k] == name;
      assert names[k] in name2idx;
    }
    if name in name2idx {
      assert names[name2idx[name] - 1] == name;
    }
  }

  /** create_state accepts the names of the map and refuses all others. */
  lemma KnownNames(m: StateMap, name: string)
    requires WellBuilt(m)
    ensures CreateState(m, name).Ok? <==> name in m.Names()
    ensures CreateState(m, name).Ok? ==>
              && CreateState(m, name).value.mid == m.Id()
              && 1 <= CreateState(m, name).value.idx <= m.NStates()
              && m.Names()[CreateState(m, name).value.idx - 1] == name
  {
    match m
    case EmptyMap =>
    case StateMap(_, _, names, name2idx, _, _, _, _) =>
      IndexKnows(name2idx, names, name);
  }

  /** A name leads to its state and back. */
  lemma NameRoundTrip(r: Repo, m: StateMap, name: string)
    requires ValidRepo(r) && IsMapOf(r, m) && name in m.Names()
    ensures CreateState(m, name).Ok?
    ensures GetStateName(r, m, CreateState(m, name).value) == Ok(name)
  {
    WellBuiltInRepo(r, m);
    KnownNames(m, name);
    OwnStateName(r, m, CreateState(m, name).value);
  }

  /** Of a state of a related map, a map tells the name it has there, unless it has no state of that
      index. */
  lemma RelatedStateName(r: Repo, m: StateMap, s: StateMap, state: State)
    requires ValidRepo(r) && IsMapOf(r, m) && IsMapOf(r, s)
    requires state.mid == s.Id() && 1 <= state.idx <= s.NStates()
    requires DescendsFrom(m, s) || DescendsFrom(s, m)
    ensures GetStateName(r, m, state)
         == if state.idx <= m.NStates() then Ok(s.Names()[state.idx - 1]) else Err(OutOfRange)
  {
    assert m.Names() <= s.Names() || s.Names() <= m.Names() by {
      RelatedNames(r, m, s);
    }
    assert IsCompatible(r, m, state) == Ok(true) by {
      RelatedStatesAreCompatible(r, m, s, state);
    }
    TellsName(r, m, s.Names(), state);
  }

  lemma RelatedNames(r: Repo, m: StateMap, s: StateMap)
    requires ValidRepo(r) && IsMapOf(r, m) && IsMapOf(r, s)
    requires DescendsFrom(m, s) || DescendsFrom(s, m)
    ensures m.Names() <= s.Names() || s.Names() <= m.Names()
  {
    WellBuiltInRepo(r, m);
    WellBuiltInRepo(r, s);
    if DescendsFrom(m, s) {
      DescendantInherits(m, s);
    } else {
      DescendantInherits(s, m);
    }
  }

  lemma TellsName(r: Repo, m: StateMap, names: seq<string>, state: State)
    requires IsCompatible(r, m, state) == Ok(true) && 1 <= state.idx <= |names|
    requires m.Names() <= names || names <= m.Names()
    ensures GetStateName(r, m, state)
         == if state.idx <= m.NStates() then Ok(names[state.idx - 1]) else Err(OutOfRange)
  {
    assert state.idx <= m.NStates() ==> m.Names()[state.idx - 1] == names[state.idx - 1];
  }

  /** The conversion of an RState to a derived axis: the index stays, the map changes. */
  function Rebind(d: StateMap, state: State): State {
    State(d.Id(), state.idx)
  }

  lemma SameNameInPrefix(r: Repo, d: StateMap, a: StateMap, state: State)
    requires a.Names() <= d.Names()
    requires state.mid == a.Id() && 1 <= state.idx <= a.NStates()
    ensures GetStateName(r, a, state) == Ok(a.Names()[state.idx - 1])
    ensures GetStateName(r, d, Rebind(d, state)) == Ok(a.Names()[state.idx - 1])
  {
    OwnStateName(r, a, state);
    OwnStateName(r, d, Rebind(d, state));
    assert d.Names()[state.idx - 1] == a.Names()[state.idx - 1];
  }

  /** A state rebound to a derived axis keeps its name. */
  lemma RebindKeepsName(r: Repo, d: StateMap, a: StateMap, state: State)
    requires ValidRepo(r) && IsMapOf(r, d) && IsMapOf(r, a) && DescendsFrom(d, a)
    requires state.mid == a.Id() && 1 <= state.idx <= a.NStates()
    ensures GetStateName(r, a, state).Ok?
    ensures GetStateName(r, d, Rebind(d, state)) == GetStateName(r, a, state)
  {
    assert a.Names() <= d.Names() by {
      WellBuiltInRepo(r, d);
      DescendantInherits(d, a);
    }
    SameNameInPrefix(r, d, a, state);
  }

  /** A state rebound to a derived axis keeps every transition to a state of the old axis, with
      its id. */
  lemma RebindKeepsTransitions(r: Repo, d: StateMap, a: StateMap, state: State, to: State)
    requires ValidRepo(r) && IsMapOf(r, d) && IsMapOf(r, a) && DescendsFrom(d, a)
    requires state.mid == to.mid == a.Id()
    requires 1 <= state.idx <= a.NStates() && 1 <= to.idx <= a.NStates()
    ensures GetTransitionId(a, state, to).Ok?
    ensures GetTransitionId(d, Rebind(d, state), Rebind(d, to)).Ok?
    ensures GetTransitionId(a, state, to).value != 0 ==>
              GetTransitionId(d, Rebind(d, state), Rebind(d, to)) == GetTransitionId(a, state, to)
  {
    RebindKeepsName(r, d, a, state);
    RebindKeepsName(r, d, a, to);
    WellBuiltInRepo(r, d);
    DescendantInherits(d, a);
  }
}
