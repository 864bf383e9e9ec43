/** The transition tables that the other modules state as predicates are the transitions of the
    state maps that the axis declarations build: DataBufferStateAxis (C++/RBuffer.cpp), WindowAxis
    and ConnectedWindowAxis (C++/RWindow.cpp). */
module AxisTables {
  import opened StateMaps
  import Buffer
  import Window

  /** Pairs of indices of a map with these names. */
  ghost predicate AreIndices(ps: seq<(nat, nat)>, names: seq<string>) {
    forall k :: 0 <= k < |ps| ==> InRange(ps[k], |names|)
  }

  /** The transitions as a declaration writes them, by name. */
  function Transitions(names: seq<string>, ps: seq<(nat, nat)>): (ts: seq<(string, string)>)
    requires AreIndices(ps, names)
    ensures |ts| == |ps|
    ensures forall k :: 0 <= k < |ps| ==> ts[k] == (names[ps[k].0 - 1], names[ps[k].1 - 1])
  {
    seq(|ps|, k requires 0 <= k < |ps| && InRange(ps[k], |names|) =>
      (names[ps[k].0 - 1], names[ps[k].1 - 1]))
  }

  /** The constructor builds `m` below `parent`, when the counter stands at `lo`. */
  ghost predicate Builds(parent: StateMap, m: StateMap, states: seq<string>, ts: seq<(string, string)>,
                         lo: nat)
  {
    && m.StateMap? && parent.Id() < m.id && parent.MaxTransId() <= lo && lo + |ts| < 0x8000
    && Extend(parent, m.id, states, ts, lo) == Ok((m, m.maxTransId))
  }

  lemma DeclaredMeansListed(name2idx: map<string, nat>, names: seq<string>, ps: seq<(nat, nat)>,
                            p: (nat, nat))
    requires IsIndex(name2idx, names) && AreIndices(ps, names)
    ensures IsDeclared(name2idx, Transitions(names, ps), p) <==> p in ps
  {
    var ts := Transitions(names, ps);
    forall k | 0 <= k < |ps| ensures Names2Pair(name2idx, ts[k], p) <==> ps[k] == p {
      assert InRange(ps[k], |names|);
    }
  }

  /** The map has the transitions of its parent and the pairs listed, and no others. */
  lemma BuiltMeans(parent: StateMap, m: StateMap, states: seq<string>, names: seq<string>,
                   ps: seq<(nat, nat)>, lo: nat)
    requires WellBuilt(parent) && names == parent.Names() + states && Distinct(names)
    requires |names| < 0x8000 && AreIndices(ps, names)
    requires Builds(parent, m, states, Transitions(names, ps), lo)
    ensures WellBuilt(m) && m.parent == parent && m.names == names
    ensures forall p :: p in m.trans <==> p in parent.Trans() || p in ps
  {
    var ts := Transitions(names, ps);
    ExtendIsWellBuilt(parent, m.id, states, ts, lo);
    forall p ensures p in m.trans <==> p in parent.Trans() || p in ps {
      ExtendMeansDeclared(parent, m.id, states, ts, lo, p);
      DeclaredMeansListed(m.name2idx, m.names, ps, p);
    }
  }

  /** An axis and one derived from it: the derived map has the pairs of both lists. */
  lemma BothMean(parent: StateMap, m: StateMap, names: seq<string>, more: seq<string>,
                 ps: seq<(nat, nat)>, qs: seq<(nat, nat)>, lo: nat, lo': nat)
    requires Distinct(names) && Distinct(names + more) && |names + more| < 0x8000
    requires AreIndices(ps, names) && AreIndices(qs, names + more)
    requires Builds(EmptyMap, parent, names, Transitions(names, ps), lo)
    requires Builds(parent, m, more, Transitions(names + more, qs), lo')
    ensures WellBuilt(m) && m.parent == parent && parent.names == names && m.names == names + more
    ensures forall p :: p in parent.trans <==> p in ps
    ensures forall p :: p in m.trans <==> p in ps || p in qs
  {
    assert EmptyMap.Names() + names == names;
    BuiltMeans(EmptyMap, parent, names, names, ps, lo);
    BuiltMeans(parent, m, more, names + more, qs, lo');
  }

  /** Such a map exists. */
  lemma MapIsBuilt(parent: StateMap, id: nat, states: seq<string>, names: seq<string>,
                   ps: seq<(nat, nat)>, lo: nat) returns (m: StateMap)
    requires WellBuilt(parent) && names == parent.Names() + states && Distinct(names)
    requires |names| < 0x8000 && AreIndices(ps, names) && parent.Id() < id
    requires parent.MaxTransId() <= lo && lo + |ps| < 0x8000
    ensures Builds(parent, m, states, Transitions(names, ps), lo) && m.maxTransId <= lo + |ps|
    ensures WellBuilt(m) && m.names == names && m.id == id
  {
    var ts := Transitions(names, ps);
    ExtendIsWellBuilt(parent, id, states, ts, lo);
    assert CellsInRange(parent.Trans(), |names|, lo);
    AddTransitionsIntroduces(IndexOf(names), names, parent.Trans(), lo, ts);
    m := Extend(parent, id, states, ts, lo).value.0;
  }

  // ---------- DataBufferStateAxis ----------

  const BUFFER_NAMES := [
    "dummy", "charging", "charged", "discharged", "undoing", "moving_destination", "moving_source",
    "resizing_discharged", "bottom_extending", "bottom_extended"]

  function BufferIdx(st: Buffer.BufState): nat {
    match st
    case Dummy => 1
    case Charging => 2
    case Charged => 3
    case Discharged => 4
    case Undoing => 5
    case MovingDestination => 6
    case MovingSource => 7
    case ResizingDischarged => 8
    case BottomExtending => 9
    case BottomExtended => 10
  }

  /** In the order of the declaration, where one pair stands twice. */
  const BUFFER_PAIRS: seq<(nat, nat)> := [
    (1, 6), (1, 8), (6, 1), (6, 3), (4, 2), (4, 8), (4, 6), (6, 4), (8, 4), (2, 3), (3, 4), (3, 9),
    (3, 7), (7, 3), (3, 7), (9, 10), (7, 4), (2, 5), (5, 4), (10, 4)]

  lemma BufferNamesAreDistinct(names: seq<string>)
    requires names == BUFFER_NAMES
    ensures Distinct(names) && |names| == 10
  {
    assert names[2][0] != names[4][0];
  }

  lemma BufferListed(from: Buffer.BufState, to: Buffer.BufState)
    ensures (BufferIdx(from), BufferIdx(to)) in BUFFER_PAIRS <==> Buffer.Edge(from, to)
  {
    if Buffer.Edge(from, to) {
      BufferEdgeListed(from, to);
    } else if (BufferIdx(from), BufferIdx(to)) in BUFFER_PAIRS {
      BufferListedIsEdge(from, to, (BufferIdx(from), BufferIdx(to)));
    }
  }

  lemma BufferEdgeListed(from: Buffer.BufState, to: Buffer.BufState)
    requires Buffer.Edge(from, to)
    ensures (BufferIdx(from), BufferIdx(to)) in BUFFER_PAIRS
  {
  }

  function BufferState(idx: nat): Buffer.BufState {
    match idx
    case 1 => Buffer.Dummy
    case 2 => Buffer.Charging
    case 3 => Buffer.Charged
    case 4 => Buffer.Discharged
    case 5 => Buffer.Undoing
    case 6 => Buffer.MovingDestination
    case 7 => Buffer.MovingSource
    case 8 => Buffer.ResizingDischarged
    case 9 => Buffer.BottomExtending
    case _ => Buffer.BottomExtended
  }

  lemma BufferPairIsEdge(k: nat)
    requires k < |BUFFER_PAIRS|
    ensures Buffer.Edge(BufferState(BUFFER_PAIRS[k].0), BufferState(BUFFER_PAIRS[k].1))
  {
  }

  lemma BufferListedIsEdge(from: Buffer.BufState, to: Buffer.BufState, p: (nat, nat))
    requires p == (BufferIdx(from), BufferIdx(to)) && p in BUFFER_PAIRS
    ensures Buffer.Edge(from, to)
  {
    var k :| 0 <= k < |BUFFER_PAIRS| && BUFFER_PAIRS[k] == p;
    BufferPairIsEdge(k);
    assert BufferState(p.0) == from && BufferState(p.1) == to;
  }

  /** The buffer's table is the map of DataBufferStateAxis. */
  lemma BufferTable(m: StateMap, names: seq<string>, ps: seq<(nat, nat)>, lo: nat,
                    from: Buffer.BufState, to: Buffer.BufState)
    requires names == BUFFER_NAMES && ps == BUFFER_PAIRS && AreIndices(ps, names)
    requires Builds(EmptyMap, m, names, Transitions(names, ps), lo)
    ensures (BufferIdx(from), BufferIdx(to)) in m.trans <==> Buffer.Edge(from, to)
  {
    BufferNamesAreDistinct(names);
    assert EmptyMap.Names() + names == names;
    BuiltMeans(EmptyMap, m, names, names, ps, lo);
    BufferListed(from, to);
  }

  /** Such a map exists, wherever the counters of the repository stand. */
  lemma BufferMapIsBuilt(root: StateMap, id: nat, lo: nat, names: seq<string>, ps: seq<(nat, nat)>)
    returns (m: StateMap)
    requires root == EmptyMap && names == BUFFER_NAMES && ps == BUFFER_PAIRS
    requires 0 < id && lo + 20 < 0x8000
    ensures AreIndices(ps, names) && Builds(root, m, names, Transitions(names, ps), lo) && m.id == id
  {
    BufferNamesAreDistinct(names);
    assert root.Names() + names == names;
    m := MapIsBuilt(root, id, names, names, ps, lo);
  }

  // ---------- WindowAxis and ConnectedWindowAxis ----------

  const WINDOW_NAMES := ["ready", "filling", "filled", "welded"]

  const CONNECTED_NAMES := ["wait_for_buffer"]

  function WindowIdx(st: Window.WindowState): nat {
    match st
    case Ready => 1
    case Filling => 2
    case Filled => 3
    case Welded => 4
    case WaitForBuffer => 5
  }

  const WINDOW_PAIRS: seq<(nat, nat)> := [(1, 2), (2, 3), (3, 4), (4, 3), (4, 1)]

  const CONNECTED_PAIRS: seq<(nat, nat)> := [(2, 5), (5, 2)]

  lemma WindowNamesAreDistinct(names: seq<string>, more: seq<string>)
    requires names == WINDOW_NAMES && more == CONNECTED_NAMES
    ensures Distinct(names) && Distinct(names + more) && |names| == 4 && |more| == 1
  {
    assert names[2][0] != names[3][0];
  }

  lemma FirstNamesAreDistinct(names: seq<string>)
    requires names == WINDOW_NAMES
    ensures Distinct(names) && |names| == 4
  {
    assert names[2][0] != names[3][0];
  }

  lemma WindowListed(from: Window.WindowState, to: Window.WindowState, p: (nat, nat))
    requires p == (WindowIdx(from), WindowIdx(to))
    ensures p in WINDOW_PAIRS || p in CONNECTED_PAIRS <==> Window.WindowEdge(from, to)
  {
  }

  /** The window's table is the map of ConnectedWindowAxis, which extends that of WindowAxis. */
  lemma WindowTable(w: StateMap, m: StateMap, names: seq<string>, more: seq<string>,
                    ps: seq<(nat, nat)>, qs: seq<(nat, nat)>, lo: nat, lo': nat,
                    from: Window.WindowState, to: Window.WindowState)
    requires names == WINDOW_NAMES && ps == WINDOW_PAIRS && AreIndices(ps, names)
    requires more == CONNECTED_NAMES && qs == CONNECTED_PAIRS && AreIndices(qs, names + more)
    requires Builds(EmptyMap, w, names, Transitions(names, ps), lo)
    requires Builds(w, m, more, Transitions(names + more, qs), lo')
    ensures (WindowIdx(from), WindowIdx(to)) in m.trans <==> Window.WindowEdge(from, to)
  {
    WindowNamesAreDistinct(names, more);
    BothMean(w, m, names, more, ps, qs, lo, lo');
    var p := (WindowIdx(from), WindowIdx(to));
    assert p in m.trans <==> p in ps || p in qs;
    WindowListed(from, to, p);
  }

  /** Such maps exist, wherever the counters of the repository stand. */
  lemma WindowMapIsBuilt(root: StateMap, id: nat, lo: nat, names: seq<string>, ps: seq<(nat, nat)>)
    returns (w: StateMap)
    requires root == EmptyMap && names == WINDOW_NAMES && ps == WINDOW_PAIRS
    requires 0 < id && lo + 5 < 0x8000
    ensures AreIndices(ps, names) && Builds(root, w, names, Transitions(names, ps), lo)
    ensures w.id == id && WellBuilt(w) && w.names == names && w.maxTransId <= lo + 5
  {
    FirstNamesAreDistinct(names);
    assert root.Names() + names == names;
    w := MapIsBuilt(root, id, names, names, ps, lo);
  }

  lemma ConnectedMapIsBuilt(w: StateMap, id: nat, lo: nat, names: seq<string>, more: seq<string>,
                            qs: seq<(nat, nat)>) returns (m: StateMap)
    requires WellBuilt(w) && w.StateMap? && w.names == names == WINDOW_NAMES
    requires more == CONNECTED_NAMES && qs == CONNECTED_PAIRS
    requires w.id < id && w.maxTransId <= lo && lo + 2 < 0x8000
    ensures AreIndices(qs, names + more)
    ensures Builds(w, m, more, Transitions(names + more, qs), lo) && m.id == id
  {
    WindowNamesAreDistinct(names, more);
    m := MapIsBuilt(w, id, more, names + more, qs, lo);
  }
}
