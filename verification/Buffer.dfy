/** RSingleBuffer (C++/RBuffer.cpp): one memory block with a reserved part below the data, and
    the state table that guards its use. C++ exceptions are outcomes; a throwing call keeps
    what the code had already changed when it threw. */
module Buffer {

  // ---------- DataBufferStateAxis ----------

  datatype BufState =
    | Dummy | Charging | Charged | Discharged | Undoing | MovingDestination | MovingSource
    | ResizingDischarged | BottomExtending | BottomExtended

  predicate Edge(from: BufState, to: BufState) {
    match (from, to)
    case (Dummy, MovingDestination) => true
    case (Dummy, ResizingDischarged) => true
    case (MovingDestination, Dummy) => true
    case (MovingDestination, Charged) => true
    case (MovingDestination, Discharged) => true
    case (Discharged, Charging) => true
    case (Discharged, ResizingDischarged) => true
    case (Discharged, MovingDestination) => true
    case (ResizingDischarged, Discharged) => true
    case (Charging, Charged) => true
    case (Charging, Undoing) => true
    case (Undoing, Discharged) => true
    case (Charged, Discharged) => true
    case (Charged, BottomExtending) => true
    case (Charged, MovingSource) => true
    case (MovingSource, Charged) => true
    case (MovingSource, Discharged) => true
    case (BottomExtending, BottomExtended) => true
    case (BottomExtended, Discharged) => true
    case _ => false
  }

  /** `OutsideBlock` stands for an access outside a block, which C++ leaves undefined: nothing is
      said of what follows it. */
  datatype Outcome =
    | Done | InvalidStateTransition | InvalidState | ResizeOverCapacity | CheckFailed | OutsideBlock

  // ---------- The buffer ----------

  /** The fields of a buffer as one value. */
  datatype Slot = Slot(state: BufState, buf: array?<char>, noReleaseMemory: bool, size: nat,
                       topReserved: nat, bottomReserved: nat)

  /** memcpy between two blocks. */
  method MemCpy(dest: array<char>, at: nat, src: array<char>, off: nat, sz: nat)
    requires at + sz <= dest.Length && off + sz <= src.Length && dest != src
    modifies dest
    ensures dest[..at] == old(dest[..at]) && dest[at + sz..] == old(dest[at + sz..])
    ensures dest[at..at + sz] == src[off..off + sz]
  {
    var k := 0;
    while k < sz
      invariant 0 <= k <= sz
      invariant dest[..at] == old(dest[..at]) && dest[at + sz..] == old(dest[at + sz..])
      invariant dest[at..at + k] == src[off..off + k]
    {
      dest[at + k] := src[off + k];
      k := k + 1;
    }
  }

  class RSingleBuffer {
    var state: BufState
    var buf: array?<char>
    var noReleaseMemory: bool
    var size: nat
    var topReserved: nat
    var bottomReserved: nat

    /** The block has the size the limits promise. */
    ghost predicate Matched()
      reads this
    {
      buf != null ==> buf.Length == topReserved + bottomReserved
    }

    /** The data lie inside the block. */
    ghost predicate HoldsData()
      reads this
    {
      buf != null && bottomReserved + size <= buf.Length
    }

    ghost function Fields(): Slot
      reads this
    {
      Slot(state, buf, noReleaseMemory, size, topReserved, bottomReserved)
    }

    /** The bytes of the buffer: cdata(), size() of them. */
    ghost function Bytes(): seq<char>
      reads this, buf
      requires HoldsData()
    {
      buf[bottomReserved..bottomReserved + size]
    }

    constructor Unreserved()
      ensures state == Dummy && buf == null && size == topReserved == bottomReserved == 0
      ensures !noReleaseMemory
    {
      state, buf, noReleaseMemory := Dummy, null, false;
      size, topReserved, bottomReserved := 0, 0, 0;
    }

    constructor Reserved(res: nat, bottomRes: nat)
      ensures state == Discharged && buf == null && size == 0
      ensures topReserved == res && bottomReserved == bottomRes && !noReleaseMemory
    {
      state, buf, noReleaseMemory := Discharged, null, false;
      size, topReserved, bottomReserved := 0, res, bottomRes;
    }

    /** Construct by a string literal, which is never released. */
    constructor FromLiteral(str: array<char>)
      ensures state == Charged && noReleaseMemory && HoldsData() && Bytes() == str[..]
      ensures buf == str && size == topReserved == str.Length && bottomReserved == 0
    {
      state, buf, noReleaseMemory := Charged, str, true;
      size, topReserved, bottomReserved := str.Length, str.Length, 0;
    }

    /** move_to on DataBufferStateAxis. */
    method MoveTo(to: BufState) returns (ok: bool)
      modifies this`state
      ensures ok <==> Edge(old(state), to)
      ensures state == if ok then to else old(state)
    {
      ok := Edge(state, to);
      if ok {
        state := to;
      }
    }

    /** compare_and_move; it throws when the object is in `from` and there is no transition. */
    method CompareAndMove(from: BufState, to: BufState) returns (ok: bool, threw: bool)
      modifies this`state
      ensures ok <==> old(state) == from && Edge(from, to)
      ensures threw <==> old(state) == from && !Edge(from, to)
      ensures state == if ok then to else old(state)
    {
      ok, threw := false, false;
      if state == from {
        if Edge(from, to) {
          state, ok := to, true;
        } else {
          threw := true;
        }
      }
    }

    /** Either nothing changed in both buffers, or the content has changed hands. A block the
        destination still kept is no longer reachable through either of them. */
    method Move(from: RSingleBuffer) returns (r: Outcome)
      modifies this, from
      ensures r == Done || r == InvalidStateTransition
      ensures r == Done <==>
                from != this && Edge(old(state), MovingDestination) && old(from.state) == Charged
      ensures r == InvalidStateTransition ==> unchanged(this) && unchanged(from)
      ensures r == Done ==>
        && state == Charged && from.state == Discharged
        && buf == old(from.buf) && size == old(from.size)
        && topReserved == old(from.topReserved) && bottomReserved == old(from.bottomReserved)
        && noReleaseMemory == old(from.noReleaseMemory)
        && from.buf == null && from.size == 0 && !from.noReleaseMemory
        && from.topReserved == old(from.topReserved)
        && from.bottomReserved == old(from.bottomReserved)
      ensures r == Done && old(from.HoldsData()) ==> HoldsData() && Bytes() == old(from.Bytes())
    {
      var dest0, src0 := state, from.state;
      var ok := this.MoveTo(MovingDestination);
      if ok {
        ok := from.MoveTo(MovingSource);
      }
      if !ok {
        // the catch block; a further throw inside it is the same exception
        var moved, threw := this.CompareAndMove(MovingDestination, dest0);
        if !threw {
          moved, threw := from.CompareAndMove(MovingSource, src0);
        }
        return InvalidStateTransition;
      }
      topReserved := from.topReserved;
      bottomReserved := from.bottomReserved;
      buf := from.buf;
      noReleaseMemory := from.noReleaseMemory;
      size := from.size;
      from.buf := null;
      from.noReleaseMemory := false;
      from.size := 0;
      ok := this.MoveTo(Charged);
      ok := from.MoveTo(Discharged);
      r := Done;
    }

    /** reserve keeps the block, so the block matches the new limits only if there is none or it
        happens to have the new size. */
    method Reserve(top: nat, bottom: nat) returns (r: Outcome)
      modifies this
      ensures r == Done <==> top > 0 && top >= old(size) && (old(state) == Dummy || old(state) == Discharged)
      ensures r == CheckFailed <==> !(top > 0 && top >= old(size))
      ensures r != Done ==> unchanged(this) && (r == CheckFailed || r == InvalidStateTransition)
      ensures r == Done ==>
        && state == Discharged && topReserved == top && bottomReserved == bottom
        && buf == old(buf) && size == old(size) && noReleaseMemory == old(noReleaseMemory)
        && (Matched() <==> old(buf) == null || old(buf).Length == top + bottom)
    {
      if !(top > 0 && top >= size) {
        return CheckFailed;
      }
      var ok := MoveTo(ResizingDischarged);
      if !ok {
        return InvalidStateTransition;
      }
      topReserved := top;
      bottomReserved := bottom;
      ok := MoveTo(Discharged);
      r := Done;
    }

    /** start_charging zeroes the size and gets a block before it looks at the state, so a failed
        call is not without effect. */
    method StartCharging() returns (r: Outcome)
      modifies this
      ensures size == 0
      ensures buf != null && if old(buf) == null then fresh(buf) && Matched() else buf == old(buf)
      ensures topReserved == old(topReserved) && bottomReserved == old(bottomReserved)
      ensures noReleaseMemory == old(noReleaseMemory)
      ensures r == if old(state) == Discharged then Done else InvalidStateTransition
      ensures state == if r == Done then Charging else old(state)
    {
      size := 0;
      if buf == null {
        var res := topReserved + bottomReserved;
        buf := new char[res];
      }
      var ok := MoveTo(Charging);
      r := if ok then Done else InvalidStateTransition;
    }

    /** cancel_charging keeps the block. */
    method CancelCharging() returns (r: Outcome)
      modifies this
      ensures r == if old(state) == Charging then Done else InvalidStateTransition
      ensures r != Done ==> unchanged(this)
      ensures r == Done ==>
        && state == Discharged && size == 0 && buf == old(buf)
        && topReserved == old(topReserved) && bottomReserved == old(bottomReserved)
        && noReleaseMemory == old(noReleaseMemory)
    {
      var ok := MoveTo(Undoing);
      if !ok {
        return InvalidStateTransition;
      }
      size := 0;
      ok := MoveTo(Discharged);
      r := Done;
    }

    /** resize: a nonzero size charges the buffer, zero clears it and gives the block back. */
    method Resize(sz: nat) returns (r: Outcome)
      modifies this
      ensures topReserved == old(topReserved) && bottomReserved == old(bottomReserved)
      ensures noReleaseMemory == old(noReleaseMemory)
      ensures r == ResizeOverCapacity <==> sz > old(topReserved)
      ensures r == InvalidState <==> 0 < sz <= old(topReserved) && old(state) != Charging
      ensures r == CheckFailed <==>
                0 < sz <= old(topReserved) && old(state) == Charging && old(buf) == null
      ensures r == InvalidStateTransition <==> sz == 0 && !Edge(old(state), Discharged)
      ensures r != Done ==> unchanged(this) && r != OutsideBlock
      ensures r == Done && sz > 0 ==> state == Charged && size == sz && buf == old(buf) && buf != null
      ensures r == Done && sz == 0 ==> state == Discharged && size == 0 && buf == null
    {
      if sz > topReserved {
        return ResizeOverCapacity;
      }
      var ok;
      if sz > 0 {
        if state != Charging {
          return InvalidState;
        }
        if buf == null {
          return CheckFailed;
        }
        size := sz;
        ok := MoveTo(Charged);
      } else {
        ok := MoveTo(Discharged);
        if !ok {
          return InvalidStateTransition;
        }
        buf := null;
        size := sz;
      }
      r := Done;
    }

    /** The copy of extend_bottom stays inside both blocks. */
    ghost predicate CopyFits(src: array?<char>, off: int, sz: nat)
      reads this
    {
      && src != null && 0 <= off && off + sz <= src.Length
      && buf != null && bottomReserved <= buf.Length
    }

    /** extend_bottom: the window's bytes are copied directly below the start of the data; `src`
        and `off` say where they lie. The data themselves and everything below the copied part
        stay as they were. */
    method ExtendBottom(src: array?<char>, off: int, sz: nat) returns (r: Outcome)
      requires sz > 0 && (src == null || src != buf)
      modifies this`state, this`size, buf
      ensures r == CheckFailed <==> sz > bottomReserved
      ensures r == InvalidStateTransition <==> sz <= bottomReserved && old(state) != Charged
      ensures r == OutsideBlock <==>
                sz <= bottomReserved && old(state) == Charged && !CopyFits(src, off, sz)
      ensures r == CheckFailed || r == InvalidStateTransition ==> unchanged(this)
      ensures (r == CheckFailed || r == InvalidStateTransition) && buf != null ==> unchanged(buf)
      ensures r == CheckFailed || r == InvalidStateTransition || r == OutsideBlock || r == Done
      ensures r == Done ==>
        && state == BottomExtended && size == old(size) + sz && buf != null
        && buf[..bottomReserved - sz] == old(buf[..bottomReserved - sz])
        && buf[bottomReserved..] == old(buf[bottomReserved..])
        && buf[bottomReserved - sz..bottomReserved] == src[off..off + sz]
      ensures r == Done && old(HoldsData()) ==>
        buf[bottomReserved - sz..bottomReserved + old(size)] == src[off..off + sz] + old(Bytes())
    {
      if sz > bottomReserved {
        return CheckFailed;
      }
      var ok := MoveTo(BottomExtending);
      if !ok {
        return InvalidStateTransition;
      }
      if src == null || off < 0 || off + sz > src.Length || buf == null || bottomReserved > buf.Length {
        return OutsideBlock;
      }
      MemCpy(buf, bottomReserved - sz, src, off, sz);
      if HoldsData() {
        BelowTheData(old(buf[..]), buf[..], src[off..off + sz], bottomReserved, size);
      }
      size := size + sz;
      ok := MoveTo(BottomExtended);
      r := Done;
    }
  }

  /** Bytes written just below the data are shown together with them. */
  lemma BelowTheData(was: seq<char>, now: seq<char>, piece: seq<char>, b: nat, size: nat)
    requires |was| == |now| && |piece| <= b && b + size <= |was|
    requires now[b..] == was[b..] && now[b - |piece|..b] == piece
    ensures now[b - |piece|..b + size] == piece + was[b..b + size]
  {
    assert now[b..b + size] == now[b..][..size];
    assert was[b..b + size] == was[b..][..size];
  }

  // ---------- Ownership of blocks ----------

  ghost function Slots(bufs: set<RSingleBuffer>): map<RSingleBuffer, Slot>
    reads bufs
  {
    map b | b in bufs :: b.Fields()
  }

  /** No two buffers hold the same block. */
  ghost predicate NoSharing(h: map<RSingleBuffer, Slot>) {
    forall a, b :: a in h && b in h && a != b && h[a].buf != null ==> h[a].buf != h[b].buf
  }

  ghost function Blocks(h: map<RSingleBuffer, Slot>): set<array<char>> {
    set b | b in h && h[b].buf != null :: h[b].buf
  }

  /** The move goes through: the two are distinct, and both are ready for it. */
  ghost predicate Succeeds(h: map<RSingleBuffer, Slot>, dest: RSingleBuffer, src: RSingleBuffer)
    requires dest in h && src in h
  {
    dest != src && Edge(h[dest].state, MovingDestination) && h[src].state == Charged
  }

  ghost function AfterMove(h: map<RSingleBuffer, Slot>, dest: RSingleBuffer, src: RSingleBuffer):
    map<RSingleBuffer, Slot>
    requires dest in h && src in h
  {
    if Succeeds(h, dest, src) then
      h[dest := h[src]][src := h[src].(state := Discharged, buf := null, noReleaseMemory := false,
                                       size := 0)]
    else h
  }

  /** The block that a move forgets, if any. */
  ghost function Forgotten(h: map<RSingleBuffer, Slot>, dest: RSingleBuffer, src: RSingleBuffer):
    set<array<char>>
    requires dest in h && src in h
  {
    if Succeeds(h, dest, src) && h[dest].buf != null then {h[dest].buf} else {}
  }

  /** A move forgets a block exactly when it succeeds and the destination held one, and then that
      one and no other; all other blocks stay in one buffer each. */
  lemma MoveForgets(h: map<RSingleBuffer, Slot>, dest: RSingleBuffer, src: RSingleBuffer)
    requires dest in h && src in h && NoSharing(h)
    ensures NoSharing(AfterMove(h, dest, src))
    ensures Forgotten(h, dest, src) <= Blocks(h)
    ensures Blocks(AfterMove(h, dest, src)) == Blocks(h) - Forgotten(h, dest, src)
  {
    if Succeeds(h, dest, src) {
      var h' := AfterMove(h, dest, src);
      assert h[src].buf != null ==> h'[dest].buf == h[src].buf;
      forall x | x in Blocks(h) && x !in Forgotten(h, dest, src) ensures x in Blocks(h') {
        var b: RSingleBuffer :| b in h && h[b].buf == x;
        assert h'[if b == src then dest else b].buf == x;
      }
      forall x | x in Blocks(h') ensures x in Blocks(h) - Forgotten(h, dest, src) {
        var b: RSingleBuffer :| b in h' && h'[b].buf == x;
        assert h[if b == dest then src else b].buf == x;
      }
    }
  }

  ghost predicate AreMovesOn(bufs: seq<RSingleBuffer>, moves: seq<(nat, nat)>) {
    forall k :: 0 <= k < |moves| ==> moves[k].0 < |bufs| && moves[k].1 < |bufs|
  }

  ghost predicate Covers(h: map<RSingleBuffer, Slot>, bufs: seq<RSingleBuffer>) {
    forall b :: b in bufs ==> b in h
  }

  ghost function AfterMoves(h: map<RSingleBuffer, Slot>, bufs: seq<RSingleBuffer>,
                            moves: seq<(nat, nat)>): (r: map<RSingleBuffer, Slot>)
    requires AreMovesOn(bufs, moves) && Covers(h, bufs)
    ensures Covers(r, bufs)
  {
    if moves == [] then h
    else
      var n := |moves| - 1;
      AfterMove(AfterMoves(h, bufs, moves[..n]), bufs[moves[n].0], bufs[moves[n].1])
  }

  /** The blocks that a sequence of moves forgets. */
  ghost function AllForgotten(h: map<RSingleBuffer, Slot>, bufs: seq<RSingleBuffer>,
                              moves: seq<(nat, nat)>): set<array<char>>
    requires AreMovesOn(bufs, moves) && Covers(h, bufs)
  {
    if moves == [] then {}
    else
      var n := |moves| - 1;
      AllForgotten(h, bufs, moves[..n])
      + Forgotten(AfterMoves(h, bufs, moves[..n]), bufs[moves[n].0], bufs[moves[n].1])
  }

  /** Over any sequence of moves, failed ones and moves to itself included, no block is ever held
      by two buffers, no block comes from outside, and exactly the forgotten ones are lost. */
  lemma {:induction false} MovesConserve(h: map<RSingleBuffer, Slot>, bufs: seq<RSingleBuffer>,
                                         moves: seq<(nat, nat)>)
    requires AreMovesOn(bufs, moves) && Covers(h, bufs) && NoSharing(h)
    ensures NoSharing(AfterMoves(h, bufs, moves))
    ensures AllForgotten(h, bufs, moves) <= Blocks(h)
    ensures Blocks(AfterMoves(h, bufs, moves)) == Blocks(h) - AllForgotten(h, bufs, moves)
  {
    if moves != [] {
      var n := |moves| - 1;
      MovesConserve(h, bufs, moves[..n]);
      MoveForgets(AfterMoves(h, bufs, moves[..n]), bufs[moves[n].0], bufs[moves[n].1]);
    }
  }

  /** The moves themselves do what the specification says. */
  method RunMoves(bufs: seq<RSingleBuffer>, moves: seq<(nat, nat)>)
    requires AreMovesOn(bufs, moves)
    requires NoSharing(Slots(set b | b in bufs))
    modifies set b | b in bufs
    ensures Slots(set b | b in bufs) == AfterMoves(old(Slots(set b | b in bufs)), bufs, moves)
    ensures NoSharing(Slots(set b | b in bufs))
    ensures Blocks(Slots(set b | b in bufs))
         == old(Blocks(Slots(set b | b in bufs)))
            - AllForgotten(old(Slots(set b | b in bufs)), bufs, moves)
  {
    ghost var all := set b | b in bufs;
    ghost var h := Slots(all);
    var k := 0;
    assert moves[..0] == [];
    while k < |moves|
      invariant 0 <= k <= |moves|
      invariant Slots(all) == AfterMoves(h, bufs, moves[..k])
    {
      assert moves[..k + 1][..k] == moves[..k];
      MoveOne(all, bufs[moves[k].0], bufs[moves[k].1]);
      k := k + 1;
    }
    assert moves[..k] == moves;
    MovesConserve(h, bufs, moves);
  }

  method MoveOne(ghost all: set<RSingleBuffer>, dest: RSingleBuffer, src: RSingleBuffer)
    requires dest in all && src in all
    modifies dest, src
    ensures Slots(all) == AfterMove(old(Slots(all)), dest, src)
  {
    var r := dest.Move(src);
  }

  /** A destination that holds a block: one whose charging was cancelled. Its block is in no
      buffer after the move. */
  method ForgetBlock(src: RSingleBuffer, top: nat, bottom: nat)
    returns (dest: RSingleBuffer, block: array<char>)
    requires src.state == Charged
    modifies src
    ensures fresh(dest) && fresh(block) && block.Length == top + bottom
    ensures dest.state == Charged && dest.buf == old(src.buf) && src.buf == null
    ensures block !in Blocks(Slots({dest, src}))
  {
    dest := new RSingleBuffer.Reserved(top, bottom);
    var r := dest.StartCharging();
    block := dest.buf;
    r := dest.CancelCharging();
    assert dest.buf == block && dest.state == Discharged;
    r := dest.Move(src);
  }

  // ---------- Blocks and limits ----------

  datatype Block = NoBlock | Block(length: nat)

  /** What decides whether the data of a buffer lie inside its block. */
  datatype Shape = Shape(state: BufState, block: Block, size: nat, top: nat, bottom: nat)

  ghost function ShapeOf(b: RSingleBuffer): Shape
    reads b
  {
    Shape(b.state, if b.buf == null then NoBlock else Block.Block(b.buf.Length), b.size,
          b.topReserved, b.bottomReserved)
  }

  ghost function Shapes(bufs: seq<RSingleBuffer>): (h: seq<Shape>)
    reads bufs
    ensures |h| == |bufs| && forall k :: 0 <= k < |bufs| ==> h[k] == ShapeOf(bufs[k])
  {
    seq(|bufs|, k requires 0 <= k < |bufs| reads bufs => ShapeOf(bufs[k]))
  }

  /** The operations, on buffers named by their place. */
  datatype Op =
    | ReserveOp(at: nat, top: nat, bottom: nat)
    | StartOp(at: nat)
    | CancelOp(at: nat)
    | ResizeOp(at: nat, sz: nat)
    | ExtendOp(at: nat, sz: nat)
    | MoveOp(at: nat, from: nat)

  predicate IsOpOn(op: Op, n: nat) {
    op.at < n && (op.MoveOp? ==> op.from < n) && (op.ExtendOp? ==> op.sz > 0)
  }

  predicate CanReserve(b: Shape, top: nat) {
    top > 0 && top >= b.size && (b.state == Dummy || b.state == Discharged)
  }

  function Resized(b: Shape, sz: nat): Shape {
    if sz > b.top then b
    else if sz > 0 then
      (if b.state == Charging && b.block.Block? then b.(state := Charged, size := sz) else b)
    else if Edge(b.state, Discharged) then b.(state := Discharged, block := NoBlock, size := 0)
    else b
  }

  function Started(b: Shape): Shape {
    Shape(if b.state == Discharged then Charging else b.state,
          if b.block.NoBlock? then Block.Block(b.top + b.bottom) else b.block, 0, b.top, b.bottom)
  }

  function Reshaped(b: Shape, op: Op): Shape {
    match op
    case ReserveOp(_, top, bottom) =>
      if CanReserve(b, top) then b.(state := Discharged, top := top, bottom := bottom) else b
    case StartOp(_) => Started(b)
    case CancelOp(_) => if b.state == Charging then b.(state := Discharged, size := 0) else b
    case ResizeOp(_, sz) => Resized(b, sz)
    case ExtendOp(_, sz) =>
      if sz <= b.bottom && b.state == Charged then b.(state := BottomExtended, size := b.size + sz)
      else b
    case MoveOp(_, _) => b
  }

  function AfterOp(h: seq<Shape>, op: Op): (r: seq<Shape>)
    requires IsOpOn(op, |h|)
    ensures |r| == |h|
  {
    if op.MoveOp? then
      var d, s := h[op.at], h[op.from];
      if op.at != op.from && Edge(d.state, MovingDestination) && s.state == Charged then
        h[op.at := s][op.from := s.(state := Discharged, block := NoBlock, size := 0)]
      else h
    else h[op.at := Reshaped(h[op.at], op)]
  }

  function AfterOps(h: seq<Shape>, ops: seq<Op>): (r: seq<Shape>)
    requires forall k :: 0 <= k < |ops| ==> IsOpOn(ops[k], |h|)
    ensures |r| == |h|
  {
    if ops == [] then h else AfterOp(AfterOps(h, ops[..|ops| - 1]), ops[|ops| - 1])
  }

  /** The block is not smaller than the limits promise. */
  predicate IsRoomy(b: Shape) {
    b.block.Block? ==> b.block.length >= b.top + b.bottom
  }

  /** The data lie inside the block. */
  predicate Holds(b: Shape) {
    b.block.Block? && b.bottom + b.size <= b.block.length
  }

  predicate IsSound(b: Shape) {
    && IsRoomy(b)
    && (b.state == Charging || b.state == Charged ==> b.block.Block?)
    && (b.state == Charged ==> b.size <= b.top)
  }

  ghost predicate AllSound(h: seq<Shape>) {
    forall k :: 0 <= k < |h| ==> IsSound(h[k])
  }

  /** A reserve that goes through meets no kept block smaller than the new limits. */
  predicate HasRoomFor(h: seq<Shape>, op: Op)
    requires IsOpOn(op, |h|)
  {
    op.ReserveOp? && CanReserve(h[op.at], op.top) && h[op.at].block.Block? ==>
      h[op.at].block.length >= op.top + op.bottom
  }

  ghost predicate ReservesHaveRoom(h: seq<Shape>, ops: seq<Op>)
    requires forall k :: 0 <= k < |ops| ==> IsOpOn(ops[k], |h|)
  {
    forall k :: 0 <= k < |ops| ==> HasRoomFor(AfterOps(h, ops[..k]), ops[k])
  }

  lemma OpKeepsSound(h: seq<Shape>, op: Op)
    requires IsOpOn(op, |h|) && AllSound(h) && HasRoomFor(h, op)
    ensures AllSound(AfterOp(h, op))
  {
    assert IsSound(h[op.at]);
  }

  /** Over every sequence of operations: as long as no reserve meets a kept block that is too
      small, every charged buffer holds its data. */
  lemma {:induction false} ChargedHoldsData(h: seq<Shape>, ops: seq<Op>)
    requires forall k :: 0 <= k < |ops| ==> IsOpOn(ops[k], |h|)
    requires AllSound(h) && ReservesHaveRoom(h, ops)
    ensures AllSound(AfterOps(h, ops))
    ensures forall k :: 0 <= k < |h| && AfterOps(h, ops)[k].state == Charged ==>
              Holds(AfterOps(h, ops)[k])
  {
    if ops != [] {
      RoomBefore(h, ops);
      ChargedHoldsData(h, ops[..|ops| - 1]);
      OpKeepsSound(AfterOps(h, ops[..|ops| - 1]), ops[|ops| - 1]);
    }
    forall k | 0 <= k < |h| && AfterOps(h, ops)[k].state == Charged ensures Holds(AfterOps(h, ops)[k]) {
      assert IsSound(AfterOps(h, ops)[k]);
    }
  }

  lemma RoomBefore(h: seq<Shape>, ops: seq<Op>)
    requires ops != [] && forall k :: 0 <= k < |ops| ==> IsOpOn(ops[k], |h|)
    requires ReservesHaveRoom(h, ops)
    ensures ReservesHaveRoom(h, ops[..|ops| - 1])
  {
    var rest := ops[..|ops| - 1];
    forall k | 0 <= k < |rest| ensures HasRoomFor(AfterOps(h, rest[..k]), rest[k]) {
      assert rest[..k] == ops[..k];
    }
  }

  /** The condition is exact: a discharged buffer holds whatever it may be charged with if and only
      if its block is not smaller than its limits. */
  lemma RoomyExactly(b: Shape)
    requires b.state == Discharged && b.top > 0
    ensures IsRoomy(b) <==> forall sz :: 0 < sz <= b.top ==> Holds(Resized(Started(b), sz))
  {
    if !IsRoomy(b) {
      assert !Holds(Resized(Started(b), b.top));
    }
  }

  lemma OneMoreOp(h: seq<Shape>, ops: seq<Op>, k: nat)
    requires forall j :: 0 <= j < |ops| ==> IsOpOn(ops[j], |h|)
    requires k < |ops|
    ensures AfterOps(h, ops[..k + 1]) == AfterOp(AfterOps(h, ops[..k]), ops[k])
  {
    var rest := ops[..k + 1];
    assert rest[..|rest| - 1] == ops[..k] && rest[|rest| - 1] == ops[k];
  }

  lemma RoomAt(h: seq<Shape>, ops: seq<Op>, k: nat)
    requires forall j :: 0 <= j < |ops| ==> IsOpOn(ops[j], |h|)
    requires ReservesHaveRoom(h, ops) && k < |ops|
    ensures HasRoomFor(AfterOps(h, ops[..k]), ops[k])
  {
  }

  lemma SoundHoldsData(bufs: seq<RSingleBuffer>, b: RSingleBuffer)
    requires AllSound(Shapes(bufs)) && b in bufs && b.state == Charged
    ensures b.HoldsData()
  {
    var k :| 0 <= k < |bufs| && bufs[k] == b;
    assert IsSound(Shapes(bufs)[k]);
  }

  ghost function KeptBlocks(bufs: seq<RSingleBuffer>): set<array<char>>
    reads bufs
  {
    set b | b in bufs && b.buf != null :: b.buf
  }

  ghost predicate AllDifferent<T>(s: seq<T>) {
    forall j, k :: 0 <= j < k < |s| ==> s[j] != s[k]
  }

  /** The buffers themselves go through the operations as their shapes do. */
  method RunOps(bufs: seq<RSingleBuffer>, ops: seq<Op>)
    requires AllDifferent(bufs)
    requires forall k :: 0 <= k < |ops| ==> IsOpOn(ops[k], |bufs|)
    requires AllSound(Shapes(bufs)) && ReservesHaveRoom(Shapes(bufs), ops)
    modifies bufs, KeptBlocks(bufs)
    ensures Shapes(bufs) == AfterOps(old(Shapes(bufs)), ops)
    ensures forall b :: b in bufs && b.state == Charged ==> b.HoldsData()
  {
    ghost var h, blocks := Shapes(bufs), KeptBlocks(bufs);
    var k := 0;
    assert ops[..0] == [];
    while k < |ops|
      invariant 0 <= k <= |ops|
      invariant Shapes(bufs) == AfterOps(h, ops[..k])
      invariant AllSound(Shapes(bufs))
      invariant fresh(KeptBlocks(bufs) - blocks)
    {
      OneMoreOp(h, ops, k);
      RoomAt(h, ops, k);
      OpKeepsSound(Shapes(bufs), ops[k]);
      RunOp(bufs, ops[k]);
      k := k + 1;
    }
    assert ops[..k] == ops;
    forall b | b in bufs && b.state == Charged ensures b.HoldsData() {
      SoundHoldsData(bufs, b);
    }
  }

  method RunOp(bufs: seq<RSingleBuffer>, op: Op)
    requires AllDifferent(bufs) && IsOpOn(op, |bufs|) && AllSound(Shapes(bufs))
    modifies bufs, KeptBlocks(bufs)
    ensures Shapes(bufs) == AfterOp(old(Shapes(bufs)), op)
    ensures fresh(KeptBlocks(bufs) - old(KeptBlocks(bufs)))
  {
    assert IsSound(Shapes(bufs)[op.at]);
    if op.MoveOp? {
      var r := bufs[op.at].Move(bufs[op.from]);
    } else {
      RunOn(bufs[op.at], op);
    }
  }

  method RunOn(b: RSingleBuffer, op: Op)
    requires !op.MoveOp? && (op.ExtendOp? ==> op.sz > 0) && IsSound(ShapeOf(b))
    modifies b, b.buf
    ensures ShapeOf(b) == Reshaped(old(ShapeOf(b)), op)
    ensures b.buf == null || b.buf == old(b.buf) || fresh(b.buf)
  {
    var r;
    match op {
      case ReserveOp(_, top, bottom) => r := b.Reserve(top, bottom);
      case StartOp(_) => r := b.StartCharging();
      case CancelOp(_) => r := b.CancelCharging();
      case ResizeOp(_, sz) => r := b.Resize(sz);
      case ExtendOp(_, sz) =>
        var src := new char[sz];
        r := b.ExtendBottom(src, 0, sz);
    }
  }

  /** A buffer whose block it has outgrown: charging is cancelled, the limits are raised, and it is
      charged again. */
  method OutgrowBlock(top: nat, more: nat) returns (b: RSingleBuffer)
    requires 0 < top < more
    ensures fresh(b) && b.state == Charged && b.size == more && !b.HoldsData()
  {
    b := new RSingleBuffer.Reserved(top, 0);
    var r := b.StartCharging();
    r := b.CancelCharging();
    r := b.Reserve(more, 0);
    r := b.StartCharging();
    r := b.Resize(more);
  }
}
