/** RConnectedWindow (C++/RWindow.hpp): a window asks for `sz` bytes and is filled from buffers
    that arrive one at a time; what it already has is copied below the start of each new
    buffer, so the bytes stay together without being moved again. `bottom` and `top` are signed
    offsets from the start of the buffer's data. */
module Window {
  import opened Buffer

  /** WindowAxis and ConnectedWindowAxis (C++/RWindow.cpp). */
  datatype WindowState = Ready | Filling | Filled | Welded | WaitForBuffer

  predicate WindowEdge(from: WindowState, to: WindowState) {
    match (from, to)
    case (Ready, Filling) => true
    case (Filling, Filled) => true
    case (Filled, Welded) => true
    case (Welded, Filled) => true
    case (Welded, Ready) => true
    case (Filling, WaitForBuffer) => true
    case (WaitForBuffer, Filling) => true
    case _ => false
  }

  datatype Accepted = Taken | WrongWindowState | WrongBufferState | NoBottomReserve | OutsideBlock

  function Min(a: nat, b: nat): nat {
    if a <= b then a else b
  }

  /** The first `n` bytes of `s`, or all of them. */
  function Take(s: seq<char>, n: nat): seq<char> {
    s[..Min(n, |s|)]
  }

  class RConnectedWindow {
    var state: WindowState
    var buf: RSingleBuffer?
    var bottom: int
    var top: int
    var sz: nat
    /** Where the data of the packet itself end; its buffer's size also counts what was copied
        below them. */
    ghost var dataEnd: int

    /** The window shows no more than it asked for. */
    ghost predicate InOrder()
      reads this
    {
      && bottom <= top <= bottom + sz
      && (buf == null ==> bottom == top == 0)
    }

    /** Every byte it shows lies inside the block. */
    ghost predicate InBounds()
      reads this, buf
    {
      && InOrder()
      && (buf != null ==>
            && buf.buf != null
            && 0 <= buf.bottomReserved + bottom
            && buf.bottomReserved + top <= buf.buf.Length)
    }

    /** The packet goes on above what the window shows, inside the block, and the window does not
        stand below what was copied there. */
    ghost predicate HasRest()
      reads this, buf
    {
      && buf != null && buf.buf != null
      && 0 <= buf.bottomReserved + top && dataEnd - buf.size <= top <= dataEnd <= buf.size
      && buf.bottomReserved + dataEnd <= buf.buf.Length
    }

    /** The bytes of the packet that the window has not shown yet. */
    ghost function Rest(): seq<char>
      reads this, buf, if buf == null then {} else {buf.buf}
      requires HasRest()
    {
      buf.buf[buf.bottomReserved + top..buf.bottomReserved + dataEnd]
    }

    /** The bytes the window shows. */
    ghost function View(): seq<char>
      reads this, buf, if buf == null then {} else {buf.buf}
      requires InBounds()
    {
      if buf == null then []
      else buf.buf[buf.bottomReserved + bottom..buf.bottomReserved + top]
    }

    function FilledSize(): int
      reads this
    {
      top - bottom
    }

    constructor ()
      ensures state == Ready && buf == null && bottom == top == 0 && sz == 0
    {
      state, buf, bottom, top, sz, dataEnd := Ready, null, 0, 0, 0, 0;
    }

    method MoveTo(to: WindowState)
      requires WindowEdge(state, to)
      modifies this`state
      ensures state == to
    {
      state := to;
    }

    /** detach: a filled window gives up its buffer; others are left alone. */
    method Detach()
      modifies this
      ensures old(state) == Filled ==> state == Ready && buf == null && bottom == top == 0 && sz == 0
      ensures old(state) != Filled ==> unchanged(this)
    {
      if state == Filled {
        MoveTo(Welded);
        buf := null;
        bottom, top, sz := 0, 0, 0;
        MoveTo(Ready);
      }
    }

    /** move: a window that is ready, or filled and then detached first, takes over what the filled
        window `w` shows. That one becomes ready but keeps its buffer, and where it stood in it.
        In any other state the call throws. */
    method Move(w: RConnectedWindow) returns (ok: bool)
      requires w != this && w.state == Filled
      modifies this, w
      ensures ok <==> old(state) == Ready || old(state) == Filled
      ensures !ok ==> unchanged(this) && unchanged(w)
      ensures ok ==>
        && state == Filled && buf == w.buf && bottom == w.bottom && top == w.top && sz == w.sz
        && dataEnd == w.dataEnd
        && w.state == Ready && w.buf == old(w.buf) && w.bottom == old(w.bottom)
        && w.top == old(w.top) && w.sz == old(w.sz) && w.dataEnd == old(w.dataEnd)
    {
      Detach();
      if state != Ready {
        return false;
      }
      MoveTo(Filling);
      w.MoveTo(Welded);
      buf, bottom, top, sz, dataEnd := w.buf, w.bottom, w.top, w.sz, w.dataEnd;
      w.MoveTo(Ready);
      MoveTo(Filled);
      ok := true;
    }

    /** forward_top: the call returns after the window was ready. A window with no buffer waits
        for one. A window that still holds a buffer goes on above what it showed, by no more than
        the size of the whole buffer: so it shows the next bytes of the packet if and only if
        that is not more than what is left of it, and otherwise more than the packet has. */
    method ForwardTop(s: nat)
      requires state == Ready && InOrder()
      modifies this
      ensures sz == s && buf == old(buf) && bottom == old(top) && dataEnd == old(dataEnd) && InOrder()
      ensures buf == null ==> state == WaitForBuffer && InBounds() && View() == []
      ensures buf != null ==>
        && top == old(top) + Min(s, buf.size)
        && state == (if s <= buf.size then Filled else WaitForBuffer)
      ensures buf != null && old(InBounds()) ==>
        (InBounds() <==> buf.bottomReserved + old(top) + Min(s, buf.size) <= buf.buf.Length)
      ensures old(HasRest()) ==>
        (InBounds() && View() == Take(old(Rest()), s) <==> old(top) + Min(s, buf.size) <= dataEnd)
      ensures old(HasRest()) && old(top) + Min(s, buf.size) <= dataEnd ==>
        HasRest() && InBounds() && View() + Rest() == old(Rest())
    {
      MoveTo(Filling);
      sz := s;
      bottom := top;
      MoveForward();
      if old(HasRest()) {
        GoesOn(this, old(Rest()));
      }
    }

    method MoveForward()
      requires state == Filling
      modifies this`top, this`state
      ensures top == if buf == null then old(top) else bottom + Min(sz, buf.size)
      ensures state == if buf == null || bottom + sz > top then WaitForBuffer else Filled
    {
      if buf != null {
        top := bottom + Min(sz, buf.size);
      }
      if buf == null || bottom + sz > top {
        MoveTo(WaitForBuffer);
      } else {
        MoveTo(Filled);
      }
    }

    /** new_buffer: the bytes of the new buffer are appended to the window's, up to the size it
        asked for; the rest of the packet follows what the window shows. Nothing changes when the
        call throws. */
    method NewBuffer(newBuf: RSingleBuffer) returns (r: Accepted)
      requires InOrder()
      requires buf != null ==> buf != newBuf && (buf.buf == null || buf.buf != newBuf.buf)
      modifies this, newBuf, newBuf.buf
      ensures r == WrongWindowState <==> old(state) != WaitForBuffer
      ensures r == WrongBufferState <==> old(state) == WaitForBuffer && old(newBuf.state) != Charged
      ensures r == NoBottomReserve <==>
                old(state) == WaitForBuffer && old(newBuf.state) == Charged
                && old(FilledSize()) > newBuf.bottomReserved
      ensures r == Accepted.OutsideBlock <==>
                old(state) == WaitForBuffer && old(newBuf.state) == Charged
                && 0 < old(FilledSize()) <= newBuf.bottomReserved
                && old(!InBounds() || newBuf.buf == null || newBuf.bottomReserved > newBuf.buf.Length)
      ensures r == WrongWindowState || r == WrongBufferState || r == NoBottomReserve ==>
        unchanged(this) && unchanged(newBuf) && (newBuf.buf != null ==> unchanged(newBuf.buf))
      ensures r == Taken ==>
        && buf == newBuf && newBuf.buf == old(newBuf.buf) && sz == old(sz) && InOrder()
        && newBuf.bottomReserved == old(newBuf.bottomReserved)
        && newBuf.topReserved == old(newBuf.topReserved)
        && newBuf.size == old(FilledSize() + newBuf.size) && dataEnd == old(newBuf.size)
        && bottom == -old(FilledSize()) && top == bottom + Min(sz, newBuf.size)
        && state == if newBuf.size >= sz then Filled else WaitForBuffer
      ensures r == Taken && newBuf.buf != null ==>
        (InBounds() <==> newBuf.bottomReserved + top <= newBuf.buf.Length)
      ensures r == Taken && old(InBounds() && newBuf.HoldsData()) ==>
        && InBounds() && HasRest()
        && View() == Take(old(View()) + old(newBuf.Bytes()), sz)
        && View() + Rest() == old(View()) + old(newBuf.Bytes())
    {
      if state != WaitForBuffer {
        return WrongWindowState;
      }
      if newBuf.state != Charged {
        return WrongBufferState;
      }
      ghost var whole := InBounds() && newBuf.HoldsData();
      ghost var bytes := if whole then View() + newBuf.Bytes() else [];
      var c := ExtendBelow(newBuf, whole, bytes);
      if c == CheckFailed {
        return NoBottomReserve;
      }
      if c == Outcome.OutsideBlock {
        return Accepted.OutsideBlock;
      }
      Attach(newBuf, FilledSize(), whole, bytes);
      r := Taken;
    }

    /** The first half of new_buffer: what the window shows, if anything, is copied below the new
        data. */
    method ExtendBelow(newBuf: RSingleBuffer, ghost whole: bool, ghost bytes: seq<char>)
      returns (r: Outcome)
      requires InOrder() && newBuf.state == Charged
      requires buf != null ==> buf != newBuf && (buf.buf == null || buf.buf != newBuf.buf)
      requires whole ==> InBounds() && newBuf.HoldsData() && bytes == View() + newBuf.Bytes()
      modifies newBuf, newBuf.buf
      ensures r == CheckFailed <==> FilledSize() > newBuf.bottomReserved
      ensures r == Outcome.OutsideBlock <==>
                && 0 < FilledSize() <= newBuf.bottomReserved
                && old(!InBounds() || newBuf.buf == null || newBuf.bottomReserved > newBuf.buf.Length)
      ensures r == CheckFailed || r == Outcome.OutsideBlock || r == Done
      ensures r == CheckFailed ==>
        unchanged(newBuf) && (newBuf.buf != null ==> unchanged(newBuf.buf))
      ensures r == Done ==>
        && newBuf.buf == old(newBuf.buf)
        && newBuf.topReserved == old(newBuf.topReserved)
        && newBuf.bottomReserved == old(newBuf.bottomReserved)
        && newBuf.size == FilledSize() + old(newBuf.size)
      ensures r == Done && whole ==>
        && newBuf.buf != null && newBuf.bottomReserved + old(newBuf.size) <= newBuf.buf.Length
        && newBuf.buf[newBuf.bottomReserved - FilledSize()..newBuf.bottomReserved + old(newBuf.size)]
           == bytes
    {
      if FilledSize() > 0 {
        r := CopyBelow(newBuf);
      } else {
        assert whole ==> View() == [];
        r := Done;
      }
    }

    /** What the window shows is copied below the new data. */
    method CopyBelow(newBuf: RSingleBuffer) returns (r: Outcome)
      requires InOrder() && FilledSize() > 0 && newBuf.state == Charged
      requires buf != newBuf && (buf.buf == null || buf.buf != newBuf.buf)
      modifies newBuf, newBuf.buf
      ensures r == CheckFailed <==> FilledSize() > newBuf.bottomReserved
      ensures r == Outcome.OutsideBlock <==>
                && FilledSize() <= newBuf.bottomReserved
                && old(!InBounds() || newBuf.buf == null || newBuf.bottomReserved > newBuf.buf.Length)
      ensures r == CheckFailed || r == Outcome.OutsideBlock || r == Done
      ensures r == CheckFailed ==>
        unchanged(newBuf) && (newBuf.buf != null ==> unchanged(newBuf.buf))
      ensures r == Done ==>
        && newBuf.buf == old(newBuf.buf)
        && newBuf.topReserved == old(newBuf.topReserved)
        && newBuf.bottomReserved == old(newBuf.bottomReserved)
        && newBuf.size == FilledSize() + old(newBuf.size)
      ensures r == Done && old(newBuf.HoldsData()) ==>
        && newBuf.buf != null && old(InBounds())
        && newBuf.bottomReserved + old(newBuf.size) <= newBuf.buf.Length
        && newBuf.buf[newBuf.bottomReserved - FilledSize()..newBuf.bottomReserved + old(newBuf.size)]
           == old(View()) + old(newBuf.Bytes())
    {
      r := newBuf.ExtendBottom(buf.buf, buf.bottomReserved + bottom, FilledSize());
    }

    /** The second half: the window moves to the new buffer, `filled` bytes below its data, and
        shows the first of the bytes that stand together there. */
    method Attach(newBuf: RSingleBuffer, filled: nat, ghost whole: bool, ghost bytes: seq<char>)
      requires state == WaitForBuffer && filled <= sz && filled <= newBuf.size
      requires whole ==>
        && newBuf.buf != null && filled <= newBuf.bottomReserved && |bytes| == newBuf.size
        && newBuf.bottomReserved + newBuf.size - filled <= newBuf.buf.Length
        && var start := newBuf.bottomReserved - filled;
           newBuf.buf[start..start + newBuf.size] == bytes
      modifies this
      ensures buf == newBuf && sz == old(sz) && InOrder() && dataEnd == newBuf.size - filled
      ensures bottom + filled == 0 && top == bottom + Min(sz, newBuf.size)
      ensures state == if newBuf.size >= sz then Filled else WaitForBuffer
      ensures whole ==>
        InBounds() && HasRest() && View() == Take(bytes, sz) && View() + Rest() == bytes
    {
      buf := newBuf;
      bottom := -(filled as int);
      top := 0;
      dataEnd := newBuf.size - filled;
      MoveTo(Filling);
      MoveForward();
      if whole {
        ShowsBytes(this, filled, bytes);
      }
    }
  }

  /** A window that has gone on shows the next bytes if and only if there are enough. */
  lemma GoesOn(w: RConnectedWindow, rest: seq<char>)
    requires w.InOrder() && w.buf != null && w.buf.buf != null
    requires 0 <= w.buf.bottomReserved + w.bottom
    requires w.dataEnd - w.buf.size <= w.bottom <= w.dataEnd <= w.buf.size
    requires w.buf.bottomReserved + w.dataEnd <= w.buf.buf.Length
    requires rest == w.buf.buf[w.buf.bottomReserved + w.bottom..w.buf.bottomReserved + w.dataEnd]
    requires w.top == w.bottom + Min(w.sz, w.buf.size)
    ensures w.InBounds() && w.View() == Take(rest, w.sz) <==> w.top <= w.dataEnd
    ensures w.top <= w.dataEnd ==> w.HasRest() && w.InBounds() && w.View() + w.Rest() == rest
  {
    if w.top <= w.dataEnd {
      assert w.View() == rest[..w.top - w.bottom];
      assert w.sz > w.buf.size ==> Min(w.sz, |rest|) == |rest| == w.top - w.bottom;
    } else if w.InBounds() {
      assert |w.View()| == w.top - w.bottom > |rest| >= |Take(rest, w.sz)|;
    }
  }

  /** A window that stands `filled` bytes below the data of its buffer shows the first bytes that
      stand together there, and the rest of them follows. */
  lemma ShowsBytes(w: RConnectedWindow, filled: nat, bytes: seq<char>)
    requires w.buf != null && w.buf.buf != null && filled <= w.sz && filled <= w.buf.size == |bytes|
    requires filled <= w.buf.bottomReserved
    requires w.buf.bottomReserved + w.buf.size - filled <= w.buf.buf.Length
    requires w.bottom + filled == 0 && w.top == w.bottom + Min(w.sz, w.buf.size)
    requires w.dataEnd == w.buf.size - filled
    requires var start := w.buf.bottomReserved - filled;
             w.buf.buf[start..start + w.buf.size] == bytes
    ensures w.InBounds() && w.HasRest()
    ensures w.View() == Take(bytes, w.sz) && w.View() + w.Rest() == bytes
  {
    var start, n := w.buf.bottomReserved - filled, Min(w.sz, |bytes|);
    assert w.buf.buf[start..start + w.buf.size][..n] == w.buf.buf[start..start + n];
    assert w.buf.buf[start..start + w.buf.size][n..] == w.buf.buf[start + n..start + w.buf.size];
  }

  /** A new window takes a packet and shows its first `a` bytes. */
  method ShowFirst(packet: RSingleBuffer, a: nat) returns (w: RConnectedWindow)
    requires packet.state == Charged && packet.HoldsData() && a <= packet.size
    modifies packet, packet.buf
    ensures fresh(w) && packet.buf == old(packet.buf) && packet.size == old(packet.size)
    ensures packet.bottomReserved == old(packet.bottomReserved)
    ensures w.state == Filled && w.buf == packet && w.InBounds() && w.HasRest()
    ensures w.bottom == 0 && w.top == a && w.dataEnd == packet.size
    ensures w.View() == old(packet.Bytes())[..a] && w.Rest() == old(packet.Bytes())[a..]
  {
    w := new RConnectedWindow();
    w.ForwardTop(a);
    ghost var bytes := packet.Bytes();
    var r := w.NewBuffer(packet);
    assert w.View() + w.Rest() == bytes;
  }

  /** A filled window gives what it shows to a new one, and asks for `b` more. */
  method GiveAndAsk(w: RConnectedWindow, b: nat) returns (taker: RConnectedWindow)
    requires w.state == Filled && w.InBounds() && w.HasRest()
    modifies w
    ensures fresh(taker) && taker.state == Filled && taker.buf == w.buf == old(w.buf)
    ensures taker.InBounds() && taker.View() == old(w.View())
    ensures w.sz == b && w.state == if b <= w.buf.size then Filled else WaitForBuffer
    ensures w.InBounds() <==>
              w.buf.bottomReserved + old(w.top) + Min(b, w.buf.size) <= w.buf.buf.Length
    ensures w.InBounds() && w.View() == Take(old(w.Rest()), b) <==>
              old(w.top) + Min(b, w.buf.size) <= old(w.dataEnd)
  {
    taker := new RConnectedWindow();
    var ok := taker.Move(w);
    assert w.InBounds() && w.HasRest() && w.Rest() == old(w.Rest());
    w.ForwardTop(b);
  }

  /** Two requests to one packet that has less than both together. A window takes the packet, shows
      the first `a` bytes, and gives them to another; asked for `b` more it is filled, but does
      not show the next bytes of the packet. Whether it stays inside the block is up to the block. */
  method AskTwice(packet: RSingleBuffer, a: nat, b: nat)
    returns (w: RConnectedWindow, taker: RConnectedWindow)
    requires packet.state == Charged && packet.HoldsData()
    requires a <= packet.size && b <= packet.size < a + b
    modifies packet, packet.buf
    ensures fresh(w) && fresh(taker) && packet.buf == old(packet.buf)
    ensures taker.state == Filled && taker.InBounds() && taker.View() == old(packet.Bytes())[..a]
    ensures w.state == Filled && w.sz == b
    ensures !(w.InBounds() && w.View() == Take(old(packet.Bytes())[a..], b))
    ensures w.InBounds() <==> old(packet.bottomReserved) + a + b <= packet.buf.Length
  {
    w := ShowFirst(packet, a);
    taker := GiveAndAsk(w, b);
  }

  // ---------- Reassembly ----------

  /** The packets in the order they arrived, as one sequence of bytes. */
  ghost function Concat(packets: seq<seq<char>>): seq<char> {
    if packets == [] then [] else Concat(packets[..|packets| - 1]) + packets[|packets| - 1]
  }

  lemma {:induction false} ConcatPrefix(packets: seq<seq<char>>, i: nat)
    requires i <= |packets|
    ensures Concat(packets[..i]) <= Concat(packets)
  {
    var n := |packets| - 1;
    if i <= n {
      assert packets[..n][..i] == packets[..i];
      ConcatPrefix(packets[..n], i);
    } else {
      assert packets[..i] == packets;
    }
  }

  /** Reassembly refines concatenation. A window with no buffer asks for `n` bytes and takes
      packets until it has them: it then shows exactly the first `n` bytes of the packets, in
      order, or all of them if there are fewer, and it is filled exactly when there were enough.
      Each packet needs room below its data for what came before it; that a charged buffer holds
      its data is what `Buffer.RunOps` guarantees. */
  method Reassemble(w: RConnectedWindow, n: nat, packets: seq<RSingleBuffer>,
                    ghost blocks: seq<array<char>>, ghost bytes: seq<seq<char>>)
    returns (taken: nat)
    requires w.state == Ready && w.buf == null && w.InBounds()
    requires |blocks| == |bytes| == |packets| && AllDifferent(packets) && AllDifferent(blocks)
    requires StillToCome(packets, blocks, bytes, n, 0)
    modifies w, packets, blocks
    ensures taken <= |packets| && w.InBounds() && w.sz == n
    ensures w.View() == Take(Concat(bytes), n)
    ensures w.state == if (n > 0 || |packets| > 0) && |Concat(bytes)| >= n
                       then Filled else WaitForBuffer
  {
    Begin(w, n, bytes);
    taken := 0;
    while taken < |packets| && w.state == WaitForBuffer
      invariant taken <= |packets|
      invariant ShowsPrefix(w, n, bytes, taken)
      invariant if taken == 0 then w.buf == null
                else w.buf == packets[taken - 1] && w.buf.buf == blocks[taken - 1]
      invariant StillToCome(packets, blocks, bytes, n, taken)
    {
      TakeNext(w, n, packets, taken, blocks, bytes);
      taken := taken + 1;
    }
    Finish(w, n, bytes, taken);
  }

  method Begin(w: RConnectedWindow, n: nat, ghost bytes: seq<seq<char>>)
    requires w.state == Ready && w.buf == null && w.InBounds()
    modifies w
    ensures ShowsPrefix(w, n, bytes, 0) && w.buf == null
  {
    w.ForwardTop(n);
    assert bytes[..0] == [];
  }

  lemma Finish(w: RConnectedWindow, n: nat, bytes: seq<seq<char>>, taken: nat)
    requires taken <= |bytes| && ShowsPrefix(w, n, bytes, taken)
    requires taken < |bytes| ==> w.state != WaitForBuffer
    ensures w.View() == Take(Concat(bytes), n)
    ensures w.state == if (n > 0 || |bytes| > 0) && |Concat(bytes)| >= n
                       then Filled else WaitForBuffer
  {
    Enough(bytes, taken, n);
  }

  /** From the packet `i` on: each has its own block and bytes, and room below them. */
  ghost predicate StillToCome(packets: seq<RSingleBuffer>, blocks: seq<array<char>>,
                              bytes: seq<seq<char>>, n: nat, i: nat)
    requires |blocks| == |bytes| == |packets|
    reads packets, blocks
  {
    forall k :: i <= k < |packets| ==>
      packets[k].buf == blocks[k] && Holds(packets[k], bytes[k])
      && HasRoom(bytes, k, n, packets[k].bottomReserved)
  }

  /** The window shows what it should after the first `i` packets. */
  ghost predicate ShowsPrefix(w: RConnectedWindow, n: nat, bytes: seq<seq<char>>, i: nat)
    requires i <= |bytes|
    reads w, w.buf, if w.buf == null then {} else {w.buf.buf}
  {
    w.InBounds() && w.sz == n && w.View() == Take(Concat(bytes[..i]), n)
    && w.state == StateAfter(bytes[..i], n)
  }

  /** One turn: the packet `i` comes to the waiting window. */
  method TakeNext(w: RConnectedWindow, n: nat, packets: seq<RSingleBuffer>, i: nat,
                  ghost blocks: seq<array<char>>, ghost bytes: seq<seq<char>>)
    requires |blocks| == |bytes| == |packets| && AllDifferent(packets) && AllDifferent(blocks)
    requires i < |packets| && StillToCome(packets, blocks, bytes, n, i)
    requires ShowsPrefix(w, n, bytes, i) && w.state == WaitForBuffer
    requires if i == 0 then w.buf == null
             else w.buf == packets[i - 1] && w.buf.buf == blocks[i - 1]
    modifies w, packets[i], blocks[i]
    ensures ShowsPrefix(w, n, bytes, i + 1) && w.buf == packets[i] && w.buf.buf == blocks[i]
    ensures StillToCome(packets, blocks, bytes, n, i + 1)
  {
    ConcatStep(bytes, i, n);
    var r := w.NewBuffer(packets[i]);
    forall k | i < k < |packets|
      ensures packets[k].buf == blocks[k] && Holds(packets[k], bytes[k])
              && HasRoom(bytes, k, n, packets[k].bottomReserved)
    {
      assert old(Holds(packets[k], bytes[k]));
      assert packets[k] != packets[i] && blocks[k] != blocks[i];
    }
  }

  /** A charged buffer with these bytes. */
  ghost predicate Holds(p: RSingleBuffer, bytes: seq<char>)
    reads p, p.buf
  {
    p.state == Charged && p.HoldsData() && p.Bytes() == bytes
  }

  /** Packet `k` has room below its data for what the window holds when it comes. */
  ghost predicate HasRoom(bytes: seq<seq<char>>, k: nat, n: nat, bottomReserved: nat)
    requires k < |bytes|
  {
    |Concat(bytes[..k])| < n ==> |Concat(bytes[..k])| <= bottomReserved
  }

  ghost function StateAfter(bytes: seq<seq<char>>, n: nat): WindowState {
    if bytes != [] && |Concat(bytes)| >= n then Filled else WaitForBuffer
  }

  lemma ConcatStep(bytes: seq<seq<char>>, i: nat, n: nat)
    requires i < |bytes| && (i == 0 || |Concat(bytes[..i])| < n)
    ensures Concat(bytes[..i + 1]) == Concat(bytes[..i]) + bytes[i]
    ensures Take(Concat(bytes[..i]), n) == Concat(bytes[..i])
  {
    assert bytes[..i + 1][..i] == bytes[..i];
  }

  /** Once the window is filled, the packets not taken make no difference. */
  lemma Enough(bytes: seq<seq<char>>, taken: nat, n: nat)
    requires taken <= |bytes|
    requires taken < |bytes| ==> StateAfter(bytes[..taken], n) == Filled
    ensures Take(Concat(bytes[..taken]), n) == Take(Concat(bytes), n)
    ensures StateAfter(bytes[..taken], n) == StateAfter(bytes, n)
  {
    if taken == |bytes| {
      assert bytes[..taken] == bytes;
    } else {
      ConcatPrefix(bytes, taken);
      TakeFromPrefix(Concat(bytes[..taken]), Concat(bytes), n);
    }
  }

  lemma TakeFromPrefix(s: seq<char>, t: seq<char>, n: nat)
    requires s <= t && |s| >= n
    ensures Take(s, n) == Take(t, n)
  {
    assert t[..|s|] == s;
  }
}
