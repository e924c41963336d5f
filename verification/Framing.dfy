/** The length-prefixed messages of mini_tcp4u.c and dialog_common.c over a TCP connection. */
module Framing {
  import opened Basics

  const MAX_FRAME := 0x7FFF
  const TCP4U_SUCCESS := 1
  const TCP4U_ERROR := -1
  const TCP4U_OVERFLOW := -9
  const SOCKET_ERROR := -1
  const UNSIGNED := 0x1_0000_0000

  /** The two bytes that htons leaves in memory for the low 16 bits of n. */
  function Header(n: int): seq<Byte> {
    [n / 0x100 % 0x100, n % 0x100]
  }

  /** A 32-bit integer as SendMsg takes it from memory, low byte first. */
  function LittleEndian(v: int): seq<Byte> {
    [v % 0x100, v / 0x100 % 0x100, v / 0x100 / 0x100 % 0x100, v / 0x100 / 0x100 / 0x100 % 0x100]
  }

  function Announced(s: seq<Byte>): nat
    requires |s| >= 2
  {
    0x100 * (s[0] as int) + s[1]
  }

  ghost function Frame(m: seq<Byte>): seq<Byte> {
    Header(|m|) + m
  }

  ghost function Frames(ms: seq<seq<Byte>>): seq<Byte> {
    if ms == [] then [] else Frame(ms[0]) + Frames(ms[1..])
  }

  datatype Split = Split(payload: seq<Byte>, rest: seq<Byte>)

  /** The first message of a stream of bytes, when a whole one of admissible length is there. */
  ghost function NextFrame(s: seq<Byte>): Option<Split> {
    if |s| >= 2 && Announced(s) <= MAX_FRAME && Announced(s) <= |s| - 2
    then Some(Split(s[2..2 + Announced(s)], s[2 + Announced(s)..]))
    else None
  }

  /** What TcpPPRecv may do with the stream s: return rc with payload in the buffer and leave rest unread. */
  ghost predicate Receives(s: seq<Byte>, rc: int, payload: seq<Byte>, rest: seq<Byte>) {
    match NextFrame(s)
    case Some(f) => rc == |payload| && payload == f.payload && rest == f.rest
    case None =>
      if |s| == 1 then rc == 1 && rest == []
      else if |s| >= 2 && Announced(s) > MAX_FRAME then rc == TCP4U_OVERFLOW && rest == s[2..]
      else rc <= 0 && rest == []
  }

  // ----- the connection

  /** One direction of a connection: the bytes sent and not yet received. Which sends fail, and how many bytes a call
      moves, is left open: any positive number, except that a header is received as a whole. */
  class Connection {
    var stream: seq<Byte>

    method Send(bytes: seq<Byte>) returns (rc: int)
      requires bytes != []
      modifies this
      ensures rc == SOCKET_ERROR || 1 <= rc <= |bytes|
      ensures stream == old(stream) + if rc > 0 then bytes[..rc] else []
    {
      var fails: bool := *;
      if fails {
        return SOCKET_ERROR;
      }
      rc :| 1 <= rc <= |bytes|;
      stream := stream + bytes[..rc];
    }

    method RecvField() returns (bytes: seq<Byte>, rc: int)
      modifies this
      ensures |bytes| == (if |old(stream)| < 2 then |old(stream)| else 2)
      ensures bytes == old(stream)[..|bytes|] && stream == old(stream)[|bytes|..]
      ensures if bytes == [] then rc <= 0 else rc == |bytes|
    {
      var n := if |stream| < 2 then |stream| else 2;
      bytes, stream := stream[..n], stream[n..];
      rc := n;
      if n == 0 {
        rc :| rc <= 0;
      }
    }

    /** Closed, failed and timed-out connections return zero or less; otherwise some bytes arrive. */
    method TcpRecv(szBuf: array<Byte>, off: nat, len: nat) returns (rc: int)
      requires 0 < len && off + len <= szBuf.Length
      modifies this, szBuf
      ensures if old(stream) == [] then rc <= 0 else 1 <= rc <= len && rc <= |old(stream)|
      ensures rc <= 0 ==> stream == old(stream) && szBuf[..] == old(szBuf[..])
      ensures rc > 0 ==> stream == old(stream)[rc..]
      ensures rc > 0 ==> szBuf[..off] == old(szBuf[..off]) && szBuf[off..off + rc] == old(stream)[..rc]
      ensures rc > 0 ==> szBuf[off + rc..] == old(szBuf[off + rc..])
    {
      if stream == [] {
        rc :| rc <= 0;
        return;
      }
      rc :| 1 <= rc <= len && rc <= |stream|;
      forall i | 0 <= i < rc {
        szBuf[off + i] := stream[i];
      }
      stream := stream[rc..];
    }

    /** The send loop: how much of the buffer goes out, and the unsigned total that it leaves. A failing send adds -1.
        */
    method SendLoop(szBuf: array<Byte>, uBufSize: nat) returns (total: int, ghost sent: nat, ghost failed: bool)
      requires uBufSize <= szBuf.Length && uBufSize < UNSIGNED
      modifies this
      ensures sent <= uBufSize && stream == old(stream) + szBuf[..sent]
      ensures if failed then sent < uBufSize && total == (sent - 1) % UNSIGNED else sent == uBufSize == total
    {
      var rc := 1;
      total, sent, failed := 0, 0, false;
      while total < uBufSize && rc > 0
        invariant sent <= uBufSize && stream == old(stream) + szBuf[..sent] && failed == (rc <= 0)
        invariant if failed then sent < uBufSize && total == (sent - 1) % UNSIGNED else total == sent
        decreases if rc > 0 then 1 + uBufSize - total else 0
      {
        ghost var before := stream;
        rc := Send(szBuf[total..uBufSize]);
        if rc > 0 {
          assert szBuf[..total + rc] == szBuf[..total] + szBuf[total..uBufSize][..rc];
          sent := total + rc;
        } else {
          failed := true;
        }
        total := (total + rc) % UNSIGNED;
      }
    }

    /** Sends a buffer whole, however the single calls split it. A send that fails is reported only if another one came
        before it: otherwise the unsigned total is beyond every size. */
    method TcpSend(szBuf: array<Byte>, uBufSize: nat) returns (rc: int, ghost sent: nat, ghost failed: bool)
      requires uBufSize <= szBuf.Length && uBufSize < UNSIGNED
      modifies this
      ensures sent <= uBufSize && stream == old(stream) + szBuf[..sent]
      ensures !failed ==> sent == uBufSize
      ensures rc == if failed && sent > 0 then TCP4U_ERROR else TCP4U_SUCCESS
    {
      var total;
      total, sent, failed := SendLoop(szBuf, uBufSize);
      rc := if total >= uBufSize then TCP4U_SUCCESS else TCP4U_ERROR;
    }

    /** Sends a frame, or nothing if the message is too long. If no send fails and the header goes out as a whole, the
        frame does; a failure before the first byte of the payload, but after the header, is not reported. */
    method TcpPPSend(szBuf: array<Byte>, uBufSize: nat)
        returns (rc: int, ghost header: nat, ghost sent: nat, ghost failed: bool)
      requires uBufSize <= szBuf.Length
      modifies this
      ensures uBufSize > MAX_FRAME ==> rc == TCP4U_OVERFLOW && stream == old(stream)
      ensures uBufSize <= MAX_FRAME ==> header <= 2 && sent <= uBufSize
      ensures uBufSize <= MAX_FRAME ==> stream == old(stream) + Header(uBufSize)[..header] + szBuf[..sent]
      ensures uBufSize <= MAX_FRAME && !failed ==> header > 0 && sent == uBufSize
      ensures uBufSize <= MAX_FRAME && !failed && header == 2 ==> stream == old(stream) + Frame(szBuf[..uBufSize])
      ensures uBufSize <= MAX_FRAME ==>
        rc == if failed && uBufSize > 0 && (header == 0 || sent > 0) then TCP4U_ERROR else TCP4U_SUCCESS
    {
      header, sent, failed := 0, 0, false;
      var usSize := Header(uBufSize);
      if uBufSize > MAX_FRAME {
        return TCP4U_OVERFLOW, 0, 0, false;
      }
      rc := Send(usSize);
      var total := 0;
      if rc > 0 {
        header := rc;
        total, sent, failed := SendLoop(szBuf, uBufSize);
        assert usSize[..2] == usSize;
      } else {
        failed := true;
      }
      rc := if total >= uBufSize then TCP4U_SUCCESS else TCP4U_ERROR;
    }

    /** The receive loop of TcpPPRecv, for a message of n bytes. */
    method RecvBody(szBuf: array<Byte>, n: nat) returns (rc: int)
      requires n <= szBuf.Length
      modifies this, szBuf
      ensures n <= |old(stream)| ==> rc == n && stream == old(stream)[n..]
      ensures n <= |old(stream)| ==> szBuf[..n] == old(stream)[..n] && szBuf[n..] == old(szBuf[n..])
      ensures n > |old(stream)| ==> rc <= 0 && stream == []
    {
      var usReceived, usUpRc := 0, 1;
      while usUpRc > 0 && usReceived < n
        invariant usUpRc > 0 ==> 0 <= usReceived <= n && usReceived <= |old(stream)|
        invariant usUpRc > 0 ==> stream == old(stream)[usReceived..]
        invariant usUpRc > 0 ==> szBuf[..usReceived] == old(stream)[..usReceived]
        invariant usUpRc > 0 ==> szBuf[usReceived..] == old(szBuf[usReceived..])
        invariant usUpRc <= 0 ==> stream == [] && |old(stream)| < n
        decreases if usUpRc > 0 then 1 + n - usReceived else 0
      {
        ghost var before := szBuf[usReceived..];
        usUpRc := TcpRecv(szBuf, usReceived, n - usReceived);
        if usUpRc > 0 {
          var end := usReceived + usUpRc;
          assert szBuf[..end] == szBuf[..usReceived] + szBuf[usReceived..end];
          assert old(stream)[..end] == old(stream)[..usReceived] + old(stream)[usReceived..end];
          assert szBuf[end..] == before[usUpRc..];
        }
        usReceived := usReceived + usUpRc;
      }
      rc := if usUpRc > 0 then usReceived else usUpRc;
    }

    /** The receiver does not consult the size of the buffer: when the header announces more, the source writes behind
        the buffer, and the model stops. */
    method TcpPPRecv(szBuf: array<Byte>) returns (rc: int, overrun: bool)
      modifies this, szBuf
      ensures overrun <==> |old(stream)| >= 2 && szBuf.Length < Announced(old(stream)) <= MAX_FRAME
      ensures !overrun && NextFrame(old(stream)).Some? ==> 0 <= rc <= szBuf.Length && szBuf[rc..] == old(szBuf[rc..])
      ensures !overrun ==>
        Receives(old(stream), rc, if NextFrame(old(stream)).Some? then szBuf[..rc] else [], stream)
    {
      overrun := false;
      var usToBeReceived;
      usToBeReceived, rc := RecvField();
      if rc != 2 {
        return;
      }
      var n := Announced(usToBeReceived);
      if n > MAX_FRAME {
        return TCP4U_OVERFLOW, false;
      }
      if n > szBuf.Length {
        return 0, true;
      }
      rc := RecvBody(szBuf, n);
    }

    /** The size goes into the header before a missing payload sets it to zero; whether header and type went out is not
        looked at. */
    method SendMsg(ty: int, data: array?<Byte>, size: int)
        returns (rc: int, ghost header: nat, ghost kind: nat, ghost sent: nat, ghost failed: bool)
      requires data != null ==> size <= data.Length
      requires size < UNSIGNED / 2
      modifies this
      ensures header <= 2 && kind <= 4 && (data == null || size <= 0 ==> sent == 0 && !failed)
      ensures data != null && size > 0 ==> sent <= size && (!failed ==> sent == size)
      ensures stream == old(stream) + Header(size + 4)[..header] + LittleEndian(ty)[..kind]
                        + if sent == 0 then [] else data[..sent]
      ensures header == 2 && kind == 4 && !failed ==>
        stream == old(stream) + OnWire(ty, if data == null then None else Some(data[..]), size)
      ensures rc == if data == null || size <= 0 then (if kind > 0 then kind else SOCKET_ERROR)
                    else if failed && sent > 0 then TCP4U_ERROR else TCP4U_SUCCESS
    {
      var left := size;
      var fullSize, bytes := Header(size + 4), LittleEndian(ty);
      if data == null {
        left := 0;
      }
      rc := Send(fullSize);
      header := if rc > 0 then rc else 0;
      rc := Send(bytes);
      kind := if rc > 0 then rc else 0;
      sent, failed := 0, false;
      assert fullSize[..2] == fullSize && bytes[..4] == bytes;
      if left > 0 {
        rc, sent, failed := TcpSend(data, left);
      }
    }
  }

  // ----- single messages

  /** What SendMsg puts on the connection. */
  ghost function OnWire(ty: int, data: Option<seq<Byte>>, size: int): seq<Byte>
    requires data.Some? ==> size <= |data.value|
  {
    Header(size + 4) + Meant(ty, data, size)
  }

  /** The message the caller of SendMsg means: the type, then the payload if there is one. */
  ghost function Meant(ty: int, data: Option<seq<Byte>>, size: int): seq<Byte>
    requires data.Some? ==> size <= |data.value|
  {
    LittleEndian(ty) + if data.Some? && size > 0 then data.value[..size] else []
  }

  /** Whatever follows, the receiver takes exactly m out of these bytes. */
  ghost predicate Arrives(wire: seq<Byte>, m: seq<Byte>) {
    forall rest :: NextFrame(wire + rest) == Some(Split(m, rest))
  }

  lemma HeaderAnnounces(n: int, rest: seq<Byte>)
    ensures Announced(Header(n) + rest) == n % 0x10000
  {
    assert n == 0x10000 * (n / 0x10000) + 0x100 * (n / 0x100 % 0x100) + n % 0x100;
  }

  /** The header and the type on the wire: the header high byte first, the type low byte first. */
  lemma WireOrder(n: int, v: int)
    requires 0 <= n < 65536 && 0 <= v < 0x1_0000_0000
    ensures |Header(n)| == 2 && 256 * (Header(n)[0] as int) + Header(n)[1] == n
    ensures |LittleEndian(v)| == 4
    ensures var b := LittleEndian(v);
      b[0] + 0x100 * (b[1] as int) + 0x1_0000 * (b[2] as int) + 0x100_0000 * (b[3] as int) == v
  {
    HeaderAnnounces(n, []);
    assert Header(n) + [] == Header(n);
    FourDigits(v);
  }

  lemma FrameArrives(m: seq<Byte>)
    requires |m| <= MAX_FRAME
    ensures Arrives(Frame(m), m)
  {
    forall rest ensures NextFrame(Frame(m) + rest) == Some(Split(m, rest)) {
      HeaderAnnounces(|m|, m + rest);
      assert Frame(m) + rest == Header(|m|) + (m + rest);
      assert (m + rest)[..|m|] == m && (m + rest)[|m|..] == rest;
    }
  }

  lemma ArrivesIff(n: int, m: seq<Byte>)
    ensures Arrives(Header(n) + m, m) <==> n % 0x10000 == |m| <= MAX_FRAME
  {
    HeaderAnnounces(n, m);
    if Arrives(Header(n) + m, m) {
      assert NextFrame(Header(n) + m + []) == Some(Split(m, []));
      assert Header(n) + m + [] == Header(n) + m;
    }
    if n % 0x10000 == |m| <= MAX_FRAME {
      assert Header(n) == Header(|m|);
      FrameArrives(m);
    }
  }

  /** SendMsg does not test the length, and counts a payload it does not send: exactly when its message arrives. */
  lemma MsgArrivesIff(ty: int, data: Option<seq<Byte>>, size: int)
    requires data.Some? ==> size <= |data.value|
    ensures Arrives(OnWire(ty, data, size), Meant(ty, data, size))
       <==> if data.Some? && size > 0 then size + 4 <= MAX_FRAME else size % 0x10000 == 0
  {
    hide Arrives, Header;
    ArrivesIff(size + 4, Meant(ty, data, size));
  }

  function FromLittleEndian(b: seq<Byte>): int
    requires |b| >= 4
  {
    b[0] + 0x100 * (b[1] as int) + 0x10000 * (b[2] as int) + 0x1000000 * (b[3] as int)
  }

  lemma FourDigits(v: int)
    ensures FromLittleEndian(LittleEndian(v)) == v % 0x1_0000_0000
  {
    var q1 := v / 0x100;
    var q2 := q1 / 0x100;
    var q3 := q2 / 0x100;
    var r := v % 0x100 + 0x100 * (q1 % 0x100) + 0x10000 * (q2 % 0x100) + 0x1000000 * (q3 % 0x100);
    assert v == r + 0x1_0000_0000 * (q3 / 0x100);
    assert 0 <= r < 0x1_0000_0000;
  }

  /** The receiver reads back the type, modulo 2^32, and the payload. */
  lemma MsgIsRead(ty: int, data: seq<Byte>)
    ensures var m := Meant(ty, Some(data), |data|);
            FromLittleEndian(m) == ty % 0x1_0000_0000 && m[4..] == data
  {
    FourDigits(ty);
    assert Meant(ty, Some(data), |data|)[4..] == data;
  }

  /** An empty message arrives, but TcpPPRecv answers as for a closed connection; one too long leaves its payload
      unread. */
  lemma LimitsOfReceiver(m: seq<Byte>, follow: seq<Byte>, rc: int, payload: seq<Byte>, rest: seq<Byte>)
    requires |m| < 0x10000 && Receives(Frame(m) + follow, rc, payload, rest)
    ensures |m| <= 0x7FFF ==> rc == |m| && payload == m && rest == follow
    ensures |m| > 0x7FFF ==> rc == -9 && rest == m + follow
    ensures (rc > 0 && payload == m && rest == follow) <==> 1 <= |m| <= 0x7FFF
  {
    HeaderAnnounces(|m|, m + follow);
    assert Frame(m) + follow == Header(|m|) + (m + follow);
    if |m| <= MAX_FRAME {
      FrameArrives(m);
    }
  }

  /** A result above zero without a whole message: exactly when one byte of a header is all that arrives. */
  lemma HalfHeaderIff(s: seq<Byte>, rc: int, payload: seq<Byte>, rest: seq<Byte>)
    requires Receives(s, rc, payload, rest) && NextFrame(s).None?
    ensures rc > 0 <==> |s| == 1
  {
  }

  // ----- runs of whole calls

  datatype Event =
    | PPSent(buf: seq<Byte>)
    | MsgSent(ty: int, data: Option<seq<Byte>>, size: int)
    | Received(rc: int, payload: seq<Byte>)

  /** The effect of one call on the bytes in flight, as the methods of Connection have it. */
  ghost predicate Step(s: seq<Byte>, e: Event, s': seq<Byte>) {
    match e
    case PPSent(buf) => s' == if |buf| > MAX_FRAME then s else s + Frame(buf)
    case MsgSent(ty, data, size) => (data.Some? ==> size <= |data.value|) && s' == s + OnWire(ty, data, size)
    case Received(rc, payload) => Receives(s, rc, payload, s')
  }

  ghost predicate IsRun(es: seq<Event>, ss: seq<seq<Byte>>) {
    && |ss| == |es| + 1 && ss[0] == []
    && forall i :: 0 <= i < |es| ==> Step(ss[i], es[i], ss[i + 1])
  }

  /** Messages the framing is meant for: 1 to MAX_FRAME bytes on the wire. */
  ghost predicate Admissible(e: Event) {
    match e
    case PPSent(buf) => |buf| != 0
    case MsgSent(ty, data, size) => data.Some? && 0 <= size <= MAX_FRAME - 4 && size <= |data.value|
    case Received(_, _) => true
  }

  ghost function SentBy(e: Event): seq<seq<Byte>>
    requires Admissible(e)
  {
    match e
    case PPSent(buf) => if |buf| > MAX_FRAME then [] else [buf]
    case MsgSent(ty, data, size) => [Meant(ty, data, size)]
    case Received(_, _) => []
  }

  ghost function Sent(es: seq<Event>): seq<seq<Byte>>
    requires forall e <- es :: Admissible(e)
  {
    if es == [] then [] else Sent(es[..|es| - 1]) + SentBy(es[|es| - 1])
  }

  ghost function GotBy(e: Event): seq<seq<Byte>> {
    if e.Received? && e.rc > 0 then [e.payload] else []
  }

  /** The messages that calls of TcpPPRecv returned with a positive length. */
  ghost function Got(es: seq<Event>): seq<seq<Byte>> {
    if es == [] then [] else Got(es[..|es| - 1]) + GotBy(es[|es| - 1])
  }

  lemma {:induction false} FramesAppend(ms: seq<seq<Byte>>, m: seq<Byte>)
    ensures Frames(ms + [m]) == Frames(ms) + Frame(m)
  {
    if ms == [] {
      assert [m][1..] == [];
    } else {
      FramesAppend(ms[1..], m);
      assert (ms + [m])[1..] == ms[1..] + [m];
      assert Frames(ms + [m]) == Frame(ms[0]) + Frames(ms[1..] + [m]);
    }
  }

  ghost predicate Proper(ms: seq<seq<Byte>>) {
    forall i :: 0 <= i < |ms| ==> 1 <= |ms[i]| <= MAX_FRAME
  }

  lemma SendExtends(s: seq<Byte>, e: Event, s': seq<Byte>, pending: seq<seq<Byte>>)
    requires Step(s, e, s') && Admissible(e) && !e.Received? && s == Frames(pending) && Proper(pending)
    ensures s' == Frames(pending + SentBy(e)) && Proper(pending + SentBy(e))
  {
    match e
    case PPSent(buf) =>
      FramesAppend(pending, buf);
      assert pending + [] == pending;
    case MsgSent(ty, data, size) =>
      FramesAppend(pending, Meant(ty, data, size));
      assert Header(size + 4) == Header(|Meant(ty, data, size)|);
  }

  /** With nothing pending a receive fails; otherwise it returns the oldest message. */
  lemma ReceiveTakesOldest(pending: seq<seq<Byte>>, rc: int, payload: seq<Byte>, s': seq<Byte>)
    requires Proper(pending) && Receives(Frames(pending), rc, payload, s')
    ensures rc > 0 <==> pending != []
    ensures pending == [] ==> s' == []
    ensures pending != [] ==> payload == pending[0] && rc == |payload| && s' == Frames(pending[1..])
  {
    if pending != [] {
      FrameArrives(pending[0]);
      assert Frames(pending) == Frame(pending[0]) + Frames(pending[1..]);
    }
  }

  lemma NothingInFlight()
    ensures Frames([]) == [] && Proper([])
  {
  }

  /** One call: its message joins the pending ones, or it takes the oldest. */
  lemma PendingStep(s: seq<Byte>, e: Event, s': seq<Byte>, pending: seq<seq<Byte>>) returns (left: seq<seq<Byte>>)
    requires Step(s, e, s') && Admissible(e) && s == Frames(pending) && Proper(pending)
    ensures s' == Frames(left) && Proper(left) && GotBy(e) + left == pending + SentBy(e)
  {
    hide Frames, OnWire;
    if e.Received? {
      ReceiveTakesOldest(pending, e.rc, e.payload, s');
      left := if pending == [] then [] else pending[1..];
      NothingInFlight();
    } else {
      SendExtends(s, e, s', pending);
      left := pending + SentBy(e);
    }
  }

  /** The bytes in flight are the frames of the messages sent and not yet received. */
  lemma {:induction false} InFlight(es: seq<Event>, ss: seq<seq<Byte>>) returns (pending: seq<seq<Byte>>)
    requires IsRun(es, ss) && forall e <- es :: Admissible(e)
    ensures Sent(es) == Got(es) + pending && Proper(pending) && ss[|es|] == Frames(pending)
  {
    hide Step, Frames, Proper;
    if es == [] {
      pending := [];
      NothingInFlight();
    } else {
      var n := |es| - 1;
      var before := InFlight(es[..n], ss[..n + 1]);
      pending := PendingStep(ss[n], es[n], ss[n + 1], before);
      Associative(Got(es[..n]), before, SentBy(es[n]));
      Associative(Got(es[..n]), GotBy(es[n]), pending);
    }
  }

  /** Over every run of successful sends and of receives, one after the other, in every fragmentation, the messages
      received are the first of those sent, byte for byte and in order, and the next receive returns the first of the
      others, failing only when there is none. */
  lemma MessagesArriveInOrder(es: seq<Event>, ss: seq<seq<Byte>>, rc: int, payload: seq<Byte>, rest: seq<Byte>)
    requires IsRun(es, ss) && forall e <- es :: Admissible(e)
    requires Receives(ss[|es|], rc, payload, rest)
    ensures Got(es) <= Sent(es)
    ensures if Got(es) == Sent(es) then rc <= 0 else payload == Sent(es)[|Got(es)|] && rc == |payload|
  {
    var pending := InFlight(es, ss);
    ReceiveTakesOldest(pending, rc, payload, rest);
  }

  // ----- runs of single steps

  datatype Reader = BeforeHeader | Reading(n: nat, got: seq<Byte>)

  /** The sender is writing a frame of which `queued` is not yet on the way; the receiver is reading a message of n
      bytes of which it has `got`. */
  datatype Link = Link(
    queued: seq<Byte>, stream: seq<Byte>, reader: Reader, sent: seq<seq<Byte>>, received: seq<seq<Byte>>)

  datatype Move =
    | BeginSend(m: seq<Byte>)  // one call of a sender starts
    | Transmit(k: nat)         // a send, or the network, moves k bytes of the frame
    | TakeHeader               // the receiver's first call
    | Take(k: nat)             // one call of the receive loop
    | Deliver                  // the loop has ended

  ghost predicate CanMove(l: Link, e: Move) {
    match e
    case BeginSend(m) => l.queued == [] && 1 <= |m| <= MAX_FRAME
    case Transmit(k) => 1 <= k <= |l.queued|
    case TakeHeader => l.reader.BeforeHeader? && |l.stream| >= 2 && Announced(l.stream) <= MAX_FRAME
    case Take(k) => l.reader.Reading? && 1 <= k <= |l.stream| && k + |l.reader.got| <= l.reader.n
    case Deliver => l.reader.Reading? && |l.reader.got| == l.reader.n
  }

  ghost function Moved(l: Link, e: Move): Link
    requires CanMove(l, e)
  {
    match e
    case BeginSend(m) => l.(queued := Frame(m), sent := l.sent + [m])
    case Transmit(k) => l.(queued := l.queued[k..], stream := l.stream + l.queued[..k])
    case TakeHeader => l.(reader := Reading(Announced(l.stream), []), stream := l.stream[2..])
    case Take(k) => l.(reader := Reading(l.reader.n, l.reader.got + l.stream[..k]), stream := l.stream[k..])
    case Deliver => l.(reader := BeforeHeader, received := l.received + [l.reader.got])
  }

  ghost function Taken(r: Reader): seq<Byte> {
    match r
    case BeforeHeader => []
    case Reading(n, got) => Header(n) + got
  }

  /** The messages received are the first of those sent, and what the receiver has taken of the next one, what is on the
      way, and what is still to be written are the frames of the others. */
  ghost predicate LinkInv(l: Link) {
    && l.received <= l.sent && Proper(l.sent)
    && Taken(l.reader) + l.stream + l.queued == Frames(l.sent[|l.received|..])
    && (l.reader.Reading? ==> |l.received| < |l.sent| && l.reader.n == |l.sent[|l.received|]|)
    && (l.reader.Reading? ==> l.reader.got <= l.sent[|l.received|])
  }

  lemma BeginKeepsInv(l: Link, m: seq<Byte>)
    requires LinkInv(l) && CanMove(l, BeginSend(m))
    ensures LinkInv(Moved(l, BeginSend(m)))
  {
    hide Frame;
    var pending := l.sent[|l.received|..];
    FramesAppend(pending, m);
    assert (l.sent + [m])[|l.received|..] == pending + [m];
    assert Taken(l.reader) + l.stream + Frame(m) == (Taken(l.reader) + l.stream + l.queued) + Frame(m);
  }

  /** The bytes at the head of the frames of the pending messages are those of the first one. */
  lemma FirstOfFrames(pending: seq<seq<Byte>>, b: seq<Byte>, rest: seq<Byte>)
    requires pending != [] && Proper(pending) && b + rest == Frames(pending)
    ensures |b| >= 2 ==> Announced(b) == |pending[0]|
    ensures 2 <= |b| <= 2 + |pending[0]| ==> b[..2] == Header(|pending[0]|) && b[2..] <= pending[0]
    ensures |b| == 2 + |pending[0]| ==> b[2..] == pending[0] && rest == Frames(pending[1..])
  {
    var m, all := pending[0], Frames(pending);
    assert all == Header(|m|) + (m + Frames(pending[1..]));
    HeaderAnnounces(|m|, m + Frames(pending[1..]));
    if |b| >= 2 {
      assert b[0] == all[0] && b[1] == all[1];
    }
    if 2 <= |b| <= 2 + |m| {
      assert b == all[..|b|] && rest == all[|b|..];
      assert all[2..2 + |m|] == m && all[2 + |m|..] == Frames(pending[1..]);
      assert b[2..] == all[2..2 + |m|][..|b| - 2];
    }
  }

  lemma HeaderKeepsInv(l: Link)
    requires LinkInv(l) && CanMove(l, TakeHeader)
    ensures LinkInv(Moved(l, TakeHeader))
  {
    hide Frames;
    var pending := l.sent[|l.received|..];
    NothingInFlight();
    assert l.stream + l.queued == [] + l.stream + l.queued == Frames(pending);
    assert pending != [];
    assert l.stream + l.queued == l.stream[..2] + (l.stream[2..] + l.queued);
    FirstOfFrames(pending, l.stream[..2], l.stream[2..] + l.queued);
    assert Announced(l.stream[..2]) == Announced(l.stream);
    assert Taken(Reading(|pending[0]|, [])) == l.stream[..2];
  }

  lemma TakeKeepsInv(l: Link, k: nat)
    requires LinkInv(l) && CanMove(l, Take(k))
    ensures LinkInv(Moved(l, Take(k)))
  {
    hide Frames, Header;
    var pending, r := l.sent[|l.received|..], l.reader;
    var got := r.got + l.stream[..k];
    Regroup(Header(r.n), r.got, l.stream, k, l.queued);
    FirstOfFrames(pending, Header(r.n) + got, l.stream[k..] + l.queued);
    HeaderSize(r.n, got);
    Associative(Header(r.n) + got, l.stream[k..], l.queued);
  }

  lemma HeaderSize(n: int, b: seq<Byte>)
    ensures |Header(n)| == 2 && (Header(n) + b)[2..] == b
  {
  }

  lemma Regroup(h: seq<Byte>, got: seq<Byte>, s: seq<Byte>, k: nat, q: seq<Byte>)
    requires k <= |s|
    ensures h + got + s + q == h + (got + s[..k]) + (s[k..] + q)
  {
    assert s == s[..k] + s[k..];
  }

  lemma DeliverKeepsInv(l: Link)
    requires LinkInv(l) && CanMove(l, Deliver)
    ensures LinkInv(Moved(l, Deliver))
  {
    hide Frames;
    var pending, r := l.sent[|l.received|..], l.reader;
    assert Taken(r) + l.stream + l.queued == Taken(r) + (l.stream + l.queued);
    FirstOfFrames(pending, Taken(r), l.stream + l.queued);
    assert r.got == pending[0];
    assert pending[1..] == l.sent[|l.received| + 1..];
    assert [] + l.stream + l.queued == l.stream + l.queued;
  }

  lemma MoveKeepsInv(l: Link, e: Move)
    requires LinkInv(l) && CanMove(l, e)
    ensures LinkInv(Moved(l, e))
  {
    match e
    case BeginSend(m) => BeginKeepsInv(l, m);
    case Transmit(k) =>
      assert Taken(l.reader) + (l.stream + l.queued[..k]) + l.queued[k..] == Taken(l.reader) + l.stream + l.queued;
    case TakeHeader => HeaderKeepsInv(l);
    case Take(k) => TakeKeepsInv(l, k);
    case Deliver => DeliverKeepsInv(l);
  }

  ghost predicate IsPath(es: seq<Move>, ls: seq<Link>) {
    && |ls| == |es| + 1 && ls[0] == Link([], [], BeforeHeader, [], [])
    && forall i :: 0 <= i < |es| ==> CanMove(ls[i], es[i]) && ls[i + 1] == Moved(ls[i], es[i])
  }

  /** In every interleaving of the single steps of sender, network and receiver the messages received are the first of
      those sent; and when everything has been taken, they are all of them. */
  lemma {:induction false} EveryInterleaving(es: seq<Move>, ls: seq<Link>)
    requires IsPath(es, ls)
    ensures var l := ls[|es|];
      && LinkInv(l) && l.received <= l.sent
      && (l.queued == [] && l.stream == [] && l.reader.BeforeHeader? ==> l.received == l.sent)
  {
    hide LinkInv, CanMove, Moved;
    if es == [] {
      StartInv();
    } else {
      var n := |es| - 1;
      EveryInterleaving(es[..n], ls[..n + 1]);
      MoveKeepsInv(ls[n], es[n]);
    }
    AllTaken(ls[|es|]);
  }

  lemma StartInv()
    ensures LinkInv(Link([], [], BeforeHeader, [], []))
  {
  }

  lemma AllTaken(l: Link)
    requires LinkInv(l)
    ensures l.received <= l.sent
    ensures l.queued == [] && l.stream == [] && l.reader.BeforeHeader? ==> l.received == l.sent
  {
    var pending := l.sent[|l.received|..];
    if l.queued == [] && l.stream == [] && l.reader.BeforeHeader? {
      assert Frames(pending) == [];
      assert pending == [];
    }
  }
}
