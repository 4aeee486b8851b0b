/** Outgoing replies: gathering data into messages (conn_add_iov, conn_add_msghdr
    and conn_build_udp_headers in mc_connection.c) and sending them piece by piece
    (core_transmit in mc_core.c). */
module Replies {
  import opened Bytes

  const UDP_HEADER_SIZE := 8
  const UDP_MAX_PAYLOAD_SIZE := 1400
  const IOV_MAX := 1024

  /** A message is the list of buffers one sendmsg call would write. */
  type Message = seq<Bytes>

  /** The messages gathered so far. */
  datatype Queue = Queue(udp: bool, msgs: seq<Message>)

  /** The bytes of a list of buffers, in order. */
  function Flat(es: seq<Bytes>): Bytes {
    if es == [] then [] else es[0] + Flat(es[1..])
  }

  lemma {:induction false} FlatConcat(a: seq<Bytes>, b: seq<Bytes>)
    ensures Flat(a + b) == Flat(a) + Flat(b)
  {
    if a == [] {
      assert a + b == b;
    } else {
      assert (a + b)[1..] == a[1..] + b;
      FlatConcat(a[1..], b);
    }
  }

  lemma FlatSnoc(a: seq<Bytes>, e: Bytes)
    ensures Flat(a + [e]) == Flat(a) + e
  {
    FlatConcat(a, [e]);
    assert Flat([e]) == e + Flat([]);
  }

  // ---- Gathering -------------------------------------------------------------------

  /** Room for the header that is filled in once all messages are known. */
  function NoHeader(): Bytes {
    seq(UDP_HEADER_SIZE, _ => 0)
  }

  /** conn_add_msghdr */
  function AddMsghdr(q: Queue): (r: Queue)
  {
    q.(msgs := q.msgs + [if q.udp then [NoHeader()] else []])
  }

  function Last(q: Queue): Message
    requires q.msgs != []
  {
    q.msgs[|q.msgs|-1]
  }

  /** One more buffer in the last message. */
  function Push(q: Queue, e: Bytes): Queue
    requires q.msgs != []
  {
    q.(msgs := q.msgs[|q.msgs|-1 := Last(q) + [e]])
  }

  /** Datagrams, and the first message of a stream, are kept to one packet. */
  predicate Limited(q: Queue) {
    q.udp || |q.msgs| == 1
  }

  predicate Full(q: Queue)
    requires q.msgs != []
  {
    |Last(q)| == IOV_MAX || (Limited(q) && |Flat(Last(q))| >= UDP_MAX_PAYLOAD_SIZE)
  }

  /** Where the next buffer goes. */
  function Opened(q: Queue): (r: Queue)
    requires q.msgs != []
    ensures r.msgs != []
  {
    if Full(q) then AddMsghdr(q) else q
  }

  lemma OpenedHasRoom(q: Queue)
    requires q.msgs != [] && Limited(q)
    ensures |Flat(Last(Opened(q)))| < UDP_MAX_PAYLOAD_SIZE
  {
    assert Flat([NoHeader()]) == NoHeader() + Flat([]);
  }

  /** How much of a buffer of n bytes the message under way takes. */
  function Taken(q: Queue, n: nat): (k: nat)
    requires q.msgs != []
    ensures k <= n && (n > 0 ==> k > 0)
  {
    OpenedHasRoomIfLimited(q);
    var used := |Flat(Last(Opened(q)))|;
    if Limited(q) && n + used > UDP_MAX_PAYLOAD_SIZE then UDP_MAX_PAYLOAD_SIZE - used else n
  }

  lemma OpenedHasRoomIfLimited(q: Queue)
    requires q.msgs != []
    ensures Limited(q) ==> |Flat(Last(Opened(q)))| < UDP_MAX_PAYLOAD_SIZE
  {
    if Limited(q) {
      OpenedHasRoom(q);
    }
  }

  /** conn_add_iov */
  function AddIov(q: Queue, data: Bytes): (r: Queue)
    requires q.msgs != []
    ensures r.msgs != []
    decreases |data|
  {
    var k := Taken(q, |data|);
    if k < |data| then AddIov(Turn(q, data), data[k..]) else Turn(q, data)
  }

  /** What a receiver reads out of the messages: everything but the headers. */
  function Payload(msgs: seq<Message>, udp: bool): Bytes {
    if msgs == [] then [] else Body(msgs[0], udp) + Payload(msgs[1..], udp)
  }

  function Body(m: Message, udp: bool): Bytes {
    Flat(if udp && m != [] then m[1..] else m)
  }

  lemma {:induction false} PayloadSnoc(msgs: seq<Message>, m: Message, udp: bool)
    ensures Payload(msgs + [m], udp) == Payload(msgs, udp) + Body(m, udp)
  {
    if msgs == [] {
      assert ([m])[1..] == [];
      assert Payload([m], udp) == Body(m, udp) + Payload([], udp);
    } else {
      assert (msgs + [m])[1..] == msgs[1..] + [m];
      PayloadSnoc(msgs[1..], m, udp);
    }
  }

  /** A message can go out in one sendmsg call: few enough buffers, a header of the
      right size in a datagram, and one packet's worth of bytes where that is
      promised. */
  ghost predicate Fits(m: Message, udp: bool, limited: bool) {
    && |m| <= IOV_MAX
    && (udp ==> m != [] && |m[0]| == UDP_HEADER_SIZE)
    && (limited ==> |Flat(m)| <= UDP_MAX_PAYLOAD_SIZE)
  }

  ghost predicate Sendable(q: Queue) {
    forall i :: 0 <= i < |q.msgs| ==> Fits(q.msgs[i], q.udp, q.udp || i == 0)
  }

  lemma AddMsghdrKeeps(q: Queue)
    requires Sendable(q)
    ensures Sendable(AddMsghdr(q)) && Payload(AddMsghdr(q).msgs, q.udp) == Payload(q.msgs, q.udp)
  {
    var m := if q.udp then [NoHeader()] else [];
    NewMessageFits(q.udp);
    PayloadSnoc(q.msgs, m, q.udp);
    assert Payload(q.msgs, q.udp) + [] == Payload(q.msgs, q.udp);
  }

  lemma NewMessageFits(udp: bool)
    ensures var m := if udp then [NoHeader()] else []; Fits(m, udp, true) && Body(m, udp) == []
  {
    assert Flat([NoHeader()]) == NoHeader() + Flat([]);
  }

  lemma PushSendable(q: Queue, e: Bytes)
    requires q.msgs != [] && Sendable(q) && |Last(q)| < IOV_MAX
    requires Limited(q) ==> |Flat(Last(q))| + |e| <= UDP_MAX_PAYLOAD_SIZE
    ensures Sendable(Push(q, e))
  {
    var n := |q.msgs| - 1;
    FlatSnoc(Last(q), e);
    assert Fits(q.msgs[n], q.udp, q.udp || n == 0);
    assert Fits(Last(q) + [e], q.udp, q.udp || n == 0);
  }

  lemma PushPayload(q: Queue, e: Bytes)
    requires q.msgs != [] && (q.udp ==> Last(q) != [])
    ensures Payload(Push(q, e).msgs, q.udp) == Payload(q.msgs, q.udp) + e
  {
    var n, m := |q.msgs| - 1, Last(q);
    PayloadSnoc(q.msgs[..n], m, q.udp);
    PayloadSnoc(q.msgs[..n], m + [e], q.udp);
    assert q.msgs == q.msgs[..n] + [m] && Push(q, e).msgs == q.msgs[..n] + [m + [e]];
    BodySnoc(m, e, q.udp);
  }

  lemma BodySnoc(m: Message, e: Bytes, udp: bool)
    requires udp ==> m != []
    ensures Body(m + [e], udp) == Body(m, udp) + e
  {
    if udp {
      assert (m + [e])[1..] == m[1..] + [e];
      FlatSnoc(m[1..], e);
    } else {
      FlatSnoc(m, e);
    }
  }

  /** One turn of conn_add_iov's loop. */
  function Turn(q: Queue, data: Bytes): (r: Queue)
    requires q.msgs != []
    ensures r.msgs != []
  {
    Push(Opened(q), data[..Taken(q, |data|)])
  }

  lemma TurnKeeps(q: Queue, data: Bytes)
    requires q.msgs != [] && Sendable(q)
    ensures Turn(q, data).udp == q.udp && |Turn(q, data).msgs| >= |q.msgs|
    ensures Sendable(Turn(q, data))
    ensures Payload(Turn(q, data).msgs, q.udp) == Payload(q.msgs, q.udp) + data[..Taken(q, |data|)]
  {
    var o := Opened(q);
    AddMsghdrKeeps(q);
    OpenedHasRoomIfLimited(q);
    assert Fits(Last(o), q.udp, q.udp);
    PushSendable(o, data[..Taken(q, |data|)]);
    PushPayload(o, data[..Taken(q, |data|)]);
  }

  /** Appending adds exactly the given bytes to what a receiver will read, whatever
      the splitting, and keeps every message sendable. */
  lemma {:induction false} AddIovKeeps(q: Queue, data: Bytes)
    requires q.msgs != [] && Sendable(q)
    ensures AddIov(q, data).udp == q.udp && |AddIov(q, data).msgs| >= |q.msgs|
    ensures Sendable(AddIov(q, data))
    ensures Payload(AddIov(q, data).msgs, q.udp) == Payload(q.msgs, q.udp) + data
    decreases |data|
  {
    var k := Taken(q, |data|);
    TurnKeeps(q, data);
    if k < |data| {
      AddIovKeeps(Turn(q, data), data[k..]);
    }
    Rejoin(Payload(q.msgs, q.udp), data, k);
  }

  /** Every message but the last is full: it has as many buffers as sendmsg takes or, being
      a datagram or the first of a stream, as many bytes as a packet. */
  ghost predicate Closed(q: Queue) {
    forall i :: 0 <= i < |q.msgs| - 1 ==>
      |q.msgs[i]| == IOV_MAX || ((q.udp || i == 0) && |Flat(q.msgs[i])| >= UDP_MAX_PAYLOAD_SIZE)
  }

  lemma TurnCloses(q: Queue, data: Bytes)
    requires q.msgs != [] && Closed(q)
    ensures Closed(Turn(q, data))
  {
    var o := Opened(q);
    assert Closed(o);
  }

  /** No message is left before it is full. */
  lemma {:induction false} AddIovCloses(q: Queue, data: Bytes)
    requires q.msgs != [] && Closed(q)
    ensures Closed(AddIov(q, data))
    decreases |data|
  {
    var k := Taken(q, |data|);
    TurnCloses(q, data);
    if k < |data| {
      AddIovCloses(Turn(q, data), data[k..]);
    }
  }

  /** So every reply goes out in messages that are full but for the last. */
  lemma {:induction false} GatherCloses(udp: bool, pieces: seq<Bytes>)
    ensures Closed(Gather(udp, pieces))
    decreases |pieces|
  {
    if pieces != [] {
      var n := |pieces| - 1;
      GatherCloses(udp, pieces[..n]);
      AddIovCloses(Gather(udp, pieces[..n]), pieces[n]);
    }
  }

  /** A piece is not cut if it fits, and where it is cut the packet is full. */
  lemma CutOnlyWhereFull(q: Queue, data: Bytes)
    requires q.msgs != []
    ensures var used := |Flat(Last(Opened(q)))|;
            if Limited(q) && used + |data| > UDP_MAX_PAYLOAD_SIZE then
              |Flat(Last(Turn(q, data)))| == UDP_MAX_PAYLOAD_SIZE
            else
              AddIov(q, data) == Push(Opened(q), data)
  {
    var o := Opened(q);
    OpenedHasRoomIfLimited(q);
    FlatSnoc(Last(o), data[..Taken(q, |data|)]);
    assert data[..|data|] == data;
  }

  lemma Rejoin(p: Bytes, data: Bytes, k: nat)
    requires k <= |data|
    ensures p + data[..k] + data[k..] == p + data && (k == |data| ==> data[..k] == data)
  {
  }

  /** conn_add_msghdr makes room for the header by a conn_add_iov of its own, which
      never splits and never opens another message. */
  lemma HeaderIsOneBuffer(q: Queue)
    ensures var q' := q.(msgs := q.msgs + [[]]);
            AddIov(q', NoHeader()) == q'.(msgs := q.msgs + [[NoHeader()]])
  {
    var q' := q.(msgs := q.msgs + [[]]);
    assert Last(q') == [] && Flat([]) == [] && !Full(q');
    assert |NoHeader()| == UDP_HEADER_SIZE && Taken(q', UDP_HEADER_SIZE) == UDP_HEADER_SIZE;
    assert NoHeader()[..UDP_HEADER_SIZE] == NoHeader();
    assert [] + [NoHeader()] == [NoHeader()];
    assert Push(q', NoHeader()).msgs == q.msgs + [[NoHeader()]];
  }

  /** A reply under construction: one message header, then every piece appended. */
  ghost function Gather(udp: bool, pieces: seq<Bytes>): (q: Queue)
    ensures q.udp == udp && q.msgs != [] && Sendable(q) && (udp ==> Headed(q))
    decreases |pieces|
  {
    if pieces == [] then
      AddMsghdrKeeps(Queue(udp, []));
      AddMsghdr(Queue(udp, []))
    else
      var n := |pieces| - 1;
      AddIovKeeps(Gather(udp, pieces[..n]), pieces[n]);
      AddIov(Gather(udp, pieces[..n]), pieces[n])
  }

  /** The pieces appended one after the other. */
  function AddAll(q: Queue, pieces: seq<Bytes>): (r: Queue)
    requires q.msgs != []
    ensures r.msgs != []
    decreases |pieces|
  {
    if pieces == [] then q else AddAll(AddIov(q, pieces[0]), pieces[1..])
  }

  lemma {:induction false} AddAllSnoc(q: Queue, pieces: seq<Bytes>, x: Bytes)
    requires q.msgs != []
    ensures AddAll(q, pieces + [x]) == AddIov(AddAll(q, pieces), x)
    decreases |pieces|
  {
    if pieces == [] {
      assert pieces + [x] == [x] && [x][1..] == [];
    } else {
      AddAllSnoc(AddIov(q, pieces[0]), pieces[1..], x);
      assert (pieces + [x])[0] == pieces[0] && (pieces + [x])[1..] == pieces[1..] + [x];
    }
  }

  lemma {:induction false} GatherIsAddAll(udp: bool, pieces: seq<Bytes>)
    ensures Gather(udp, pieces) == AddAll(AddMsghdr(Queue(udp, [])), pieces)
    decreases |pieces|
  {
    if pieces != [] {
      var n := |pieces| - 1;
      GatherIsAddAll(udp, pieces[..n]);
      AddAllSnoc(AddMsghdr(Queue(udp, [])), pieces[..n], pieces[n]);
      assert pieces == pieces[..n] + [pieces[n]];
    }
  }

  /** A reply holds its pieces, in order and complete. */
  lemma {:induction false} GatherHolds(udp: bool, pieces: seq<Bytes>)
    ensures Payload(Gather(udp, pieces).msgs, udp) == Flat(pieces)
    decreases |pieces|
  {
    if pieces == [] {
      AddMsghdrKeeps(Queue(udp, []));
    } else {
      var n := |pieces| - 1;
      GatherHolds(udp, pieces[..n]);
      AddIovKeeps(Gather(udp, pieces[..n]), pieces[n]);
      FlatSnoc(pieces[..n], pieces[n]);
      assert pieces == pieces[..n] + [pieces[n]];
    }
  }

  // ---- Headers ---------------------------------------------------------------------

  /** Request id, sequence number and message count, two bytes each, then two zero
      bytes. */
  function Header(rid: nat, i: nat, n: nat): (h: Bytes)
    ensures |h| == UDP_HEADER_SIZE && h[6] == 0 && h[7] == 0
    ensures rid < 65536 ==> 256 * (h[0] as int) + h[1] as int == rid
    ensures i < 65536 ==> 256 * (h[2] as int) + h[3] as int == i
    ensures n < 65536 ==> 256 * (h[4] as int) + h[5] as int == n
  {
    [rid / 256 % 256, rid % 256, i / 256 % 256, i % 256, n / 256 % 256, n % 256, 0, 0]
  }

  /** Every message has room for a header in its first buffer. */
  ghost predicate Headed(q: Queue) {
    forall i :: 0 <= i < |q.msgs| ==> q.msgs[i] != []
  }

  /** conn_build_udp_headers */
  ghost function BuildHeaders(q: Queue, rid: nat): (r: seq<Message>)
    requires Headed(q)
    ensures |r| == |q.msgs|
    ensures forall i :: 0 <= i < |r| ==> r[i] == q.msgs[i][0 := Header(rid, i, |r|)]
  {
    seq(|q.msgs|, i requires 0 <= i < |q.msgs| => q.msgs[i][0 := Header(rid, i, |q.msgs|)])
  }

  // ---- Sending ---------------------------------------------------------------------

  /** What each sendmsg call so far has written, and what is left to write. */
  datatype Wire = Wire(msgs: seq<Message>, curr: nat, sent: seq<Bytes>)

  datatype Outcome = Complete | Incomplete | SoftError | HardError

  /** The buffers left after the first n bytes have been written. */
  function Advance(es: seq<Bytes>, n: nat): seq<Bytes>
    requires n <= |Flat(es)|
  {
    if es != [] && n >= |es[0]| then Advance(es[1..], n - |es[0]|)
    else if n > 0 then [es[0][n..]] + es[1..]
    else es
  }

  lemma {:induction false} AdvanceDrops(es: seq<Bytes>, n: nat)
    requires n <= |Flat(es)|
    ensures Flat(Advance(es, n)) == Flat(es)[n..]
    ensures n == |Flat(es)| ==> Advance(es, n) == []
  {
    if es != [] && n >= |es[0]| {
      AdvanceDrops(es[1..], n - |es[0]|);
    } else if n > 0 {
      assert ([es[0][n..]] + es[1..])[1..] == es[1..];
    }
  }

  /** Past a finished message. */
  function Skip(w: Wire): (r: Wire) {
    if w.curr < |w.msgs| && w.msgs[w.curr] == [] then w.(curr := w.curr + 1) else w
  }

  /** What sendmsg may answer: how much of the message it wrote, or -1. */
  predicate Answer(w: Wire, res: int) {
    Skip(w).curr < |w.msgs| ==> -1 <= res <= |Flat(w.msgs[Skip(w).curr])|
  }

  /** core_transmit, given sendmsg's answer and whether a failure only means that the
      call would block. */
  function Transmit(w: Wire, res: int, again: bool): (r: (Wire, Outcome))
    requires Answer(w, res)
  {
    var w := Skip(w);
    if w.curr >= |w.msgs| then (w, Complete)
    else if res > 0 then
      var m := w.msgs[w.curr];
      (Wire(w.msgs[w.curr := Advance(m, res)], w.curr, w.sent + [Flat(m)[..res]]), Incomplete)
    else (w, if res == -1 && again then SoftError else HardError)
  }

  /** The bytes not yet written. */
  function Pending(w: Wire): Bytes {
    if w.curr <= |w.msgs| then Payload(w.msgs[w.curr..], false) else []
  }

  lemma SkipKeeps(w: Wire)
    ensures Pending(Skip(w)) == Pending(w)
  {
    if w.curr < |w.msgs| && w.msgs[w.curr] == [] {
      assert w.msgs[w.curr..][1..] == w.msgs[w.curr+1..];
    }
  }

  /** No call loses, repeats or reorders a byte: what is written and what is pending
      together stay the same, and Complete is answered exactly when all messages are
      finished. */
  lemma TransmitKeeps(w: Wire, res: int, again: bool)
    requires Answer(w, res)
    ensures var (w', o) := Transmit(w, res, again);
            && Flat(w'.sent) + Pending(w') == Flat(w.sent) + Pending(w)
            && (o == Complete ==> Pending(w') == [])
            && (o == Incomplete ==> |Pending(w')| < |Pending(w)|)
            && (o == SoftError || o == HardError ==> w'.sent == w.sent && Pending(w') == Pending(w))
            && (o == Incomplete ==> res > 0) && (o == SoftError ==> res == -1 && again)
            && (o == HardError ==> res == 0 || (res == -1 && !again))
  {
    SkipKeeps(w);
    var s := Skip(w);
    if s.curr < |s.msgs| && res > 0 {
      SendKeeps(s, res);
    }
  }

  lemma SendKeeps(w: Wire, res: nat)
    requires w.curr < |w.msgs| && 0 < res <= |Flat(w.msgs[w.curr])|
    ensures var m := w.msgs[w.curr];
            var w' := Wire(w.msgs[w.curr := Advance(m, res)], w.curr, w.sent + [Flat(m)[..res]]);
            && Flat(w'.sent) + Pending(w') == Flat(w.sent) + Pending(w)
            && |Pending(w')| < |Pending(w)|
  {
    var m := w.msgs[w.curr];
    var left := Advance(m, res);
    var tail := Payload(w.msgs[w.curr+1..], false);
    FlatSnoc(w.sent, Flat(m)[..res]);
    AdvanceDrops(m, res);
    PendingFirst(w);
    PendingFirst(w.(msgs := w.msgs[w.curr := left]));
    assert w.msgs[w.curr := left][w.curr+1..] == w.msgs[w.curr+1..];
    CutAt(Flat(w.sent), Flat(m), res, tail);
  }

  lemma PendingFirst(w: Wire)
    requires w.curr < |w.msgs|
    ensures Pending(w) == Flat(w.msgs[w.curr]) + Payload(w.msgs[w.curr+1..], false)
  {
    assert w.msgs[w.curr..][1..] == w.msgs[w.curr+1..];
  }

  lemma CutAt(a: Bytes, b: Bytes, k: nat, c: Bytes)
    requires k <= |b|
    ensures (a + b[..k]) + (b[k..] + c) == a + (b + c)
  {
  }

  /** A run of core_transmit calls: the answers sendmsg gives to each. */
  ghost predicate Calls(w: Wire, answers: seq<(int, bool)>, w': Wire)
    decreases |answers|
  {
    if answers == [] then w' == w
    else Answer(w, answers[0].0) && Calls(Transmit(w, answers[0].0, answers[0].1).0, answers[1..], w')
  }

  lemma {:induction false} CallsKeep(w: Wire, answers: seq<(int, bool)>, w': Wire)
    requires Calls(w, answers, w')
    ensures Flat(w'.sent) + Pending(w') == Flat(w.sent) + Pending(w)
    decreases |answers|
  {
    if answers != [] {
      TransmitKeeps(w, answers[0].0, answers[0].1);
      CallsKeep(Transmit(w, answers[0].0, answers[0].1).0, answers[1..], w');
    }
  }

  /** A stream reply arrives whole: however the pieces were cut into messages and
      however much each call wrote, once core_transmit reports completion the socket
      has been given exactly the pieces in order. */
  lemma StreamArrives(pieces: seq<Bytes>, answers: seq<(int, bool)>, w: Wire, res: int, again: bool)
    requires Calls(Wire(Gather(false, pieces).msgs, 0, []), answers, w)
    requires Answer(w, res) && Transmit(w, res, again).1 == Complete
    ensures Flat(Transmit(w, res, again).0.sent) == Flat(pieces)
  {
    var start := Wire(Gather(false, pieces).msgs, 0, []);
    GatherHolds(false, pieces);
    CallsKeep(start, answers, w);
    TransmitKeeps(w, res, again);
    assert start.msgs[0..] == start.msgs && Flat([]) == [] && Pending(start) == Flat(pieces);
    var end := Transmit(w, res, again).0;
    assert Flat(end.sent) + [] == Flat(end.sent);
  }

  // ---- Datagrams -------------------------------------------------------------------

  /** A run in which every call that writes writes a whole message, as a datagram
      socket does. */
  ghost predicate Datagrams(w: Wire, answers: seq<(int, bool)>, w': Wire)
    decreases |answers|
  {
    if answers == [] then w' == w
    else
      && Answer(w, answers[0].0)
      && (Skip(w).curr < |w.msgs| && answers[0].0 > 0 ==> answers[0].0 == |Flat(w.msgs[Skip(w).curr])|)
      && Datagrams(Transmit(w, answers[0].0, answers[0].1).0, answers[1..], w')
  }

  /** The first |sent| messages have gone out, one to a call, and the rest wait. */
  ghost predicate InStep(msgs: seq<Message>, w: Wire) {
    && |w.msgs| == |msgs| && w.curr <= |w.sent| <= |msgs|
    && (w.curr == |w.sent| || (w.curr + 1 == |w.sent| && w.msgs[w.curr] == []))
    && (forall i :: 0 <= i < |w.sent| ==> w.sent[i] == Flat(msgs[i]))
    && (forall i :: |w.sent| <= i < |msgs| ==> w.msgs[i] == msgs[i])
  }

  lemma {:induction false} DatagramsInStep(msgs: seq<Message>, w: Wire, answers: seq<(int, bool)>, w': Wire)
    requires forall i :: 0 <= i < |msgs| ==> msgs[i] != []
    requires InStep(msgs, w) && Datagrams(w, answers, w')
    ensures InStep(msgs, w')
    decreases |answers|
  {
    if answers != [] {
      CallInStep(msgs, w, answers[0].0, answers[0].1);
      DatagramsInStep(msgs, Transmit(w, answers[0].0, answers[0].1).0, answers[1..], w');
    }
  }

  lemma CallInStep(msgs: seq<Message>, w: Wire, res: int, again: bool)
    requires (forall i :: 0 <= i < |msgs| ==> msgs[i] != []) && InStep(msgs, w) && Answer(w, res)
    requires Skip(w).curr < |w.msgs| && res > 0 ==> res == |Flat(w.msgs[Skip(w).curr])|
    ensures InStep(msgs, Transmit(w, res, again).0)
  {
    var s := Skip(w);
    if s.curr < |s.msgs| && res > 0 {
      AdvanceDrops(s.msgs[s.curr], res);
      assert Flat(msgs[s.curr])[..res] == Flat(msgs[s.curr]);
    }
  }

  /** The payload of each message. */
  function Bodies(msgs: seq<Message>): (r: seq<Bytes>)
    ensures |r| == |msgs|
  {
    seq(|msgs|, i requires 0 <= i < |msgs| => Body(msgs[i], true))
  }

  lemma {:induction false} BodiesFlat(msgs: seq<Message>)
    ensures Flat(Bodies(msgs)) == Payload(msgs, true)
  {
    if msgs != [] {
      BodiesFlat(msgs[1..]);
      assert Bodies(msgs)[1..] == Bodies(msgs[1..]);
    }
  }

  /** Packets that are each a header followed by a share of the pieces, none over the
      limit, and whose shares make up the pieces in order. */
  ghost predicate Packets(pieces: seq<Bytes>, rid: nat, sent: seq<Bytes>) {
    var shares := Bodies(Gather(true, pieces).msgs);
    && |sent| == |shares| && Flat(shares) == Flat(pieces)
    && forall i :: 0 <= i < |shares| ==>
         sent[i] == Header(rid, i, |shares|) + shares[i] && |sent[i]| <= UDP_MAX_PAYLOAD_SIZE
  }

  /** A datagram reply arrives in numbered packets: once core_transmit reports
      completion there is one packet per message, each its header followed by its
      share of the pieces, none over the limit, and the shares make up the pieces in
      order. */
  lemma DatagramsArrive(pieces: seq<Bytes>, rid: nat, answers: seq<(int, bool)>, w: Wire, res: int, again: bool)
    requires Datagrams(Wire(BuildHeaders(Gather(true, pieces), rid), 0, []), answers, w)
    requires Answer(w, res) && Transmit(w, res, again).1 == Complete
    ensures Packets(pieces, rid, w.sent)
  {
    var q := Gather(true, pieces);
    var msgs := BuildHeaders(q, rid);
    GatherHolds(true, pieces);
    BodiesFlat(q.msgs);
    DatagramsInStep(msgs, Wire(msgs, 0, []), answers, w);
    assert w.curr == |w.sent| || Skip(w).curr == |w.sent|;
    forall i | 0 <= i < |msgs|
      ensures Flat(msgs[i]) == Header(rid, i, |msgs|) + Bodies(q.msgs)[i] && |Flat(msgs[i])| <= UDP_MAX_PAYLOAD_SIZE
    {
      assert Fits(q.msgs[i], true, true);
      assert msgs[i][1..] == q.msgs[i][1..];
    }
  }

  // ---------- a whole reply ----------

  /** The messages of a reply as they go out. */
  ghost function Outgoing(udp: bool, pieces: seq<Bytes>, rid: nat): seq<Message> {
    if udp then BuildHeaders(Gather(true, pieces), rid) else Gather(false, pieces).msgs
  }

  /** Answers that sendmsg may give, one after the other. */
  ghost predicate Answered(w: Wire, answers: seq<(int, bool)>)
    decreases |answers|
  {
    answers == [] || (Answer(w, answers[0].0) && Answered(Transmit(w, answers[0].0, answers[0].1).0, answers[1..]))
  }

  /** The call writes a whole message or nothing. */
  predicate Whole(w: Wire, res: int) {
    Skip(w).curr < |w.msgs| && res > 0 ==> res == |Flat(w.msgs[Skip(w).curr])|
  }

  /** Every message that is not finished still begins with its own header. */
  ghost predicate HeadersIn(msgs: seq<Message>, rid: nat) {
    forall i :: 0 <= i < |msgs| && msgs[i] != [] ==> msgs[i][0] == Header(rid, i, |msgs|)
  }

  lemma WholeKeepsHeaders(w: Wire, res: int, again: bool, rid: nat)
    requires Answer(w, res) && Whole(w, res) && HeadersIn(w.msgs, rid)
    ensures HeadersIn(Transmit(w, res, again).0.msgs, rid)
  {
    var s := Skip(w);
    if s.curr < |s.msgs| && res > 0 {
      AdvanceDrops(s.msgs[s.curr], res);
    }
  }

  /** Answers of a datagram socket: whole messages or nothing. */
  ghost predicate AllOrNothing(w: Wire, answers: seq<(int, bool)>)
    requires Answered(w, answers)
    decreases |answers|
  {
    answers == [] ||
    (&& Whole(w, answers[0].0)
     && AllOrNothing(Transmit(w, answers[0].0, answers[0].1).0, answers[1..]))
  }

  /** The calls made with the first n answers, which lead to w'. */
  lemma {:induction false} Prefix(w: Wire, answers: seq<(int, bool)>, n: nat) returns (w': Wire)
    requires Answered(w, answers) && n <= |answers|
    ensures Calls(w, answers[..n], w') && Answered(w', answers[n..])
    ensures AllOrNothing(w, answers) ==> Datagrams(w, answers[..n], w')
    decreases |answers|
  {
    if n == 0 {
      w' := w;
      assert answers[0..] == answers;
    } else {
      w' := Prefix(Transmit(w, answers[0].0, answers[0].1).0, answers[1..], n - 1);
      assert answers[..n][0] == answers[0] && answers[..n][1..] == answers[1..][..n-1];
      assert answers[1..][n-1..] == answers[n..];
    }
  }

  lemma {:induction false} CallsUnique(w: Wire, answers: seq<(int, bool)>, a: Wire, b: Wire)
    requires Calls(w, answers, a) && Calls(w, answers, b)
    ensures a == b
    decreases |answers|
  {
    if answers != [] {
      CallsUnique(Transmit(w, answers[0].0, answers[0].1).0, answers[1..], a, b);
    }
  }

  lemma {:induction false} CallsSnoc(w: Wire, answers: seq<(int, bool)>, w': Wire, res: int, again: bool)
    requires Calls(w, answers, w') && Answer(w', res)
    ensures Calls(w, answers + [(res, again)], Transmit(w', res, again).0)
    decreases |answers|
  {
    if answers == [] {
      assert answers + [(res, again)] == [(res, again)] && [(res, again)][1..] == [];
    } else {
      CallsSnoc(Transmit(w, answers[0].0, answers[0].1).0, answers[1..], w', res, again);
      assert (answers + [(res, again)])[1..] == answers[1..] + [(res, again)];
    }
  }

  lemma NextCall(w: Wire, answers: seq<(int, bool)>, n: nat, w': Wire)
    requires n < |answers| && Calls(w, answers[..n], w') && Answered(w', answers[n..])
    ensures Answer(w', answers[n].0)
    ensures Calls(w, answers[..n+1], Transmit(w', answers[n].0, answers[n].1).0)
    ensures Answered(Transmit(w', answers[n].0, answers[n].1).0, answers[n+1..])
    ensures AllOrNothing(w', answers[n..]) ==>
              && Whole(w', answers[n].0)
              && AllOrNothing(Transmit(w', answers[n].0, answers[n].1).0, answers[n+1..])
  {
    assert answers[n..][0] == answers[n] && answers[n..][1..] == answers[n+1..];
    CallsSnoc(w, answers[..n], w', answers[n].0, answers[n].1);
    assert answers[..n] + [(answers[n].0, answers[n].1)] == answers[..n+1];
  }

  /** What a reply has come to when the call after the first n answers completes it. */
  lemma ReplyArrives(udp: bool, pieces: seq<Bytes>, rid: nat, answers: seq<(int, bool)>, n: nat, w: Wire)
    requires Answered(Wire(Outgoing(udp, pieces, rid), 0, []), answers) && n < |answers|
    requires Calls(Wire(Outgoing(udp, pieces, rid), 0, []), answers[..n], w)
    requires Answer(w, answers[n].0) && Transmit(w, answers[n].0, answers[n].1).1 == Complete
    ensures !udp ==> Flat(Transmit(w, answers[n].0, answers[n].1).0.sent) == Flat(pieces)
    ensures udp && AllOrNothing(Wire(Outgoing(udp, pieces, rid), 0, []), answers) ==>
              Packets(pieces, rid, Transmit(w, answers[n].0, answers[n].1).0.sent)
  {
    var start := Wire(Outgoing(udp, pieces, rid), 0, []);
    if !udp {
      StreamArrives(pieces, answers[..n], w, answers[n].0, answers[n].1);
    } else if AllOrNothing(start, answers) {
      var w' := Prefix(start, answers, n);
      CallsUnique(start, answers[..n], w, w');
      DatagramsArrive(pieces, rid, answers[..n], w, answers[n].0, answers[n].1);
    }
  }
}
