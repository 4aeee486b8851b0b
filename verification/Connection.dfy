/** The connection's gather lists as they are laid out in memory: one growing array
    of buffers that every message header points into (mc_connection.c, mc_core.c). */
module Connection {
  import opened Bytes
  import opened Replies

  /** msg_iov and msg_iovlen: a pointer into an array of buffers, and a count. */
  datatype Msghdr = Msghdr(iov: array<Bytes>, first: nat, len: nat)

  ghost predicate Within(hs: seq<Msghdr>, bound: nat) {
    forall i :: 0 <= i < |hs| ==> hs[i].first + hs[i].len <= bound
  }

  /** The buffers a header points at. */
  ghost function Slice(h: Msghdr, iovs: seq<Bytes>): (m: Message)
    requires h.first + h.len <= |iovs|
    ensures |m| == h.len
  {
    iovs[h.first..h.first + h.len]
  }

  /** The messages that headers describe. */
  ghost function Slices(hs: seq<Msghdr>, iovs: seq<Bytes>): (r: seq<Message>)
    requires Within(hs, |iovs|)
    ensures |r| == |hs| && forall i {:trigger r[i]} :: 0 <= i < |hs| ==> r[i] == Slice(hs[i], iovs)
  {
    seq(|hs|, i requires 0 <= i < |hs| => Slice(hs[i], iovs))
  }

  /** While a reply is gathered each message starts where the one before it ends, and
      the last ends at iov_used. */
  ghost predicate Adjacent(hs: seq<Msghdr>, used: nat) {
    && (hs == [] ==> used == 0)
    && (hs != [] ==> hs[0].first == 0 && hs[|hs|-1].first + hs[|hs|-1].len == used)
    && (forall i, j :: 0 <= i && j == i + 1 < |hs| ==> hs[j].first == hs[i].first + hs[i].len)
  }

  /** Each message ends where the next one starts, and the last at iov_used. */
  ghost predicate Touching(hs: seq<Msghdr>, used: nat) {
    && (hs != [] ==> hs[|hs|-1].first + hs[|hs|-1].len == used)
    && (forall i, j :: 0 <= i && j == i + 1 < |hs| ==> hs[j].first == hs[i].first + hs[i].len)
  }

  /** Only message c has changed, and it still ends where it did. */
  ghost predicate NarrowedAt(hs: seq<Msghdr>, hs': seq<Msghdr>, c: nat) {
    && |hs'| == |hs| && (forall i :: 0 <= i < |hs| && i != c ==> hs'[i] == hs[i])
    && (c < |hs| ==> hs'[c].first + hs'[c].len == hs[c].first + hs[c].len)
  }

  lemma StillTouching(hs: seq<Msghdr>, hs': seq<Msghdr>, used: nat)
    requires Touching(hs, used) && NarrowedAt(hs, hs', 0)
    ensures Touching(hs', used)
  {
  }

  /** Messages never share a buffer. */
  ghost predicate Apart(hs: seq<Msghdr>) {
    forall i, j :: 0 <= i < j < |hs| ==> hs[i].first + hs[i].len <= hs[j].first
  }

  /** Headers laid out over buffers. */
  ghost predicate Laid(hs: seq<Msghdr>, iovs: seq<Bytes>, used: nat) {
    used <= |iovs| && Within(hs, used)
  }

  /** As it is while a reply is gathered; bytes is the size of the last message. */
  ghost predicate Packed(hs: seq<Msghdr>, iovs: seq<Bytes>, used: nat, bytes: nat) {
    && Laid(hs, iovs, used) && Adjacent(hs, used)
    && (hs != [] ==> bytes == |Flat(Slice(hs[|hs|-1], iovs))|)
  }

  ghost predicate PointInto(hs: seq<Msghdr>, iov: array<Bytes>) {
    forall i :: 0 <= i < |hs| ==> hs[i].iov == iov
  }

  /** One more buffer in the last message. */
  function Longer(hs: seq<Msghdr>): (r: seq<Msghdr>)
    requires hs != []
  {
    var m := hs[|hs|-1];
    hs[|hs|-1 := m.(len := m.len + 1)]
  }

  /** Messages that lie end to end share no buffer. */
  lemma AdjacentApart(hs: seq<Msghdr>, used: nat)
    requires Adjacent(hs, used)
    ensures Apart(hs)
  {
    forall i, j | 0 <= i < j < |hs| ensures hs[i].first + hs[i].len <= hs[j].first {
      EndsBefore(hs, used, i, j);
    }
  }

  lemma {:induction false} EndsBefore(hs: seq<Msghdr>, used: nat, i: nat, j: nat)
    requires Adjacent(hs, used) && i < j < |hs|
    ensures hs[i].first + hs[i].len <= hs[j].first
    decreases j - i
  {
    if i + 1 < j {
      EndsBefore(hs, used, i, j - 1);
    }
  }

  class Conn {
    const udp: bool
    var iov: array<Bytes>
    var iovUsed: nat
    var msgs: seq<Msghdr>
    var msgCurr: nat
    var msgBytes: nat

    /** The contents of iov. */
    ghost var iovs: seq<Bytes>

    /** What each successful sendmsg call has written. */
    ghost var sent: seq<Bytes>

    /** Every header points into the current array. */
    ghost predicate Pointing()
      reads this, iov
    {
      0 < iov.Length && iov[..] == iovs && Laid(msgs, iovs, iovUsed) && PointInto(msgs, iov)
    }

    /** Every header points into the current array, at buffers of its own. */
    ghost predicate Valid()
      reads this, iov
    {
      Pointing() && Apart(msgs)
    }

    ghost function Messages(): (r: seq<Message>)
      reads this
      requires Laid(msgs, iovs, iovUsed)
    {
      Slices(msgs, iovs)
    }

    /** Nothing has been sent yet, so that headers lie end to end. */
    ghost predicate Gathering()
      reads this, iov
    {
      Pointing() && Packed(msgs, iovs, iovUsed, msgBytes)
    }

    ghost function Value(): (q: Queue)
      reads this
      requires Laid(msgs, iovs, iovUsed)
    {
      Queue(udp, Messages())
    }

    constructor (isUdp: bool, iovSize: nat)
      requires iovSize > 0
      ensures Gathering() && udp == isUdp && Messages() == [] && msgCurr == 0 && sent == [] && fresh(iov)
    {
      udp := isUdp;
      iov := new Bytes[iovSize](_ => []);
      iovUsed, msgs, msgCurr, msgBytes, sent := 0, [], 0, 0, [];
      iovs := seq(iovSize, _ => []);
    }

    /** The larger array holds the same buffers and every message header is moved over
        to it. */
    method Grow()
      requires Gathering()
      modifies this`iov, this`iovs, this`msgs
      ensures Gathering() && iov.Length == 2 * old(iov.Length) && Messages() == old(Messages()) && fresh(iov)
      ensures |msgs| == |old(msgs)|
    {
      var grown := Doubled(iov);
      MovedPacked(msgs, grown, iovs, grown[..], iovUsed, msgBytes);
      msgs := Repoint(msgs, iovUsed, grown);
      iov, iovs := grown, grown[..];
    }

    /** conn_ensure_iov_space */
    method EnsureIovSpace()
      requires Gathering()
      modifies this`iov, this`iovs, this`msgs
      ensures Gathering() && iovUsed < iov.Length && Value() == old(Value()) && |msgs| == |old(msgs)|
      ensures iov == old(iov) || fresh(iov)
    {
      if iovUsed >= iov.Length {
        Grow();
      }
    }

    /** One more buffer where there is room for it. */
    method StoreNext(e: Bytes)
      requires Gathering() && msgs != [] && iovUsed < iov.Length
      modifies this`iovs, this`msgs, this`iovUsed, this`msgBytes, iov
      ensures Gathering() && Value() == Push(old(Value()), e) && msgBytes == old(msgBytes) + |e|
    {
      StoredPacked(msgs, iovs, iovUsed, msgBytes, e);
      Write(e);
    }

    /** The buffer at iov_used, and the counters that go with it. */
    method Write(e: Bytes)
      requires msgs != [] && iovUsed < iov.Length && iov[..] == iovs
      modifies this`iovs, this`msgs, this`iovUsed, this`msgBytes, iov
      ensures iov[..] == iovs == old(iovs)[old(iovUsed) := e] && iovUsed == old(iovUsed) + 1
      ensures msgs == Longer(old(msgs))
      ensures msgBytes == old(msgBytes) + |e|
    {
      iov[iovUsed] := e;
      iovs := iovs[iovUsed := e];
      var m := msgs[|msgs|-1];
      msgs := msgs[|msgs|-1 := m.(len := m.len + 1)];
      iovUsed, msgBytes := iovUsed + 1, msgBytes + |e|;
    }

    /** One more buffer at the end of the last message. */
    method Store(e: Bytes)
      requires Gathering() && msgs != []
      modifies this`iov, this`iovs, this`msgs, this`iovUsed, this`msgBytes, iov
      ensures Gathering() && Value() == Push(old(Value()), e) && msgBytes == old(msgBytes) + |e|
      ensures iov == old(iov) || fresh(iov)
    {
      EnsureIovSpace();
      StoreNext(e);
    }

    /** A message with no buffers yet. */
    method OpenMessage()
      requires Gathering()
      modifies this`msgs, this`msgBytes
      ensures Gathering() && Messages() == old(Messages()) + [[]]
    {
      OpenedPacked(msgs, iovs, iovUsed, msgBytes, Msghdr(iov, iovUsed, 0));
      msgs := msgs + [Msghdr(iov, iovUsed, 0)];
      msgBytes := 0;
    }

    /** conn_add_msghdr */
    method AddMsghdr()
      requires Gathering()
      modifies this`iov, this`iovs, this`msgs, this`iovUsed, this`msgBytes, iov
      ensures Gathering() && Value() == Replies.AddMsghdr(old(Value()))
      ensures msgs != []
      ensures iov == old(iov) || fresh(iov)
    {
      ghost var q := Value();
      OpenMessage();
      if udp {
        Store(NoHeader());
        PushFirst(q, NoHeader());
      }
    }

    /** A new message if the last one is full. */
    method Open(limitToMtu: bool)
      requires Gathering() && msgs != [] && limitToMtu == Limited(Value())
      modifies this`iov, this`iovs, this`msgs, this`iovUsed, this`msgBytes, iov
      ensures Gathering() && Value() == Opened(old(Value()))
      ensures iov == old(iov) || fresh(iov)
    {
      if msgs[|msgs|-1].len == IOV_MAX || (limitToMtu && msgBytes >= UDP_MAX_PAYLOAD_SIZE) {
        AddMsghdr();
      }
    }

    /** conn_add_iov */
    method AddIov(data: Bytes)
      requires Gathering() && msgs != []
      modifies this`iov, this`iovs, this`msgs, this`iovUsed, this`msgBytes, iov
      ensures Gathering() && Value() == Replies.AddIov(old(Value()), data)
      ensures msgs != []
      ensures iov == old(iov) || fresh(iov)
    {
      var buf, more := data, true;
      while more
        invariant Gathering() && msgs != []
        invariant iov == old(iov) || fresh(iov)
        invariant if more then Replies.AddIov(Value(), buf) == Replies.AddIov(old(Value()), data)
                  else Value() == Replies.AddIov(old(Value()), data)
        decreases more, |buf|
      {
        more, buf := Turn(buf);
      }
    }

    /** One turn of conn_add_iov's loop: whether bytes are left over, and which. */
    method Turn(buf: Bytes) returns (more: bool, rest: Bytes)
      requires Gathering() && msgs != []
      modifies this`iov, this`iovs, this`msgs, this`iovUsed, this`msgBytes, iov
      ensures Gathering() && Value() == Replies.Turn(old(Value()), buf)
      ensures rest == buf[Taken(old(Value()), |buf|)..] && more == (rest != [])
      ensures iov == old(iov) || fresh(iov)
    {
      var limitToMtu := udp || |msgs| == 1;
      OpenedHasRoomIfLimited(Value());
      Open(limitToMtu);
      var len := |buf|;
      if limitToMtu && len + msgBytes > UDP_MAX_PAYLOAD_SIZE {
        len := UDP_MAX_PAYLOAD_SIZE - msgBytes;
      }
      Store(buf[..len]);
      rest := buf[len..];
      more := |rest| > 0;
    }

    /** A gathered reply is ready to be sent. */
    lemma GatheredIsValid()
      requires Gathering()
      ensures Valid()
    {
      AdjacentApart(msgs, iovUsed);
    }

    /** conn_build_udp_headers */
    method BuildUdpHeaders(rid: nat)
      requires Valid() && forall i :: 0 <= i < |msgs| ==> msgs[i].len > 0
      modifies this`iovs, iov
      ensures Valid() && Messages() == BuildHeaders(old(Value()), rid)
    {
      ghost var was := Messages();
      var i := 0;
      while i < |msgs|
        invariant 0 <= i <= |msgs| && Valid()
        invariant forall j :: 0 <= j < i ==> Messages()[j] == was[j][0 := Header(rid, j, |msgs|)]
        invariant forall j :: i <= j < |msgs| ==> Messages()[j] == was[j]
      {
        WriteFirst(i, Header(rid, i, |msgs|));
        i := i + 1;
      }
    }

    /** The first buffer of one message replaced, and no other message touched. */
    method WriteFirst(i: nat, e: Bytes)
      requires Valid() && i < |msgs| && msgs[i].len > 0
      modifies this`iovs, iov
      ensures Valid() && Messages() == old(Messages())[i := old(Messages())[i][0 := e]]
    {
      Narrowed(msgs, iovs, iovUsed, i, msgs[i], e);
      iov[msgs[i].first] := e;
      iovs := iovs[msgs[i].first := e];
      assert msgs[i := msgs[i]] == msgs;
    }

    ghost function Wire(): (w: Replies.Wire)
      reads this
      requires Laid(msgs, iovs, iovUsed)
    {
      Replies.Wire(Messages(), msgCurr, sent)
    }

    /** Narrows the current message to what is left after res bytes: whole buffers
        first, then the start of one. */
    method Consume(res: nat)
      requires Valid() && msgCurr < |msgs| && res <= |Flat(Messages()[msgCurr])|
      modifies this`iovs, this`msgs, iov
      ensures Valid() && Messages() == old(Messages())[msgCurr := Advance(old(Messages())[msgCurr], res)]
      ensures NarrowedAt(old(msgs), msgs, msgCurr)
    {
      var m, n := DropWritten(iov, msgs[msgCurr], res);
      if n > 0 {
        var e := iov[m.first][n..];
        Narrowed(msgs, iovs, iovUsed, msgCurr, m, e);
        iov[m.first] := e;
        iovs := iovs[m.first := e];
      } else {
        NarrowedOnly(msgs, iovs, iovUsed, msgCurr, m);
      }
      msgs := msgs[msgCurr := m];
    }

    /** core_transmit, given what sendmsg answers. */
    method Transmit(res: int, again: bool) returns (outcome: Outcome)
      requires Valid() && Answer(Wire(), res)
      modifies this`iovs, this`msgs, this`msgCurr, this`sent, iov
      ensures Valid() && (Wire(), outcome) == Replies.Transmit(old(Wire()), res, again)
      ensures NarrowedAt(old(msgs), msgs, msgCurr)
    {
      if msgCurr < |msgs| && msgs[msgCurr].len == 0 {
        msgCurr := msgCurr + 1;
      }
      if msgCurr < |msgs| {
        if res > 0 {
          sent := sent + [Flat(Messages()[msgCurr])[..res]];
          Consume(res);
          return Incomplete;
        }
        return if res == -1 && again then SoftError else HardError;
      }
      return Complete;
    }

    /** The pieces of a reply, after the first message header. */
    method GatherAll(pieces: seq<Bytes>)
      requires Gathering() && msgs == []
      modifies this`iov, this`iovs, this`msgs, this`iovUsed, this`msgBytes, iov
      ensures Gathering() && Value() == AddAll(Replies.AddMsghdr(Queue(udp, [])), pieces)
      ensures iov == old(iov) || fresh(iov)
    {
      assert Value() == Queue(udp, []);
      AddMsghdr();
      ghost var goal := AddAll(Value(), pieces);
      var rest := pieces;
      while rest != []
        invariant Gathering() && msgs != [] && AddAll(Value(), rest) == goal
        invariant iov == old(iov) || fresh(iov)
        decreases |rest|
      {
        AddIov(rest[0]);
        rest := rest[1..];
      }
    }

    /** A reply ready to be sent, with headers on a datagram socket. */
    method Prepare(pieces: seq<Bytes>, rid: nat)
      requires Gathering() && msgs == []
      modifies this`iov, this`iovs, this`msgs, this`iovUsed, this`msgBytes, iov
      ensures Valid() && Messages() == Outgoing(udp, pieces, rid) && (udp ==> Waiting(rid))
      ensures iov == old(iov) || fresh(iov)
    {
      GatherAll(pieces);
      GatherIsAddAll(udp, pieces);
      GatheredIsValid();
      if udp {
        HeadedLens(msgs, iovs, Value());
        BuildUdpHeaders(rid);
      }
    }

    /** A datagram reply whose first message is the current one, possibly finished: the
        state in which the headers are built again. */
    ghost predicate Waiting(rid: nat)
      reads this, iov
    {
      && Valid() && msgs != [] && Touching(msgs, iovUsed) && HeadersIn(Messages(), rid)
      && forall i :: 1 <= i < |msgs| ==> msgs[i].len > 0
    }

    /** conn_build_udp_headers as CONN_MWRITE calls it before every core_transmit while
        msg_curr is 0.  It writes through msg_iov even if the first message is finished,
        and then hits the header of the second message, which the next turn restores; with
        no second message it hits the buffer behind the last one, and fails exactly when
        the array ends there. */
    method Rebuild(rid: nat) returns (ok: bool)
      requires Waiting(rid)
      modifies this`iovs, iov
      ensures ok <==> !(|msgs| == 1 && msgs[0].len == 0 && iovUsed == iov.Length)
      ensures ok ==> Waiting(rid) && Messages() == old(Messages())
    {
      ghost var finished := msgs[0].len == 0;
      var i := 0;
      while i < |msgs|
        invariant 0 <= i <= |msgs| && iovs == old(iovs)
        invariant i > 0 ==> msgs[0].first < iov.Length
        invariant iov[..] == if finished && i == 1 then iovs[msgs[0].first := Header(rid, 0, |msgs|)] else iovs
      {
        HeaderPlace(msgs, iovs, iovUsed, rid, i);
        if msgs[i].first >= iov.Length {
          return false;
        }
        iov[msgs[i].first] := Header(rid, i, |msgs|);
        i := i + 1;
      }
      if finished && |msgs| == 1 {
        BehindTheLast(msgs, iovs, iovUsed, msgs[0].first, Header(rid, 0, |msgs|));
      }
      iovs := iov[..];
      return true;
    }

    /** CONN_MWRITE until the reply is complete, a call fails for good, or there are no
        more answers; returns how many calls there were. */
    method TransmitAll(rid: nat, answers: seq<(int, bool)>)
      returns (outcome: Outcome, crash: bool, n: nat, ghost last: Replies.Wire)
      requires Valid() && Answered(Wire(), answers)
      requires udp ==> AllOrNothing(Wire(), answers) && msgCurr == 0 && Waiting(rid)
      modifies this`iovs, this`msgs, this`msgCurr, this`sent, iov
      ensures n <= |answers| && |msgs| == |old(msgs)| && (!crash ==> Valid())
      ensures crash ==> udp && |msgs| == 1 && iovUsed == iov.Length
      ensures outcome == Complete ==>
                && !crash && n > 0 && Calls(old(Wire()), answers[..n-1], last) && Answer(last, answers[n-1].0)
                && (Wire(), Complete) == Replies.Transmit(last, answers[n-1].0, answers[n-1].1)
      ensures outcome == Complete && udp && |msgs| == 1 ==> iovUsed < iov.Length
    {
      outcome, crash, n, last := Incomplete, false, 0, Wire();
      assert answers[..0] == [] && answers[0..] == answers;
      while n < |answers|
        invariant n <= |answers| && Valid() && outcome != Complete && !crash && |msgs| == |old(msgs)|
        invariant Calls(old(Wire()), answers[..n], Wire()) && Answered(Wire(), answers[n..])
        invariant udp ==> AllOrNothing(Wire(), answers[n..]) && (msgCurr == 0 ==> Waiting(rid))
        invariant udp && |msgs| == 1 && iovUsed == iov.Length ==> msgCurr == 0
      {
        last := Wire();
        NextCall(old(Wire()), answers, n, last);
        outcome, crash := Drive(rid, answers[n].0, answers[n].1);
        if crash {
          return;
        }
        n := n + 1;
        if outcome == Complete || outcome == HardError {
          return;
        }
      }
    }

    /** One turn of CONN_MWRITE. */
    method Drive(rid: nat, res: int, again: bool) returns (outcome: Outcome, crash: bool)
      requires Valid() && Answer(Wire(), res) && (udp ==> Whole(Wire(), res) && (msgCurr == 0 ==> Waiting(rid)))
      modifies this`iovs, this`msgs, this`msgCurr, this`sent, iov
      ensures |msgs| == |old(msgs)| && (crash ==> outcome == HardError)
      ensures crash ==> udp && |msgs| == 1 && iovUsed == iov.Length
      ensures !crash ==> Valid() && (Wire(), outcome) == Replies.Transmit(old(Wire()), res, again)
      ensures !crash && udp && msgCurr == 0 ==> Waiting(rid)
      ensures !crash && udp && |msgs| == 1 && iovUsed == iov.Length && old(msgCurr) == 0 ==> msgCurr == 0
    {
      if udp && msgCurr == 0 {
        var ok := Rebuild(rid);
        if !ok {
          return HardError, true;
        }
      }
      outcome := Pass(rid, res, again);
      crash := false;
    }

    /** One call, after which the headers can be built again if they have to be. */
    method Pass(rid: nat, res: int, again: bool) returns (outcome: Outcome)
      requires Valid() && Answer(Wire(), res) && (udp && msgCurr == 0 ==> Waiting(rid) && Whole(Wire(), res))
      modifies this`iovs, this`msgs, this`msgCurr, this`sent, iov
      ensures Valid() && (Wire(), outcome) == Replies.Transmit(old(Wire()), res, again) && |msgs| == |old(msgs)|
      ensures udp && msgCurr == 0 ==> Waiting(rid)
    {
      ghost var w, hs := Wire(), msgs;
      outcome := Transmit(res, again);
      if udp && msgCurr == 0 {
        WholeKeepsHeaders(w, res, again, rid);
        StillTouching(hs, msgs, iovUsed);
      }
    }

    /** A whole reply: gathered, given headers on a datagram socket, and sent.  When it
        is reported complete, a stream socket has been given exactly the pieces in order
        and a datagram socket numbered packets that make them up.  Building headers again
        runs past the array only for a reply of one datagram that fills it. */
    method Reply(pieces: seq<Bytes>, rid: nat, answers: seq<(int, bool)>) returns (outcome: Outcome, crash: bool)
      requires Gathering() && msgs == [] && msgCurr == 0 && sent == []
      requires Answered(Replies.Wire(Outgoing(udp, pieces, rid), 0, []), answers)
      requires udp ==> AllOrNothing(Replies.Wire(Outgoing(udp, pieces, rid), 0, []), answers)
      modifies this, iov
      ensures outcome == Complete ==> Valid() && !crash
      ensures outcome == Complete && !udp ==> Flat(sent) == Flat(pieces)
      ensures outcome == Complete && udp ==> Packets(pieces, rid, sent)
      ensures crash ==> udp && |Outgoing(udp, pieces, rid)| == 1 && iovUsed == iov.Length
      ensures outcome == Complete && udp && |Outgoing(udp, pieces, rid)| == 1 ==> iovUsed < iov.Length
    {
      Prepare(pieces, rid);
      var n;
      ghost var last;
      outcome, crash, n, last := TransmitAll(rid, answers);
      if outcome == Complete {
        ReplyArrives(udp, pieces, rid, answers, n - 1, last);
      }
    }
  }

  /** Where a header goes: the place it has already, or for a finished first message the
      start of the second one, or the end. */
  lemma HeaderPlace(hs: seq<Msghdr>, iovs: seq<Bytes>, used: nat, rid: nat, i: nat)
    requires Laid(hs, iovs, used) && Touching(hs, used) && HeadersIn(Slices(hs, iovs), rid) && i < |hs|
    requires forall j :: 1 <= j < |hs| ==> hs[j].len > 0
    ensures hs[i].len > 0 ==> hs[i].first < used && iovs[hs[i].first] == Header(rid, i, |hs|)
    ensures i == 0 && hs[0].len == 0 ==> hs[0].first == if |hs| == 1 then used else hs[1].first
    ensures i == 0 && hs[0].len == 0 && |hs| > 1 ==> hs[1].first < used
  {
    if hs[i].len > 0 {
      assert Slices(hs, iovs)[i] == Slice(hs[i], iovs) && Slice(hs[i], iovs)[0] == iovs[hs[i].first];
    }
  }

  /** A buffer behind the last message belongs to none. */
  lemma BehindTheLast(hs: seq<Msghdr>, iovs: seq<Bytes>, used: nat, p: nat, e: Bytes)
    requires Laid(hs, iovs, used) && used <= p < |iovs|
    ensures Laid(hs, iovs[p := e], used) && Slices(hs, iovs[p := e]) == Slices(hs, iovs)
  {
    forall i | 0 <= i < |hs| ensures Slices(hs, iovs[p := e])[i] == Slices(hs, iovs)[i] {
      assert Slice(hs[i], iovs[p := e]) == Slice(hs[i], iovs);
    }
  }

  /** The header and the byte count after the wholly written buffers are dropped. */
  method DropWritten(iov: array<Bytes>, h: Msghdr, res: nat) returns (m: Msghdr, n: nat)
    requires h.iov == iov && h.first + h.len <= iov.Length && res <= |Flat(Slice(h, iov[..]))|
    ensures m.iov == iov && h.first <= m.first && m.first + m.len == h.first + h.len
    ensures n > 0 ==> m.len > 0 && n < |iov[m.first]|
    ensures Advance(Slice(h, iov[..]), res)
         == if n > 0 then Slice(m, iov[..])[0 := iov[m.first][n..]] else Slice(m, iov[..])
  {
    m, n := h, res;
    ghost var iovs := iov[..];
    while m.len > 0 && n >= |iov[m.first]|
      invariant h.first <= m.first && m.first + m.len == h.first + h.len && m.iov == iov
      invariant n <= |Flat(Slice(m, iovs))|
      invariant Advance(Slice(m, iovs), n) == Advance(Slice(h, iovs), res)
      decreases m.len
    {
      var next := m.(first := m.first + 1, len := m.len - 1);
      assert Slice(m, iovs)[1..] == Slice(next, iovs);
      n, m := n - |iov[m.first]|, next;
    }
    ghost var left := Slice(m, iovs);
    assert n > 0 ==> [left[0][n..]] + left[1..] == left[0 := left[0][n..]];
  }

  lemma HeadedLens(hs: seq<Msghdr>, iovs: seq<Bytes>, q: Queue)
    requires Within(hs, |iovs|) && q.msgs == Slices(hs, iovs) && Headed(q)
    ensures forall i :: 0 <= i < |hs| ==> hs[i].len > 0
  {
    forall i | 0 <= i < |hs| ensures hs[i].len > 0 {
      assert q.msgs[i] == Slice(hs[i], iovs);
    }
  }

  /** One header narrowed to the end of its stretch, and its first buffer replaced. */
  lemma Narrowed(hs: seq<Msghdr>, iovs: seq<Bytes>, used: nat, i: nat, h: Msghdr, e: Bytes)
    requires Laid(hs, iovs, used) && Apart(hs) && i < |hs| && h.len > 0
    requires hs[i].first <= h.first && h.first + h.len == hs[i].first + hs[i].len
    ensures var hs', iovs' := hs[i := h], iovs[h.first := e];
            && Laid(hs', iovs', used) && Apart(hs')
            && Slices(hs', iovs') == Slices(hs, iovs)[i := Slice(h, iovs)[0 := e]]
  {
    var hs', iovs' := hs[i := h], iovs[h.first := e];
    assert Slice(h, iovs') == Slice(h, iovs)[0 := e];
    forall j | 0 <= j < |hs| && j != i ensures Slice(hs'[j], iovs') == Slice(hs[j], iovs) {
    }
  }

  lemma NarrowedOnly(hs: seq<Msghdr>, iovs: seq<Bytes>, used: nat, i: nat, h: Msghdr)
    requires Laid(hs, iovs, used) && Apart(hs) && i < |hs|
    requires hs[i].first <= h.first && h.first + h.len == hs[i].first + hs[i].len
    ensures Laid(hs[i := h], iovs, used) && Apart(hs[i := h])
    ensures Slices(hs[i := h], iovs) == Slices(hs, iovs)[i := Slice(h, iovs)]
  {
    forall j | 0 <= j < |hs| && j != i ensures Slice(hs[i := h][j], iovs) == Slice(hs[j], iovs) {
    }
  }

  lemma PushFirst(q: Queue, e: Bytes)
    ensures Push(q.(msgs := q.msgs + [[]]), e) == q.(msgs := q.msgs + [[e]])
  {
    assert [] + [e] == [e];
    assert (q.msgs + [[]])[|q.msgs| := [e]] == q.msgs + [[e]];
  }

  lemma StoredPacked(hs: seq<Msghdr>, iovs: seq<Bytes>, used: nat, bytes: nat, e: Bytes)
    requires Packed(hs, iovs, used, bytes) && hs != [] && used < |iovs|
    ensures Packed(Longer(hs), iovs[used := e], used + 1, bytes + |e|)
    ensures Slices(Longer(hs), iovs[used := e]) == Slices(hs, iovs)[|hs|-1 := Slices(hs, iovs)[|hs|-1] + [e]]
    ensures forall a :: PointInto(hs, a) ==> PointInto(Longer(hs), a)
  {
    var n, m := |hs| - 1, hs[|hs|-1];
    var hs', iovs' := hs[n := m.(len := m.len + 1)], iovs[used := e];
    FlatSnoc(Slice(m, iovs), e);
    assert Slice(hs'[n], iovs') == Slice(m, iovs) + [e];
    forall i | 0 <= i < n ensures Slice(hs'[i], iovs') == Slice(hs[i], iovs) {
    }
  }

  lemma OpenedPacked(hs: seq<Msghdr>, iovs: seq<Bytes>, used: nat, bytes: nat, h: Msghdr)
    requires Packed(hs, iovs, used, bytes) && h.first == used && h.len == 0
    ensures Packed(hs + [h], iovs, used, 0) && Slices(hs + [h], iovs) == Slices(hs, iovs) + [[]]
  {
    assert Slice(h, iovs) == [];
    forall i | 0 <= i < |hs| ensures Slice((hs + [h])[i], iovs) == Slice(hs[i], iovs) {
    }
  }

  /** The copy mc_realloc makes. */
  method Doubled(iov: array<Bytes>) returns (grown: array<Bytes>)
    ensures fresh(grown) && grown.Length == 2 * iov.Length && iov[..] <= grown[..]
  {
    grown := new Bytes[iov.Length * 2](_ => []);
    forall i | 0 <= i < iov.Length {
      grown[i] := iov[i];
    }
  }

  /** The same headers over another array. */
  ghost function Moved(hs: seq<Msghdr>, to: array<Bytes>): (r: seq<Msghdr>)
    ensures |r| == |hs| && forall i :: 0 <= i < |hs| ==> r[i] == hs[i].(iov := to)
  {
    seq(|hs|, i requires 0 <= i < |hs| => hs[i].(iov := to))
  }

  /** Headers move to a new array by adding up their lengths; end to end, each
      lands where it was. */
  method Repoint(msgs: seq<Msghdr>, ghost used: nat, to: array<Bytes>) returns (moved: seq<Msghdr>)
    requires Adjacent(msgs, used)
    ensures moved == Moved(msgs, to)
  {
    moved := msgs;
    var i, iovnum := 0, 0;
    while i < |msgs|
      invariant 0 <= i <= |msgs| == |moved| && (i < |msgs| ==> iovnum == msgs[i].first)
      invariant forall j :: 0 <= j < i ==> moved[j] == msgs[j].(iov := to)
      invariant forall j :: i <= j < |msgs| ==> moved[j] == msgs[j]
    {
      assert i + 1 < |msgs| ==> msgs[i+1].first == msgs[i].first + msgs[i].len;
      moved := moved[i := Msghdr(to, iovnum, moved[i].len)];
      iovnum := iovnum + moved[i].len;
      i := i + 1;
    }
  }

  lemma MovedPacked(hs: seq<Msghdr>, to: array<Bytes>, iovs: seq<Bytes>, iovs': seq<Bytes>, used: nat, bytes: nat)
    requires Packed(hs, iovs, used, bytes) && iovs <= iovs'
    ensures Packed(Moved(hs, to), iovs', used, bytes) && Slices(Moved(hs, to), iovs') == Slices(hs, iovs)
  {
    forall i | 0 <= i < |hs| ensures Slice(Moved(hs, to)[i], iovs') == Slice(hs[i], iovs) {
      MovedSlice(hs[i], iovs, iovs', to);
    }
  }

  lemma MovedSlice(h: Msghdr, iovs: seq<Bytes>, iovs': seq<Bytes>, to: array<Bytes>)
    requires h.first + h.len <= |iovs| && iovs <= iovs'
    ensures Slice(h.(iov := to), iovs') == Slice(h, iovs)
  {
  }
}
