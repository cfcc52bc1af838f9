/** What a lost frame or reply costs: when a call leaves the client connected, how often a
    write is tried, and which failures it survives. Everything is said about the bytes an
    exchange takes and brings, for every script of the line. */
module Retries {
  import opened Wrappers
  import opened Words
  import opened Crc16
  import opened RtuFrame
  import opened Link
  import opened RtuClient
  import opened VerifiedWrite

  // ---- Sending ----

  function Sum(taken: seq<int>): int {
    if taken == [] then 0 else taken[0] + Sum(taken[1..])
  }

  predicate AllPositive(taken: seq<int>) { forall i :: 0 <= i < |taken| ==> taken[i] > 0 }

  /** The first `k` write calls all take something, and together they take the frame. */
  predicate TakesAll(writes: seq<int>, len: nat, k: nat) {
    k <= |writes| && AllPositive(writes[..k]) && Sum(writes[..k]) >= len
  }

  lemma TakesAllStep(writes: seq<int>, len: nat, k: nat)
    requires 0 < k <= |writes| && writes[0] > 0
    ensures TakesAll(writes, len, k) <==> k - 1 <= |writes[1..]| && AllPositive(writes[1..][..k - 1]) && Sum(writes[1..][..k - 1]) >= len - writes[0]
  {
    var front := writes[..k];
    assert front[1..] == writes[1..][..k - 1];
    assert forall i :: 0 < i < k ==> front[i] == front[1..][i - 1];
  }

  lemma {:induction false} SerialSends(writes: seq<int>, len: nat)
    requires len > 0
    ensures Send(Serial, writes, len).0 <==> exists k: nat :: TakesAll(writes, len, k)
    decreases |writes|
  {
    if writes == [] {
      forall k: nat ensures !TakesAll(writes, len, k) {}
    } else if writes[0] <= 0 {
      forall k: nat ensures !TakesAll(writes, len, k) {
        if 0 < k <= |writes| { assert writes[..k][0] == writes[0]; }
      }
    } else if writes[0] >= len {
      assert writes[..1] == [writes[0]];
      assert Sum(writes[..1]) == writes[0] + Sum([]);
      assert TakesAll(writes, len, 1);
    } else {
      var rest, more := writes[1..], len - writes[0];
      SerialSends(rest, more);
      forall k: nat | 0 < k <= |writes| ensures TakesAll(writes, len, k) <==> TakesAll(rest, more, k - 1) {
        TakesAllStep(writes, len, k);
      }
      if k: nat :| TakesAll(rest, more, k) {
        assert TakesAll(writes, len, k + 1);
      }
    }
  }

  /** A frame goes out of the TCP client iff the first write call takes all of it, and out of the
      serial client iff some write calls in a row each take something and together all of it. */
  lemma SendsExactly(writes: seq<int>, len: nat)
    requires len > 0
    ensures Send(Tcp, writes, len).0 <==> writes != [] && writes[0] >= len
    ensures Send(Serial, writes, len).0 <==> exists k: nat :: TakesAll(writes, len, k)
  {
    SerialSends(writes, len);
  }

  predicate GoesOut(kind: Kind, e: Exchange) { Send(kind, e.writes, 8).0 }

  // ---- Reading ----

  /** A read sends its request, whatever the count, if it is connected and asks for something. */
  lemma ReadSends(kind: Kind, slave: byte, c: Conn, address: word, count: word)
    ensures ReadRegs(kind, slave, c, address, count).0.net.log ==
            if c.connected && count > 0 then c.net.log + [Sent(Encode(Read(slave, address, count)), Next(c.net))] else c.net.log
  {}

  /** What an exchange must bring for a read to leave the client connected. */
  predicate ReadKeepsLink(kind: Kind, slave: byte, count: word, e: Exchange) {
    GoesOut(kind, e) &&
    var s := Stream(e.arrivals);
    3 <= |s| && (s[0] != slave || s[1] >= EXCEPTION_FLAG || s[2] != 2 * count || 5 + 2 * count <= |s|)
  }

  lemma LinkAfterResponse(slave: byte, count: word, net: Net)
    ensures var s := Stream(net.arrivals);
            ReadResponse(slave, count, net).0.connected <==>
              3 <= |s| && (s[0] != slave || s[1] >= EXCEPTION_FLAG || s[2] != 2 * count || 5 + 2 * count <= |s|)
  {
    hide Accepts, Registers, Take, Stream;
    var s := Stream(net.arrivals);
    TakeIsStream(net.arrivals, 3);
    if 3 <= |s| {
      TakeIsStream(Take(net.arrivals, 3).rest, 2 * count + 2);
    }
  }

  /** A read clears `connected` exactly when its request does not go out, no whole header comes, or
      a header that announces the registers asked for is not followed by all of them and a checksum. */
  lemma LinkAfterRead(kind: Kind, slave: byte, c: Conn, address: word, count: word)
    ensures !c.connected || count == 0 ==> ReadRegs(kind, slave, c, address, count) == (c, None)
    ensures c.connected && count > 0 ==>
              (ReadRegs(kind, slave, c, address, count).0.connected <==> ReadKeepsLink(kind, slave, count, Next(c.net)))
  {
    hide Encode, ReadResponse, Stream;
    LinkAfterResponse(slave, count, Transmit(kind, c.net, Encode(Read(slave, address, count))).0);
  }

  // ---- One attempt at a write ----

  /** An acknowledgement is the echo of some write to this slave; address and value are not compared. */
  lemma AcknowledgesExactly(slave: byte, response: seq<byte>)
    requires |response| == 8
    ensures Acknowledges(slave, response) <==>
            exists address, value :: response == WriteFrame(slave, address, value)
  {
    hide Checksum, Accepts;
    SealedIsAccepted(response);
    if Acknowledges(slave, response) {
      var address, value := FromBytes(response[2], response[3]), FromBytes(response[4], response[5]);
      BytesBack(response[2], response[3]);
      BytesBack(response[4], response[5]);
      assert response[..6] == [slave, WRITE_SINGLE, Hi(address), Lo(address), Hi(value), Lo(value)];
      assert response == WriteFrame(slave, address, value);
    } else if address, value :| response == WriteFrame(slave, address, value) {
      SealedAccepts(response[..6]);
      assert response[..6] == [slave, WRITE_SINGLE, Hi(address), Lo(address), Hi(value), Lo(value)];
    }
  }

  /** The attempt fails before its read-back: the request does not go out, no eight bytes come
      back, or they do not acknowledge it. */
  predicate FailsEarly(kind: Kind, slave: byte, e: Exchange) {
    !GoesOut(kind, e) || |Stream(e.arrivals)| < 8 || !Acknowledges(slave, Stream(e.arrivals)[..8])
  }

  /** Only the serial client gives the link up for a request unsent or unanswered. */
  predicate WriteKeepsLink(kind: Kind, e: Exchange) {
    kind.Tcp? || (GoesOut(Serial, e) && 8 <= |Stream(e.arrivals)|)
  }

  ghost predicate Confirms(kind: Kind, slave: byte, value: word, e: Exchange) {
    GoesOut(kind, e) && RepliedWith(slave, [value], e.arrivals)
  }

  /** The exchanges of the attempt that begins here. */
  function First(slave: byte, c: Conn, address: word, value: word): Sent {
    Sent(WriteFrame(slave, address, value), Next(c.net))
  }

  function Second(slave: byte, c: Conn, address: word, value: word): Sent {
    Sent(VerifyFrame(slave, address), Next(Opened(c.net, WriteFrame(slave, address, value))))
  }

  lemma EarlyAttempt(kind: Kind, slave: byte, c: Conn, address: word, value: word)
    requires FailsEarly(kind, slave, Next(c.net))
    ensures var (c1, ok) := Attempt(kind, slave, c, address, value);
            && !ok && c1.net.log == c.net.log + [First(slave, c, address, value)]
            && c1.net.future == Opened(c.net, WriteFrame(slave, address, value)).future
            && (c1.connected <==> c.connected && WriteKeepsLink(kind, Next(c.net)))
  {
    hide Acknowledges, Encode, Send, ReadRegs;
    TakeIsStream(Next(c.net).arrivals, 8);
  }

  lemma LateAttempt(kind: Kind, slave: byte, c: Conn, address: word, value: word)
    requires !FailsEarly(kind, slave, Next(c.net)) && c.connected
    ensures var (c1, ok) := Attempt(kind, slave, c, address, value);
            var w, r := First(slave, c, address, value), Second(slave, c, address, value);
            && c1.net.log == c.net.log + [w, r]
            && c1.net.future == Opened(Opened(c.net, w.frame), r.frame).future
            && (ok <==> Confirms(kind, slave, value, r.exchange))
            && (c1.connected <==> ReadKeepsLink(kind, slave, 1, r.exchange))
  {
    hide Acknowledges, Encode, Send, Stream, RepliedWith, ReadResponse, ReadKeepsLink;
    var w, r := First(slave, c, address, value), Second(slave, c, address, value);
    var net := Transmit(kind, c.net, w.frame).0;
    TakeIsStream(net.arrivals, 8);
    var c1 := c.(net := net.(arrivals := Take(net.arrivals, 8).rest));
    assert Next(c1.net) == r.exchange;
    LinkAfterRead(kind, slave, c1, address, 1);
    ReadLog(kind, slave, c1, address);
    var net2 := Transmit(kind, c1.net, r.frame).0;
    ReadExactly(slave, [value], net2);
    ReadFuture(kind, slave, c1, address);
    assert c.net.log + [w, r] == c.net.log + [w] + [r];
  }

  lemma ReadFuture(kind: Kind, slave: byte, c: Conn, address: word)
    requires c.connected
    ensures ReadRegs(kind, slave, c, address, 1).0.net.future == Opened(c.net, VerifyFrame(slave, address)).future
  {}

  lemma UnlinkedAttempt(kind: Kind, slave: byte, c: Conn, address: word, value: word)
    requires !FailsEarly(kind, slave, Next(c.net)) && !c.connected
    ensures var (c1, ok) := Attempt(kind, slave, c, address, value);
            !ok && !c1.connected && c1.net.log == c.net.log + [First(slave, c, address, value)]
  {
    hide Acknowledges, Encode, Send;
    TakeIsStream(Next(c.net).arrivals, 8);
  }

  // ---- Whole calls ----

  /** Whether this exchange of a write call leaves the client connected. */
  predicate KeepsLink(kind: Kind, slave: byte, address: word, value: word, s: Sent) {
    if s.frame == WriteFrame(slave, address, value) then WriteKeepsLink(kind, s.exchange)
    else ReadKeepsLink(kind, slave, 1, s.exchange)
  }

  predicate AllKeepLink(kind: Kind, slave: byte, address: word, value: word, sent: seq<Sent>) {
    forall i :: 0 <= i < |sent| ==> KeepsLink(kind, slave, address, value, sent[i])
  }

  /** How many of these frames are write requests. */
  function WriteFrames(slave: byte, address: word, value: word, sent: seq<Sent>): nat {
    if sent == [] then 0
    else (if sent[0].frame == WriteFrame(slave, address, value) then 1 else 0) + WriteFrames(slave, address, value, sent[1..])
  }

  /** The last two frames are a write and its read-back, both went out, and both were answered as hoped. */
  ghost predicate EndsConfirmed(kind: Kind, slave: byte, address: word, value: word, sent: seq<Sent>) {
    |sent| >= 2 &&
    var w, r := sent[|sent| - 2], sent[|sent| - 1];
    && w.frame == WriteFrame(slave, address, value) && !FailsEarly(kind, slave, w.exchange)
    && r.frame == VerifyFrame(slave, address) && Confirms(kind, slave, value, r.exchange)
  }

  lemma RequestsDiffer(slave: byte, address: word, value: word)
    ensures WriteFrame(slave, address, value) != VerifyFrame(slave, address)
  {
    hide Checksum;
    assert WriteFrame(slave, address, value)[1] == WRITE_SINGLE && VerifyFrame(slave, address)[1] == READ_HOLDING;
  }

  /** What one attempt sends, and what follows from it. */
  lemma AttemptSent(kind: Kind, slave: byte, c: Conn, address: word, value: word)
    ensures var (c1, ok) := Attempt(kind, slave, c, address, value);
            && c.net.log <= c1.net.log
            && var sent := SentSince(c.net, c1.net);
            && 1 <= |sent| <= 2 && sent[0] == First(slave, c, address, value)
            && (|sent| == 2 ==> sent[1].frame == VerifyFrame(slave, address))
            && (c1.connected <==> c.connected && AllKeepLink(kind, slave, address, value, sent))
            && (ok <==> EndsConfirmed(kind, slave, address, value, sent))
            && (!c.connected ==> |sent| == 1)
            && WriteFrames(slave, address, value, sent) == 1
  {
    hide FailsEarly, Confirms, ReadKeepsLink, WriteKeepsLink, Encode, Attempt;
    var w, r := First(slave, c, address, value), Second(slave, c, address, value);
    RequestsDiffer(slave, address, value);
    OneWriteFrame(slave, address, value, w, r);
    if FailsEarly(kind, slave, w.exchange) {
      EarlyAttempt(kind, slave, c, address, value);
    } else if c.connected {
      LateAttempt(kind, slave, c, address, value);
      ConnectedWrite(kind, slave, w.exchange);
    } else {
      UnlinkedAttempt(kind, slave, c, address, value);
    }
  }

  lemma OneWriteFrame(slave: byte, address: word, value: word, w: Sent, r: Sent)
    requires w.frame == WriteFrame(slave, address, value) && r.frame != w.frame
    ensures WriteFrames(slave, address, value, [w]) == WriteFrames(slave, address, value, [w, r]) == 1
  {
    hide Encode;
    assert [w][1..] == [] && [w, r][1..] == [r] && [r][1..] == [];
    assert WriteFrames(slave, address, value, [r]) == 0 + WriteFrames(slave, address, value, []);
    assert WriteFrames(slave, address, value, [w]) == 1 + WriteFrames(slave, address, value, []);
  }

  lemma ConnectedWrite(kind: Kind, slave: byte, e: Exchange)
    requires !FailsEarly(kind, slave, e)
    ensures WriteKeepsLink(kind, e)
  {
    hide Acknowledges;
  }

  lemma {:induction false} WriteFramesConcat(slave: byte, address: word, value: word, a: seq<Sent>, b: seq<Sent>)
    ensures WriteFrames(slave, address, value, a + b) == WriteFrames(slave, address, value, a) + WriteFrames(slave, address, value, b)
    decreases |a|
  {
    hide Encode;
    if a == [] {
      assert a + b == b;
    } else {
      assert (a + b)[1..] == a[1..] + b;
      WriteFramesConcat(slave, address, value, a[1..], b);
    }
  }

  /** One attempt that was not confirmed, then the others. */
  lemma SentConcat(kind: Kind, slave: byte, address: word, value: word, a: seq<Sent>, b: seq<Sent>)
    requires b != [] && b[0].frame == WriteFrame(slave, address, value)
    ensures AllKeepLink(kind, slave, address, value, a + b) <==>
              AllKeepLink(kind, slave, address, value, a) && AllKeepLink(kind, slave, address, value, b)
    ensures EndsConfirmed(kind, slave, address, value, a + b) <==> EndsConfirmed(kind, slave, address, value, b)
  {
    hide FailsEarly, Confirms, ReadKeepsLink, WriteKeepsLink, Encode;
    var s := a + b;
    RequestsDiffer(slave, address, value);
    if AllKeepLink(kind, slave, address, value, s) {
      forall i | 0 <= i < |a| ensures KeepsLink(kind, slave, address, value, a[i]) { assert s[i] == a[i]; }
      forall i | 0 <= i < |b| ensures KeepsLink(kind, slave, address, value, b[i]) { assert s[|a| + i] == b[i]; }
    }
    if |b| == 1 {
      assert s[|s| - 1] == b[0];
    }
  }

  lemma {:induction false} AttemptsSent(kind: Kind, slave: byte, c: Conn, address: word, value: word, tries: nat)
    ensures var (c', ok) := Attempts(kind, slave, c, address, value, tries);
            && c.net.log <= c'.net.log
            && var sent := SentSince(c.net, c'.net);
            && (tries > 0 ==> sent != [] && sent[0].frame == WriteFrame(slave, address, value))
            && (c'.connected <==> c.connected && AllKeepLink(kind, slave, address, value, sent))
            && (ok <==> EndsConfirmed(kind, slave, address, value, sent))
            && WriteFrames(slave, address, value, sent) <= tries
            && (!ok ==> WriteFrames(slave, address, value, sent) == tries)
    decreases tries
  {
    hide AllKeepLink, EndsConfirmed, Encode, Attempt, WriteFrames;
    if tries == 0 {
      NothingSent(kind, slave, address, value);
      assert SentSince(c.net, c.net) == [];
    } else {
      AttemptSent(kind, slave, c, address, value);
      var (c1, ok) := Attempt(kind, slave, c, address, value);
      if !ok {
        AttemptsSent(kind, slave, c1, address, value, tries - 1);
        var c' := Attempts(kind, slave, c1, address, value, tries - 1).0;
        var a, b := SentSince(c.net, c1.net), SentSince(c1.net, c'.net);
        SentInTurn(c.net, c1.net, c'.net);
        WriteFramesConcat(slave, address, value, a, b);
        if tries > 1 {
          SentConcat(kind, slave, address, value, a, b);
        } else {
          assert a + b == a;
        }
      }
    }
  }

  lemma NothingSent(kind: Kind, slave: byte, address: word, value: word)
    ensures AllKeepLink(kind, slave, address, value, []) && !EndsConfirmed(kind, slave, address, value, [])
    ensures WriteFrames(slave, address, value, []) == 0
  {}

  /** The whole account of a write call that begins connected, for both clients: it succeeds exactly
      when its last two frames went out and were acknowledged and confirmed; it fails only after
      three write requests; and it ends connected exactly when no exchange lost the link, which in
      the TCP client only a read-back can do. A call that begins disconnected does nothing. */
  lemma WriteExactly(kind: Kind, slave: byte, c: Conn, address: word, value: word)
    ensures !c.connected ==> WriteReg(kind, slave, c, address, value) == (c, false)
    ensures c.connected ==>
              var (c', ok) := WriteReg(kind, slave, c, address, value);
              && c.net.log <= c'.net.log
              && var sent := SentSince(c.net, c'.net);
              && (ok <==> EndsConfirmed(kind, slave, address, value, sent))
              && (c'.connected <==> AllKeepLink(kind, slave, address, value, sent))
              && 1 <= WriteFrames(slave, address, value, sent) <= 3
              && (!ok ==> WriteFrames(slave, address, value, sent) == 3)
  {
    hide Attempts, EndsConfirmed, AllKeepLink, Encode;
    if c.connected {
      AttemptsSent(kind, slave, c, address, value, WRITE_MAX_RETRIES);
    }
  }

  // ---- What a call survives ----

  /** The exchanges of one attempt: a write request alone, or with its read-back. */
  datatype Try = Early(w: Exchange) | ReadBack(w: Exchange, r: Exchange)

  function Exchanges(tries: seq<Try>): seq<Exchange> {
    if tries == [] then []
    else (match tries[0] case Early(w) => [w] case ReadBack(w, r) => [w, r]) + Exchanges(tries[1..])
  }

  /** An attempt that fails and leaves the client connected. */
  ghost predicate FailsKindly(kind: Kind, slave: byte, value: word, t: Try) {
    match t
    case Early(w) => FailsEarly(kind, slave, w) && WriteKeepsLink(kind, w)
    case ReadBack(w, r) =>
      !FailsEarly(kind, slave, w) && !Confirms(kind, slave, value, r) && ReadKeepsLink(kind, slave, 1, r)
  }

  ghost predicate AllFailKindly(kind: Kind, slave: byte, value: word, tries: seq<Try>) {
    forall i :: 0 <= i < |tries| ==> FailsKindly(kind, slave, value, tries[i])
  }

  lemma KindAttempt(kind: Kind, slave: byte, c: Conn, address: word, value: word, t: Try, rest: seq<Exchange>)
    requires c.connected && FailsKindly(kind, slave, value, t) && c.net.future == Exchanges([t]) + rest
    ensures var (c1, ok) := Attempt(kind, slave, c, address, value);
            !ok && c1.connected && c1.net.future == rest
  {
    hide FailsEarly, Confirms, ReadKeepsLink, WriteKeepsLink, Encode, Attempt;
    assert Exchanges([t][1..]) == [];
    match t {
      case Early(w) =>
        assert c.net.future == [w] + rest;
        EarlyAttempt(kind, slave, c, address, value);
      case ReadBack(w, r) =>
        assert c.net.future == [w, r] + rest;
        assert c.net.future[1..] == [r] + rest && ([r] + rest)[1..] == rest;
        LateAttempt(kind, slave, c, address, value);
    }
  }

  lemma ConfirmedKeepsLink(kind: Kind, slave: byte, value: word, e: Exchange)
    requires Confirms(kind, slave, value, e)
    ensures ReadKeepsLink(kind, slave, 1, e)
  {
    var func: byte :| func < EXCEPTION_FLAG && OnWire(ReadReply(slave, func, [value]), e.arrivals);
    assert |ReadReply(slave, func, [value])| == 7;
  }

  lemma {:induction false} AttemptsSurvive(kind: Kind, slave: byte, c: Conn, address: word, value: word,
                                           tries: seq<Try>, w: Exchange, r: Exchange, rest: seq<Exchange>, left: nat)
    requires c.connected && |tries| < left && AllFailKindly(kind, slave, value, tries)
    requires c.net.future == Exchanges(tries) + ([w, r] + rest)
    requires !FailsEarly(kind, slave, w) && Confirms(kind, slave, value, r)
    ensures var (c', ok) := Attempts(kind, slave, c, address, value, left);
            ok && c'.connected && c'.net.future == rest
    decreases |tries|
  {
    hide FailsEarly, Confirms, ReadKeepsLink, WriteKeepsLink, Encode, Attempt;
    if tries == [] {
      assert c.net.future == [w, r] + rest;
      assert c.net.future[1..] == [r] + rest && ([r] + rest)[1..] == rest;
      LateAttempt(kind, slave, c, address, value);
      ConfirmedKeepsLink(kind, slave, value, r);
    } else {
      var t, later := tries[0], tries[1..];
      assert Exchanges([t]) == Exchanges([t][..1]) && [t][1..] == [] && Exchanges([]) == [];
      assert Exchanges(tries) == Exchanges([t]) + Exchanges(later);
      assert c.net.future == Exchanges([t]) + (Exchanges(later) + ([w, r] + rest));
      KindAttempt(kind, slave, c, address, value, t, Exchanges(later) + ([w, r] + rest));
      AttemptsSurvive(kind, slave, Attempt(kind, slave, c, address, value).0, address, value, later, w, r, rest, left - 1);
    }
  }

  /** Up to two attempts that fail and keep the link, however they fail, do not keep a third from
      succeeding; the client ends connected and the exchanges after that are left to the next call. */
  lemma RetrySucceeds(kind: Kind, slave: byte, c: Conn, address: word, value: word,
                      tries: seq<Try>, w: Exchange, r: Exchange, rest: seq<Exchange>)
    requires c.connected && |tries| <= 2 && AllFailKindly(kind, slave, value, tries)
    requires c.net.future == Exchanges(tries) + ([w, r] + rest)
    requires !FailsEarly(kind, slave, w) && Confirms(kind, slave, value, r)
    ensures var (c', ok) := WriteReg(kind, slave, c, address, value);
            ok && c'.connected && c'.net.future == rest
  {
    AttemptsSurvive(kind, slave, c, address, value, tries, w, r, rest, WRITE_MAX_RETRIES);
  }

  /** In the TCP client that covers every failure before a read-back: requests unsent, unanswered
      or rejected. */
  lemma TcpForgives(slave: byte, value: word, early: seq<Exchange>, tries: seq<Try>)
    requires |tries| == |early| && forall i :: 0 <= i < |early| ==> tries[i] == Early(early[i]) && FailsEarly(Tcp, slave, early[i])
    ensures AllFailKindly(Tcp, slave, value, tries)
  {}

  /** The shortest such case: the reply to the first request is lost. */
  lemma LostReplyIsForgiven(slave: byte, c: Conn, address: word, value: word, w: Exchange, r: Exchange)
    requires c.connected && c.net.future == [Exchange([8], [Silence]), w, r]
    requires !FailsEarly(Tcp, slave, w) && Confirms(Tcp, slave, value, r)
    ensures WriteReg(Tcp, slave, c, address, value).1 && WriteReg(Tcp, slave, c, address, value).0.connected
    ensures !WriteReg(Serial, slave, c, address, value).1
  {
    hide Acknowledges, Encode, Confirms, Attempts;
    var lost := Exchange([8], [Silence]);
    var tries := [Early(lost)];
    assert FailsEarly(Tcp, slave, lost) && FailsEarly(Serial, slave, lost) && !WriteKeepsLink(Serial, lost);
    TcpForgives(slave, value, [lost], tries);
    assert tries[1..] == [] && Exchanges(tries) == [lost] + Exchanges([]);
    assert c.net.future == Exchanges(tries) + ([w, r] + []);
    RetrySucceeds(Tcp, slave, c, address, value, tries, w, r, []);
    EarlyAttempt(Serial, slave, c, address, value);
    LinkLossIsFinal(Serial, slave, Attempt(Serial, slave, c, address, value).0, address, value, 2);
    AttemptsUnfold(Serial, slave, c, address, value, 3);
  }

  lemma AttemptsUnfold(kind: Kind, slave: byte, c: Conn, address: word, value: word, tries: nat)
    requires tries > 0 && !Attempt(kind, slave, c, address, value).1
    ensures Attempts(kind, slave, c, address, value, tries) ==
            Attempts(kind, slave, Attempt(kind, slave, c, address, value).0, address, value, tries - 1)
  {
    hide Attempt;
  }
}
