/** What the clients guarantee by themselves: exactly which replies a read accepts, what a
    write call may send, and what it has seen when it reports success. */
module VerifiedWrite {
  import opened Wrappers
  import opened Words
  import opened Crc16
  import opened RtuFrame
  import opened Link
  import opened RtuClient

  // ---- Reads ----

  /** The next bytes on the line are this frame. */
  predicate OnWire(frame: seq<byte>, arrivals: seq<Arrival>) {
    frame <= Stream(arrivals)
  }

  ghost predicate RepliedWith(slave: byte, values: seq<word>, arrivals: seq<Arrival>)
    requires |values| <= 125
  {
    exists func: byte :: func < EXCEPTION_FLAG && OnWire(ReadReply(slave, func, values), arrivals)
  }

  lemma ResponseParts(slave: byte, count: word, net: Net)
    requires 0 < count <= 125
    ensures var s := Stream(net.arrivals);
            var (c, read) := ReadResponse(slave, count, net);
            if 5 + 2 * count <= |s| && s[0] == slave && s[1] < EXCEPTION_FLAG && s[2] == 2 * count &&
               Accepts(s[..5 + 2 * count])
            then read == Some(Registers(s[3..5 + 2 * count], count)) && c.connected &&
                 Stream(c.net.arrivals) == s[5 + 2 * count..]
            else read == None
  {
    hide Checksum;
    var s := Stream(net.arrivals);
    TakeIsStream(net.arrivals, 3);
    if 3 <= |s| {
      var rest := Take(net.arrivals, 3).rest;
      TakeIsStream(rest, 2 * count + 2);
      if 5 + 2 * count <= |s| {
        assert s[..3] + s[3..][..2 * count + 2] == s[..5 + 2 * count];
        assert s[3..][..2 * count + 2] == s[3..5 + 2 * count];
      }
    }
  }

  lemma ConformingReplyIsRead(slave: byte, func: byte, values: seq<word>, s: seq<byte>)
    requires 0 < |values| <= 125 && func < EXCEPTION_FLAG
    requires ReadReply(slave, func, values) <= s
    ensures var n := 5 + 2 * |values|;
            n <= |s| && s[0] == slave && s[1] == func && s[2] == 2 * |values| && Accepts(s[..n]) &&
            Registers(s[3..n], |values|) == values
  {
    var n := 5 + 2 * |values|;
    var reply := ReadReply(slave, func, values);
    var body := [slave, func, 2 * |values|] + Payload(values);
    assert reply == s[..n] && reply[..3] == body[..3];
    SealedAccepts(body);
    assert s[3..n][..2 * |values|] == body[3..] == Payload(values);
    PayloadRegisters(s[3..n], values);
  }

  lemma ReadReplyIsConforming(slave: byte, count: word, s: seq<byte>)
    requires 0 < count <= 125 && 5 + 2 * count <= |s|
    requires s[0] == slave && s[1] < EXCEPTION_FLAG && s[2] == 2 * count && Accepts(s[..5 + 2 * count])
    ensures ReadReply(slave, s[1], Registers(s[3..5 + 2 * count], count)) <= s
  {
    var n := 5 + 2 * count;
    var frame, data := s[..n], s[3..3 + 2 * count];
    SealedIsAccepted(frame);
    RegistersPayload(data, count);
    assert Registers(s[3..n], count) == Registers(data, count);
    assert frame[..n - 2] == [slave, s[1], 2 * count] + data;
  }

  lemma RepliesAreRead(slave: byte, values: seq<word>, net: Net)
    requires 0 < |values| <= 125 && RepliedWith(slave, values, net.arrivals)
    ensures var (c, read) := ReadResponse(slave, |values|, net);
            read == Some(values) && c.connected &&
            5 + 2 * |values| <= |Stream(net.arrivals)| &&
            Stream(c.net.arrivals) == Stream(net.arrivals)[5 + 2 * |values|..]
  {
    hide Checksum;
    var func: byte :| func < EXCEPTION_FLAG && OnWire(ReadReply(slave, func, values), net.arrivals);
    ConformingReplyIsRead(slave, func, values, Stream(net.arrivals));
    ResponseParts(slave, |values|, net);
  }

  lemma ReadsAreReplies(slave: byte, values: seq<word>, net: Net)
    requires 0 < |values| <= 125 && ReadResponse(slave, |values|, net).1 == Some(values)
    ensures RepliedWith(slave, values, net.arrivals)
  {
    var s := Stream(net.arrivals);
    ResponseParts(slave, |values|, net);
    ReadReplyIsConforming(slave, |values|, s);
    assert OnWire(ReadReply(slave, s[1], values), net.arrivals);
  }

  /** A read returns `values` exactly when they stand on the wire in a sealed reply of the
      addressed slave, under any chunking; it then consumes that reply and no byte more.
      The function code may be anything below 0x80: the source does not compare it with 0x03. */
  lemma ReadExactly(slave: byte, values: seq<word>, net: Net)
    requires 0 < |values| <= 125
    ensures ReadResponse(slave, |values|, net).1 == Some(values) <==> RepliedWith(slave, values, net.arrivals)
    ensures RepliedWith(slave, values, net.arrivals) ==>
              5 + 2 * |values| <= |Stream(net.arrivals)| &&
              Stream(ReadResponse(slave, |values|, net).0.net.arrivals) == Stream(net.arrivals)[5 + 2 * |values|..]
  {
    if RepliedWith(slave, values, net.arrivals) {
      RepliesAreRead(slave, values, net);
    } else if ReadResponse(slave, |values|, net).1 == Some(values) {
      ReadsAreReplies(slave, values, net);
    }
  }

  /** The round trip: whatever registers a conforming reply carries, and however it is cut
      into chunks, a connected client whose request goes out returns exactly them. */
  lemma ReadRoundTrip(kind: Kind, slave: byte, c: Conn, address: word, values: seq<word>)
    requires 0 < |values| <= 125 && c.connected
    requires Transmit(kind, c.net, Encode(Read(slave, address, |values|))).1
    requires OnWire(ReadReply(slave, READ_HOLDING, values), Next(c.net).arrivals)
    ensures var (c', read) := ReadRegs(kind, slave, c, address, |values|);
            read == Some(values) && c'.connected &&
            Stream(c'.net.arrivals) == Stream(Next(c.net).arrivals)[5 + 2 * |values|..]
  {
    var net := Transmit(kind, c.net, Encode(Read(slave, address, |values|))).0;
    assert RepliedWith(slave, values, net.arrivals);
    RepliesAreRead(slave, values, net);
  }

  /** A read of more registers than one byte can count never succeeds, whatever the line does. */
  lemma TooManyRegisters(kind: Kind, slave: byte, c: Conn, address: word, count: word)
    requires count >= 128
    ensures ReadRegs(kind, slave, c, address, count).1 == None
  {}

  // ---- What one attempt sends ----

  function WriteFrame(slave: byte, address: word, value: word): seq<byte> { Encode(Write(slave, address, value)) }
  function VerifyFrame(slave: byte, address: word): seq<byte> { Encode(Read(slave, address, 1)) }

  /** What was sent between two states of the line. */
  function SentSince(before: Net, after: Net): seq<Sent>
    requires before.log <= after.log
  {
    after.log[|before.log|..]
  }

  lemma SentInTurn(a: Net, b: Net, c: Net)
    requires a.log <= b.log <= c.log
    ensures SentSince(a, c) == SentSince(a, b) + SentSince(b, c)
  {
    assert c.log == b.log + c.log[|b.log|..];
  }

  lemma ReadLog(kind: Kind, slave: byte, c: Conn, address: word)
    ensures var (c', read) := ReadRegs(kind, slave, c, address, 1);
            c'.net.log == if c.connected then c.net.log + [Sent(VerifyFrame(slave, address), Next(c.net))] else c.net.log
  {}

  /** A successful attempt has seen an acknowledgement and then the value itself. */
  ghost predicate Confirmed(slave: byte, address: word, value: word, sent: seq<Sent>) {
    |sent| >= 2 &&
    var w, r := sent[|sent| - 2], sent[|sent| - 1];
    && w.frame == WriteFrame(slave, address, value)
    && 8 <= |Stream(w.exchange.arrivals)|
    && Acknowledges(slave, Stream(w.exchange.arrivals)[..8])
    && r.frame == VerifyFrame(slave, address)
    && RepliedWith(slave, [value], r.exchange.arrivals)
  }

  predicate OnlyTheseFrames(slave: byte, address: word, value: word, sent: seq<Sent>) {
    forall i :: 0 <= i < |sent| ==>
      sent[i].frame == WriteFrame(slave, address, value) || sent[i].frame == VerifyFrame(slave, address)
  }

  /** What may be said of the frames of a write call that did, or did not, succeed. */
  ghost predicate Sound(slave: byte, address: word, value: word, sent: seq<Sent>, ok: bool) {
    OnlyTheseFrames(slave, address, value, sent) && (ok ==> Confirmed(slave, address, value, sent))
  }

  lemma AttemptLog(kind: Kind, slave: byte, c: Conn, address: word, value: word)
    ensures var (c1, ok) := Attempt(kind, slave, c, address, value);
            var w := Sent(WriteFrame(slave, address, value), Next(c.net));
            var middle := Opened(c.net, w.frame);
            && c.net.log <= c1.net.log
            && (|| (SentSince(c.net, c1.net) == [w] && !ok)
                || SentSince(c.net, c1.net) == [w, Sent(VerifyFrame(slave, address), Next(middle))])
            && (c1.connected ==> c.connected)
            && Sound(slave, address, value, SentSince(c.net, c1.net), ok)
  {
    hide Checksum, Accepts, Acknowledges, Encode, Stream, Take, Send, ReadResponse, RepliedWith;
    var (net, sent) := Transmit(kind, c.net, WriteFrame(slave, address, value));
    if sent {
      TakeIsStream(net.arrivals, 8);
      var reply := Take(net.arrivals, 8);
      var c1 := c.(net := net.(arrivals := reply.rest));
      if reply.data.Some? && Acknowledges(slave, reply.data.value) {
        ReadLog(kind, slave, c1, address);
        if c.connected {
          var (net2, sent2) := Transmit(kind, c1.net, VerifyFrame(slave, address));
          if sent2 && ReadResponse(slave, 1, net2).1 == Some([value]) {
            ReadsAreReplies(slave, [value], net2);
          }
        }
      }
    }
  }

  lemma SoundConcat(slave: byte, address: word, value: word, a: seq<Sent>, b: seq<Sent>, ok: bool)
    requires Sound(slave, address, value, a, false) && Sound(slave, address, value, b, ok)
    ensures Sound(slave, address, value, a + b, ok)
  {
    hide Checksum;
    var s := a + b;
    if ok {
      assert s[|s| - 2] == b[|b| - 2] && s[|s| - 1] == b[|b| - 1];
    }
  }

  lemma {:induction false} AttemptsLog(kind: Kind, slave: byte, c: Conn, address: word, value: word, tries: nat)
    ensures var (c', ok) := Attempts(kind, slave, c, address, value, tries);
            && c.net.log <= c'.net.log
            && |SentSince(c.net, c'.net)| <= 2 * tries
            && Sound(slave, address, value, SentSince(c.net, c'.net), ok)
            && (c'.connected ==> c.connected)
    decreases tries
  {
    hide Checksum;
    if tries > 0 {
      AttemptLog(kind, slave, c, address, value);
      var (c1, ok) := Attempt(kind, slave, c, address, value);
      if !ok {
        AttemptsLog(kind, slave, c1, address, value, tries - 1);
        var (c', ok') := Attempts(kind, slave, c1, address, value, tries - 1);
        SoundConcat(slave, address, value, SentSince(c.net, c1.net), SentSince(c1.net, c'.net), ok');
        SentInTurn(c.net, c1.net, c'.net);
      }
    }
  }

  /** Once `connected` is cleared, no later attempt can succeed, in either client. */
  lemma {:induction false} LinkLossIsFinal(kind: Kind, slave: byte, c: Conn, address: word, value: word, tries: nat)
    requires !c.connected
    ensures !Attempts(kind, slave, c, address, value, tries).1
    ensures !Attempts(kind, slave, c, address, value, tries).0.connected
    decreases tries
  {
    AttemptLog(kind, slave, c, address, value);
    if tries > 0 {
      LinkLossIsFinal(kind, slave, Attempt(kind, slave, c, address, value).0, address, value, tries - 1);
    }
  }

  /** A write sends at most six frames, all of them the write request or its read-back; it
      reports success only when the last two were acknowledged and confirmed. */
  lemma WriteIsVerified(kind: Kind, slave: byte, c: Conn, address: word, value: word)
    ensures var (c', ok) := WriteReg(kind, slave, c, address, value);
            && c.net.log <= c'.net.log
            && |SentSince(c.net, c'.net)| <= 6
            && Sound(slave, address, value, SentSince(c.net, c'.net), ok)
  {
    AttemptsLog(kind, slave, c, address, value, WRITE_MAX_RETRIES);
  }
}
