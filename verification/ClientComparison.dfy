/** How a verified write fares in the serial and in the TCP client on the same line. */
module ClientComparison {
  import opened Wrappers
  import opened Words
  import opened Crc16
  import opened RtuFrame
  import opened Link
  import opened RtuClient
  import opened VerifiedWrite

  /** The first write call takes a whole frame or fails: where this holds, the clients cannot
      disagree about whether the frame went out. */
  predicate WholeOrFailed(e: Exchange) {
    e.writes == [] || e.writes[0] <= 0 || e.writes[0] >= 8
  }

  /** The exchanges that the two frames of an attempt meet. */
  function WriteExchange(c: Conn): Exchange { Next(c.net) }
  function VerifyExchange(slave: byte, c: Conn, address: word, value: word): Exchange {
    Next(Opened(c.net, WriteFrame(slave, address, value)))
  }

  /** The serial client's request went out whole and eight bytes came back. */
  predicate Answered(slave: byte, c: Conn, address: word, value: word) {
    var (net, sent) := Transmit(Serial, c.net, WriteFrame(slave, address, value));
    sent && Take(net.arrivals, 8).data.Some?
  }

  /** The answer acknowledges the write, so that the serial client goes on to read back. */
  predicate ReadsBack(slave: byte, c: Conn, address: word, value: word)
    requires Answered(slave, c, address, value)
  {
    var net := Transmit(Serial, c.net, WriteFrame(slave, address, value)).0;
    Acknowledges(slave, Take(net.arrivals, 8).data.value)
  }

  /** Along the attempts of a call: every write request is answered, and in every attempt that
      reads back, no first write call takes only a part of either frame. */
  predicate SameSends(slave: byte, c: Conn, address: word, value: word, tries: nat)
    decreases tries
  {
    tries == 0 ||
    (&& Answered(slave, c, address, value)
     && (ReadsBack(slave, c, address, value) ==>
           WholeOrFailed(WriteExchange(c)) && WholeOrFailed(VerifyExchange(slave, c, address, value)))
     && var (c1, ok) := Attempt(Serial, slave, c, address, value);
        ok || SameSends(slave, c1, address, value, tries - 1))
  }

  /** All that later attempts depend on. */
  predicate SameLine(c: Conn, d: Conn) {
    c.connected == d.connected && c.net.future == d.net.future && c.net.log == d.net.log
  }

  /** Two calls succeeded and sent the same frames over the same exchanges. */
  predicate Alike(a: (Conn, bool), b: (Conn, bool)) {
    a.1 && b.1 && a.0.net.log == b.0.net.log
  }

  lemma SameStart(kind: Kind, slave: byte, c: Conn, d: Conn, address: word, value: word)
    requires SameLine(c, d)
    ensures Attempt(kind, slave, c, address, value) == Attempt(kind, slave, d, address, value)
  {
    hide Checksum, Accepts, Acknowledges, Encode, Take, Send, ReadRegs;
    assert Opened(c.net, WriteFrame(slave, address, value)) == Opened(d.net, WriteFrame(slave, address, value));
  }

  lemma SameTransmit(net: Net, frame: seq<byte>)
    requires |frame| == 8 && WholeOrFailed(Next(net))
    ensures Transmit(Serial, net, frame) == Transmit(Tcp, net, frame)
  {}

  lemma PartialTransmit(net: Net, frame: seq<byte>)
    requires |frame| == 8 && !WholeOrFailed(Next(net))
    ensures !Transmit(Tcp, net, frame).1
    ensures Transmit(Tcp, net, frame).0.future == Opened(net, frame).future
    ensures Transmit(Tcp, net, frame).0.log == Opened(net, frame).log
  {}

  // ---- One attempt on the same line ----

  lemma UnansweredAttempt(slave: byte, c: Conn, address: word, value: word)
    requires !Answered(slave, c, address, value)
    ensures var (c1, ok) := Attempt(Serial, slave, c, address, value); !ok && !c1.connected
  {
    hide Checksum, Accepts, Acknowledges, Encode, Take, Send;
  }

  lemma RejectedAttempt(slave: byte, c: Conn, address: word, value: word)
    requires Answered(slave, c, address, value) && !ReadsBack(slave, c, address, value)
    ensures var (c1, ok) := Attempt(Serial, slave, c, address, value);
            var (d1, ok') := Attempt(Tcp, slave, c, address, value);
            !ok && !ok' && SameLine(c1, d1)
  {
    hide Checksum, Accepts, Acknowledges, Encode, Take;
    var frame := WriteFrame(slave, address, value);
    if WholeOrFailed(WriteExchange(c)) { SameTransmit(c.net, frame); } else { PartialTransmit(c.net, frame); }
  }

  lemma ReadBackState(slave: byte, c: Conn, address: word, value: word)
    requires Answered(slave, c, address, value) && c.connected
    ensures var frame := WriteFrame(slave, address, value);
            var net := Transmit(Serial, c.net, frame).0;
            var c1 := c.(net := net.(arrivals := Take(net.arrivals, 8).rest));
            && Next(c1.net) == VerifyExchange(slave, c, address, value)
            && (ReadsBack(slave, c, address, value) ==>
                  var (c2, read) := ReadRegs(Serial, slave, c1, address, 1);
                  Attempt(Serial, slave, c, address, value) == (c2, read == Some([value])))
  {
    hide Checksum, Accepts, Acknowledges, Encode, Take, ReadRegs;
  }

  lemma WholeAttempt(slave: byte, c: Conn, address: word, value: word)
    requires Answered(slave, c, address, value) && ReadsBack(slave, c, address, value) && c.connected
    requires WholeOrFailed(WriteExchange(c))
    ensures var (d1, ok') := Attempt(Tcp, slave, c, address, value);
            if WholeOrFailed(VerifyExchange(slave, c, address, value))
            then (d1, ok') == Attempt(Serial, slave, c, address, value)
            else !ok' && !d1.connected
  {
    hide Checksum, Accepts, Acknowledges, Encode, Take, Send, ReadResponse;
    SameTransmit(c.net, WriteFrame(slave, address, value));
    var net := Transmit(Serial, c.net, WriteFrame(slave, address, value)).0;
    var c1 := c.(net := net.(arrivals := Take(net.arrivals, 8).rest));
    assert Next(c1.net) == VerifyExchange(slave, c, address, value);
    if WholeOrFailed(VerifyExchange(slave, c, address, value)) {
      SameTransmit(c1.net, VerifyFrame(slave, address));
    } else {
      PartialTransmit(c1.net, VerifyFrame(slave, address));
    }
  }

  /** A partly taken write request that the serial client completes: the clients' next frames differ. */
  lemma PartialAttempt(slave: byte, c: Conn, address: word, value: word)
    requires Answered(slave, c, address, value) && ReadsBack(slave, c, address, value) && c.connected
    requires !WholeOrFailed(WriteExchange(c))
    ensures var (c1, ok) := Attempt(Serial, slave, c, address, value);
            var (d1, ok') := Attempt(Tcp, slave, c, address, value);
            && !ok' && |d1.net.log| == |c.net.log| + 1
            && |c1.net.log| == |c.net.log| + 2 && c1.net.log[|c.net.log| + 1].frame == VerifyFrame(slave, address)
  {
    hide Checksum, Accepts, Acknowledges, Encode, Take, ReadRegs;
    PartialTransmit(c.net, WriteFrame(slave, address, value));
    ReadBackState(slave, c, address, value);
    var net := Transmit(Serial, c.net, WriteFrame(slave, address, value)).0;
    ReadLog(Serial, slave, c.(net := net.(arrivals := Take(net.arrivals, 8).rest)), address);
  }

  lemma FramesDiffer(slave: byte, address: word, value: word)
    ensures WriteFrame(slave, address, value) != VerifyFrame(slave, address)
  {
    hide Checksum;
    assert WriteFrame(slave, address, value)[1] == WRITE_SINGLE && VerifyFrame(slave, address)[1] == READ_HOLDING;
  }

  /** What the next attempts of a call send first, if there are any. */
  lemma AttemptsGoOn(kind: Kind, slave: byte, c: Conn, address: word, value: word, tries: nat)
    ensures var after := Attempts(kind, slave, c, address, value, tries).0;
            && c.net.log <= after.net.log
            && (tries > 0 ==> |c.net.log| < |after.net.log| &&
                              after.net.log[|c.net.log|].frame == WriteFrame(slave, address, value))
  {
    hide Checksum, Accepts, Encode, Attempt, Sound;
    AttemptsLog(kind, slave, c, address, value, tries);
    if tries > 0 {
      AttemptLog(kind, slave, c, address, value);
      var (c1, ok) := Attempt(kind, slave, c, address, value);
      assert SentSince(c.net, c1.net)[0].frame == WriteFrame(slave, address, value);
      assert c1.net.log[|c.net.log|] == SentSince(c.net, c1.net)[0];
      AttemptsLog(kind, slave, c1, address, value, tries - 1);
    }
  }

  // ---- Whole calls ----

  lemma DifferAfterPartial(slave: byte, c: Conn, d: Conn, address: word, value: word, tries: nat)
    requires tries > 0 && c.connected && SameLine(c, d)
    requires Answered(slave, c, address, value) && ReadsBack(slave, c, address, value)
    requires !WholeOrFailed(WriteExchange(c))
    ensures var serial := Attempts(Serial, slave, c, address, value, tries);
            var tcp := Attempts(Tcp, slave, d, address, value, tries);
            !Alike(serial, tcp)
  {
    hide Checksum, Accepts, Encode, Attempt, Answered, ReadsBack, WholeOrFailed, Sound;
    SameStart(Tcp, slave, c, d, address, value);
    PartialAttempt(slave, c, address, value);
    FramesDiffer(slave, address, value);
    var (c1, ok) := Attempt(Serial, slave, c, address, value);
    var d1 := Attempt(Tcp, slave, d, address, value).0;
    AttemptsGoOn(Serial, slave, c1, address, value, tries - 1);
    AttemptsGoOn(Tcp, slave, d1, address, value, tries - 1);
    var serial := Attempts(Serial, slave, c, address, value, tries);
    var at := |c.net.log| + 1;
    assert serial.0.net.log[at] == c1.net.log[at];
  }

  lemma {:induction false} AttemptsCompared(slave: byte, c: Conn, d: Conn, address: word, value: word, tries: nat)
    requires SameLine(c, d) && c.connected
    ensures var serial := Attempts(Serial, slave, c, address, value, tries);
            var tcp := Attempts(Tcp, slave, d, address, value, tries);
            serial.1 || tcp.1 ==>
              (Alike(serial, tcp) <==> SameSends(slave, c, address, value, tries)) && (Alike(serial, tcp) ==> serial == tcp)
    decreases tries, 0
  {
    hide Checksum, Accepts, Encode, Attempt, Answered, ReadsBack, WholeOrFailed;
    if tries > 0 {
      SameStart(Tcp, slave, c, d, address, value);
      var (c1, ok) := Attempt(Serial, slave, c, address, value);
      var (d1, ok') := Attempt(Tcp, slave, c, address, value);
      if !Answered(slave, c, address, value) {
        UnansweredAttempt(slave, c, address, value);
        LinkLossIsFinal(Serial, slave, c1, address, value, tries - 1);
      } else if !ReadsBack(slave, c, address, value) {
        RejectedAttempt(slave, c, address, value);
        ComparedRest(slave, c1, d1, address, value, tries - 1);
      } else if !WholeOrFailed(WriteExchange(c)) {
        DifferAfterPartial(slave, c, d, address, value, tries);
      } else {
        WholeAttempt(slave, c, address, value);
        if !WholeOrFailed(VerifyExchange(slave, c, address, value)) {
          LinkLossIsFinal(Tcp, slave, d1, address, value, tries - 1);
        } else if !ok {
          ComparedRest(slave, c1, d1, address, value, tries - 1);
        }
      }
    }
  }

  lemma {:induction false} ComparedRest(slave: byte, c: Conn, d: Conn, address: word, value: word, tries: nat)
    requires SameLine(c, d)
    ensures var serial := Attempts(Serial, slave, c, address, value, tries);
            var tcp := Attempts(Tcp, slave, d, address, value, tries);
            serial.1 || tcp.1 ==>
              (Alike(serial, tcp) <==> SameSends(slave, c, address, value, tries)) && (Alike(serial, tcp) ==> serial == tcp)
    decreases tries, 1
  {
    hide Checksum, Accepts, Encode, Attempt, SameSends;
    if c.connected {
      AttemptsCompared(slave, c, d, address, value, tries);
    } else {
      LinkLossIsFinal(Serial, slave, c, address, value, tries);
      LinkLossIsFinal(Tcp, slave, d, address, value, tries);
    }
  }

  /** On one and the same line, whenever either client succeeds, the other succeeds with the same
      frames (and ends in the same state) exactly when every write request of the call was answered
      and no first write call took only a part of a frame in an attempt that reads back. */
  lemma ClientsAgreeExactly(slave: byte, c: Conn, address: word, value: word)
    ensures var serial := WriteReg(Serial, slave, c, address, value);
            var tcp := WriteReg(Tcp, slave, c, address, value);
            serial.1 || tcp.1 ==>
              && (Alike(serial, tcp) <==> SameSends(slave, c, address, value, WRITE_MAX_RETRIES))
              && (Alike(serial, tcp) ==> serial == tcp)
  {
    hide Attempts, SameSends;
    if c.connected {
      AttemptsCompared(slave, c, c, address, value, WRITE_MAX_RETRIES);
    }
  }

  // ---- Both halves of the condition matter ----

  function Confirming(slave: byte, address: word, value: word, writes: seq<int>): seq<Exchange> {
    [ Exchange(writes, [Chunk(WriteFrame(slave, address, value))]),
      Exchange(writes, [Chunk(ReadReply(slave, READ_HOLDING, [value]))]) ]
  }

  lemma ConfirmingAttempt(kind: Kind, slave: byte, net: Net, address: word, value: word, writes: seq<int>)
    requires Confirming(slave, address, value, writes) <= net.future && Send(kind, writes, 8).0
    ensures Attempt(kind, slave, Conn(true, net), address, value).1
  {
    hide Checksum;
    var w, r := WriteFrame(slave, address, value), ReadReply(slave, READ_HOLDING, [value]);
    var script := Confirming(slave, address, value, writes);
    assert net.future[0] == script[0] && net.future[1..][0] == script[1];
    SealedAccepts(w[..6]);
    assert w == Sealed(w[..6]);
    var net1 := Transmit(kind, net, w).0;
    assert Stream(net1.arrivals) == w + Stream([]) == w;
    TakeIsStream(net1.arrivals, 8);
    assert w[..8] == w;
    var c1 := Conn(true, net1.(arrivals := Take(net1.arrivals, 8).rest));
    assert Stream(Next(c1.net).arrivals) == r + Stream([]) == r;
    ReadRoundTrip(kind, slave, c1, address, [value]);
  }

  /** A frame that needs two write calls succeeds in the serial client and never in the TCP client. */
  lemma PartialWritesDiffer(slave: byte, address: word, value: word)
    ensures var c := Conn(true, Net(Confirming(slave, address, value, [4, 4]), [], [], []));
            WriteReg(Serial, slave, c, address, value).1 && !WriteReg(Tcp, slave, c, address, value).1
  {
    var net := Net(Confirming(slave, address, value, [4, 4]), [], [], []);
    var c := Conn(true, net);
    assert [4, 4][1..] == [4];
    assert Send(Serial, [4], 4) == (true, []);
    assert Send(Serial, [4, 4], 8) == Send(Serial, [4], 4);
    ConfirmingAttempt(Serial, slave, net, address, value, [4, 4]);
    var c1 := Attempt(Tcp, slave, c, address, value).0;
    var c2 := Attempt(Tcp, slave, c1, address, value).0;
    assert net.future[1..][1..] == [];
    assert !Attempt(Tcp, slave, c, address, value).1;
    assert !Attempt(Tcp, slave, c1, address, value).1;
    assert !Attempt(Tcp, slave, c2, address, value).1;
    assert Attempts(Tcp, slave, Attempt(Tcp, slave, c2, address, value).0, address, value, 0).1 == false;
    assert !Attempts(Tcp, slave, c2, address, value, 1).1;
    assert !Attempts(Tcp, slave, c1, address, value, 2).1;
  }

  /** A first attempt that cannot be sent is forgiven by the TCP client only. */
  lemma FailedSendDiffers(slave: byte, address: word, value: word)
    ensures var c := Conn(true, Net([Exchange([-1], [])] + Confirming(slave, address, value, [8]), [], [], []));
            WriteReg(Tcp, slave, c, address, value).1 && !WriteReg(Serial, slave, c, address, value).1
  {
    var good := Confirming(slave, address, value, [8]);
    var net := Net([Exchange([-1], [])] + good, [], [], []);
    var c := Conn(true, net);
    assert net.future[1..] == good;
    var tcp := Attempt(Tcp, slave, c, address, value).0;
    ConfirmingAttempt(Tcp, slave, tcp.net, address, value, [8]);
    assert Attempts(Tcp, slave, tcp, address, value, 2).1;
    var serial := Attempt(Serial, slave, c, address, value).0;
    LinkLossIsFinal(Serial, slave, serial, address, value, 2);
  }
}
