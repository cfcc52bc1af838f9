/** A conforming device at the far end of a line that loses, cuts, delays and damages frames.

    Damage is what the checksum is there for: an odd number of flipped bits, any change
    inside sixteen consecutive bits, or two flipped bits less than 32767 apart. Under it a
    verified write means what it says about the device's registers, unless replies to
    earlier calls come out so late that two of them pass for its own. */
module Device {
  import opened Wrappers
  import opened Words
  import opened Crc16
  import opened CrcOrder
  import opened RtuFrame
  import opened Link
  import opened RtuClient
  import opened VerifiedWrite

  datatype Device = Device(slave: byte, registers: map<word, word>)

  const ILLEGAL_ADDRESS: byte := 2

  function Values(d: Device, address: nat, count: nat): (r: Option<seq<word>>)
    ensures r.Some? ==> |r.value| == count
    decreases count
  {
    if count == 0 then Some([])
    else if address !in d.registers then None
    else
      var rest := Values(d, address + 1, count - 1);
      if rest.None? then None else Some([d.registers[address]] + rest.value)
  }

  /** The device's reaction to a request it understood. A device may also refuse it. */
  function Answer(d: Device, request: Request, heard: seq<byte>, refusal: Option<byte>): (Device, seq<byte>) {
    var func := if request.Read? then READ_HOLDING else WRITE_SINGLE;
    if request.slave != d.slave then (d, [])
    else if refusal.Some? then (d, ExceptionReply(d.slave, func, refusal.value))
    else match request
      case Read(_, address, count) =>
        var values := Values(d, address, count);
        if 1 <= count <= 125 && values.Some? then (d, ReadReply(d.slave, func, values.value))
        else (d, ExceptionReply(d.slave, func, ILLEGAL_ADDRESS))
      case Write(_, address, value) =>
        if address in d.registers then (d.(registers := d.registers[address := value]), heard)
        else (d, ExceptionReply(d.slave, func, ILLEGAL_ADDRESS))
  }

  /** What the device does with the bytes that reach it. */
  function Serve(d: Device, heard: seq<byte>, refusal: Option<byte>): (Device, seq<byte>) {
    var request := Decode(heard);
    if request.None? then (d, []) else Answer(d, request.value, heard, refusal)
  }

  // ---- The line ----

  /** Device and line: every reply sent so far, and which of them have come out at the client's end.
      A reply may come out in the exchange it answers, in a later one, or never. */
  datatype Line = Line(device: Device, replies: seq<seq<byte>>, used: set<nat>)

  /** What happens in one exchange: the request is lost or heard with some bits flipped; the device
      may refuse it; then nothing comes out, or the first `kept` bytes of one reply, with some bits
      flipped. */
  datatype Fate = Fate(requestError: Option<seq<byte>>, refusal: Option<byte>,
                       shown: Option<nat>, replyError: seq<byte>, kept: nat)

  ghost predicate Detectable(error: seq<byte>) {
    (forall i :: 0 <= i < |error| ==> error[i] == 0) || IsBurst(error) || OddCount(SerialBits(error)) || IsDetectablePair(error)
  }

  /** This may come out of a reply. */
  ghost predicate ComesOut(reply: seq<byte>, error: seq<byte>, kept: nat, stream: seq<byte>) {
    |error| == |reply| && Detectable(error) && kept <= |reply| && stream == XorSeq(reply, error)[..kept]
  }

  ghost predicate Heard(s: Sent, fate: Fate) {
    fate.requestError.Some? ==> |fate.requestError.value| == |s.frame| && Detectable(fate.requestError.value)
  }

  /** The device has dealt with the request. */
  ghost function Served(l: Line, s: Sent, fate: Fate): Line
    requires Heard(s, fate)
  {
    if fate.requestError.None? then l
    else
      var (d, reply) := Serve(l.device, XorSeq(s.frame, fate.requestError.value), fate.refusal);
      Line(d, l.replies + [reply], l.used)
  }

  ghost predicate Waiting(l: Line, k: nat) { k < |l.replies| && k !in l.used }

  ghost predicate Plausible(l: Line, s: Sent, fate: Fate) {
    Heard(s, fate) &&
    match fate.shown
    case None => Stream(s.exchange.arrivals) == []
    case Some(k) =>
      Waiting(Served(l, s, fate), k) &&
      ComesOut(Served(l, s, fate).replies[k], fate.replyError, fate.kept, Stream(s.exchange.arrivals))
  }

  ghost function After(l: Line, s: Sent, fate: Fate): Line
    requires Plausible(l, s, fate)
  {
    var served := Served(l, s, fate);
    if fate.shown.None? then served else served.(used := served.used + {fate.shown.value})
  }

  /** Every exchange of a transcript went the way the device and the line allow. */
  ghost predicate Played(l: Line, sent: seq<Sent>, fates: seq<Fate>)
    decreases |sent|
  {
    |fates| == |sent| &&
    (sent != [] ==> Plausible(l, sent[0], fates[0]) && Played(After(l, sent[0], fates[0]), sent[1..], fates[1..]))
  }

  ghost function Final(l: Line, sent: seq<Sent>, fates: seq<Fate>): Line
    requires Played(l, sent, fates)
    decreases |sent|
  {
    if sent == [] then l else Final(After(l, sent[0], fates[0]), sent[1..], fates[1..])
  }

  /** No reply is under way. */
  function Fresh(d: Device): Line { Line(d, [], {}) }

  lemma {:induction false} PlayedConcat(l: Line, a: seq<Sent>, b: seq<Sent>, fates: seq<Fate>)
    requires Played(l, a + b, fates)
    ensures Played(l, a, fates[..|a|])
    ensures var mid := Final(l, a, fates[..|a|]);
            Played(mid, b, fates[|a|..]) && Final(l, a + b, fates) == Final(mid, b, fates[|a|..])
    decreases |a|
  {
    if a == [] {
      assert a + b == b && fates[0..] == fates;
    } else {
      assert (a + b)[1..] == a[1..] + b;
      PlayedConcat(After(l, a[0], fates[0]), a[1..], b, fates[1..]);
      assert fates[..|a|][1..] == fates[1..][..|a| - 1];
      assert fates[1..][|a| - 1..] == fates[|a|..];
    }
  }

  /** A damaged frame that still passes the checksum is not damaged at all. */
  lemma DamageIsSeen(frame: seq<byte>, error: seq<byte>)
    requires Accepts(frame) && |error| == |frame| && Detectable(error)
    ensures Accepts(XorSeq(frame, error)) ==> XorSeq(frame, error) == frame
  {
    if IsBurst(error) {
      BurstDetected(frame, error);
    } else if OddCount(SerialBits(error)) {
      OddErrorDetected(frame, error);
    } else if IsDetectablePair(error) {
      var i: nat, j: nat :| IsPair(SerialBits(error), i, j) && (j - i) % PERIOD != 0;
      PairDetectedExactly(frame, error, i, j);
    } else {
      forall i | 0 <= i < |frame| ensures Xor(frame[i], error[i]) == frame[i] {
        XorUnit(frame[i]);
      }
    }
  }

  lemma EncodeAccepted(request: Request)
    ensures Accepts(Encode(request))
  {
    SealedAccepts(Encode(request)[..6]);
    assert Encode(request) == Sealed(Encode(request)[..6]);
  }

  /** The device hears the request as it was sent, or nothing it can make sense of. */
  lemma HeardRequest(request: Request, error: seq<byte>)
    requires |error| == 8 && Detectable(error)
    ensures var heard := XorSeq(Encode(request), error);
            Decode(heard) == None || (heard == Encode(request) && Decode(heard) == Some(request))
  {
    EncodeAccepted(request);
    DamageIsSeen(Encode(request), error);
    DecodeOfEncode(request);
  }

  ghost predicate WroteOrNot(d: Device, address: word, value: word, e: Device) {
    e == d || (address in d.registers && e == d.(registers := d.registers[address := value]))
  }

  // ---- What the exchanges of a write do ----

  predicate HoldsValue(d: Device, address: word, value: word) {
    address in d.registers && d.registers[address] == value
  }

  lemma WriteEffect(l: Line, address: word, value: word, s: Sent, fate: Fate)
    requires Plausible(l, s, fate) && s.frame == WriteFrame(l.device.slave, address, value)
    ensures var v := After(l, s, fate);
            && WroteOrNot(l.device, address, value, v.device)
            && (HoldsValue(l.device, address, value) ==> HoldsValue(v.device, address, value))
            && (!HoldsValue(v.device, address, value) ==>
                  v.device == l.device && (v.replies == l.replies || exists r :: v.replies == l.replies + [r] && |r| <= 5))
  {
    if fate.requestError.Some? {
      var heard := XorSeq(s.frame, fate.requestError.value);
      HeardRequest(Write(l.device.slave, address, value), fate.requestError.value);
      assert Served(l, s, fate).replies == l.replies + [Serve(l.device, heard, fate.refusal).1];
    }
  }

  lemma AnswerVerify(d: Device, address: word, heard: seq<byte>, refusal: Option<byte>)
    ensures var (d', reply) := Answer(d, Read(d.slave, address, 1), heard, refusal);
            && d' == d
            && (|| |reply| == 5
                || (address in d.registers && reply == ReadReply(d.slave, READ_HOLDING, [d.registers[address]])))
  {
    if address in d.registers {
      assert Values(d, address + 1, 0) == Some([]);
      assert [d.registers[address]] + [] == [d.registers[address]];
    }
  }

  /** The reply to a read-back request, as far as the request was heard at all. */
  lemma ReplyToVerify(d: Device, address: word, error: seq<byte>, refusal: Option<byte>)
    requires |error| == 8 && Detectable(error)
    ensures var (d', reply) := Serve(d, XorSeq(VerifyFrame(d.slave, address), error), refusal);
            && d' == d
            && (|| |reply| <= 5
                || (address in d.registers && reply == ReadReply(d.slave, READ_HOLDING, [d.registers[address]])))
  {
    var request := Read(d.slave, address, 1);
    HeardRequest(request, error);
    AnswerVerify(d, address, XorSeq(Encode(request), error), refusal);
  }

  /** A reply that says no more than the register did when the call began. */
  predicate Modest(d: Device, address: word, reply: seq<byte>) {
    |reply| <= 5 || (address in d.registers && reply == ReadReply(d.slave, READ_HOLDING, [d.registers[address]]))
  }

  lemma VerifyEffect(l: Line, address: word, s: Sent, fate: Fate)
    requires Plausible(l, s, fate) && s.frame == VerifyFrame(l.device.slave, address)
    ensures var v := After(l, s, fate);
            && v.device == l.device
            && (v.replies == l.replies || exists r :: v.replies == l.replies + [r] && Modest(l.device, address, r))
  {
    if fate.requestError.Some? {
      var heard := XorSeq(s.frame, fate.requestError.value);
      ReplyToVerify(l.device, address, fate.requestError.value, fate.refusal);
      assert Served(l, s, fate).replies == l.replies + [Serve(l.device, heard, fate.refusal).1];
    }
  }

  lemma ReplyDetermines(slave: byte, f: byte, g: byte, v: word, w: word)
    requires ReadReply(slave, f, [v]) == ReadReply(slave, g, [w])
    ensures v == w
  {
    var a, b := ReadReply(slave, f, [v]), ReadReply(slave, g, [w]);
    PayloadAt([v], 0);
    PayloadAt([w], 0);
    assert a[3] == Payload([v])[0] && a[4] == Payload([v])[1];
    assert b[3] == Payload([w])[0] && b[4] == Payload([w])[1];
    HiLo(v);
    HiLo(w);
  }

  lemma AcceptedReplyIsTrue(slave: byte, func: byte, claimed: word, held: word, error: seq<byte>)
    requires |error| == 7 && Detectable(error)
    requires XorSeq(ReadReply(slave, READ_HOLDING, [held]), error) == ReadReply(slave, func, [claimed])
    ensures claimed == held
  {
    SealedAccepts([slave, func, 2] + Payload([claimed]));
    SealedAccepts([slave, READ_HOLDING, 2] + Payload([held]));
    DamageIsSeen(ReadReply(slave, READ_HOLDING, [held]), error);
    ReplyDetermines(slave, func, READ_HOLDING, claimed, held);
  }

  /** Some part of this reply, damaged or not, is taken for an acknowledgement. */
  ghost predicate CanAcknowledge(slave: byte, reply: seq<byte>) {
    exists error, kept, stream :: ComesOut(reply, error, kept, stream) && 8 <= |stream| && Acknowledges(slave, stream[..8])
  }

  /** Some part of this reply, damaged or not, is taken for a register's value. */
  ghost predicate CanClaim(slave: byte, value: word, reply: seq<byte>) {
    exists error, kept, stream :: ComesOut(reply, error, kept, stream) && Claims(slave, value, stream)
  }

  ghost predicate Claims(slave: byte, value: word, stream: seq<byte>) {
    exists func: byte :: func < EXCEPTION_FLAG && ReadReply(slave, func, [value]) <= stream
  }

  /** What a modest reply claims is what the register holds. */
  lemma ModestIsTrue(d: Device, address: word, value: word, reply: seq<byte>)
    requires Modest(d, address, reply) && CanClaim(d.slave, value, reply)
    ensures HoldsValue(d, address, value)
  {
    var error, kept, stream :| ComesOut(reply, error, kept, stream) && Claims(d.slave, value, stream);
    var func: byte :| func < EXCEPTION_FLAG && ReadReply(d.slave, func, [value]) <= stream;
    var claimed := ReadReply(d.slave, func, [value]);
    assert |claimed| == 7;
    assert XorSeq(reply, error) == claimed;
    AcceptedReplyIsTrue(d.slave, func, value, d.registers[address], error);
  }

  lemma ModestNeverAcknowledges(d: Device, address: word, reply: seq<byte>)
    requires Modest(d, address, reply)
    ensures !CanAcknowledge(d.slave, reply)
  {}

  /** A value the client read back is the value the register holds, unless a reply that was under
      way before claims it. */
  lemma ReadBackIsTrue(l: Line, address: word, value: word, s: Sent, fate: Fate)
    requires Plausible(l, s, fate) && s.frame == VerifyFrame(l.device.slave, address)
    requires RepliedWith(l.device.slave, [value], s.exchange.arrivals)
    ensures HoldsValue(l.device, address, value) ||
            exists k: nat :: Waiting(l, k) && CanClaim(l.device.slave, value, l.replies[k])
  {
    RepliedClaims(l.device.slave, value, s.exchange.arrivals);
    VerifyEffect(l, address, s, fate);
    var k := fate.shown.value;
    assert CanClaim(l.device.slave, value, Served(l, s, fate).replies[k]);
    if k == |l.replies| {
      ModestIsTrue(l.device, address, value, Served(l, s, fate).replies[k]);
    }
  }

  lemma RepliedClaims(slave: byte, value: word, arrivals: seq<Arrival>)
    requires RepliedWith(slave, [value], arrivals)
    ensures Claims(slave, value, Stream(arrivals)) && Stream(arrivals) != []
  {
    var func: byte :| func < EXCEPTION_FLAG && OnWire(ReadReply(slave, func, [value]), arrivals);
    assert |ReadReply(slave, func, [value])| == 7;
  }

  // ---- What a write call keeps ----

  /** From the line `l` at the beginning of a call on: the register has been written, or the device
      is as it was and has said nothing in between that could mislead. */
  ghost predicate Keeps(l: Line, v: Line, address: word, value: word) {
    && WroteOrNot(l.device, address, value, v.device)
    && l.replies <= v.replies && l.used <= v.used
    && (|| HoldsValue(v.device, address, value)
        || (v.device == l.device && forall k :: |l.replies| <= k < |v.replies| ==> Modest(l.device, address, v.replies[k])))
  }

  lemma KeepsOn(l: Line, v: Line, address: word, value: word, s: Sent, fate: Fate)
    requires Keeps(l, v, address, value) && Plausible(v, s, fate)
    requires s.frame == WriteFrame(l.device.slave, address, value) || s.frame == VerifyFrame(l.device.slave, address)
    ensures Keeps(l, After(v, s, fate), address, value)
  {
    hide Serve, Encode, Detectable, ComesOut;
    if s.frame == WriteFrame(l.device.slave, address, value) {
      WriteEffect(v, address, value, s, fate);
    } else {
      VerifyEffect(v, address, s, fate);
    }
  }

  lemma {:induction false} FramesKeep(l: Line, v: Line, address: word, value: word, sent: seq<Sent>, fates: seq<Fate>)
    requires Keeps(l, v, address, value)
    requires Played(v, sent, fates) && OnlyTheseFrames(l.device.slave, address, value, sent)
    ensures Keeps(l, Final(v, sent, fates), address, value)
    decreases |sent|
  {
    hide Keeps, Plausible;
    if sent != [] {
      KeepsOn(l, v, address, value, sent[0], fates[0]);
      FramesKeep(l, After(v, sent[0], fates[0]), address, value, sent[1..], fates[1..]);
    }
  }

  /** What a write call puts on the line. */
  ghost function Transcript(kind: Kind, slave: byte, c: Conn, address: word, value: word): (sent: seq<Sent>)
    ensures Sound(slave, address, value, sent, WriteReg(kind, slave, c, address, value).1)
  {
    WriteIsVerified(kind, slave, c, address, value);
    SentSince(c.net, WriteReg(kind, slave, c, address, value).0.net)
  }

  /** Before the call two replies were under way, one that can pass for an acknowledgement and
      another that can claim the value, and the register does not hold it. */
  ghost predicate Misled(l: Line, address: word, value: word) {
    !HoldsValue(l.device, address, value) &&
    exists i: nat, j: nat :: i != j && Waiting(l, i) && Waiting(l, j) &&
      CanAcknowledge(l.device.slave, l.replies[i]) && CanClaim(l.device.slave, value, l.replies[j])
  }

  lemma PlayedTwo(v: Line, w: Sent, r: Sent, fates: seq<Fate>)
    requires Played(v, [w, r], fates)
    ensures |fates| == 2 && Plausible(v, w, fates[0]) && Plausible(After(v, w, fates[0]), r, fates[1])
    ensures Final(v, [w, r], fates) == After(After(v, w, fates[0]), r, fates[1])
  {
    hide Plausible;
    assert [w, r][1..] == [r] && [r][1..] == [];
    var v1 := After(v, w, fates[0]);
    assert Played(v1, [r], fates[1..]) && fates[1..][0] == fates[1];
    assert Final(v1, [r], fates[1..]) == Final(After(v1, r, fates[1]), [], fates[1..][1..]);
  }

  /** An acknowledged and confirmed write frame: the register holds the value, or old replies misled. */
  lemma ConfirmedPair(l: Line, v: Line, address: word, value: word, w: Sent, r: Sent, fates: seq<Fate>)
    requires Keeps(l, v, address, value) && Played(v, [w, r], fates)
    requires w.frame == WriteFrame(l.device.slave, address, value) && r.frame == VerifyFrame(l.device.slave, address)
    requires 8 <= |Stream(w.exchange.arrivals)| && Acknowledges(l.device.slave, Stream(w.exchange.arrivals)[..8])
    requires RepliedWith(l.device.slave, [value], r.exchange.arrivals)
    ensures Keeps(l, Final(v, [w, r], fates), address, value)
    ensures HoldsValue(Final(v, [w, r], fates).device, address, value) || Misled(l, address, value)
  {
    hide Keeps, Serve, Encode, ComesOut, CanAcknowledge, CanClaim, Acknowledges, Stream, Modest, WroteOrNot;
    PlayedTwo(v, w, r, fates);
    var v1 := After(v, w, fates[0]);
    KeepsOn(l, v, address, value, w, fates[0]);
    KeepsOn(l, v1, address, value, r, fates[1]);
    KeptSlave(l, v1, address, value);
    var v2 := After(v1, r, fates[1]);
    if !HoldsValue(v2.device, address, value) {
      OldAcknowledgement(l, v, address, value, w, fates[0], v2);
      OldClaim(l, v1, address, value, r, fates[1], v2);
      assert fates[0].shown.value != fates[1].shown.value;
    }
  }

  lemma KeptSlave(l: Line, v: Line, address: word, value: word)
    requires Keeps(l, v, address, value)
    ensures v.device.slave == l.device.slave
  {}

  /** If the register has not been written in the end, the acknowledgement was an old reply. */
  lemma OldAcknowledgement(l: Line, v: Line, address: word, value: word, w: Sent, fate: Fate, end: Line)
    requires Keeps(l, v, address, value) && Keeps(l, end, address, value) && !HoldsValue(end.device, address, value)
    requires Plausible(v, w, fate) && After(v, w, fate).replies <= end.replies
    requires 8 <= |Stream(w.exchange.arrivals)| && Acknowledges(l.device.slave, Stream(w.exchange.arrivals)[..8])
    ensures fate.shown.Some? && Waiting(l, fate.shown.value) && CanAcknowledge(l.device.slave, l.replies[fate.shown.value])
  {
    hide Serve, Detectable, Acknowledges, Stream, Modest, ComesOut, CanAcknowledge;
    var k := fate.shown.value;
    var reply := Served(v, w, fate).replies[k];
    assert end.replies[k] == reply;
    ShownAcknowledges(l.device.slave, reply, fate, Stream(w.exchange.arrivals));
    if k >= |l.replies| {
      ModestNeverAcknowledges(l.device, address, reply);
    }
  }

  lemma ShownAcknowledges(slave: byte, reply: seq<byte>, fate: Fate, stream: seq<byte>)
    requires ComesOut(reply, fate.replyError, fate.kept, stream) && 8 <= |stream| && Acknowledges(slave, stream[..8])
    ensures CanAcknowledge(slave, reply)
  {}

  lemma ShownClaims(slave: byte, value: word, reply: seq<byte>, fate: Fate, stream: seq<byte>)
    requires ComesOut(reply, fate.replyError, fate.kept, stream) && Claims(slave, value, stream)
    ensures CanClaim(slave, value, reply)
  {}

  /** And so was the read-back. */
  lemma OldClaim(l: Line, v: Line, address: word, value: word, r: Sent, fate: Fate, end: Line)
    requires Keeps(l, v, address, value) && Keeps(l, end, address, value) && !HoldsValue(end.device, address, value)
    requires Plausible(v, r, fate) && After(v, r, fate).replies <= end.replies
    requires RepliedWith(l.device.slave, [value], r.exchange.arrivals)
    ensures fate.shown.Some? && Waiting(l, fate.shown.value) && fate.shown.value !in v.used
    ensures CanClaim(l.device.slave, value, l.replies[fate.shown.value]) && end.device == l.device
  {
    hide Serve, Detectable, Modest, ComesOut, CanClaim, Claims;
    RepliedClaims(l.device.slave, value, r.exchange.arrivals);
    var k := fate.shown.value;
    var reply := Served(v, r, fate).replies[k];
    assert end.replies[k] == reply;
    ShownClaims(l.device.slave, value, reply, fate, Stream(r.exchange.arrivals));
    if k >= |l.replies| {
      ModestIsTrue(l.device, address, value, reply);
    }
  }

  /** Success means the register holds the value, failure that it holds the old or the new one, and
      no other register is touched. */
  ghost predicate WriteContract(d: Device, address: word, value: word, ok: bool, d': Device) {
    if ok then address in d.registers && d' == d.(registers := d.registers[address := value])
    else WroteOrNot(d, address, value, d')
  }

  lemma HoldingIsWritten(d: Device, address: word, value: word, d': Device)
    requires WroteOrNot(d, address, value, d')
    ensures HoldsValue(d', address, value) ==> WriteContract(d, address, value, true, d')
  {
    if d' == d && HoldsValue(d', address, value) {
      assert d.registers[address := value] == d.registers;
    }
  }

  lemma SoundEffect(l: Line, address: word, value: word, sent: seq<Sent>, fates: seq<Fate>, ok: bool)
    requires Played(l, sent, fates) && Sound(l.device.slave, address, value, sent, ok)
    ensures WriteContract(l.device, address, value, ok, Final(l, sent, fates).device) || (ok && Misled(l, address, value))
    ensures WroteOrNot(l.device, address, value, Final(l, sent, fates).device)
  {
    hide Acknowledges, Stream, RepliedWith, Encode, Plausible, Misled, Modest;
    if ok {
      var n := |sent| - 2;
      var w, r := sent[n], sent[n + 1];
      assert sent == sent[..n] + [w, r];
      PlayedConcat(l, sent[..n], [w, r], fates);
      FramesKeep(l, l, address, value, sent[..n], fates[..n]);
      assert sent[..n + 1][..n] == sent[..n];
      ConfirmedPair(l, Final(l, sent[..n], fates[..n]), address, value, w, r, fates[n..]);
      HoldingIsWritten(l.device, address, value, Final(l, sent, fates).device);
    } else {
      FramesKeep(l, l, address, value, sent, fates);
    }
  }

  ghost predicate WriteRunsWell(kind: Kind, c: Conn, l: Line, address: word, value: word, fates: seq<Fate>) {
    Played(l, Transcript(kind, l.device.slave, c, address, value), fates) ==>
      WriteContract(l.device, address, value, WriteReg(kind, l.device.slave, c, address, value).1,
                    Final(l, Transcript(kind, l.device.slave, c, address, value), fates).device)
  }

  /** The contract of a verified write, for both clients, every script of the line, every detectable
      damage and every delay of the replies to its own requests. */
  lemma VerifiedWriteOnDevice(kind: Kind, c: Conn, l: Line, address: word, value: word, fates: seq<Fate>)
    requires !Misled(l, address, value)
    ensures WriteRunsWell(kind, c, l, address, value, fates)
  {
    hide Sound, WriteReg, Transcript, Played, Final, Misled, WriteContract;
    if Played(l, Transcript(kind, l.device.slave, c, address, value), fates) {
      SoundEffect(l, address, value, Transcript(kind, l.device.slave, c, address, value), fates,
                  WriteReg(kind, l.device.slave, c, address, value).1);
    }
  }

  /** A line on which no reply is under way misleads nobody. */
  lemma FreshNeverMisleads(d: Device, address: word, value: word)
    ensures !Misled(Fresh(d), address, value)
  {}

  // ---- A write that goes well, and one that is misled ----

  /** Two exchanges that acknowledge and confirm make a write call succeed at its first attempt. */
  lemma TwoExchangesSucceed(kind: Kind, slave: byte, c: Conn, address: word, value: word, w: Sent, r: Sent)
    requires c.connected
    requires w == Sent(WriteFrame(slave, address, value), Next(c.net))
    requires r == Sent(VerifyFrame(slave, address), Next(Opened(c.net, w.frame)))
    requires Send(kind, w.exchange.writes, 8).0 && Send(kind, r.exchange.writes, 8).0
    requires 8 <= |Stream(w.exchange.arrivals)| && Acknowledges(slave, Stream(w.exchange.arrivals)[..8])
    requires RepliedWith(slave, [value], r.exchange.arrivals)
    ensures WriteReg(kind, slave, c, address, value).1 && Transcript(kind, slave, c, address, value) == [w, r]
  {
    hide Acknowledges, Stream, RepliedWith, Encode, Take, ReadResponse, Sound, Send;
    var net := Transmit(kind, c.net, w.frame).0;
    TakeIsStream(net.arrivals, 8);
    var c1 := c.(net := net.(arrivals := Take(net.arrivals, 8).rest));
    var net2 := Transmit(kind, c1.net, r.frame).0;
    assert Next(c1.net) == r.exchange;
    RepliesAreRead(slave, [value], net2);
    assert ReadRegs(kind, slave, c1, address, 1).1 == Some([value]);
    assert Attempt(kind, slave, c, address, value).1;
    ReadLog(kind, slave, c1, address);
    assert Attempts(kind, slave, c, address, value, WRITE_MAX_RETRIES) == Attempt(kind, slave, c, address, value);
    assert Attempt(kind, slave, c, address, value).0.net.log == c.net.log + [w] + [r];
  }

  function Clean(n: nat): (r: seq<byte>)
    ensures |r| == n && forall i :: 0 <= i < n ==> r[i] == 0
  {
    seq(n, _ => 0)
  }

  lemma Undamaged(s: seq<byte>)
    ensures Detectable(Clean(|s|)) && XorSeq(s, Clean(|s|)) == s && ComesOut(s, Clean(|s|), |s|, s)
  {
    forall i | 0 <= i < |s| ensures Xor(s[i], 0) == s[i] { XorUnit(s[i]); }
    assert s[..|s|] == s;
  }

  /** The request is heard and its own reply comes out, both undamaged. */
  function Carried(l: Line, reply: seq<byte>): Fate {
    Fate(Some(Clean(8)), None, Some(|l.replies|), Clean(|reply|), |reply|)
  }

  lemma CarriedIsPlausible(l: Line, s: Sent, d: Device, reply: seq<byte>)
    requires |s.frame| == 8 && Serve(l.device, s.frame, None) == (d, reply)
    requires Stream(s.exchange.arrivals) == reply && |l.replies| !in l.used
    ensures Plausible(l, s, Carried(l, reply))
    ensures After(l, s, Carried(l, reply)) == Line(d, l.replies + [reply], l.used + {|l.replies|})
  {
    hide Serve, Detectable;
    Undamaged(s.frame);
    Undamaged(reply);
  }

  /** A write whose two exchanges are carried undamaged succeeds, and does what it says. */
  lemma UndamagedWriteSucceeds(kind: Kind, c: Conn, d: Device, address: word, value: word, w: Sent, r: Sent)
    returns (fates: seq<Fate>)
    requires c.connected && address in d.registers
    requires w == Sent(WriteFrame(d.slave, address, value), Next(c.net))
    requires r == Sent(VerifyFrame(d.slave, address), Next(Opened(c.net, w.frame)))
    requires Send(kind, w.exchange.writes, 8).0 && Send(kind, r.exchange.writes, 8).0
    requires Stream(w.exchange.arrivals) == w.frame
    requires Stream(r.exchange.arrivals) == ReadReply(d.slave, READ_HOLDING, [value])
    ensures WriteReg(kind, d.slave, c, address, value).1 && Transcript(kind, d.slave, c, address, value) == [w, r]
    ensures Played(Fresh(d), [w, r], fates)
    ensures Final(Fresh(d), [w, r], fates).device == d.(registers := d.registers[address := value])
  {
    hide Plausible, Sound, Transcript, WriteReg, Serve, Encode, Stream, Acknowledges, ReadReply, Send, After;
    var l, reply := Fresh(d), ReadReply(d.slave, READ_HOLDING, [value]);
    var d' := d.(registers := d.registers[address := value]);
    EchoAcknowledges(d.slave, address, value);
    assert RepliedWith(d.slave, [value], r.exchange.arrivals);
    TwoExchangesSucceed(kind, d.slave, c, address, value, w, r);
    WriteServed(d, address, value);
    CarriedIsPlausible(l, w, d', w.frame);
    var l1 := After(l, w, Carried(l, w.frame));
    VerifyAnswered(d', address, value);
    CarriedIsPlausible(l1, r, d', reply);
    fates := [Carried(l, w.frame), Carried(l1, reply)];
    PlayTwo(l, w, r, fates);
  }

  lemma EchoAcknowledges(slave: byte, address: word, value: word)
    ensures var frame := WriteFrame(slave, address, value); frame[..8] == frame && Acknowledges(slave, frame)
  {
    EncodeAccepted(Write(slave, address, value));
  }

  lemma WriteServed(d: Device, address: word, value: word)
    requires address in d.registers
    ensures var frame := WriteFrame(d.slave, address, value);
            Serve(d, frame, None) == (d.(registers := d.registers[address := value]), frame)
  {
    hide Decode, Encode;
    DecodeOfEncode(Write(d.slave, address, value));
  }

  lemma VerifyAnswered(d: Device, address: word, value: word)
    requires HoldsValue(d, address, value)
    ensures Serve(d, VerifyFrame(d.slave, address), None) == (d, ReadReply(d.slave, READ_HOLDING, [value]))
  {
    hide Decode, Encode, ReadReply;
    DecodeOfEncode(Read(d.slave, address, 1));
    assert Values(d, address + 1, 0) == Some([]);
    assert [value] + [] == [value];
  }

  lemma PlayTwo(l: Line, w: Sent, r: Sent, fates: seq<Fate>)
    requires |fates| == 2 && Plausible(l, w, fates[0]) && Plausible(After(l, w, fates[0]), r, fates[1])
    ensures Played(l, [w, r], fates)
    ensures Final(l, [w, r], fates) == After(After(l, w, fates[0]), r, fates[1])
  {
    hide Plausible;
    assert [w, r][1..] == [r] && [r][1..] == [];
    var v1 := After(l, w, fates[0]);
    assert fates[1..][0] == fates[1];
    assert Played(After(v1, r, fates[1]), [], fates[1..][1..]);
    assert Played(v1, [r], fates[1..]);
    PlayedTwo(l, w, r, fates);
  }

  /** For instance the late reply to a write of any register and that to a read of any register that
      holds the value. */
  lemma TwoOldRepliesMislead(d: Device, address: word, value: word, other: word, x: word)
    requires !HoldsValue(d, address, value)
    ensures var replies := [WriteFrame(d.slave, other, x), ReadReply(d.slave, READ_HOLDING, [value])];
            Misled(Line(d, replies, {}), address, value)
  {
    hide Detectable, Encode, ReadReply, Acknowledges;
    var ack, read := WriteFrame(d.slave, other, x), ReadReply(d.slave, READ_HOLDING, [value]);
    var l := Line(d, [ack, read], {});
    Undamaged(ack);
    Undamaged(read);
    EchoAcknowledges(d.slave, other, x);
    assert CanAcknowledge(d.slave, ack);
    assert Claims(d.slave, value, read);
    assert CanClaim(d.slave, value, read);
    assert Waiting(l, 0) && Waiting(l, 1) && l.replies[0] == ack && l.replies[1] == read;
  }

  /** If old replies can mislead, some call is misled: both its requests are lost, it succeeds all
      the same, and the register does not hold the value. */
  lemma MisledWriteFails(l: Line, address: word, value: word) returns (c: Conn, fates: seq<Fate>)
    requires Misled(l, address, value)
    ensures !WriteRunsWell(Tcp, c, l, address, value, fates)
  {
    hide Detectable, Acknowledges, Claims, Sound, Transcript, WriteReg;
    var slave := l.device.slave;
    var i: nat, j: nat :| i != j && Waiting(l, i) && Waiting(l, j) &&
      CanAcknowledge(slave, l.replies[i]) && CanClaim(slave, value, l.replies[j]);
    var e, m, s :| ComesOut(l.replies[i], e, m, s) && 8 <= |s| && Acknowledges(slave, s[..8]);
    var f, n, t :| ComesOut(l.replies[j], f, n, t) && Claims(slave, value, t);
    var first, second := Exchange([8], [Chunk(s)]), Exchange([8], [Chunk(t)]);
    c := Conn(true, Net([first, second], [], [], []));
    fates := [Fate(None, None, Some(i), e, m), Fate(None, None, Some(j), f, n)];
    var w, r := Sent(WriteFrame(slave, address, value), first), Sent(VerifyFrame(slave, address), second);
    assert Opened(c.net, w.frame).future == [second];
    StreamOfChunk(s);
    StreamOfChunk(t);
    ClaimReplies(slave, value, t);
    TwoExchangesSucceed(Tcp, slave, c, address, value, w, r);
    PlayTwo(l, w, r, fates);
  }

  lemma StreamOfChunk(s: seq<byte>)
    ensures Stream([Chunk(s)]) == s
  {
    assert Stream([Chunk(s)][1..]) == [];
  }

  lemma ClaimReplies(slave: byte, value: word, stream: seq<byte>)
    requires Claims(slave, value, stream)
    ensures RepliedWith(slave, [value], [Chunk(stream)])
  {
    StreamOfChunk(stream);
    var func: byte :| func < EXCEPTION_FLAG && ReadReply(slave, func, [value]) <= stream;
    assert OnWire(ReadReply(slave, func, [value]), [Chunk(stream)]);
  }

  /** The exact condition: every call on this line keeps the contract if and only if no two replies
      that were under way before can mislead it. */
  lemma WriteRunsWellExactly(l: Line, address: word, value: word)
    ensures (forall kind, c, fates :: WriteRunsWell(kind, c, l, address, value, fates)) <==> !Misled(l, address, value)
  {
    hide WriteRunsWell, Misled;
    if Misled(l, address, value) {
      var c, fates := MisledWriteFails(l, address, value);
    } else {
      forall kind, c, fates ensures WriteRunsWell(kind, c, l, address, value, fates) {
        VerifiedWriteOnDevice(kind, c, l, address, value, fates);
      }
    }
  }
}
