/** The two Modbus RTU clients: src/modbus_client.c (a TCP gateway) and
    src/modbus/modbus_serial_client.c (a serial port).

    The C files repeat each other except in two places, which `Kind` selects: the
    TCP client hands a frame to one write call and does not touch `connected` when
    a write attempt fails; the serial client repeats partial writes and clears
    `connected` as soon as a write attempt cannot send or receive. */
module RtuClient {
  import opened Wrappers
  import opened Words
  import opened Crc16
  import opened RtuFrame
  import opened Link

  const MAX_FRAME := 256
  const READ_HEADER_LEN := 3
  const WRITE_MAX_RETRIES := 3

  datatype Kind = Tcp | Serial

  datatype Conn = Conn(connected: bool, net: Net)

  // ---- Specification functions ----

  /** Whether the write calls of an exchange take a whole frame, and which remain. */
  function Send(kind: Kind, writes: seq<int>, len: nat): (bool, seq<int>)
    decreases len, |writes|
  {
    if writes == [] then (false, [])
    else if kind.Tcp? then (writes[0] >= len, writes[1..])
    else if writes[0] <= 0 then (false, writes[1..])
    else if writes[0] >= len then (true, writes[1..])
    else Send(kind, writes[1..], len - writes[0])
  }

  function Transmit(kind: Kind, net: Net, frame: seq<byte>): (Net, bool) {
    var open := Opened(net, frame);
    var (ok, rest) := Send(kind, open.writes, |frame|);
    (open.(writes := rest), ok)
  }

  /** The body and checksum of a reply whose header was accepted. */
  function ReadBody(header: seq<byte>, count: word, net: Net): (Conn, Option<seq<word>>)
    requires |header| == READ_HEADER_LEN && header[2] == 2 * count
  {
    var tail := Take(net.arrivals, 2 * count + 2);
    var net1 := net.(arrivals := tail.rest);
    if tail.data.None? then (Conn(false, net1), None)
    else if !Accepts(header + tail.data.value) then (Conn(true, net1), None)
    else (Conn(true, net1), Some(Registers(tail.data.value, count)))
  }

  /** Everything a read does after its request is out. */
  function ReadResponse(slave: byte, count: word, net: Net): (Conn, Option<seq<word>>) {
    var head := Take(net.arrivals, READ_HEADER_LEN);
    var net1 := net.(arrivals := head.rest);
    if head.data.None? then (Conn(false, net1), None)
    else
      var header := head.data.value;
      if header[0] != slave then (Conn(true, net1), None)
      else if header[1] >= EXCEPTION_FLAG then
        (Conn(true, net.(arrivals := Take(head.rest, 2).rest)), None)
      else if header[2] != 2 * count then (Conn(true, net1), None)
      else ReadBody(header, count, net1)
  }

  function ReadRegs(kind: Kind, slave: byte, c: Conn, address: word, count: word): (Conn, Option<seq<word>>) {
    if !c.connected || count == 0 then (c, None)
    else
      var (net, sent) := Transmit(kind, c.net, Encode(Read(slave, address, count)));
      if !sent then (Conn(false, net), None) else ReadResponse(slave, count, net)
  }

  /** An attempt that could not send or receive: only the serial client notices. */
  function LinkLost(kind: Kind, c: Conn): Conn {
    if kind.Serial? then c.(connected := false) else c
  }

  /** Slave, function code and checksum are compared; the echoed address and value are not. */
  predicate Acknowledges(slave: byte, response: seq<byte>)
    requires |response| == 8
  {
    response[1] < EXCEPTION_FLAG && response[0] == slave && response[1] == WRITE_SINGLE && Accepts(response)
  }

  function Attempt(kind: Kind, slave: byte, c: Conn, address: word, value: word): (Conn, bool) {
    var (net, sent) := Transmit(kind, c.net, Encode(Write(slave, address, value)));
    if !sent then (LinkLost(kind, c.(net := net)), false)
    else
      var reply := Take(net.arrivals, 8);
      var c1 := c.(net := net.(arrivals := reply.rest));
      if reply.data.None? then (LinkLost(kind, c1), false)
      else if !Acknowledges(slave, reply.data.value) then (c1, false)
      else
        var (c2, read) := ReadRegs(kind, slave, c1, address, 1);
        (c2, read == Some([value]))
  }

  function Attempts(kind: Kind, slave: byte, c: Conn, address: word, value: word, tries: nat): (Conn, bool)
    decreases tries
  {
    if tries == 0 then (c, false)
    else
      var (c1, ok) := Attempt(kind, slave, c, address, value);
      if ok then (c1, true) else Attempts(kind, slave, c1, address, value, tries - 1)
  }

  function WriteReg(kind: Kind, slave: byte, c: Conn, address: word, value: word): (Conn, bool) {
    if !c.connected then (c, false) else Attempts(kind, slave, c, address, value, WRITE_MAX_RETRIES)
  }

  // ---- Which replies fit ----

  /** A reply with this many data bytes, header and checksum included, fits a frame buffer. */
  predicate FitsBuffer(byteCount: byte) { READ_HEADER_LEN + byteCount + 2 <= MAX_FRAME }

  /** The body of a read is received only when the one-byte count in the header equals twice the
      requested count. Such a reply overruns the buffer for counts of 126 and 127 and for no others:
      larger counts do not fit the byte, and are always refused. */
  lemma OverrunExactly(count: word)
    ensures (exists byteCount: byte :: byteCount == 2 * count && !FitsBuffer(byteCount)) <==> count == 126 || count == 127
  {
    if count == 126 || count == 127 {
      var byteCount: byte := 2 * count;
      assert !FitsBuffer(byteCount);
    }
  }

  // ---- The client objects ----

  class Client {
    const kind: Kind
    const slave: byte
    const port: Port
    var connected: bool

    constructor (kind: Kind, slave: byte, port: Port)
      ensures this.kind == kind && this.slave == slave && this.port == port && !connected
    {
      this.kind, this.slave, this.port, connected := kind, slave, port, false;
    }

    function State(): Conn
      reads this, port
    {
      Conn(connected, port.State())
    }

    method SendFrame(frame: array<byte>, len: nat) returns (ok: bool)
      requires 0 < len <= frame.Length
      modifies port
      ensures (port.State(), ok) == Transmit(kind, old(port.State()), frame[..len])
    {
      port.Flush(frame[..len]);
      ghost var open := port.State();
      if kind.Tcp? {
        var sent := port.Write(len);
        return sent == len;
      }
      var total := 0;
      while total < len
        invariant 0 <= total <= len
        invariant total < len ==> Send(kind, open.writes, len) == Send(kind, port.writes, len - total)
        invariant total == len ==> Send(kind, open.writes, len) == (true, port.writes)
        invariant port.State() == open.(writes := port.writes)
      {
        var sent := port.Write(len - total);
        if sent <= 0 {
          return false;
        }
        total := total + sent;
      }
      ok := true;
    }

    method ReceiveExact(buffer: array<byte>, expected: nat) returns (ok: bool)
      requires expected <= buffer.Length
      modifies port, buffer
      ensures var r := Take(old(port.arrivals), expected);
              && port.State() == old(port.State()).(arrivals := r.rest)
              && ok == r.data.Some?
              && (ok ==> buffer[..expected] == r.data.value)
    {
      ghost var before := port.State();
      ghost var whole := Take(port.arrivals, expected);
      var total := 0;
      JoinedEmpty(whole.data);
      while total < expected
        invariant 0 <= total <= expected
        invariant port.State() == before.(arrivals := port.arrivals)
        invariant whole.rest == Take(port.arrivals, expected - total).rest
        invariant whole.data == Joined(buffer[..total], Take(port.arrivals, expected - total).data)
      {
        ghost var got := buffer[..total];
        var bytes := port.Read(expected - total);
        if bytes == [] {
          return false;
        }
        Store(buffer, total, bytes);
        total := total + |bytes|;
        JoinedAssoc(got, bytes, Take(port.arrivals, expected - total).data);
      }
      ok := true;
    }

    /** The CRC comparison over header and body, put together in one buffer. */
    method FrameAccepted(header: array<byte>, body: array<byte>, remaining: nat) returns (ok: bool)
      requires header.Length == READ_HEADER_LEN && 2 <= remaining <= body.Length
      requires READ_HEADER_LEN + remaining <= MAX_FRAME
      ensures ok == Accepts(header[..] + body[..remaining])
    {
      var fullFrame := new byte[MAX_FRAME];
      var totalLen := READ_HEADER_LEN + remaining;
      fullFrame[0] := header[0];
      fullFrame[1] := header[1];
      fullFrame[2] := header[2];
      forall i | 0 <= i < remaining {
        fullFrame[3 + i] := body[i];
      }
      assert fullFrame[..totalLen] == header[..] + body[..remaining];
      var received := Word(fullFrame[totalLen - 2], fullFrame[totalLen - 1]);
      var calculated := Compute(fullFrame, totalLen - 2);
      assert fullFrame[..totalLen][..totalLen - 2] == fullFrame[..totalLen - 2];
      ok := received == calculated;
    }

    /** The part of a read that follows its request. */
    method ReceiveReply(values: array<word>, count: word) returns (ok: bool)
      requires connected && 0 < count <= values.Length && count != 126 && count != 127
      modifies this, port, values
      ensures var (c, read) := ReadResponse(slave, count, old(port.State()));
              && State() == c
              && ok == read.Some?
              && (ok ==> values[..count] == read.value)
              && (!ok ==> values[..] == old(values[..]))
      ensures values[count..] == old(values[count..])
    {
      ghost var net := port.State();
      var header := new byte[READ_HEADER_LEN];
      ok := ReceiveExact(header, READ_HEADER_LEN);
      if !ok {
        connected := false;
        return false;
      }
      assert header[..] == header[..READ_HEADER_LEN];
      if header[0] != slave {
        return false;
      }
      if header[1] >= EXCEPTION_FLAG {
        var exceptionCrc := new byte[2];
        var _ := ReceiveExact(exceptionCrc, 2);
        return false;
      }
      var byteCount := header[2];
      if byteCount != count * 2 {
        return false;
      }
      ok := ReceiveBody(header, values, count);
    }

    method ReceiveBody(header: array<byte>, values: array<word>, count: word) returns (ok: bool)
      requires connected && 0 < count <= values.Length && count != 126 && count != 127
      requires header.Length == READ_HEADER_LEN && header[2] == 2 * count
      modifies this, port, values
      ensures var (c, read) := ReadBody(old(header[..]), count, old(port.State()));
              && State() == c
              && ok == read.Some?
              && (ok ==> values[..count] == read.value)
              && (!ok ==> values[..] == old(values[..]))
      ensures values[count..] == old(values[count..])
    {
      ghost var net, head := port.State(), header[..];
      var dataAndCrc := new byte[MAX_FRAME];
      var remaining := (header[2] as nat) + 2;
      ok := ReceiveExact(dataAndCrc, remaining);
      if !ok {
        connected := false;
        return false;
      }
      ok := FrameAccepted(header, dataAndCrc, remaining);
      if !ok {
        return false;
      }
      assert ReadBody(head, count, net) == (State(), Some(Registers(dataAndCrc[..remaining], count)));
      StoreRegisters(dataAndCrc, remaining, values, count);
    }

    method ReadInternal(address: word, values: array<word>, count: word, single: bool) returns (ok: bool)
      requires count <= values.Length && count != 126 && count != 127 && (single ==> count == 1)
      modifies this, port, values
      ensures var (c, read) := ReadRegs(kind, slave, old(State()), address, count);
              && State() == c
              && ok == read.Some?
              && (ok ==> values[..count] == read.value)
              && (!ok ==> values[..] == old(values[..]))
      ensures values[count..] == old(values[count..])
    {
      if !connected || count == 0 {
        return false;
      }
      var frame := new byte[MAX_FRAME];
      var readCount := if single then 1 else count;
      BuildReadFrame(frame, slave, address, readCount);
      var sent := SendFrame(frame, 8);
      if !sent {
        connected := false;
        return false;
      }
      ok := ReceiveReply(values, readCount);
    }

    method ReadRegister(address: word) returns (ok: bool, value: word)
      modifies this, port
      ensures var (c, read) := ReadRegs(kind, slave, old(State()), address, 1);
              && State() == c
              && ok == read.Some?
              && (ok ==> read == Some([value]))
    {
      var cell := new word[1];
      ok := ReadInternal(address, cell, 1, true);
      value := cell[0];
      assert cell[..1] == [value];
    }

    method WriteAcknowledged(response: array<byte>) returns (ok: bool)
      requires response.Length == 8
      ensures ok == Acknowledges(slave, response[..8])
    {
      if response[1] >= EXCEPTION_FLAG {
        return false;
      }
      if response[0] != slave || response[1] != WRITE_SINGLE {
        return false;
      }
      var received := Word(response[6], response[7]);
      var calculated := Compute(response, 6);
      assert response[..8][..6] == response[..6];
      ok := received == calculated;
    }

    method WriteAttempt(address: word, value: word) returns (ok: bool)
      modifies this, port
      ensures (State(), ok) == Attempt(kind, slave, old(State()), address, value)
    {
      var frame := new byte[MAX_FRAME];
      BuildWriteFrame(frame, slave, address, value);
      var sent := SendFrame(frame, 8);
      if !sent {
        if kind.Serial? { connected := false; }
        return false;
      }
      var response := new byte[8];
      var got := ReceiveExact(response, 8);
      if !got {
        if kind.Serial? { connected := false; }
        return false;
      }
      var acknowledged := WriteAcknowledged(response);
      if !acknowledged {
        return false;
      }
      var read, readValue := ReadRegister(address);
      ok := read && readValue == value;
    }

    /** Up to three attempts, each verified by reading the register back. */
    method WriteRegister(address: word, value: word) returns (ok: bool)
      modifies this, port
      ensures (State(), ok) == WriteReg(kind, slave, old(State()), address, value)
    {
      if !connected {
        return false;
      }
      for retry := 0 to WRITE_MAX_RETRIES
        invariant WriteReg(kind, slave, old(State()), address, value)
               == Attempts(kind, slave, State(), address, value, WRITE_MAX_RETRIES - retry)
      {
        ok := WriteAttempt(address, value);
        if ok {
          return true;
        }
      }
      ok := false;
    }
  }

  method StoreRegisters(data: array<byte>, len: nat, values: array<word>, count: nat)
    requires data as object != values as object
    requires 2 * count <= len <= data.Length && count <= values.Length
    modifies values
    ensures values[..count] == Registers(data[..len], count)
    ensures values[count..] == old(values[count..])
  {
    for i := 0 to count
      invariant forall j :: 0 <= j < i ==> values[j] == FromBytes(data[2 * j], data[2 * j + 1])
      invariant values[count..] == old(values[count..])
    {
      values[i] := FromBytes(data[i * 2], data[i * 2 + 1]);
    }
  }

  method Store(buffer: array<byte>, offset: nat, bytes: seq<byte>)
    requires offset + |bytes| <= buffer.Length
    modifies buffer
    ensures buffer[..offset + |bytes|] == old(buffer[..offset]) + bytes
  {
    forall i | 0 <= i < |bytes| {
      buffer[offset + i] := bytes[i];
    }
  }

  lemma JoinedEmpty(more: Option<seq<byte>>)
    ensures Joined([], more) == more
  {
    if more.Some? {
      assert [] + more.value == more.value;
    }
  }

  ghost function Joined(prefix: seq<byte>, more: Option<seq<byte>>): Option<seq<byte>> {
    if more.None? then None else Some(prefix + more.value)
  }

  lemma JoinedAssoc(a: seq<byte>, b: seq<byte>, more: Option<seq<byte>>)
    ensures Joined(a, Joined(b, more)) == Joined(a + b, more)
  {
    if more.Some? {
      assert a + (b + more.value) == (a + b) + more.value;
    }
  }
}
