/** Request and reply frames of Modbus RTU: src/modbus/modbus_rtu_frame.c, and the
    other side of the line as sections 6.3, 6.6 and 7 of "MODBUS Application
    Protocol V1.1b3" describe it. */
module RtuFrame {
  import opened Wrappers
  import opened Words
  import opened Crc16

  const READ_HOLDING: byte := 0x03
  const WRITE_SINGLE: byte := 0x06
  const EXCEPTION_FLAG: byte := 0x80

  datatype Request =
    | Read(slave: byte, address: word, count: word)
    | Write(slave: byte, address: word, value: word)

  function Hi(w: word): byte { w / 0x100 }
  function Lo(w: word): byte { w % 0x100 }
  function FromBytes(hi: byte, lo: byte): word { 0x100 * hi + lo }

  /** A body followed by its checksum, low byte first. */
  function Sealed(body: seq<byte>): (frame: seq<byte>)
    ensures |frame| == |body| + 2
  {
    body + [Lo(Checksum(body)), Hi(Checksum(body))]
  }

  /** Sealing is the only way to build an acceptable frame. */
  lemma SealedIsAccepted(frame: seq<byte>)
    requires |frame| >= 2
    ensures Accepts(frame) <==> frame == Sealed(frame[..|frame| - 2])
  {
    var n := |frame| - 2;
    assert frame == frame[..n] + [frame[n], frame[n + 1]];
  }

  lemma SealedAccepts(body: seq<byte>)
    ensures Accepts(Sealed(body))
  {
    assert Sealed(body)[..|body|] == body;
  }

  function Encode(request: Request): (frame: seq<byte>)
    ensures |frame| == 8
  {
    match request
    case Read(slave, address, count) =>
      Sealed([slave, READ_HOLDING, Hi(address), Lo(address), Hi(count), Lo(count)])
    case Write(slave, address, value) =>
      Sealed([slave, WRITE_SINGLE, Hi(address), Lo(address), Hi(value), Lo(value)])
  }

  /** Where everything stands: registers and values high byte first, the checksum low byte first. */
  lemma FrameLayout(slave: byte, address: word, x: word)
    ensures var read, write := Encode(Read(slave, address, x)), Encode(Write(slave, address, x));
            && read[0] == write[0] == slave && read[1] == 3 && write[1] == 6
            && read[2] == write[2] == address / 0x100 && read[3] == write[3] == address % 0x100
            && read[4] == write[4] == x / 0x100 && read[5] == write[5] == x % 0x100
            && read[6] == Checksum(read[..6]) % 0x100 && read[7] == Checksum(read[..6]) / 0x100
            && write[6] == Checksum(write[..6]) % 0x100 && write[7] == Checksum(write[..6]) / 0x100
  {
    hide Checksum;
    var read, write := Encode(Read(slave, address, x)), Encode(Write(slave, address, x));
    assert read == Sealed(read[..6]) && write == Sealed(write[..6]);
  }

  /** What a device makes of a frame: nothing, unless length, checksum and function code fit. */
  function Decode(frame: seq<byte>): Option<Request> {
    if |frame| != 8 || !Accepts(frame) then None
    else if frame[1] == READ_HOLDING then
      Some(Read(frame[0], FromBytes(frame[2], frame[3]), FromBytes(frame[4], frame[5])))
    else if frame[1] == WRITE_SINGLE then
      Some(Write(frame[0], FromBytes(frame[2], frame[3]), FromBytes(frame[4], frame[5])))
    else None
  }

  lemma DecodeOfEncode(request: Request)
    ensures Decode(Encode(request)) == Some(request)
  {
    hide Checksum;
    var frame := Encode(request);
    SealedAccepts(frame[..6]);
    assert frame == Sealed(frame[..6]);
  }

  lemma BytesBack(hi: byte, lo: byte)
    ensures Hi(FromBytes(hi, lo)) == hi && Lo(FromBytes(hi, lo)) == lo
  {}

  lemma EncodeOfDecode(frame: seq<byte>)
    requires Decode(frame).Some?
    ensures Encode(Decode(frame).value) == frame
  {
    hide Checksum;
    SealedIsAccepted(frame);
    BytesBack(frame[2], frame[3]);
    BytesBack(frame[4], frame[5]);
    assert frame[..6] == [frame[0], frame[1], frame[2], frame[3], frame[4], frame[5]];
  }

  /** A frame is read as a request exactly when it is that request's encoding. */
  lemma DecodeEncode(frame: seq<byte>, request: Request)
    ensures Decode(frame) == Some(request) <==> frame == Encode(request)
  {
    hide Accepts, Sealed;
    if frame == Encode(request) {
      DecodeOfEncode(request);
    } else if Decode(frame).Some? {
      EncodeOfDecode(frame);
    }
  }

  /** Fills the caller's buffer with a read request; bytes from 8 on are left alone. */
  method BuildReadFrame(frame: array<byte>, slave: byte, address: word, count: word)
    requires frame.Length >= 8
    modifies frame
    ensures frame[..8] == Encode(Read(slave, address, count))
    ensures frame[8..] == old(frame[8..])
  {
    frame[0] := slave;
    frame[1] := READ_HOLDING;
    frame[2] := (address / 0x100) % 0x100;
    frame[3] := address % 0x100;
    frame[4] := (count / 0x100) % 0x100;
    frame[5] := count % 0x100;
    assert frame[..6] == [slave, READ_HOLDING, Hi(address), Lo(address), Hi(count), Lo(count)];
    ghost var body := frame[..6];
    var crc := Compute(frame, 6);
    frame[6] := crc % 0x100;
    frame[7] := (crc / 0x100) % 0x100;
    assert frame[..8] == body + [Lo(crc), Hi(crc)];
  }

  /** Fills the caller's buffer with a write request; bytes from 8 on are left alone. */
  method BuildWriteFrame(frame: array<byte>, slave: byte, address: word, value: word)
    requires frame.Length >= 8
    modifies frame
    ensures frame[..8] == Encode(Write(slave, address, value))
    ensures frame[8..] == old(frame[8..])
  {
    frame[0] := slave;
    frame[1] := WRITE_SINGLE;
    frame[2] := (address / 0x100) % 0x100;
    frame[3] := address % 0x100;
    frame[4] := (value / 0x100) % 0x100;
    frame[5] := value % 0x100;
    assert frame[..6] == [slave, WRITE_SINGLE, Hi(address), Lo(address), Hi(value), Lo(value)];
    ghost var body := frame[..6];
    var crc := Compute(frame, 6);
    frame[6] := crc % 0x100;
    frame[7] := (crc / 0x100) % 0x100;
    assert frame[..8] == body + [Lo(crc), Hi(crc)];
  }

  // ---- Replies ----

  /** Register values, high byte first. */
  function Payload(values: seq<word>): (r: seq<byte>)
    ensures |r| == 2 * |values|
  {
    if values == [] then [] else Payload(values[..|values| - 1]) + [Hi(values[|values| - 1]), Lo(values[|values| - 1])]
  }

  /** The registers held by the first `2 * count` bytes. */
  function Registers(data: seq<byte>, count: nat): (r: seq<word>)
    requires 2 * count <= |data|
    ensures |r| == count
    ensures forall i :: 0 <= i < count ==> r[i] == FromBytes(data[2 * i], data[2 * i + 1])
  {
    seq(count, i requires 0 <= i < count => FromBytes(data[2 * i], data[2 * i + 1]))
  }

  lemma {:induction false} PayloadAt(values: seq<word>, i: nat)
    requires i < |values|
    ensures Payload(values)[2 * i] == Hi(values[i]) && Payload(values)[2 * i + 1] == Lo(values[i])
  {
    var n := |values| - 1;
    if i < n {
      PayloadAt(values[..n], i);
    }
  }

  lemma RegisterAt(data: seq<byte>, values: seq<word>, i: nat)
    requires i < |values| && 2 * |values| <= |data|
    requires data[..2 * |values|] == Payload(values)
    ensures Registers(data, |values|)[i] == values[i]
  {
    PayloadAt(values, i);
    HiLo(values[i]);
    assert data[2 * i] == data[..2 * |values|][2 * i];
    assert data[2 * i + 1] == data[..2 * |values|][2 * i + 1];
  }

  lemma PayloadRegisters(data: seq<byte>, values: seq<word>)
    requires 2 * |values| <= |data| && data[..2 * |values|] == Payload(values)
    ensures Registers(data, |values|) == values
  {
    forall i | 0 <= i < |values| ensures Registers(data, |values|)[i] == values[i] {
      RegisterAt(data, values, i);
    }
  }

  lemma HiLo(w: word)
    ensures FromBytes(Hi(w), Lo(w)) == w
  {}

  lemma RegistersFront(data: seq<byte>, n: nat)
    requires |data| == 2 * n + 2
    ensures Registers(data, n + 1)[..n] == Registers(data[..2 * n], n)
  {
    var front, values := Registers(data[..2 * n], n), Registers(data, n + 1);
    forall i | 0 <= i < n ensures values[i] == front[i] {
      assert front[i] == FromBytes(data[..2 * n][2 * i], data[..2 * n][2 * i + 1]);
    }
  }

  lemma PayloadLast(values: seq<word>, n: nat, hi: byte, lo: byte)
    requires |values| == n + 1 && values[n] == FromBytes(hi, lo)
    ensures Payload(values) == Payload(values[..n]) + [hi, lo]
  {
    BytesBack(hi, lo);
  }

  lemma {:induction false} RegistersPayload(data: seq<byte>, count: nat)
    requires |data| == 2 * count
    ensures Payload(Registers(data, count)) == data
    decreases count
  {
    if count > 0 {
      var n := count - 1;
      RegistersFront(data, n);
      RegistersPayload(data[..2 * n], n);
      PayloadLast(Registers(data, count), n, data[2 * n], data[2 * n + 1]);
      assert data == data[..2 * n] + [data[2 * n], data[2 * n + 1]];
    }
  }

  /** A reply that carries registers; the standard fixes `func` to 0x03. */
  function ReadReply(slave: byte, func: byte, values: seq<word>): (frame: seq<byte>)
    requires |values| <= 127
    ensures |frame| == 5 + 2 * |values|
  {
    Sealed([slave, func, 2 * |values|] + Payload(values))
  }

  function ExceptionReply(slave: byte, func: byte, code: byte): (frame: seq<byte>)
    requires func < EXCEPTION_FLAG
    ensures |frame| == 5
  {
    Sealed([slave, func + EXCEPTION_FLAG, code])
  }
}
