/** The byte transport under both Modbus clients, as an oracle.

    Sockets and serial ports are foreign code. What they do is scripted ahead: for
    every frame that will be sent, one `Exchange` says what the write calls return
    and what can be read before the next flush. A script is arbitrary, so a theorem
    about every script is a theorem about every behaviour of the line. */
module Link {
  import opened Wrappers
  import opened Words

  /** Silence is a time-out; Fault an error return. An empty chunk is an end of stream. */
  datatype Arrival = Chunk(bytes: seq<byte>) | Silence | Fault

  datatype Exchange = Exchange(writes: seq<int>, arrivals: seq<Arrival>)

  datatype Sent = Sent(frame: seq<byte>, exchange: Exchange)

  datatype Net = Net(future: seq<Exchange>, writes: seq<int>, arrivals: seq<Arrival>, log: seq<Sent>)

  datatype Received = Received(data: Option<seq<byte>>, rest: seq<Arrival>)

  /** The exchange the next frame meets; beyond the script the line is dead. */
  function Next(net: Net): Exchange {
    if net.future == [] then Exchange([], []) else net.future[0]
  }

  /** Flushing drops what is still unread and starts the next exchange. */
  function Opened(net: Net, frame: seq<byte>): Net {
    Net(if net.future == [] then [] else net.future[1..], Next(net).writes, Next(net).arrivals,
        net.log + [Sent(frame, Next(net))])
  }

  /** One receive call for at most `max` bytes. */
  function Receive(arrivals: seq<Arrival>, max: nat): Received {
    if arrivals == [] then Received(None, [])
    else match arrivals[0]
      case Chunk(bytes) =>
        if |bytes| == 0 then Received(None, arrivals[1..])
        else if |bytes| <= max then Received(Some(bytes), arrivals[1..])
        else Received(Some(bytes[..max]), [Chunk(bytes[max..])] + arrivals[1..])
      case _ => Received(None, arrivals[1..])
  }

  /** Receive calls repeated until exactly `n` bytes are there or a call fails. */
  function Take(arrivals: seq<Arrival>, n: nat): (r: Received)
    ensures r.data.Some? ==> |r.data.value| == n
    decreases n, |arrivals|
  {
    if n == 0 then Received(Some([]), arrivals)
    else
      var first := Receive(arrivals, n);
      if first.data.None? then first
      else
        var more := Take(first.rest, n - |first.data.value|);
        Received(if more.data.None? then None else Some(first.data.value + more.data.value), more.rest)
  }

  /** The bytes that can be read before the first time-out, error or end of stream. */
  function Stream(arrivals: seq<Arrival>): seq<byte> {
    if arrivals == [] || !arrivals[0].Chunk? || arrivals[0].bytes == [] then []
    else arrivals[0].bytes + Stream(arrivals[1..])
  }

  /** How a stream is cut into chunks never matters: an exact read succeeds when enough
      bytes come at all, returns the first ones, and leaves precisely the others. */
  lemma {:induction false} TakeIsStream(arrivals: seq<Arrival>, n: nat)
    ensures Take(arrivals, n).data
         == if n <= |Stream(arrivals)| then Some(Stream(arrivals)[..n]) else None
    ensures n <= |Stream(arrivals)| ==> Stream(Take(arrivals, n).rest) == Stream(arrivals)[n..]
    decreases n, |arrivals|
  {
    if n > 0 && arrivals != [] && arrivals[0].Chunk? && arrivals[0].bytes != [] {
      var bytes, tail := arrivals[0].bytes, arrivals[1..];
      var all, later := Stream(arrivals), Stream(tail);
      assert all == bytes + later;
      if |bytes| <= n {
        var m := n - |bytes|;
        TakeIsStream(tail, m);
        if m <= |later| {
          assert all[..n] == bytes + later[..m];
          assert all[n..] == later[m..];
        }
      } else {
        TakePart(arrivals, n);
      }
    }
  }

  lemma TakePart(arrivals: seq<Arrival>, n: nat)
    requires arrivals != [] && arrivals[0].Chunk? && 0 < n < |arrivals[0].bytes|
    ensures Take(arrivals, n).data == Some(Stream(arrivals)[..n])
    ensures Stream(Take(arrivals, n).rest) == Stream(arrivals)[n..]
  {
    var bytes, tail := arrivals[0].bytes, arrivals[1..];
    var rest := [Chunk(bytes[n..])] + tail;
    assert rest[1..] == tail;
    assert Take(rest, 0) == Received(Some([]), rest);
    assert bytes[..n] + [] == bytes[..n] == Stream(arrivals)[..n];
    assert Stream(rest) == bytes[n..] + Stream(tail) == Stream(arrivals)[n..];
  }

  class Port {
    var future: seq<Exchange>
    var writes: seq<int>
    var arrivals: seq<Arrival>
    var log: seq<Sent>

    function State(): Net
      reads this
    {
      Net(future, writes, arrivals, log)
    }

    constructor (script: seq<Exchange>)
      ensures State() == Net(script, [], [], [])
    {
      future, writes, arrivals, log := script, [], [], [];
    }

    method Flush(frame: seq<byte>)
      modifies this
      ensures State() == Opened(old(State()), frame)
    {
      var next := if future == [] then Exchange([], []) else future[0];
      future := if future == [] then [] else future[1..];
      writes, arrivals := next.writes, next.arrivals;
      log := log + [Sent(frame, next)];
    }

    /** One write call for `len` bytes; no more than `len` are ever taken. */
    method Write(len: nat) returns (n: int)
      modifies this
      ensures n == if old(writes) == [] then -1 else if old(writes)[0] <= len then old(writes)[0] else len
      ensures State() == old(State()).(writes := if old(writes) == [] then [] else old(writes)[1..])
    {
      if writes == [] {
        return -1;
      }
      n := if writes[0] <= len then writes[0] else len;
      writes := writes[1..];
    }

    /** One receive call: an empty result stands for a time-out, an error or an end of stream. */
    method Read(max: nat) returns (bytes: seq<byte>)
      requires max > 0
      modifies this
      ensures var r := Receive(old(arrivals), max);
              State() == old(State()).(arrivals := r.rest) &&
              bytes == (if r.data.None? then [] else r.data.value) && |bytes| <= max
      ensures bytes == [] <==> Receive(old(arrivals), max).data.None?
    {
      if arrivals == [] {
        return [];
      }
      var first := arrivals[0];
      arrivals := arrivals[1..];
      match first {
        case Chunk(chunk) =>
          if |chunk| <= max {
            bytes := chunk;
          } else {
            bytes := chunk[..max];
            arrivals := [Chunk(chunk[max..])] + arrivals;
          }
        case _ =>
          bytes := [];
      }
    }
  }
}
