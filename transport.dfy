/** The TCP connections to the motor boards, reduced to what the controller can observe:
    each connection delivers the bytes its board sends, in order, and every write and
    read is recorded, in the order it happens, as an event of one trace shared by all
    connections. A read that asks for more bytes than the board will ever send fails;
    it stands for the exception boost::asio raises on a short read or a reset. */
module Transport {
  import opened Bytes

  /** One completed I/O operation on connection `socket`. */
  datatype Event = Sent(socket: nat, bytes: seq<byte>) | Received(socket: nat, bytes: seq<byte>)

  /** The effect of a sequence of I/O operations: what was done, whether every operation
      completed, the bytes each connection still has to deliver afterwards, and the bytes
      of the last read. */
  datatype Run = Run(events: seq<Event>, ok: bool, inbound: seq<seq<byte>>, reply: seq<byte>)

  /** A write: the whole buffer goes out. */
  function WriteStep(inbound: seq<seq<byte>>, socket: nat, bytes: seq<byte>): Run
  {
    Run([Sent(socket, bytes)], true, inbound, [])
  }

  /** A read of exactly `length` bytes, or a failure when the connection has fewer left;
      a failed read consumes nothing and records nothing. */
  function ReadStep(inbound: seq<seq<byte>>, socket: nat, length: nat): (r: Run)
    requires socket < |inbound|
    ensures |r.inbound| == |inbound|
    ensures r.ok <==> length <= |inbound[socket]|
    ensures r.ok ==> (r.events == [Received(socket, r.reply)] && |r.reply| == length
                      && inbound[socket] == r.reply + r.inbound[socket]
                      && forall s :: 0 <= s < |inbound| && s != socket ==> r.inbound[s] == inbound[s])
    ensures !r.ok ==> r.events == [] && r.inbound == inbound
  {
    if length <= |inbound[socket]| then
      var data := inbound[socket][..length];
      Run([Received(socket, data)], true, inbound[socket := inbound[socket][length..]], data)
    else
      Run([], false, inbound, [])
  }

  /** `first`, and then `next`, which started where `first` left the connections. */
  function Then(first: Run, next: Run): Run
  {
    Run(first.events + next.events, next.ok, next.inbound, next.reply)
  }

  /** The connections of one controller process. */
  class Network {
    /** For each connection, the bytes its board has sent and that are not read yet. */
    var inbound: seq<seq<byte>>
    /** Every write and read so far, oldest first. */
    var trace: seq<Event>

    constructor(streams: seq<seq<byte>>)
      ensures inbound == streams && trace == []
    {
      inbound := streams;
      trace := [];
    }

    /** boost::asio::write */
    method Write(socket: nat, bytes: seq<byte>)
      requires socket < |inbound|
      modifies this
      ensures var r := WriteStep(old(inbound), socket, bytes);
        inbound == r.inbound && trace == old(trace) + r.events
    {
      trace := trace + [Sent(socket, bytes)];
    }

    /** boost::asio::read of exactly `length` bytes */
    method Read(socket: nat, length: nat) returns (ok: bool, data: seq<byte>)
      requires socket < |inbound|
      modifies this
      ensures var r := ReadStep(old(inbound), socket, length);
        ok == r.ok && data == r.reply && inbound == r.inbound && trace == old(trace) + r.events
    {
      ok := length <= |inbound[socket]|;
      if ok {
        data := inbound[socket][..length];
        inbound := inbound[socket := inbound[socket][length..]];
        trace := trace + [Received(socket, data)];
      } else {
        data := [];
      }
    }
  }
}
