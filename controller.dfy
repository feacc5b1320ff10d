/** The controller of a pair of stepper-motor boards: it logs in to every board once,
    then drives the two boards in lockstep. Every `move` and `stop` sends one command
    frame to the board on channel 0 and waits for its status reply before it sends the
    command frame for channel 1 and waits for that reply. */
module Control {
  import opened Bytes
  import opened CommandWord
  import opened Frames
  import opened Motion
  import opened Opt
  import opened Transport

  /** The access byte of a granted login. */
  const OkAccess: byte := 0x01

  /** Bytes read for the login reply and for a status reply: one less than the struct size. */
  const ResponseRead := ResponseSize - 1
  const StatusRead := StatusSize - 1

  /** The size of the stack buffer `receive` reads into. */
  const ReceiveBuffer := 1024

  /** What `receive` returns for the bytes it read: byte 8, which in a frame is payload
      byte 2, when the read reached it; 0 for a shorter read. A nonzero value therefore
      always comes from a read that covered payload byte 2. */
  function ReceiveValue(data: seq<byte>): (v: byte)
    ensures |data| > HeaderSize + 2 ==> v == data[HeaderSize..][2]
    ensures v != 0 ==> |data| > HeaderSize + 2
  {
    if |data| > 8 then data[8] else 0
  }

  /** `send` of a frame followed by `receive` of `length` bytes on the same connection. */
  function Exchange(inbound: seq<seq<byte>>, socket: nat, frame: seq<byte>, length: nat): (r: Run)
    requires socket < |inbound|
    ensures |r.inbound| == |inbound|
    ensures r.ok <==> length <= |inbound[socket]|
  {
    Then(WriteStep(inbound, socket, frame), ReadStep(inbound, socket, length))
  }

  /** One frame to channel `s0` and its reply, then one frame to channel `s1` and its
      reply. Channel 1 is written only once channel 0's reply has been read in full: if
      that read fails, channel 1 is never touched. */
  function Lockstep(inbound: seq<seq<byte>>, s0: nat, f0: seq<byte>, s1: nat, f1: seq<byte>): (r: Run)
    requires s0 < |inbound| && s1 < |inbound| && s0 != s1
    ensures |r.inbound| == |inbound|
    ensures r.ok <==> StatusRead <= |inbound[s0]| && StatusRead <= |inbound[s1]|
    ensures r.ok ==> r.events == [Sent(s0, f0), Received(s0, inbound[s0][..StatusRead]),
                                  Sent(s1, f1), Received(s1, inbound[s1][..StatusRead])]
    ensures r.ok ==> r.inbound == inbound[s0 := inbound[s0][StatusRead..]][s1 := inbound[s1][StatusRead..]]
    ensures |inbound[s0]| < StatusRead ==> r.events == [Sent(s0, f0)] && r.inbound == inbound
    ensures forall e :: e in r.events && e.Sent? ==> e == Sent(s0, f0) || e == Sent(s1, f1)
    ensures forall i, j :: 0 <= i < j < |r.events| && r.events[i].socket == s1 ==> r.events[j].socket == s1
    ensures forall j :: 0 <= j < |r.events| && r.events[j].socket == s1 ==>
              1 < j && r.events[1] == Received(s0, inbound[s0][..StatusRead])
  {
    var first := Exchange(inbound, s0, f0, StatusRead);
    if !first.ok then first
    else
      var second := Exchange(first.inbound, s1, f1, StatusRead);
      Then(first, second)
  }

  /** The result of the login handshake on one connection. */
  datatype Login = Login(run: Run, ready: bool)

  /** The handshake of the constructor: read the 6-byte REQUEST the board sends first,
      send the PASSWORD frame, read 13 bytes of the RESPONSE and look at byte 8 of them.
      The board's verdict only decides `ready`; either verdict completes the handshake. */
  function Handshake(inbound: seq<seq<byte>>, socket: nat): (l: Login)
    requires socket < |inbound|
    ensures |l.run.inbound| == |inbound|
    ensures l.run.ok <==> RequestSize + ResponseRead <= |inbound[socket]|
    ensures l.run.ok ==> l.run.events == [Received(socket, inbound[socket][..RequestSize]),
                                          Sent(socket, PasswordFrame()),
                                          Received(socket, inbound[socket][RequestSize..RequestSize + ResponseRead])]
    ensures l.run.ok ==> l.run.inbound == inbound[socket := inbound[socket][RequestSize + ResponseRead..]]
    ensures !l.run.ok && |inbound[socket]| < RequestSize ==> l.run.events == []
    ensures !l.run.ok && RequestSize <= |inbound[socket]| ==>
              l.run.events == [Received(socket, inbound[socket][..RequestSize]), Sent(socket, PasswordFrame())]
    ensures l.ready <==> l.run.ok && inbound[socket][RequestSize + 8] == OkAccess
  {
    var greeting := ReadStep(inbound, socket, RequestSize);
    if !greeting.ok then Login(greeting, false)
    else
      var rest := inbound[socket][RequestSize..];
      assert greeting.inbound[socket] == rest;
      var reply := Exchange(greeting.inbound, socket, PasswordFrame(), ResponseRead);
      assert reply.ok ==> reply.reply == rest[..ResponseRead] == inbound[socket][RequestSize..RequestSize + ResponseRead];
      assert reply.ok ==> reply.inbound[socket] == rest[ResponseRead..] == inbound[socket][RequestSize + ResponseRead..];
      Login(Then(greeting, reply), reply.ok && ReceiveValue(reply.reply) == OkAccess)
  }

  /** The results of the handshakes of the constructor, one endpoint after the other. */
  datatype Logins = Logins(run: Run, ready: seq<bool>)

  /** Every endpoint is its own connection. */
  ghost predicate Distinct(endpoints: seq<nat>)
  {
    forall i, j :: 0 <= i < j < |endpoints| ==> endpoints[i] != endpoints[j]
  }

  /** The handshakes of the constructor over the first `n` endpoints, in order. The run
      stops at the first handshake that fails; `ready` holds the verdict of every
      completed one. */
  function LoginAll(inbound: seq<seq<byte>>, endpoints: seq<nat>, n: nat): (l: Logins)
    requires n <= |endpoints| && forall i :: 0 <= i < |endpoints| ==> endpoints[i] < |inbound|
    ensures |l.run.inbound| == |inbound|
    ensures l.run.ok ==> |l.ready| == n
    ensures !l.run.ok ==> |l.ready| < n
    decreases n
  {
    if n == 0 then Logins(Run([], true, inbound, []), [])
    else
      var prev := LoginAll(inbound, endpoints, n - 1);
      if !prev.run.ok then prev else LoginNext(prev, endpoints[n - 1])
  }

  /** One more handshake after the completed ones in `prev`. */
  function LoginNext(prev: Logins, socket: nat): (l: Logins)
    requires socket < |prev.run.inbound|
    ensures |l.run.inbound| == |prev.run.inbound|
    ensures l.run.ok ==> |l.ready| == |prev.ready| + 1
    ensures !l.run.ok ==> |l.ready| == |prev.ready|
    ensures forall s :: 0 <= s < |prev.run.inbound| && s != socket ==> l.run.inbound[s] == prev.run.inbound[s]
  {
    var h := Handshake(prev.run.inbound, socket);
    Logins(Then(prev.run, h.run), if h.run.ok then prev.ready + [h.ready] else prev.ready)
  }

  /** The handshakes over the first `n` endpoints leave every other connection as its
      board sent it. */
  lemma {:induction false} Untouched(inbound: seq<seq<byte>>, endpoints: seq<nat>, n: nat, s: nat)
    requires n <= |endpoints| && forall i :: 0 <= i < |endpoints| ==> endpoints[i] < |inbound|
    requires s < |inbound| && s !in endpoints[..n]
    ensures LoginAll(inbound, endpoints, n).run.inbound[s] == inbound[s]
    decreases n
  {
    if n > 0 {
      assert endpoints[..n] == endpoints[..n - 1] + [endpoints[n - 1]];
      Untouched(inbound, endpoints, n - 1, s);
    }
  }

  /** No endpoint before endpoint `n` shares its connection. */
  lemma Unshared(endpoints: seq<nat>, n: nat)
    requires n < |endpoints| && Distinct(endpoints)
    ensures endpoints[n] !in endpoints[..n]
  {
  }

  /** Each of the first `n` boards sends at least the 6 + 13 bytes of its handshake. */
  ghost predicate Answered(inbound: seq<seq<byte>>, endpoints: seq<nat>, n: nat)
    requires n <= |endpoints| && forall i :: 0 <= i < |endpoints| ==> endpoints[i] < |inbound|
    decreases n
  {
    n == 0 || (Answered(inbound, endpoints, n - 1) && RequestSize + ResponseRead <= |inbound[endpoints[n - 1]]|)
  }

  lemma {:induction false} AnsweredEvery(inbound: seq<seq<byte>>, endpoints: seq<nat>, n: nat)
    requires n <= |endpoints| && forall i :: 0 <= i < |endpoints| ==> endpoints[i] < |inbound|
    ensures Answered(inbound, endpoints, n)
        <==> forall i :: 0 <= i < n ==> RequestSize + ResponseRead <= |inbound[endpoints[i]]|
    decreases n
  {
    if n > 0 {
      AnsweredEvery(inbound, endpoints, n - 1);
      EnoughStep(inbound, endpoints, n);
    }
  }

  lemma EnoughStep(inbound: seq<seq<byte>>, endpoints: seq<nat>, n: nat)
    requires 0 < n <= |endpoints| && forall i :: 0 <= i < |endpoints| ==> endpoints[i] < |inbound|
    ensures (forall i :: 0 <= i < n ==> RequestSize + ResponseRead <= |inbound[endpoints[i]]|)
        <==> (forall i :: 0 <= i < n - 1 ==> RequestSize + ResponseRead <= |inbound[endpoints[i]]|)
             && RequestSize + ResponseRead <= |inbound[endpoints[n - 1]]|
  {
  }

  /** The handshakes over the first `n` endpoints complete exactly when each of their
      boards sent enough bytes. */
  lemma {:induction false} LoginAllAnswered(inbound: seq<seq<byte>>, endpoints: seq<nat>, n: nat)
    requires n <= |endpoints| && forall i :: 0 <= i < |endpoints| ==> endpoints[i] < |inbound|
    requires Distinct(endpoints)
    ensures LoginAll(inbound, endpoints, n).run.ok <==> Answered(inbound, endpoints, n)
    decreases n
  {
    if n > 0 {
      LoginAllAnswered(inbound, endpoints, n - 1);
      CompletesStep(inbound, endpoints, n - 1);
    }
  }

  /** The handshakes up to endpoint `n` complete when those before it did and endpoint
      `n`'s board sent enough bytes. */
  lemma CompletesStep(inbound: seq<seq<byte>>, endpoints: seq<nat>, n: nat)
    requires n < |endpoints| && forall i :: 0 <= i < |endpoints| ==> endpoints[i] < |inbound|
    requires Distinct(endpoints)
    ensures LoginAll(inbound, endpoints, n + 1).run.ok
        <==> LoginAll(inbound, endpoints, n).run.ok && RequestSize + ResponseRead <= |inbound[endpoints[n]]|
  {
    var prev := LoginAll(inbound, endpoints, n);
    if prev.run.ok {
      Unshared(endpoints, n);
      Untouched(inbound, endpoints, n, endpoints[n]);
      assert LoginNext(prev, endpoints[n]).run.ok
          <==> RequestSize + ResponseRead <= |prev.run.inbound[endpoints[n]]|;
    }
  }

  /** The constructor completes exactly when every board sends at least the 6 + 13 bytes
      of its handshake; the boards' verdicts play no part in it. */
  lemma LoginAllCompletes(inbound: seq<seq<byte>>, endpoints: seq<nat>)
    requires forall i :: 0 <= i < |endpoints| ==> endpoints[i] < |inbound|
    requires Distinct(endpoints)
    ensures LoginAll(inbound, endpoints, |endpoints|).run.ok
        <==> forall i :: 0 <= i < |endpoints| ==> RequestSize + ResponseRead <= |inbound[endpoints[i]]|
  {
    LoginAllAnswered(inbound, endpoints, |endpoints|);
    AnsweredEvery(inbound, endpoints, |endpoints|);
  }

  /** The verdict the constructor records for endpoint `i` is the access byte its own
      board sent, whatever the other boards said. */
  lemma {:induction false} LoginVerdict(inbound: seq<seq<byte>>, endpoints: seq<nat>, n: nat, i: nat)
    requires n <= |endpoints| && forall k :: 0 <= k < |endpoints| ==> endpoints[k] < |inbound|
    requires Distinct(endpoints)
    requires i < |LoginAll(inbound, endpoints, n).ready|
    ensures RequestSize + ResponseRead <= |inbound[endpoints[i]]|
    ensures LoginAll(inbound, endpoints, n).ready[i] <==> inbound[endpoints[i]][RequestSize + 8] == OkAccess
    decreases n
  {
    assert n > 0;
    VerdictStep(inbound, endpoints, n, i);
    if i < |LoginAll(inbound, endpoints, n - 1).ready| {
      LoginVerdict(inbound, endpoints, n - 1, i);
    }
  }

  /** One more endpoint keeps the verdict recorded for endpoint `i`, and the verdict it
      may add is the access byte of its own board. */
  lemma VerdictStep(inbound: seq<seq<byte>>, endpoints: seq<nat>, n: nat, i: nat)
    requires 0 < n <= |endpoints| && forall k :: 0 <= k < |endpoints| ==> endpoints[k] < |inbound|
    requires Distinct(endpoints)
    requires i < |LoginAll(inbound, endpoints, n).ready|
    ensures var prev := LoginAll(inbound, endpoints, n - 1);
      var l := LoginAll(inbound, endpoints, n);
      if i < |prev.ready| then l.ready[i] == prev.ready[i]
      else i == n - 1 && RequestSize + ResponseRead <= |inbound[endpoints[i]]|
           && (l.ready[i] <==> inbound[endpoints[i]][RequestSize + 8] == OkAccess)
  {
    var prev := LoginAll(inbound, endpoints, n - 1);
    if prev.run.ok {
      assert LoginAll(inbound, endpoints, n) == LoginNext(prev, endpoints[n - 1]);
      LastVerdict(prev, endpoints[n - 1]);
      Unshared(endpoints, n - 1);
      Untouched(inbound, endpoints, n - 1, endpoints[n - 1]);
      if i < |prev.ready| {
        assert LoginNext(prev, endpoints[n - 1]).ready[..|prev.ready|][i] == prev.ready[i];
      }
    }
  }

  /** Each verdict of the constructor is the access byte its own board sent. */
  lemma LoginVerdicts(inbound: seq<seq<byte>>, endpoints: seq<nat>)
    requires forall i :: 0 <= i < |endpoints| ==> endpoints[i] < |inbound|
    requires Distinct(endpoints)
    ensures var l := LoginAll(inbound, endpoints, |endpoints|);
      forall i :: 0 <= i < |l.ready| ==>
        RequestSize + ResponseRead <= |inbound[endpoints[i]]|
        && (l.ready[i] <==> inbound[endpoints[i]][RequestSize + 8] == OkAccess)
  {
    var l := LoginAll(inbound, endpoints, |endpoints|);
    forall i | 0 <= i < |l.ready|
      ensures RequestSize + ResponseRead <= |inbound[endpoints[i]]|
      ensures l.ready[i] <==> inbound[endpoints[i]][RequestSize + 8] == OkAccess
    {
      LoginVerdict(inbound, endpoints, |endpoints|, i);
    }
  }

  /** The verdict a further handshake appends is the access byte of its own board. */
  lemma LastVerdict(prev: Logins, socket: nat)
    requires socket < |prev.run.inbound|
    ensures var l := LoginNext(prev, socket);
      l.ready[..|prev.ready|] == prev.ready
      && (l.run.ok ==> RequestSize + ResponseRead <= |prev.run.inbound[socket]|
                       && (l.ready[|prev.ready|] <==> prev.run.inbound[socket][RequestSize + 8] == OkAccess))
  {
    var h := Handshake(prev.run.inbound, socket);
    if h.run.ok {
      assert LoginNext(prev, socket).ready == prev.ready + [h.ready];
    }
  }

  /** Once a handshake has failed, the endpoints after it are never reached: the run over
      more endpoints is the run up to the failure. */
  lemma {:induction false} LoginAllStops(inbound: seq<seq<byte>>, endpoints: seq<nat>, k: nat, n: nat)
    requires k <= n <= |endpoints| && forall i :: 0 <= i < |endpoints| ==> endpoints[i] < |inbound|
    requires !LoginAll(inbound, endpoints, k).run.ok
    ensures LoginAll(inbound, endpoints, n) == LoginAll(inbound, endpoints, k)
    decreases n
  {
    if k < n {
      LoginAllStops(inbound, endpoints, k, n - 1);
    }
  }

  /** The frames and replies of `move`. An ignored direction character does no I/O at all. */
  function MoveRun(inbound: seq<seq<byte>>, s0: nat, s1: nat, direction: char, speed: uint32): (r: Run)
    requires s0 < |inbound| && s1 < |inbound| && s0 != s1
    ensures MoveCommands(direction, speed).None? ==> r == Run([], true, inbound, [])
  {
    match MoveCommands(direction, speed)
    case None => Run([], true, inbound, [])
    case Some(commands) => Lockstep(inbound, s0, MoveFrame(commands.0), s1, MoveFrame(commands.1))
  }

  /** The frames and replies of `stop`: the same halt frame to each channel in turn, and the
      exchange completes only if both boards answer in full. */
  function StopRun(inbound: seq<seq<byte>>, s0: nat, s1: nat): (r: Run)
    requires s0 < |inbound| && s1 < |inbound| && s0 != s1
    ensures r.ok <==> StatusRead <= |inbound[s0]| && StatusRead <= |inbound[s1]|
    ensures forall e :: e in r.events && e.Sent? ==> e.bytes == MoveFrame(Motor(Halt, 0))
    ensures r.ok ==> |r.events| == 4 && r.events[0].Sent? && r.events[0].socket == s0
                     && r.events[2].Sent? && r.events[2].socket == s1
  {
    Lockstep(inbound, s0, MoveFrame(StopCommands().0), s1, MoveFrame(StopCommands().1))
  }

  /** Each frame `move` sends carries, for the board that reads it, the opcode of the
      direction table and the clamped speed (0 for the stop character), with the reserved
      and action bits 0. */
  lemma MoveFramesCarry(inbound: seq<seq<byte>>, s0: nat, s1: nat, direction: char, speed: uint32)
    requires s0 < |inbound| && s1 < |inbound| && s0 != s1
    requires direction in {'f', 'F', 'b', 'B', 's', 'S'}
    ensures var forward := direction in {'f', 'F', 's', 'S'};
            var operand := if direction in {'s', 'S'} then 0 else Clamp(speed);
            forall e :: e in MoveRun(inbound, s0, s1, direction, speed).events && e.Sent? ==>
              |e.bytes| == MoveSize
              && Unpack(WordFromBytes(e.bytes[HeaderSize..]))
                 == Smsd(0, 0, if (e.socket == s0) == forward then 0x0E else 0x0F, operand)
  {
    var c := MoveCommands(direction, speed).value;
    MoveFrameCarries(c.0);
    MoveFrameCarries(c.1);
  }

  /** Each frame `stop` sends carries opcode 0x22 and operand 0. */
  lemma StopFramesCarry(inbound: seq<seq<byte>>, s0: nat, s1: nat)
    requires s0 < |inbound| && s1 < |inbound| && s0 != s1
    ensures forall e :: e in StopRun(inbound, s0, s1).events && e.Sent? ==>
              |e.bytes| == MoveSize && Unpack(WordFromBytes(e.bytes[HeaderSize..])) == Smsd(0, 0, 0x22, 0)
  {
    MoveFrameCarries(StopCommands().0);
  }

  /** The operands `move('f', speed)` puts on the wire for speeds below, above and inside
      the allowed range. */
  lemma ForwardOperands()
    ensures Unpack(WordFromBytes(MoveFrame(MoveCommands('f', 0).value.0)[HeaderSize..])).data == 15
    ensures Unpack(WordFromBytes(MoveFrame(MoveCommands('f', 1_000_000).value.0)[HeaderSize..])).data == 15600
    ensures Unpack(WordFromBytes(MoveFrame(MoveCommands('f', 100).value.0)[HeaderSize..])).data == 100
  {
    MoveFrameCarries(MoveCommands('f', 0).value.0);
    MoveFrameCarries(MoveCommands('f', 1_000_000).value.0);
    MoveFrameCarries(MoveCommands('f', 100).value.0);
  }

  /** The controller and its connections as the constructor's loop leaves them. */
  datatype Progress = Progress(trace: seq<Event>, inbound: seq<seq<byte>>, failed: bool,
                               sockets: seq<nat>, loggedIn: seq<bool>)

  /** The state after the handshakes of the first `i` endpoints. */
  ghost function Connected(inbound0: seq<seq<byte>>, trace0: seq<Event>, endpoints: seq<nat>, i: nat): Progress
    requires i <= |endpoints| && forall k :: 0 <= k < |endpoints| ==> endpoints[k] < |inbound0|
  {
    var l := LoginAll(inbound0, endpoints, i);
    Progress(trace0 + l.run.events, l.run.inbound, !l.run.ok, endpoints[..|l.ready|], l.ready)
  }

  /** The constructor's loop, one endpoint further. */
  lemma ConnectedStep(inbound0: seq<seq<byte>>, trace0: seq<Event>, endpoints: seq<nat>, i: nat)
    requires i < |endpoints| && forall k :: 0 <= k < |endpoints| ==> endpoints[k] < |inbound0|
    requires Distinct(endpoints)
    requires !Connected(inbound0, trace0, endpoints, i).failed
    ensures var p := Connected(inbound0, trace0, endpoints, i);
      var h := Handshake(p.inbound, endpoints[i]);
      endpoints[i] < |p.inbound| && endpoints[i] !in p.sockets
      && Connected(inbound0, trace0, endpoints, i + 1)
         == if h.run.ok then Progress(p.trace + h.run.events, h.run.inbound, false, p.sockets + [endpoints[i]], p.loggedIn + [h.ready])
            else Progress(p.trace + h.run.events, h.run.inbound, true, p.sockets, p.loggedIn)
  {
    var prev := LoginAll(inbound0, endpoints, i);
    var h := Handshake(prev.run.inbound, endpoints[i]);
    assert LoginAll(inbound0, endpoints, i + 1) == LoginNext(prev, endpoints[i]);
    PrefixGrows(endpoints, i);
    Unshared(endpoints, i);
    assert trace0 + (prev.run.events + h.run.events) == trace0 + prev.run.events + h.run.events;
  }

  lemma DistinctGrows(s: seq<nat>, x: nat)
    requires Distinct(s) && x !in s
    ensures Distinct(s + [x])
  {
  }

  lemma PrefixGrows<T>(s: seq<T>, i: nat)
    requires i < |s|
    ensures s[..i] + [s[i]] == s[..i + 1]
  {
  }

  /** solution::Controller */
  class Controller {
    /** The connections the sockets are opened on. */
    const net: Network
    /** m_sockets: the connection of every endpoint whose handshake completed, in order. */
    var sockets: seq<nat>
    /** Whether each of those handshakes was granted access; the console message of the
        constructor reports it. */
    var loggedIn: seq<bool>
    /** An I/O operation has failed: the exception that leaves the controller is in flight. */
    var failed: bool

    ghost predicate Valid()
      reads this, net
    {
      |loggedIn| == |sockets| && Distinct(sockets)
      && forall i :: 0 <= i < |sockets| ==> sockets[i] < |net.inbound|
    }

    /** Connects to every endpoint in turn: the handshake, then push_back of the socket. */
    constructor(net: Network, endpoints: seq<nat>)
      requires forall i :: 0 <= i < |endpoints| ==> endpoints[i] < |net.inbound|
      requires Distinct(endpoints)
      modifies net
      ensures this.net == net && Valid()
      ensures var l := LoginAll(old(net.inbound), endpoints, |endpoints|);
        net.trace == old(net.trace) + l.run.events && net.inbound == l.run.inbound
        && failed == !l.run.ok && sockets == endpoints[..|l.ready|] && loggedIn == l.ready
    {
      this.net := net;
      sockets := [];
      loggedIn := [];
      failed := false;
      new;
      ConnectAll(endpoints);
    }

    /** The constructor's loop over the endpoints, in order. */
    method ConnectAll(endpoints: seq<nat>)
      requires Valid() && sockets == [] && loggedIn == [] && !failed
      requires forall i :: 0 <= i < |endpoints| ==> endpoints[i] < |net.inbound|
      requires Distinct(endpoints)
      modifies this, net
      ensures Valid()
      ensures var l := LoginAll(old(net.inbound), endpoints, |endpoints|);
        net.trace == old(net.trace) + l.run.events && net.inbound == l.run.inbound
        && failed == !l.run.ok && sockets == endpoints[..|l.ready|] && loggedIn == l.ready
    {
      var i := 0;
      assert endpoints[..0] == [];
      while i < |endpoints| && !failed
        invariant 0 <= i <= |endpoints|
        invariant ConnectedUpTo(old(net.inbound), old(net.trace), endpoints, i)
      {
        Connect(endpoints, i, old(net.inbound), old(net.trace));
        i := i + 1;
      }
      if i < |endpoints| {
        LoginAllStops(old(net.inbound), endpoints, i, |endpoints|);
      }
    }

    /** The state after the constructor has handled the first `i` endpoints, starting from
        connections holding `inbound0` and a trace `trace0`. */
    ghost predicate ConnectedUpTo(inbound0: seq<seq<byte>>, trace0: seq<Event>, endpoints: seq<nat>, i: nat)
      requires i <= |endpoints| && forall k :: 0 <= k < |endpoints| ==> endpoints[k] < |inbound0|
      reads this, net
    {
      Valid() && State() == Connected(inbound0, trace0, endpoints, i)
    }

    /** The observable state of the controller and its connections. */
    ghost function State(): Progress
      reads this, net
    {
      Progress(net.trace, net.inbound, failed, sockets, loggedIn)
    }

    /** One pass of the constructor's loop: the handshake on a new socket, then its
        push_back onto m_sockets. A failed handshake raises before the push_back. */
    method Connect(endpoints: seq<nat>, i: nat, ghost inbound0: seq<seq<byte>>, ghost trace0: seq<Event>)
      requires i < |endpoints| && forall k :: 0 <= k < |endpoints| ==> endpoints[k] < |inbound0|
      requires Distinct(endpoints)
      requires ConnectedUpTo(inbound0, trace0, endpoints, i) && !failed
      modifies this, net
      ensures ConnectedUpTo(inbound0, trace0, endpoints, i + 1)
    {
      ConnectedStep(inbound0, trace0, endpoints, i);
      assert endpoints[i] !in sockets;
      var ok, ready := Login(endpoints[i]);
      if ok {
        DistinctGrows(sockets, endpoints[i]);
        sockets := sockets + [endpoints[i]];
        loggedIn := loggedIn + [ready];
      } else {
        failed := true;
      }
    }

    /** receive: reads exactly `length` bytes and returns byte 8 of them, or 0 when no
        more than 8 were asked for. */
    method Receive(socket: nat, length: nat) returns (ok: bool, value: byte)
      requires socket < |net.inbound| && length <= ReceiveBuffer
      modifies net
      ensures var r := ReadStep(old(net.inbound), socket, length);
        ok == r.ok && net.inbound == r.inbound && net.trace == old(net.trace) + r.events
        && (ok ==> value == if length > 8 then r.reply[8] else 0)
    {
      var data;
      ok, data := net.Read(socket, length);
      value := if ok then ReceiveValue(data) else 0;
    }

    /** send: fills in the checksum of the frame struct, then writes all of it. */
    method Send(socket: nat, command: array<byte>)
      requires socket < |net.inbound| && 1 <= command.Length < 0x1_0000
      modifies command, net
      ensures command[..] == Seal(old(command[..]))
      ensures net.inbound == old(net.inbound) && net.trace == old(net.trace) + [Sent(socket, command[..])]
    {
      Checksum.UpdateControlSum(command);
      assert command[..] == [command[0]] + command[1..];
      net.Write(socket, command[..]);
    }

    /** The handshake on one freshly connected socket. */
    method Login(socket: nat) returns (ok: bool, ready: bool)
      requires socket < |net.inbound|
      modifies net
      ensures var l := Handshake(old(net.inbound), socket);
        ok == l.run.ok && ready == l.ready && net.inbound == l.run.inbound
        && net.trace == old(net.trace) + l.run.events
    {
      ghost var inbound0 := net.inbound;
      ghost var trace0 := net.trace;
      var greeted, _ := Receive(socket, RequestSize);
      ghost var greeting := ReadStep(inbound0, socket, RequestSize);
      if !greeted {
        return false, false;
      }
      var password := Password();
      Send(socket, password);
      assert password[..] == PasswordFrame();
      var access;
      ok, access := Receive(socket, ResponseRead);
      ready := ok && access == OkAccess;
      ghost var reply := Exchange(greeting.inbound, socket, PasswordFrame(), ResponseRead);
      assert ok == reply.ok && net.inbound == reply.inbound;
      assert net.trace == trace0 + greeting.events + reply.events;
      assert ok ==> access == ReceiveValue(reply.reply);
    }

    /** `PASSWORD password;` with the unlock key written into its data bytes. */
    static method Password() returns (m: array<byte>)
      ensures fresh(m) && m[..] == Image(TypeUnlock, UnlockKey)
    {
      m := NewPassword();
      m[6], m[7], m[8], m[9] := 0xEF, 0xCD, 0xAB, 0x89;
      m[10], m[11], m[12], m[13] := 0x67, 0x45, 0x23, 0x01;
    }

    /** `Command_MOVE command_move; memcpy(command_move.data, &c, sizeof(c));` */
    static method CommandMove(c: Smsd) returns (m: array<byte>)
      ensures fresh(m) && m[..] == Image(TypeCommand, WordBytes(Pack(c)))
    {
      m := NewCommandMove();
      var word := WordBytes(Pack(c));
      m[6], m[7], m[8], m[9] := word[0], word[1], word[2], word[3];
    }

    /** The I/O shared by `move` and `stop`: frame 1 to m_sockets[0] and its status reply,
        then frame 2 to m_sockets[1] and its status reply. */
    method SendBoth(m1: array<byte>, m2: array<byte>)
      requires Valid() && !failed && |sockets| >= 2
      requires m1.Length == MoveSize && m2.Length == MoveSize && m1 != m2
      modifies this`failed, net, m1, m2
      ensures Valid() && sockets == old(sockets) && loggedIn == old(loggedIn)
      ensures var r := Lockstep(old(net.inbound), sockets[0], Seal(old(m1[..])), sockets[1], Seal(old(m2[..])));
        net.trace == old(net.trace) + r.events && net.inbound == r.inbound && failed == !r.ok
    {
      Send(sockets[0], m1);
      var ok, _ := Receive(sockets[0], StatusRead);
      if !ok {
        failed := true;
        return;
      }
      Send(sockets[1], m2);
      var done, _ := Receive(sockets[1], StatusRead);
      failed := !done;
    }

    /** move: both motors in the direction `direction` at the clamped `speed`; any other
        character than f, F, b, B, s and S is ignored. */
    method Move(direction: char, speed: uint32)
      requires Valid() && !failed && |sockets| >= 2
      modifies this`failed, net
      ensures Valid() && sockets == old(sockets) && loggedIn == old(loggedIn)
      ensures var r := MoveRun(old(net.inbound), sockets[0], sockets[1], direction, speed);
        net.trace == old(net.trace) + r.events && net.inbound == r.inbound && failed == !r.ok
    {
      var c1 := Smsd(0, 0, 0, Clamp(speed));
      var c2 := Smsd(0, 0, 0, Clamp(speed));
      if direction == 'f' || direction == 'F' {
        c1, c2 := c1.(command := TurnOne), c2.(command := TurnOther);
      } else if direction == 'b' || direction == 'B' {
        c1, c2 := c1.(command := TurnOther), c2.(command := TurnOne);
      } else if direction == 's' || direction == 'S' {
        c1, c2 := c1.(command := TurnOne), c2.(command := TurnOther);
        c1, c2 := c1.(data := 0), c2.(data := 0);
      } else {
        return;
      }
      assert MoveCommands(direction, speed) == Some((c1, c2));
      var m1 := CommandMove(c1);
      var m2 := CommandMove(c2);
      SendBoth(m1, m2);
    }

    /** stop: opcode 0x22 with operand 0 on both motors. */
    method Stop()
      requires Valid() && !failed && |sockets| >= 2
      modifies this`failed, net
      ensures Valid() && sockets == old(sockets) && loggedIn == old(loggedIn)
      ensures var r := StopRun(old(net.inbound), sockets[0], sockets[1]);
        net.trace == old(net.trace) + r.events && net.inbound == r.inbound && failed == !r.ok
    {
      var c1 := Smsd(0, 0, Halt, 0);
      var c2 := Smsd(0, 0, Halt, 0);
      var m1 := CommandMove(c1);
      var m2 := CommandMove(c2);
      SendBoth(m1, m2);
    }
  }
}
