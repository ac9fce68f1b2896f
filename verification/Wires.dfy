/** Two connections of the library talking to each other: whatever both ends do, neither ever sees a broken stream. */
module Wires {
  import opened DataUtil
  import opened NetPackage
  import opened NetStream
  import opened Net

  /** A connection its manager can go on with. */
  ghost predicate Alive(c: NetConnection)
    reads c, c.Repr(), if c.manager == null then {} else {c.manager.kernel}
  {
    && c.manager != null && c.manager.Held(c.socket, c) && c.manager.Settled(c)
    && c.manager.kernel.Valid() && c.manager.kernel !in c.Repr() && c.manager.Tracks(c)
  }

  lemma AliveIs(c: NetConnection)
    requires Alive(c)
    ensures c.sendBuffer.Valid() && c.recvBuffer.Valid() && c.sendBuffer != c.recvBuffer && c.sendBuffer.data != c.recvBuffer.data
  {
    hide First;
  }

  /** What a connection may change when it works, beside its own fields. */
  ghost function Buffers(c: NetConnection): set<object> {
    {c.sendBuffer, c.sendBuffer.data, c.recvBuffer, c.recvBuffer.data, c.recvHeader}
  }

  /** The two ends live in different processes. */
  ghost predicate Separate(a: NetConnection, b: NetConnection)
    reads a, b
  {
    && a.manager != null && b.manager != null && a.Repr() !! b.Repr() && a.manager.kernel != b.manager.kernel
    && a.manager.kernel !in b.Repr() && b.manager.kernel !in a.Repr()
  }

  /** One direction is where `l` says it is, and nothing of it is lost. */
  ghost predicate Carries(l: Link, from: NetConnection, to: NetConnection)
    reads Buffers(from), Buffers(to)
  {
    && Intact(l) && from.sendBuffer.Valid() && to.recvBuffer.Valid()
    && l.sendBuffer == from.ToSend() && l.recvBuffer == to.Got()
  }

  /** The link after the other end has answered the packages it got. */
  function Replies(l: Link, ps: seq<Package>): Link
    decreases |ps|
  {
    if ps == [] then l
    else Replies(if ps[0].header.command == LOGIN then Next(l, Send(0, LOGIN_REPLY, Zeros(8))) else l, ps[1..])
  }

  lemma {:induction false} RepliesKeepIntact(l: Link, ps: seq<Package>)
    requires Intact(l)
    ensures var t := Replies(l, ps);
            && Intact(t) && t.sendBuffer == AllAnswered(l.sendBuffer, ps)
            && t.channel == l.channel && t.recvBuffer == l.recvBuffer && t.delivered == l.delivered && l.accepted <= t.accepted
    decreases |ps|
  {
    hide Intact, Frame, MakePackage;
    if ps != [] {
      var t := l;
      if ps[0].header.command == LOGIN {
        SendKeepsIntact(l, 0, LOGIN_REPLY, Zeros(8));
        t := Next(l, Send(0, LOGIN_REPLY, Zeros(8)));
      }
      RepliesKeepIntact(t, ps[1..]);
    }
  }

  /** Both directions between two connections. */
  ghost predicate Linked(from: NetConnection, to: NetConnection, there: Link, back: Link)
    reads from, to, from.Repr(), to.Repr(), if from.manager == null then {} else {from.manager.kernel},
          if to.manager == null then {} else {to.manager.kernel}
  {
    Alive(from) && Alive(to) && Separate(from, to) && Carries(there, from, to) && Carries(back, to, from)
  }

  lemma OtherWay(from: NetConnection, to: NetConnection, there: Link, back: Link)
    requires Linked(from, to, there, back)
    ensures Linked(to, from, back, there)
  {
    hide Intact, First, Alive;
  }

  /** Send leaves the connection one that its manager can go on with. */
  method SendAlive(con: NetConnection, guid: Int64, command: Int32, buffer: array<Byte>, len: nat) returns (ok: bool)
    requires Alive(con) && len <= buffer.Length && HEADER_SIZE + len <= SEND_SIZE && buffer != con.sendBuffer.data
    modifies con.sendBuffer, con.sendBuffer.data, con.manager.kernel`interest
    ensures Alive(con) && con.Got() == old(con.Got())
    ensures (ok, con.ToSend()) == Added(old(con.ToSend()), Frame(MakePackage(guid, command, buffer[..len])))
  {
    hide Frame, MakePackage, First;
    var defined;
    ok, defined := con.Send(guid, command, buffer, len);
  }

  /** Send at one end. */
  method SubmitAt(from: NetConnection, to: NetConnection, guid: Int64, command: Int32, buffer: array<Byte>, len: nat,
                  ghost there: Link, ghost back: Link)
    returns (ok: bool)
    requires Linked(from, to, there, back) && len <= buffer.Length && HEADER_SIZE + len <= SEND_SIZE && buffer != from.sendBuffer.data
    modifies from.sendBuffer, from.sendBuffer.data, from.manager.kernel`interest
    ensures Linked(from, to, Next(there, Send(guid, command, buffer[..len])), back)
    ensures ok == Added(there.sendBuffer, Frame(MakePackage(guid, command, buffer[..len]))).0
  {
    hide Intact, Frame, MakePackage, First, Alive;
    SendKeepsIntact(there, guid, command, buffer[..len]);
    AliveIs(from);
    ok := SendAlive(from, guid, command, buffer, len);
    AliveIs(from);
  }

  method FlushAlive(con: NetConnection, limit: int) returns (code: int, bytes: seq<Byte>)
    requires Alive(con)
    modifies con.sendBuffer, con.sendBuffer.data, con.manager.kernel`interest
    ensures |bytes| == Taken(limit, |old(con.ToSend())|) && bytes == old(con.ToSend())[..|bytes|]
    ensures Alive(con) && con.Got() == old(con.Got()) && con.ToSend() == old(con.ToSend())[|bytes|..]
    ensures code == (if limit < 0 && old(con.ToSend()) != [] then 1 else 0)
  {
    hide First;
    bytes := con.sendBuffer.data[..con.sendBuffer.length];
    ghost var sent;
    code, sent := con.manager.WriteConnection(con, limit, con.socket);
    bytes := bytes[..|bytes| - con.sendBuffer.length];
  }

  method DeliverAlive(con: NetConnection, bytes: seq<Byte>) returns (code: int, packages: seq<Package>)
    requires Alive(con) && 0 < |bytes| <= 1024 && Receive(con.Got() + bytes).stop.Incomplete?
    modifies Buffers(con), con.manager.kernel`interest
    ensures Alive(con) && code == 0
    ensures var r := Receive(old(con.Got()) + bytes);
            packages == r.packages && con.Got() == r.rest && con.ToSend() == AllAnswered(old(con.ToSend()), packages)
  {
    hide First, Receive, AllAnswered;
    code, packages := con.manager.ReadConnection(con, Data(bytes), con.socket);
  }

  /** The socket of one end takes what it can; those bytes are on their way then. */
  method FlushAt(from: NetConnection, to: NetConnection, limit: int, ghost there: Link, ghost back: Link) returns (code: int, bytes: seq<Byte>)
    requires Linked(from, to, there, back)
    modifies from.sendBuffer, from.sendBuffer.data, from.manager.kernel`interest
    ensures |bytes| == Taken(limit, |there.sendBuffer|) && bytes == there.sendBuffer[..|bytes|]
    ensures Linked(from, to, Next(there, DoSend(|bytes|)), back)
    ensures code == (if limit < 0 && there.sendBuffer != [] then 1 else 0)
  {
    hide Intact, First, Alive;
    code, bytes := FlushAlive(from, limit);
    DoSendKeepsIntact(there, |bytes|);
  }

  /** Bytes arrive at the other end: it takes them, hands on every package they complete, and answers. It is never told to
      close the connection, its buffer is never too full, and no header it sees is wrong. */
  method DeliverAt(from: NetConnection, to: NetConnection, bytes: seq<Byte>, ghost there: Link, ghost back: Link)
    returns (code: int, packages: seq<Package>)
    requires Linked(from, to, there, back) && bytes <= there.channel && 0 < |bytes| <= 1024
    modifies Buffers(to), to.manager.kernel`interest
    ensures var t := Next(there, Read(|bytes|));
            t.delivered == there.delivered + packages && Linked(from, to, t, Replies(back, packages))
    ensures packages == Receive(Added(there.recvBuffer, there.channel[..|bytes|]).1).packages
    ensures code == 0
  {
    hide Intact, First, Receive, AllAnswered, Alive;
    assert bytes == there.channel[..|bytes|];
    ReadKeepsIntact(there, |bytes|);
    AliveIs(to);
    code, packages := DeliverAlive(to, bytes);
    AliveIs(to);
    RepliesKeepIntact(back, packages);
  }

  // ---------- any run of both ends ----------

  /** What happens next in one direction. */
  datatype Move =
    | Submit(fromLeft: bool, guid: Int64, command: Int32, body: seq<Byte>)
    | Flush(fromLeft: bool, limit: int)    // the socket is writable and takes up to `limit` bytes
    | Deliver(fromLeft: bool, count: nat)  // up to `count` bytes arrive

  predicate Sendable(m: Move) {
    m.Submit? ==> HEADER_SIZE + |m.body| <= SEND_SIZE
  }

  function AtMost(n: nat, bound: nat): nat {
    if n < bound then n else bound
  }

  /** What one move makes of the direction it is about, and of the other one. */
  function Played(m: Move, there: Link, back: Link): (Link, Link)
    requires Sendable(m)
  {
    match m
    case Submit(_, guid, command, body) => (Next(there, Send(guid, command, body)), back)
    case Flush(_, limit) => (Next(there, DoSend(Taken(limit, |there.sendBuffer|))), back)
    case Deliver(_, count) =>
      var n := AtMost(AtMost(count, 1024), |there.channel|);
      if n == 0 then (there, back)
      else (Next(there, Read(n)), Replies(back, Receive(Added(there.recvBuffer, there.channel[..n]).1).packages))
  }

  /** The directions rightward and leftward after the first n moves of a script. */
  function PlayedAll(script: seq<Move>, n: nat): (Link, Link)
    requires n <= |script| && forall i :: 0 <= i < |script| ==> Sendable(script[i])
  {
    if n == 0 then (START, START)
    else
      var (r, l) := PlayedAll(script, n - 1);
      var m := script[n - 1];
      if m.fromLeft then Played(m, r, l) else var (l', r') := Played(m, l, r); (r', l')
  }

  method SubmitBody(from: NetConnection, to: NetConnection, guid: Int64, command: Int32, body: seq<Byte>, ghost there: Link, ghost back: Link)
    requires Linked(from, to, there, back) && HEADER_SIZE + |body| <= SEND_SIZE
    modifies from.sendBuffer, from.sendBuffer.data, from.manager.kernel`interest
    ensures Linked(from, to, Next(there, Send(guid, command, body)), back)
  {
    hide Intact, Frame, MakePackage, First, Next, Alive, Carries;
    var buffer := new Byte[|body|];
    CopyTo(buffer, 0, body);
    assert buffer[..|body|] == body;
    var _ := SubmitAt(from, to, guid, command, buffer, |body|, there, back);
    assert buffer[..|body|] == body;
  }

  lemma BothIntact(from: NetConnection, to: NetConnection, there: Link, back: Link)
    requires Linked(from, to, there, back)
    ensures Intact(there) && Intact(back)
  {
    hide Intact, First, Alive;
  }

  method Act(m: Move, from: NetConnection, to: NetConnection, channel: seq<Byte>, ghost there: Link, ghost back: Link)
    returns (channel': seq<Byte>, packages: seq<Package>, ghost there': Link, ghost back': Link)
    requires Linked(from, to, there, back) && channel == there.channel && Sendable(m)
    modifies Buffers(from), Buffers(to), from.manager.kernel`interest, to.manager.kernel`interest
    ensures Linked(from, to, there', back') && channel' == there'.channel && (there', back') == Played(m, there, back)
    ensures there'.delivered == there.delivered + packages && back'.channel == back.channel && back'.delivered == back.delivered
  {
    hide Linked, First, Receive, Frame, MakePackage, Intact;
    channel', packages, there', back' := channel, [], there, back;
    BothIntact(from, to, there, back);
    assert there.delivered + [] == there.delivered;
    match m {
      case Submit(_, guid, command, body) =>
        SubmitBody(from, to, guid, command, body, there, back);
        there' := Next(there, Send(guid, command, body));
      case Flush(_, limit) =>
        var _, bytes := FlushAt(from, to, limit, there, back);
        channel', there' := channel + bytes, Next(there, DoSend(|bytes|));
      case Deliver(_, count) =>
        var n := AtMost(AtMost(count, 1024), |channel|);
        if n > 0 {
          var _, got := DeliverAt(from, to, channel[..n], there, back);
          channel', packages, there', back' := channel[n..], got, Next(there, Read(n)), Replies(back, got);
          RepliesKeepIntact(back, got);
        }
    }
  }

  /** What `to` has been handed is a prefix of what Send accepted at `from`, the bytes in between are the frames of the rest, and
      when there are none, nothing is missing. */
  ghost predicate Told(from: NetConnection, to: NetConnection, l: Link, got: seq<Package>)
    reads Buffers(from), Buffers(to)
  {
    && from.sendBuffer.Valid() && to.recvBuffer.Valid() && got == l.delivered <= l.accepted
    && to.Got() + l.channel + from.ToSend() == Frames(l.accepted[|got|..])
    && (l.channel == from.ToSend() == [] ==> got == l.accepted)
  }

  /** Any run: whatever is sent at either end, however the sockets cut the bytes, and whatever the handlers answer, each end has been
      handed a prefix, in order and intact, of what the other end's Send accepted, and both connections are still alive. */
  method Run(script: seq<Move>, left: NetConnection, right: NetConnection)
    returns (gotRight: seq<Package>, gotLeft: seq<Package>, ghost rightward: Link, ghost leftward: Link)
    requires Linked(left, right, START, START) && forall i :: 0 <= i < |script| ==> Sendable(script[i])
    modifies Buffers(left), Buffers(right), left.manager.kernel`interest, right.manager.kernel`interest
    ensures Linked(left, right, rightward, leftward) && (rightward, leftward) == PlayedAll(script, |script|)
    ensures Told(left, right, rightward, gotRight) && Told(right, left, leftward, gotLeft)
  {
    hide Linked, First, Frames, Frame, MakePackage, Sendable, Played;
    gotRight, gotLeft, rightward, leftward := [], [], START, START;
    var toRight, toLeft := [], [];
    for i := 0 to |script|
      invariant Linked(left, right, rightward, leftward) && toRight == rightward.channel && toLeft == leftward.channel
      invariant gotRight == rightward.delivered && gotLeft == leftward.delivered && (rightward, leftward) == PlayedAll(script, i)
    {
      var packages;
      if script[i].fromLeft {
        toRight, packages, rightward, leftward := Act(script[i], left, right, toRight, rightward, leftward);
        gotRight := gotRight + packages;
      } else {
        OtherWay(left, right, rightward, leftward);
        toLeft, packages, leftward, rightward := Act(script[i], right, left, toLeft, leftward, rightward);
        gotLeft := gotLeft + packages;
        OtherWay(right, left, leftward, rightward);
      }
    }
    Delivered(left, right, rightward, leftward);
    OtherWay(left, right, rightward, leftward);
    Delivered(right, left, leftward, rightward);
  }

  lemma Delivered(from: NetConnection, to: NetConnection, there: Link, back: Link)
    requires Linked(from, to, there, back)
    ensures Told(from, to, there, there.delivered)
  {
    hide First, Frames, Alive;
    if there.channel == from.ToSend() == [] {
      NothingOwed(there);
    }
  }

  /** A process that has accepted one connection. */
  method NewEnd(listening: int, s: int) returns (c: NetConnection)
    requires listening != s && listening != SOCKET_ERROR && s != SOCKET_ERROR
    ensures fresh(c.Repr()) && Alive(c) && fresh(c.manager) && fresh(c.manager.kernel) && c.Got() == c.ToSend() == []
  {
    hide First, NetConnectionManager.Sound, NetConnectionManager.Waiting, Armed, Balanced;
    var m := new NetConnectionManager();
    m.Init(listening);
    var _ := m.OnAccept(Accepted(s), {});
    m.KeptAt({}, s);
    c := m.connections[s];
  }

  /** And so without any assumption on the connections: two processes whose connections have just been made, and any run of the two. */
  method RunFromStart(script: seq<Move>, listening: int, s: int)
    returns (left: NetConnection, right: NetConnection, gotRight: seq<Package>, gotLeft: seq<Package>, ghost rightward: Link, ghost leftward: Link)
    requires listening != s && listening != SOCKET_ERROR && s != SOCKET_ERROR
    requires forall i :: 0 <= i < |script| ==> Sendable(script[i])
    ensures Linked(left, right, rightward, leftward) && (rightward, leftward) == PlayedAll(script, |script|)
    ensures Told(left, right, rightward, gotRight) && Told(right, left, leftward, gotLeft)
  {
    hide Sendable, Told, PlayedAll, Alive, Linked;
    left := NewEnd(listening, s);
    right := NewEnd(listening, s);
    StartLinked(left, right);
    gotRight, gotLeft, rightward, leftward := Run(script, left, right);
  }

  lemma StartLinked(left: NetConnection, right: NetConnection)
    requires Alive(left) && Alive(right) && Separate(left, right) && left.Got() == left.ToSend() == right.Got() == right.ToSend() == []
    ensures Linked(left, right, START, START)
  {
    hide First;
    EmptyIsIncomplete();
  }
}
