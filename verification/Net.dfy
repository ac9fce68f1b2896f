/** Connections and the manager that serves them from epoll events. Sockets are numbers that a kernel hands out; what the outside
    does (which events come, what arrives, how much a write takes) is a parameter. */
module Net {
  import opened DataUtil
  import opened NetPackage
  import opened ByteBuffers
  import opened NetStream

  const SOCKET_ERROR := -1

  /** Events asked for beside EPOLLIN and EPOLLERR. */
  datatype Mask = Mask(out: bool, pri: bool)

  /** Open sockets and the interest list of the one epoll descriptor. */
  class Kernel {
    var open: set<int>
    var interest: map<int, Mask>
    ghost var handedOut: multiset<int>  // every socket ever handed out, and every close
    ghost var closes: multiset<int>

    ghost predicate Valid()
      reads this
    {
      SOCKET_ERROR !in open && interest.Keys <= open && handedOut == closes + multiset(open)
    }

    constructor ()
      ensures Valid() && open == {} && interest == map[] && handedOut == closes == multiset{}
    {
      open, interest, handedOut, closes := {}, map[], multiset{}, multiset{};
    }

    /** socket() or accept() returns `s`, which is a number in use by nobody. */
    method Open(s: int)
      requires Valid() && s != SOCKET_ERROR && s !in open
      modifies this
      ensures Valid() && open == old(open) + {s} && interest == old(interest)
      ensures handedOut == old(handedOut) + multiset{s} && closes == old(closes)
    {
      open, handedOut := open + {s}, handedOut + multiset{s};
    }

    /** close(); only an open socket may be closed. A closed socket leaves the interest list. */
    method Close(s: int)
      requires Valid() && s in open
      modifies this
      ensures Valid() && open == old(open) - {s} && interest == old(interest) - {s}
      ensures handedOut == old(handedOut) && closes == old(closes) + multiset{s}
    {
      open, closes, interest := open - {s}, closes + multiset{s}, interest - {s};
    }

    /** EPOLL_CTL_ADD fails for a socket that is there already. */
    method Add(s: int, m: Mask)
      requires Valid() && s in open
      modifies this`interest
      ensures Valid() && interest == if s in old(interest) then old(interest) else old(interest)[s := m]
    {
      if s !in interest {
        interest := interest[s := m];
      }
    }

    /** EPOLL_CTL_MOD fails for a socket that is not there. */
    method Modify(s: int, m: Mask)
      requires Valid()
      modifies this`interest
      ensures Valid() && interest == if s in old(interest) then old(interest)[s := m] else old(interest)
    {
      if s in interest {
        interest := interest[s := m];
      }
    }

    method Delete(s: int)
      requires Valid()
      modifies this`interest
      ensures Valid() && interest == old(interest) - {s}
    {
      interest := interest - {s};
    }
  }

  /** The frame of a package, in a scratch array. */
  method Assemble(guid: Int64, cmd: Int32, buffer: array<Byte>, len: nat) returns (sendbuff: array<Byte>, size: nat)
    requires len <= buffer.Length && HEADER_SIZE + len <= SEND_SIZE
    ensures fresh(sendbuff) && size <= sendbuff.Length && sendbuff[..size] == Frame(MakePackage(guid, cmd, buffer[..len]))
  {
    hide PackBytes;
    var sendhead := new NetPackageHeader();
    sendhead.SetSign();
    sendhead.command, sendhead.guid, sendhead.bodySize := cmd, guid, len;
    sendbuff := new Byte[SEND_SIZE];
    size := sendhead.Pack(sendbuff, 0);
    ghost var bytes := PackBytes(sendhead.Value());
    assert sendbuff[..size] == bytes;
    Copy(buffer, 0, sendbuff, size, len);
    size := size + len;
    assert sendbuff[..size] == bytes + buffer[..len];
  }

  class NetConnection {
    var socket: int
    var manager: NetConnectionManager?
    const sendBuffer: ByteBuffer
    const recvBuffer: ByteBuffer
    const recvHeader: NetPackageHeader

    ghost function Repr(): set<object> {
      {this, sendBuffer, sendBuffer.data, recvBuffer, recvBuffer.data, recvHeader}
    }

    /** A cached header is the one at the front of the receive buffer. */
    ghost predicate Valid()
      reads Repr()
    {
      && sendBuffer != recvBuffer && sendBuffer.data != recvBuffer.data
      && sendBuffer.Valid() && sendBuffer.data.Length == NET_BUFFER_SIZE
      && recvBuffer.Valid() && recvBuffer.data.Length == NET_BUFFER_SIZE
      && (recvHeader.sign != 0 ==>
            recvBuffer.length >= HEADER_SIZE && recvHeader.Value() == ReadHeader(recvBuffer.Contents()[..HEADER_SIZE]))
    }

    /** No header has been refused. */
    ghost predicate Trusted()
      reads Repr()
    {
      recvHeader.sign == 0 || (recvHeader.sign == HEADER_SIGN && recvHeader.bodySize <= NET_PACKAGE_MAX_SIZE)
    }

    ghost function ToSend(): seq<Byte>
      reads sendBuffer, sendBuffer.data
      requires sendBuffer.Valid()
    {
      sendBuffer.Contents()
    }

    ghost function Got(): seq<Byte>
      reads recvBuffer, recvBuffer.data
      requires recvBuffer.Valid()
    {
      recvBuffer.Contents()
    }

    ghost function BothEnds(): Ends
      reads sendBuffer, sendBuffer.data, recvBuffer, recvBuffer.data
      requires sendBuffer.Valid() && recvBuffer.Valid()
    {
      Ends(Got(), ToSend())
    }

    constructor ()
      ensures Valid() && Trusted() && fresh(Repr()) && socket == SOCKET_ERROR && manager == null && ToSend() == [] && Got() == []
    {
      socket, manager := SOCKET_ERROR, null;
      sendBuffer := new ByteBuffer(NET_BUFFER_SIZE);
      recvBuffer := new ByteBuffer(NET_BUFFER_SIZE);
      recvHeader := new NetPackageHeader();
    }

    method SetSocket(s: int)
      requires Valid()
      modifies this
      ensures Valid() && socket == s && manager == old(manager)
    {
      socket := s;
    }

    method SetManager(m: NetConnectionManager)
      requires Valid()
      modifies this
      ensures Valid() && manager == m && socket == old(socket)
    {
      manager := m;
    }

    predicate IsNeedWrite()
      reads sendBuffer
    {
      sendBuffer.length > 0
    }

    /** Nothing of this connection has changed but the send buffer, and epoll asks for EPOLLOUT exactly if that is not empty. */
    twostate predicate OnlySends()
      reads this, Repr(), if manager == null then {} else {manager.kernel}
      requires manager != null
    {
      && unchanged(this) && unchanged(recvBuffer) && unchanged(recvBuffer.data) && unchanged(recvHeader)
      && manager.kernel.interest == if socket in old(manager.kernel.interest)
                                    then old(manager.kernel.interest)[socket := Mask(IsNeedWrite(), false)]
                                    else old(manager.kernel.interest)
    }

    /** All of the frame is queued, or nothing. A body of more than 996 bytes is copied past the end of the scratch array, and a
        negative length is no better: that is undefined, and nothing more happens here. */
    method Send(guid: Int64, cmd: Int32, buffer: array<Byte>, len: Int32) returns (ok: bool, defined: bool)
      requires Valid() && manager != null && manager.kernel.Valid() && manager.kernel !in Repr()
      requires len <= buffer.Length && buffer != sendBuffer.data
      modifies sendBuffer, sendBuffer.data, manager.kernel`interest
      ensures Valid() && manager.kernel.Valid()
      ensures defined <==> 0 <= len <= 996
      ensures defined ==> (ok, ToSend()) == Added(old(ToSend()), Frame(MakePackage(guid, cmd, buffer[..len]))) && OnlySends()
      ensures !defined ==> unchanged(Repr()) && unchanged(manager.kernel)
    {
      hide ReadHeader, Frame, MakePackage;
      if !(0 <= len <= SEND_SIZE - HEADER_SIZE) {
        return false, false;
      }
      var sendbuff, size := Assemble(guid, cmd, buffer, len);
      ok := AddSendData(sendbuff, size);
      return ok, true;
    }

    method AddSendData(buffer: array<Byte>, len: nat) returns (ok: bool)
      requires Valid() && manager != null && manager.kernel.Valid() && manager.kernel !in Repr()
      requires len <= buffer.Length && buffer != sendBuffer.data
      modifies sendBuffer, sendBuffer.data, manager.kernel`interest
      ensures Valid() && manager.kernel.Valid()
      ensures (ok, ToSend()) == Added(old(ToSend()), buffer[..len])
      ensures OnlySends()
    {
      hide ReadHeader;
      ok := sendBuffer.AddData(buffer, len);
      manager.UpdateConnectionSend(this);
    }

    method AddRecvData(buffer: array<Byte>, len: nat) returns (ok: bool)
      requires Valid() && len <= buffer.Length && buffer != recvBuffer.data
      modifies recvBuffer, recvBuffer.data
      ensures Valid() && (ok, Got()) == Added(old(Got()), buffer[..len])
    {
      hide ReadHeader;
      ghost var s := Got();
      ok := recvBuffer.AddData(buffer, len);
      assert |s| >= HEADER_SIZE ==> Got()[..HEADER_SIZE] == s[..HEADER_SIZE];
    }

    /** 1: a package is complete, 0: not yet, -1: the stream is broken. The header of a package is read only once. */
    method CheckRecvPackage() returns (r: int)
      requires Valid() && Trusted()
      modifies recvHeader
      ensures Valid() && (r >= 0 ==> Trusted()) && (r == 1 ==> recvHeader.sign != 0)
      ensures r == match First(Got())
                   case Incomplete => 0
                   case Refused => -1
                   case Negative => 1
                   case Complete(_, _) => 1
    {
      hide ReadHeader;
      if recvHeader.sign == 0 {
        if recvBuffer.length >= HEADER_SIZE {
          var _ := recvHeader.Unpack(recvBuffer.data, 0);
          assert recvBuffer.data[0..HEADER_SIZE] == Got()[..HEADER_SIZE];
          if recvHeader.sign != HEADER_SIGN || recvHeader.bodySize > NET_PACKAGE_MAX_SIZE {
            return -1;
          }
        }
      }
      var have := recvHeader.sign != 0 && recvBuffer.length >= recvHeader.bodySize + HEADER_SIZE;
      r := if have then 1 else 0;
    }

    /** Takes the package that CheckRecvPackage has found. With a negative body size the copy is undefined. */
    method TakeRecvPackage(header: NetPackageHeader, buffer: array<Byte>) returns (defined: bool)
      requires Valid() && Trusted() && recvHeader.sign != 0 && (First(Got()).Complete? || First(Got()).Negative?)
      requires header != recvHeader && buffer != recvBuffer.data && buffer != sendBuffer.data && buffer.Length >= NET_PACKAGE_MAX_SIZE
      modifies header, buffer, recvBuffer, recvBuffer.data, recvHeader
      ensures Valid() && Trusted() && (defined <==> old(First(Got())).Complete?)
      ensures defined ==>
                var f := old(First(Got()));
                header.Value() == f.package.header && buffer[..|f.package.body|] == f.package.body && Got() == f.rest
      ensures !defined ==> Got() == old(Got())
    {
      hide ReadHeader;
      var dataSize := recvHeader.bodySize + HEADER_SIZE;
      header.Assign(recvHeader);
      defined := recvBuffer.GetData(buffer, HEADER_SIZE, recvHeader.bodySize);
      if !defined {
        return false;
      }
      recvBuffer.RemoveData(dataSize);
      recvHeader.Reset();
    }

    /** send() takes `limit` bytes of the buffer, or fewer if there are not as many; a negative `limit` is its error. */
    method DoSend(limit: int) returns (code: int, ghost sent: nat)
      requires Valid() && manager != null && manager.kernel.Valid() && manager.kernel !in Repr()
      modifies sendBuffer, sendBuffer.data, manager.kernel`interest
      ensures Valid() && manager.kernel.Valid()
      ensures code == (if limit < 0 && old(ToSend()) != [] then 1 else 0)
      ensures sent == (if limit < 0 then 0 else if limit < |old(ToSend())| then limit else |old(ToSend())|)
      ensures ToSend() == old(ToSend())[sent..]
      ensures sent > 0 ==> OnlySends()
      ensures sent == 0 ==> unchanged(Repr()) && unchanged(manager.kernel)
    {
      hide ReadHeader;
      sent := 0;
      if sendBuffer.length > 0 {
        var ret := if limit < 0 then SOCKET_ERROR else if limit < sendBuffer.length then limit else sendBuffer.length;
        if ret > 0 {
          sent := ret;
          sendBuffer.RemoveData(ret);
          manager.UpdateConnectionSend(this);
        } else if ret == SOCKET_ERROR {
          return 1, 0;
        }
      }
      return 0, sent;
    }
  }

  // ---------- the server's handler ----------

  const LOGIN: Int32 := 1001
  const LOGIN_REPLY: Int32 := 1401

  function Reply(): Package {
    MakePackage(0, LOGIN_REPLY, Zeros(8))
  }

  /** The send buffer after the handler has seen a package: a login is answered, if there is room. */
  function Answered(buffer: seq<Byte>, p: Package): seq<Byte> {
    if p.header.command == LOGIN then Added(buffer, Frame(Reply())).1 else buffer
  }

  function AllAnswered(buffer: seq<Byte>, ps: seq<Package>): seq<Byte>
    decreases |ps|
  {
    if ps == [] then buffer else AllAnswered(Answered(buffer, ps[0]), ps[1..])
  }

  lemma {:induction false} AnsweredLast(buffer: seq<Byte>, ps: seq<Package>, p: Package)
    ensures AllAnswered(buffer, ps + [p]) == Answered(AllAnswered(buffer, ps), p)
    decreases |ps|
  {
    hide Answered;
    if ps == [] {
      assert (ps + [p])[1..] == [];
    } else {
      assert (ps + [p])[1..] == ps[1..] + [p];
      AnsweredLast(Answered(buffer, ps[0]), ps[1..], p);
    }
  }

  const NOTHING := Package(NO_HEADER, [])

  // ---------- the answers, byte by byte ----------

  /** The answer to a login: sign, command 1401, a body of eight zeros. */
  function ReplyBytes(): (r: seq<Byte>)
    ensures |r| == 36
  {
    [0x58, 0, 0, 0] + Zeros(8) + [0x79, 5, 0, 0] + Zeros(8) + [8, 0, 0, 0] + Zeros(8)
  }

  lemma ReplyIs()
    ensures Frame(Reply()) == ReplyBytes()
  {
    hide PackBytes, ReadHeader, ReplyBytes;
    PackageIs(0, LOGIN_REPLY, Zeros(8));
    var b := ReplyHeader();
    PackUndoesUnpack(b);
  }

  lemma ReplyHeader() returns (b: seq<Byte>)
    ensures |b| == 28 && ReadHeader(b) == Header(0x58, 0, 0, 0, 0, 0, 0, 1401, 0, 8) && ReplyBytes() == b + Zeros(8)
  {
    hide Decode;
    b := ReplyBytes()[..28];
    DecodeIs(b[4..8]);
    DecodeIs(b[8..10]);
    DecodeIs(b[10..12]);
    DecodeIs(b[12..16]);
    DecodeIs(b[16..24]);
    DecodeIs(b[24..28]);
  }

  lemma AnsweredIs(buffer: seq<Byte>, p: Package)
    ensures Answered(buffer, p) == if p.header.command == 1001 && |buffer| + 36 <= 8192 then buffer + ReplyBytes() else buffer
  {
    hide Frame, MakePackage, ReplyBytes;
    ReplyIs();
  }

  /** How many of the packages are logins. */
  function Logins(ps: seq<Package>): nat {
    if ps == [] then 0 else (if ps[0].header.command == 1001 then 1 else 0) + Logins(ps[1..])
  }

  function Repeated(bytes: seq<Byte>, n: nat): seq<Byte> {
    if n == 0 then [] else bytes + Repeated(bytes, n - 1)
  }

  function Least(a: nat, b: nat): nat {
    if a < b then a else b
  }

  /** How many answers there is room for behind n bytes. */
  function Room(n: nat): nat {
    if n <= 8192 then (8192 - n) / 36 else 0
  }

  /** Logins are answered for as long as there is room for another 36 bytes. */
  lemma {:induction false} AnswersAre(buffer: seq<Byte>, ps: seq<Package>)
    requires |buffer| <= 8192
    ensures AllAnswered(buffer, ps) == buffer + Repeated(ReplyBytes(), Least(Logins(ps), Room(|buffer|)))
    decreases |ps|
  {
    hide Answered, ReplyBytes;
    var r, n := ReplyBytes(), Least(Logins(ps), Room(|buffer|));
    if ps == [] {
      assert buffer + [] == buffer;
    } else {
      AnsweredIs(buffer, ps[0]);
      AnswersAre(Answered(buffer, ps[0]), ps[1..]);
      if ps[0].header.command == 1001 && |buffer| + 36 <= 8192 {
        assert (8192 - |buffer + r|) / 36 == (8192 - |buffer|) / 36 - 1;
        assert buffer + r + Repeated(r, n - 1) == buffer + (r + Repeated(r, n - 1));
      } else if ps[0].header.command == 1001 {
        assert (8192 - |buffer|) / 36 == 0;
      }
    }
  }

  /** NetServer::OnRecvData: takes exactly one package, and may send. */
  method OnRecvData(con: NetConnection) returns (defined: bool, p: Package)
    requires con.Valid() && con.Trusted() && con.recvHeader.sign != 0 && (First(con.Got()).Complete? || First(con.Got()).Negative?)
    requires con.manager != null && con.manager.kernel.Valid() && con.manager.kernel !in con.Repr()
    requires con.manager.Tracks(con)
    modifies con.sendBuffer, con.sendBuffer.data, con.recvBuffer, con.recvBuffer.data, con.recvHeader, con.manager.kernel`interest
    ensures con.Valid() && con.Trusted() && con.manager.kernel.Valid() && con.manager.Tracks(con)
    ensures defined <==> old(First(con.Got())).Complete?
    ensures defined ==>
              var f := old(First(con.Got())); p == f.package && con.Got() == f.rest && con.ToSend() == Answered(old(con.ToSend()), p)
    ensures !defined ==> con.Got() == old(con.Got()) && con.ToSend() == old(con.ToSend())
    ensures OnlyAt(con.manager.kernel, con.socket)
  {
    hide First, Frame, ReadHeader;
    var header := new NetPackageHeader();
    var buffer := new Byte[NET_PACKAGE_MAX_SIZE];
    defined := con.TakeRecvPackage(header, buffer);
    if !defined {
      return false, NOTHING;
    }
    var h := header.Copied();
    p := Package(h, buffer[..header.bodySize]);
    if header.command == LOGIN {
      AnswerLogin(con);
    }
  }

  method AnswerLogin(con: NetConnection)
    requires con.Valid() && con.Trusted()
    requires con.manager != null && con.manager.kernel.Valid() && con.manager.kernel !in con.Repr() && con.manager.Tracks(con)
    modifies con.sendBuffer, con.sendBuffer.data, con.manager.kernel`interest
    ensures con.Valid() && con.Trusted() && con.manager.kernel.Valid() && con.manager.Tracks(con)
    ensures con.Got() == old(con.Got()) && con.ToSend() == Added(old(con.ToSend()), Frame(Reply())).1
    ensures OnlyAt(con.manager.kernel, con.socket)
  {
    hide Frame, ReadHeader;
    var resBuffer, resIndex := LoginResult();
    var _, _ := con.Send(0, LOGIN_REPLY, resBuffer, resIndex);
  }

  method LoginResult() returns (resBuffer: array<Byte>, resIndex: nat)
    ensures fresh(resBuffer) && resIndex == 8 <= resBuffer.Length && resBuffer[..8] == Zeros(8)
  {
    resBuffer := new Byte[NET_PACKAGE_MAX_SIZE];
    resIndex := WriteInt32(resBuffer, 0, 0);
    resIndex := WriteInt32(resBuffer, resIndex, 0);
  }

  /** The interest list has changed at `s` at most. */
  twostate predicate OnlyAt(kernel: Kernel, s: int)
    reads kernel
  {
    && kernel.interest.Keys == old(kernel.interest.Keys)
    && forall t :: t in kernel.interest && t != s ==> kernel.interest[t] == old(kernel.interest)[t]
  }

  /** Packages taken before the rest was drained. */
  function Before(ps: seq<Package>, r: Received): Received {
    Received(ps + r.packages, r.rest, r.stop)
  }

  // ---------- what the outside does ----------

  /** How accept and the two calls that prepare the new socket end. */
  datatype Accept = NoSocket | Unprepared(s: int, blocking: bool) | Accepted(s: int)

  function AcceptCode(a: Accept): (r: int)
    ensures 0 <= r <= 3
  {
    match a
    case NoSocket => 1
    case Unprepared(_, blocking) => if blocking then 2 else 3
    case Accepted(_) => 0
  }

  /** The socket that accept yields, even if it is closed again at once. */
  function HandedOutBy(a: Accept): multiset<int> {
    if a.NoSocket? then multiset{} else multiset{a.s}
  }

  datatype Arrival = Data(bytes: seq<Byte>) | Closed | Broken

  /** One event of epoll_wait for `socket`, with what the socket calls made for it will do. */
  datatype Event = Event(socket: int, err: bool, readable: bool, writable: bool, accept: Accept, arrival: Arrival, limit: int)

  /** What a connection has received and not handed on yet, and what it has still to send. */
  datatype Ends = Ends(got: seq<Byte>, queue: seq<Byte>)

  const EMPTY := Ends([], [])

  datatype Outcome = Outcome(ends: Ends, code: int)

  /** No code of the source: what it does from here on is undefined. */
  const UNDEFINED := -1

  /** What draining a buffer ends with. */
  function StopCode(stop: Front): int {
    match stop
    case Refused => 4
    case Negative => UNDEFINED
    case _ => 0
  }

  /** What comes of a read. */
  function Reads(c: Ends, arrival: Arrival): Outcome {
    match arrival
    case Data(bytes) =>
      var r := Receive(c.got + bytes);
      Outcome(Ends(r.rest, AllAnswered(c.queue, r.packages)), StopCode(r.stop))
    case Closed => Outcome(c, 1)
    case Broken => Outcome(c, 2)
  }

  function Handed(c: Ends, arrival: Arrival): seq<Package> {
    if arrival.Data? then Receive(c.got + arrival.bytes).packages else []
  }

  /** How much of `n` bytes a socket takes. */
  function Taken(limit: int, n: nat): (r: nat)
    ensures r <= n
  {
    if limit < 0 then 0 else if limit < n then limit else n
  }

  /** What comes of a write. */
  function Writes(c: Ends, limit: int): Outcome {
    Outcome(Ends(c.got, c.queue[Taken(limit, |c.queue|)..]), if limit < 0 && c.queue != [] then 1 else 0)
  }

  /** What comes of an event for a connection: it is read from and then written to, until something fails. */
  function Serves(c: Ends, e: Event): (Ends, bool) {
    var r := if e.readable then Reads(c, e.arrival) else Outcome(c, 0);
    var w := if e.writable then Writes(r.ends, e.limit) else Outcome(r.ends, 0);
    if e.err then (c, true) else if r.code != 0 then (r.ends, true) else (w.ends, w.code != 0)
  }

  /** A read that ends in undefined behaviour. */
  predicate Derails(c: Ends, e: Event) {
    !e.err && e.readable && Reads(c, e.arrival).code == UNDEFINED
  }

  /** That is the case exactly if the bytes that have then arrived hold, behind whole packages, a header with the right sign and a
      negative body size. */
  lemma DerailsExactly(c: Ends, e: Event)
    ensures Derails(c, e) <==> !e.err && e.readable && e.arrival.Data? && exists ps :: NegativeBehind(ps, c.got + e.arrival.bytes)
  {
    hide Receive;
    if e.arrival.Data? {
      NegativeStream(c.got + e.arrival.bytes);
    }
  }

  /** One of the first n events does that to a connection that was there before the batch. */
  predicate AnyDerails(cs: map<int, Ends>, events: seq<Event>, n: nat)
    requires n <= |events|
  {
    exists i :: 0 <= i < n && events[i].socket in cs && Derails(cs[events[i].socket], events[i])
  }

  /** What an event makes the kernel hand out. */
  function Brought(listening: int, e: Event): multiset<int> {
    if e.socket == listening && e.readable && !e.err then HandedOutBy(e.accept) else multiset{}
  }

  function AllBrought(listening: int, events: seq<Event>, n: nat): multiset<int>
    requires n <= |events|
  {
    if n == 0 then multiset{} else AllBrought(listening, events, n - 1) + Brought(listening, events[n - 1])
  }

  // ---------- what comes of an event, by the bytes ----------

  /** What waits to be sent once the event has been read: what waited before, and the answers to the logins that have arrived. */
  ghost predicate Queued(c: Ends, e: Event, q: seq<Byte>) {
    if e.readable && e.arrival.Data?
    then exists ps, rest :: TakenApart(c.got + e.arrival.bytes, ps, rest)
                            && q == c.queue + Repeated(ReplyBytes(), Least(Logins(ps), Room(|c.queue|)))
    else q == c.queue
  }

  /** The connection is closed: on an error, when the peer has closed, when recv fails, when a wrong header stands behind whole
      packages, and when send fails although something waits. */
  ghost predicate Leaves(c: Ends, e: Event) {
    || e.err
    || (e.readable && (e.arrival.Closed? || e.arrival.Broken?))
    || (e.readable && e.arrival.Data? && exists ps, rest :: TakenApart(c.got + e.arrival.bytes, ps, rest) && WrongHeader(rest))
    || (e.writable && e.limit < 0 && exists q :: Queued(c, e, q) && q != [])
  }

  /** Otherwise it goes on with what has arrived behind whole packages, and with what the socket has not taken. */
  ghost predicate GoesOn(c: Ends, e: Event, c': Ends) {
    && (if e.readable && e.arrival.Data? then exists ps :: TakenApart(c.got + e.arrival.bytes, ps, c'.got) && Unfinished(c'.got) else c'.got == c.got)
    && exists q :: Queued(c, e, q)
                   && if e.writable && e.limit >= 0 then |c'.queue| <= |q| && c'.queue == q[|q| - |c'.queue|..] && |q| - |c'.queue| == Least(e.limit, |q|)
                      else c'.queue == q
  }

  /** A defined event does just that. */
  lemma ServesIs(c: Ends, e: Event)
    requires |c.queue| <= 8192 && !Derails(c, e)
    ensures Serves(c, e).1 <==> Leaves(c, e)
    ensures !Serves(c, e).1 ==> GoesOn(c, e, Serves(c, e).0)
  {
    hide Receive, First, AllAnswered, TakenApart, Unfinished, WrongHeader, NegativeSize, Logins, Repeated, ReplyBytes;
    var q := AfterRead(c, e);
    ReadIs(c, e);
    QueuedIs(c, e, q);
    if e.readable && e.arrival.Data? {
      var r := Receive(c.got + e.arrival.bytes);
      FrontIs(r.rest);
      ReceiveTakesApart(c.got + e.arrival.bytes, r.packages, r.rest);
      forall ps, rest | TakenApart(c.got + e.arrival.bytes, ps, rest)
        ensures ps == r.packages && rest == r.rest
      {
        ReceiveTakesApart(c.got + e.arrival.bytes, ps, rest);
      }
    }
    forall q' | Queued(c, e, q')
      ensures q' == q
    {
      QueuedIs(c, e, q');
    }
  }

  /** The code of a read: 1 when the peer has closed, 2 when recv fails, 4 when a wrong header is met. The packages in front of the
      rest have been handed on, and the rest is what stays. */
  ghost predicate ReadCode(c: Ends, arrival: Arrival, code: int, packages: seq<Package>, rest: seq<Byte>) {
    match arrival
    case Closed => code == 1 && packages == [] && rest == c.got
    case Broken => code == 2 && packages == [] && rest == c.got
    case Data(bytes) =>
      && TakenApart(c.got + bytes, packages, rest)
      && (code == 0 <==> Unfinished(rest)) && (code == 4 <==> WrongHeader(rest)) && (code == UNDEFINED <==> NegativeSize(rest))
  }

  lemma ReadCodeIs(c: Ends, arrival: Arrival)
    ensures ReadCode(c, arrival, Reads(c, arrival).code, Handed(c, arrival), Reads(c, arrival).ends.got)
  {
    hide Receive, First, AllAnswered, TakenApart, Unfinished, WrongHeader, NegativeSize;
    if arrival.Data? {
      var r := Receive(c.got + arrival.bytes);
      FrontIs(r.rest);
      ReceiveTakesApart(c.got + arrival.bytes, r.packages, r.rest);
    }
  }

  /** What is queued when the event has been read. */
  function AfterRead(c: Ends, e: Event): seq<Byte> {
    if e.readable then Reads(c, e.arrival).ends.queue else c.queue
  }

  lemma ReadIs(c: Ends, e: Event)
    ensures !e.readable || !e.arrival.Data? ==> AfterRead(c, e) == c.queue
  {
  }

  lemma QueuedIs(c: Ends, e: Event, q: seq<Byte>)
    requires |c.queue| <= 8192
    ensures Queued(c, e, q) <==> q == AfterRead(c, e)
  {
    hide Receive, AllAnswered, TakenApart, Logins, Repeated, ReplyBytes;
    if e.readable && e.arrival.Data? {
      var r := Receive(c.got + e.arrival.bytes);
      ReceiveTakesApart(c.got + e.arrival.bytes, r.packages, r.rest);
      AnswersAre(c.queue, r.packages);
      forall ps, rest | TakenApart(c.got + e.arrival.bytes, ps, rest)
        ensures ps == r.packages && rest == r.rest
      {
        ReceiveTakesApart(c.got + e.arrival.bytes, ps, rest);
      }
    }
  }

  /** A new connection that an event brings. */
  predicate Joins(listening: int, e: Event) {
    e.socket == listening && e.readable && !e.err && e.accept.Accepted?
  }

  /** What comes of any event, given what all connections hold; true if the socket has to be closed. */
  function ServeOne(listening: int, cs: map<int, Ends>, e: Event): (map<int, Ends>, bool) {
    if Joins(listening, e) then (cs[e.accept.s := EMPTY], false)
    else if e.socket == listening then (cs, e.err || e.readable)
    else if e.socket in cs then (cs[e.socket := Serves(cs[e.socket], e).0], Serves(cs[e.socket], e).1)
    else (cs, e.err)
  }

  lemma IsServeOne(listening: int, cs: map<int, Ends>, cs': map<int, Ends>, e: Event, remove: bool, joined: set<int>)
    requires listening !in cs && joined == if Joins(listening, e) then {e.accept.s} else {}
    requires cs'.Keys == cs.Keys + joined && forall t :: t in joined ==> t !in cs && cs'[t] == EMPTY
    requires forall t :: t in cs && t != e.socket ==> cs'[t] == cs[t]
    requires e.socket in cs ==> (cs'[e.socket], remove) == Serves(cs[e.socket], e)
    requires e.socket == listening ==> (remove <==> e.err || (e.readable && !e.accept.Accepted?))
    requires e.socket != listening && e.socket !in cs ==> remove == e.err
    ensures (cs', remove) == ServeOne(listening, cs, e)
  {
    hide Serves;
    var r := ServeOne(listening, cs, e).0;
    assert r.Keys == cs.Keys + joined == cs'.Keys;
    forall t | t in r
      ensures cs'[t] == r[t]
    {
      if Joins(listening, e) {
        assert t == e.accept.s || (t in cs && t != e.socket);
      } else {
        assert t in cs;
      }
    }
    assert cs' == r;
  }

  /** The first `n` events of a batch, and the sockets to be closed behind it. */
  function ServeAll(listening: int, cs: map<int, Ends>, events: seq<Event>, n: nat): (map<int, Ends>, seq<int>)
    requires n <= |events|
  {
    if n == 0 then (cs, [])
    else
      var b := ServeAll(listening, cs, events, n - 1);
      var o := ServeOne(listening, b.0, events[n - 1]);
      (o.0, if o.1 then b.1 + [events[n - 1].socket] else b.1)
  }

  predicate Distinct(events: seq<Event>) {
    forall i, j :: 0 <= i < j < |events| ==> events[i].socket != events[j].socket
  }

  /** An accepted socket is nobody's yet. */
  predicate NewOnes(listening: int, cs: map<int, Ends>, events: seq<Event>) {
    forall i, j :: 0 <= i < |events| && 0 <= j < |events| && Joins(listening, events[i]) ==>
      events[i].accept.s !in cs && events[i].accept.s != events[j].socket
  }

  /** In a batch every connection is served by its own event, as if there were no others, and one without an event is left alone;
      the connections behind it are the old ones and those accepted. */
  lemma {:induction false} EachIsServed(listening: int, cs: map<int, Ends>, events: seq<Event>, n: nat)
    requires n <= |events| && Distinct(events) && listening !in cs && NewOnes(listening, cs, events)
    ensures var (b, gone) := ServeAll(listening, cs, events, n);
            && (forall i :: 0 <= i < n && events[i].socket in cs ==>
                  events[i].socket in b && (b[events[i].socket], events[i].socket in gone) == Serves(cs[events[i].socket], events[i]))
            && (forall i :: 0 <= i < n && events[i].socket == listening ==>
                  (listening in gone <==> events[i].err || (events[i].readable && !events[i].accept.Accepted?)))
            && (forall s :: s in cs && (forall i :: 0 <= i < n ==> events[i].socket != s) ==> s in b && b[s] == cs[s])
            && (forall i :: 0 <= i < n && Joins(listening, events[i]) ==> events[i].accept.s in b && b[events[i].accept.s] == EMPTY)
            && (forall s :: s in b ==> s in cs || exists i :: 0 <= i < n && Joins(listening, events[i]) && s == events[i].accept.s)
            && (forall s :: s in gone ==> exists i :: 0 <= i < n && s == events[i].socket)
  {
    hide Serves;
    if n > 0 {
      EachIsServed(listening, cs, events, n - 1);
    }
  }

  /** When its turn comes, a connection with an event is what it was before the batch. */
  lemma NextIsOld(listening: int, cs: map<int, Ends>, events: seq<Event>, i: nat)
    requires i < |events| && Distinct(events) && listening !in cs && NewOnes(listening, cs, events)
    ensures var b := ServeAll(listening, cs, events, i).0;
            (events[i].socket in b <==> events[i].socket in cs) && (events[i].socket in cs ==> b[events[i].socket] == cs[events[i].socket])
  {
    hide Serves, ServeAll;
    EachIsServed(listening, cs, events, i);
  }

  /** The first n events have been served: what the connections hold now, what is to be closed, what the kernel has handed out. */
  ghost predicate Progress(listening: int, cs: map<int, Ends>, events: seq<Event>, n: nat, now: map<int, Ends>, gone: seq<int>,
                           before: multiset<int>, handedOut: multiset<int>)
    requires n <= |events|
  {
    && (now, gone) == ServeAll(listening, cs, events, n) && !AnyDerails(cs, events, n)
    && handedOut == before + AllBrought(listening, events, n)
  }

  lemma ProgressStart(listening: int, cs: map<int, Ends>, events: seq<Event>, before: multiset<int>)
    ensures Progress(listening, cs, events, 0, cs, [], before, before)
  {
    assert before + multiset{} == before;
  }

  lemma ProgressStep(listening: int, cs: map<int, Ends>, events: seq<Event>, n: nat, now: map<int, Ends>, gone: seq<int>,
                     before: multiset<int>, handedOut: multiset<int>, now': map<int, Ends>, remove: bool, handedOut': multiset<int>)
    requires n < |events| && Progress(listening, cs, events, n, now, gone, before, handedOut)
    requires Distinct(events) && listening !in cs && NewOnes(listening, cs, events)
    requires (now', remove) == ServeOne(listening, now, events[n]) && handedOut' == handedOut + Brought(listening, events[n])
    ensures var e := events[n];
            if e.socket in now && Derails(now[e.socket], e) then AnyDerails(cs, events, |events|)
            else Progress(listening, cs, events, n + 1, now', if remove then gone + [e.socket] else gone, before, handedOut')
  {
    hide ServeOne, Derails, Brought;
    NextIsOld(listening, cs, events, n);
  }

  lemma ProgressEnd(listening: int, cs: map<int, Ends>, events: seq<Event>, now: map<int, Ends>, gone: seq<int>,
                    before: multiset<int>, handedOut: multiset<int>)
    requires Progress(listening, cs, events, |events|, now, gone, before, handedOut)
    ensures (now, gone) == ServeAll(listening, cs, events, |events|) && !AnyDerails(cs, events, |events|)
    ensures handedOut == before + AllBrought(listening, events, |events|)
  {
  }

  /** The open sockets are the listener and the connections, and so is the interest list. */
  predicate Balanced(open: set<int>, interest: map<int, Mask>, held: set<int>, listening: int) {
    && listening !in held && SOCKET_ERROR !in held && interest.Keys == open
    && open == if listening == SOCKET_ERROR then held else held + {listening}
  }

  /** EPOLLOUT is asked for exactly where something waits to be sent. */
  predicate Armed(interest: map<int, Mask>, waiting: set<int>) {
    forall s :: s in interest ==> (interest[s].out <==> s in waiting)
  }

  lemma NewSocket(open: set<int>, interest: map<int, Mask>, held: set<int>, listening: int, waiting: set<int>, s: int, m: Mask)
    requires Balanced(open, interest, held, listening) && Armed(interest, waiting) && waiting <= held
    requires s !in open && s != SOCKET_ERROR && !m.out
    ensures Balanced(open + {s}, interest[s := m], held + {s}, listening) && Armed(interest[s := m], waiting)
    ensures listening == SOCKET_ERROR ==> Balanced(open + {s}, interest[s := m], held, s)
  {
  }

  lemma NotInterested(open: set<int>, interest: map<int, Mask>, held: set<int>, listening: int, s: int)
    requires Balanced(open, interest, held, listening) && s !in open
    ensures s !in interest && s !in held
  {
  }

  lemma SocketGone(open: set<int>, interest: map<int, Mask>, held: set<int>, listening: int, waiting: set<int>, s: int)
    requires Balanced(open, interest, held, listening) && Armed(interest, waiting) && s != SOCKET_ERROR
    ensures Balanced(open - {s}, interest - {s}, held - {s}, if s == listening then SOCKET_ERROR else listening)
    ensures Armed(interest - {s}, waiting - {s})
    ensures (s in open <==> s == listening || s in held) && (s == listening ==> s !in held)
  {
  }

  class NetConnectionManager {
    const kernel: Kernel
    var listenSocket: int
    var connections: map<int, NetConnection>
    ghost var freed: set<NetConnection>
    ghost var repr: set<object>  // what the connections are made of

    constructor ()
      ensures fresh(kernel) && Valid({}) && connections == map[] && listenSocket == SOCKET_ERROR && freed == {}
      ensures kernel.open == {} && kernel.handedOut == kernel.closes == multiset{} && repr == {}
    {
      kernel := new Kernel();
      listenSocket, connections, freed, repr := SOCKET_ERROR, map[], {}, {};
    }

    /** A connection as the manager keeps it. */
    ghost predicate Held(s: int, c: NetConnection)
      reads c.Repr()
    {
      c.Valid() && c.socket == s && c.manager == this
    }

    /** A connection that can go on: drained, and no header refused. */
    ghost predicate Settled(c: NetConnection)
      reads c.Repr()
    {
      c.Valid() && c.Trusted() && First(c.Got()).Incomplete?
    }

    static ghost predicate Apart(c: NetConnection, d: NetConnection) {
      c.Repr() !! d.Repr()
    }

    /** Each connection stands under its own socket, none has been freed, and no two share memory. Only those in `broken`, which
        are about to be closed, may be in the middle of a stream they cannot go on with. */
    ghost predicate Sound(cs: map<int, NetConnection>, broken: set<int>, gone: set<NetConnection>, objects: set<object>)
      reads objects
    {
      && (forall s :: s in cs ==> cs[s].Repr() <= objects && Held(s, cs[s]) && cs[s] !in gone)
      && (forall s :: s in cs && s !in broken ==> Settled(cs[s]))
      && (forall s, t :: s in cs && t in cs && s != t ==> Apart(cs[s], cs[t]))
    }

    /** The connections that have something to send. */
    static ghost function Waiting(cs: map<int, NetConnection>, objects: set<object>): (r: set<int>)
      reads objects
      ensures r <= cs.Keys
    {
      set s | s in cs && cs[s].sendBuffer in objects && cs[s].IsNeedWrite()
    }

    ghost predicate Valid(broken: set<int>)
      reads this, kernel, repr
    {
      && this !in repr && kernel !in repr && kernel.Valid()
      && Balanced(kernel.open, kernel.interest, connections.Keys, listenSocket)
      && Armed(kernel.interest, Waiting(connections, repr))
      && Sound(connections, broken, freed, repr)
    }

    lemma KeptWith(cs: map<int, NetConnection>, broken: set<int>, gone: set<NetConnection>, objects: set<object>, s: int, c: NetConnection)
      requires Sound(cs, broken, gone, objects) && s !in cs && Held(s, c) && Settled(c) && c !in gone && c.Repr() !! objects
      ensures Sound(cs[s := c], broken, gone, objects + c.Repr())
    {
      hide Held, Settled;
    }

    lemma WaitingWith(cs: map<int, NetConnection>, broken: set<int>, gone: set<NetConnection>, objects: set<object>, s: int, c: NetConnection)
      requires Sound(cs, broken, gone, objects) && s !in cs && !c.IsNeedWrite()
      ensures Waiting(cs[s := c], objects + c.Repr()) == Waiting(cs, objects)
    {
      hide Held, Settled, Apart;
      forall t | t in cs
        ensures t in Waiting(cs[s := c], objects + c.Repr()) <==> t in Waiting(cs, objects)
      {
        assert cs[t].sendBuffer in cs[t].Repr() && cs[s := c][t] == cs[t];
      }
    }

    /** NetListener::Start and the rest of Init: `s` is the listening socket. */
    method Init(s: int)
      requires Valid({}) && listenSocket == SOCKET_ERROR && s != SOCKET_ERROR && s !in kernel.open
      modifies this`listenSocket, kernel
      ensures Valid({}) && listenSocket == s
      ensures kernel.open == old(kernel.open) + {s} && kernel.handedOut == old(kernel.handedOut) + multiset{s}
      ensures connections == old(connections) && repr == old(repr)
    {
      hide Sound, Waiting, Balanced, Armed;
      NewSocket(kernel.open, kernel.interest, connections.Keys, listenSocket, Waiting(connections, repr), s, Mask(false, false));
      NotInterested(kernel.open, kernel.interest, connections.Keys, listenSocket, s);
      kernel.Open(s);
      listenSocket := s;
      kernel.Add(s, Mask(false, false));
    }

    lemma AllWithin(cs: map<int, NetConnection>, broken: set<int>, gone: set<NetConnection>, objects: set<object>)
      requires Sound(cs, broken, gone, objects)
      ensures forall t :: t in cs ==> cs[t].Repr() <= objects
    {
      hide Settled, Apart;
    }

    method NewConnection(s: int) returns (con: NetConnection)
      ensures fresh(con) && fresh(con.Repr()) && Held(s, con) && Settled(con) && !con.IsNeedWrite() && con.Valid() && con.BothEnds() == EMPTY
    {
      hide ReadHeader;
      con := new NetConnection();
      con.SetSocket(s);
      con.SetManager(this);
    }

    method AddConnection(s: int, ghost broken: set<int>)
      requires kernel.Valid() && s in kernel.open && s !in connections && s !in kernel.interest
      requires this !in repr && kernel !in repr && Sound(connections, broken, freed, repr)
      modifies this`connections, this`repr, kernel`interest
      ensures kernel.Valid() && kernel.interest == old(kernel.interest)[s := Mask(false, true)]
      ensures connections.Keys == old(connections).Keys + {s} && forall t :: t in old(connections) ==> connections[t] == old(connections)[t]
      ensures this !in repr && kernel !in repr && fresh(repr - old(repr)) && old(repr) <= repr
      ensures Sound(connections, broken, freed, repr) && Waiting(connections, repr) == old(Waiting(connections, repr))
      ensures At(s) == EMPTY && forall t :: t in old(connections) ==> At(t) == old(At(t))
    {
      hide Sound, Waiting, Held, Settled;
      AllWithin(connections, broken, freed, repr);
      var con := NewConnection(s);
      KeptWith(connections, broken, freed, repr, s, con);
      WaitingWith(connections, broken, freed, repr, s, con);
      connections := connections[s := con];
      repr := repr + con.Repr();
      kernel.Add(s, Mask(false, true));
    }

    /** NetListener::OnSocketRead. */
    method OnAccept(a: Accept, ghost broken: set<int>) returns (code: int)
      requires Valid(broken) && listenSocket != SOCKET_ERROR && (!a.NoSocket? ==> a.s != SOCKET_ERROR && a.s !in kernel.open)
      modifies this`connections, this`repr, kernel
      ensures Valid(broken) && fresh(repr - old(repr)) && old(repr) <= repr
      ensures code == AcceptCode(a) && kernel.handedOut == old(kernel.handedOut) + HandedOutBy(a)
      ensures connections.Keys == old(connections).Keys + (if a.Accepted? then {a.s} else {})
      ensures kernel.open == old(kernel.open) + (if a.Accepted? then {a.s} else {})
      ensures forall t :: t in old(connections) ==> connections[t] == old(connections)[t] && At(t) == old(At(t))
      ensures a.Accepted? ==> a.s !in old(connections) && At(a.s) == EMPTY
    {
      hide Settled, Held, Sound, Apart, Waiting, Balanced, Armed, Kernel.Valid, At, HandedOutBy;
      ghost var waiting := Waiting(connections, repr);
      if a.Accepted? {
        NewSocket(kernel.open, kernel.interest, connections.Keys, listenSocket, waiting, a.s, Mask(false, true));
        NotInterested(kernel.open, kernel.interest, connections.Keys, listenSocket, a.s);
      }
      code := AcceptSocket(a);
      assert Waiting(connections, repr) == waiting && Sound(connections, broken, freed, repr);
      assert forall t :: t in connections ==> At(t) == old(At(t));
      if code == 0 {
        AddConnection(a.s, broken);
      }
    }

    /** accept() and the calls that prepare the new socket, which is closed again when one of them fails. */
    method AcceptSocket(a: Accept) returns (code: int)
      requires kernel.Valid() && (!a.NoSocket? ==> a.s != SOCKET_ERROR && a.s !in kernel.open)
      modifies kernel
      ensures kernel.Valid() && kernel.interest == old(kernel.interest)
      ensures kernel.open == if a.Accepted? then old(kernel.open) + {a.s} else old(kernel.open)
      ensures code == AcceptCode(a) && kernel.handedOut == old(kernel.handedOut) + HandedOutBy(a)
    {
      if a.NoSocket? {
        return 1;
      }
      kernel.Open(a.s);
      if a.Unprepared? {
        kernel.Close(a.s);
        return if a.blocking then 2 else 3;
      }
      return 0;
    }

    ghost predicate Tracks(con: NetConnection)
      reads kernel, con, con.sendBuffer
    {
      con.socket in kernel.interest && (kernel.interest[con.socket].out <==> con.IsNeedWrite())
    }

    method UpdateConnectionSend(con: NetConnection)
      requires kernel.Valid()
      modifies kernel`interest
      ensures kernel.Valid()
      ensures kernel.interest == if con.socket in old(kernel.interest)
                                 then old(kernel.interest)[con.socket := Mask(con.IsNeedWrite(), false)] else old(kernel.interest)
    {
      kernel.Modify(con.socket, Mask(con.IsNeedWrite(), false));
    }

    /** The loop of OnSocketRead behind a successful read: every complete package goes to the server. */
    method Drain(con: NetConnection) returns (code: int, packages: seq<Package>)
      requires con.Valid() && con.Trusted() && con.manager == this && kernel.Valid() && kernel !in con.Repr() && Tracks(con)
      modifies con.sendBuffer, con.sendBuffer.data, con.recvBuffer, con.recvBuffer.data, con.recvHeader, kernel`interest
      ensures con.Valid() && kernel.Valid() && Tracks(con) && OnlyAt(kernel, con.socket)
      ensures var r := old(Receive(con.Got()));
              packages == r.packages && con.Got() == r.rest && code == StopCode(r.stop) && (r.stop.Incomplete? ==> con.Trusted())
      ensures con.ToSend() == AllAnswered(old(con.ToSend()), packages)
    {
      hide DrainState;
      code, packages := 0, [];
      ghost var start, queued := con.Got(), con.ToSend();
      var more := true;
      DrainStarts(con);
      while more
        invariant DrainState(con, start, queued, packages, more, code) && OnlyAt(kernel, con.socket)
        decreases more, con.recvBuffer.length
      {
        more, code, packages := DrainOne(con, packages, start, queued, code);
      }
      DrainEnds(con, start, queued, packages, code);
    }

    /** While draining: what has been handed on and what is still in the buffer make up what draining `start` yields. */
    ghost predicate DrainState(con: NetConnection, start: seq<Byte>, queued: seq<Byte>, packages: seq<Package>, more: bool, code: int)
      reads con.Repr(), kernel
    {
      && con.Valid() && con.manager == this && kernel.Valid() && kernel !in con.Repr() && Tracks(con)
      && con.ToSend() == AllAnswered(queued, packages)
      && (more ==> con.Trusted() && Receive(start) == Before(packages, Receive(con.Got())))
      && (!more ==> Receive(start) == Received(packages, con.Got(), First(con.Got()))
                    && code == StopCode(First(con.Got())) && (First(con.Got()).Incomplete? ==> con.Trusted()))
    }

    lemma DrainStarts(con: NetConnection)
      requires con.Valid() && con.Trusted() && con.manager == this && kernel.Valid() && kernel !in con.Repr() && Tracks(con)
      ensures DrainState(con, con.Got(), con.ToSend(), [], true, 0)
    {
      hide First, Receive, Answered, ReadHeader;
      assert [] + Receive(con.Got()).packages == Receive(con.Got()).packages;
    }

    lemma DrainEnds(con: NetConnection, start: seq<Byte>, queued: seq<Byte>, packages: seq<Package>, code: int)
      requires DrainState(con, start, queued, packages, false, code)
      ensures con.Valid() && kernel.Valid() && Tracks(con) && con.ToSend() == AllAnswered(queued, packages)
      ensures var r := Receive(start);
              packages == r.packages && con.Got() == r.rest && code == StopCode(r.stop) && (r.stop.Incomplete? ==> con.Trusted())
    {
      hide First, Receive, Answered, ReadHeader, AllAnswered;
    }

    /** One round of that loop. */
    method DrainOne(con: NetConnection, packages0: seq<Package>, ghost start: seq<Byte>, ghost queued: seq<Byte>, ghost code0: int)
      returns (more: bool, code: int, packages: seq<Package>)
      requires DrainState(con, start, queued, packages0, true, code0)
      modifies con.sendBuffer, con.sendBuffer.data, con.recvBuffer, con.recvBuffer.data, con.recvHeader, kernel`interest
      ensures DrainState(con, start, queued, packages, more, code) && OnlyAt(kernel, con.socket)
      ensures more ==> con.recvBuffer.length < old(con.recvBuffer.length)
    {
      hide First, Receive, Answered, AllAnswered, ReadHeader;
      packages := packages0;
      ReceiveStep(con.Got());
      var ret := con.CheckRecvPackage();
      if ret == 0 {
        assert packages + [] == packages;
        return false, 0, packages;
      } else if ret == 1 {
        ghost var rest: seq<Package> := if First(con.Got()).Complete? then Receive(First(con.Got()).rest).packages else [];
        var defined, p := OnRecvData(con);
        if !defined {
          assert packages + [] == packages;
          return false, UNDEFINED, packages;
        }
        AnsweredLast(queued, packages, p);
        assert packages + ([p] + rest) == (packages + [p]) + rest;
        return true, 0, packages + [p];
      } else {
        assert packages + [] == packages;
        return false, 4, packages;
      }
    }

    // ---------- events ----------

    /** Reads bring 1 to 1024 bytes. */
    static predicate Orderly(arrival: Arrival) {
      arrival.Data? ==> 0 < |arrival.bytes| <= 1024
    }

    /** recv() on a connection and the loop behind it. The buffer is never too full for what arrives. */
    method ReadConnection(con: NetConnection, arrival: Arrival, ghost s: int) returns (code: int, packages: seq<Package>)
      requires Held(s, con) && Settled(con) && Tracks(con) && Orderly(arrival) && kernel.Valid() && kernel !in con.Repr()
      modifies con.sendBuffer, con.sendBuffer.data, con.recvBuffer, con.recvBuffer.data, con.recvHeader, kernel`interest
      ensures Held(s, con) && Tracks(con) && kernel.Valid() && OnlyAt(kernel, s)
      ensures Outcome(con.BothEnds(), code) == Reads(old(con.BothEnds()), arrival) && packages == Handed(old(con.BothEnds()), arrival)
      ensures code == 0 ==> Settled(con)
      ensures !arrival.Data? ==> unchanged(con.Repr())
    {
      hide First, Receive, ReadHeader;
      packages := [];
      match arrival {
        case Closed => return 1, [];
        case Broken => return 2, [];
        case Data(bytes) =>
          var buff := new Byte[1024];
          CopyTo(buff, 0, bytes);
          assert buff[..|bytes|] == bytes;
          SmallEnough(con.Got());
          var ok := con.AddRecvData(buff, |bytes|);
          if !ok {
            return 3, [];
          }
          code, packages := Drain(con);
      }
    }

    /** DoSend on a connection: what is taken from the send buffer is its beginning. */
    method WriteConnection(con: NetConnection, limit: int, ghost s: int) returns (code: int, ghost sent: nat)
      requires Held(s, con) && Settled(con) && Tracks(con) && kernel.Valid() && kernel !in con.Repr()
      modifies con.sendBuffer, con.sendBuffer.data, kernel`interest
      ensures Held(s, con) && Settled(con) && Tracks(con) && kernel.Valid() && OnlyAt(kernel, s)
      ensures Outcome(con.BothEnds(), code) == Writes(old(con.BothEnds()), limit) && sent == Taken(limit, |old(con.ToSend())|)
    {
      hide First, ReadHeader;
      code, sent := con.DoSend(limit);
    }

    lemma SmallEnough(b: seq<Byte>)
      requires First(b).Incomplete?
      ensures |b| + 1024 <= NET_BUFFER_SIZE
    {
      hide ReadHeader;
    }

    lemma ArmedAfter(s: int, interest: map<int, Mask>, interest': map<int, Mask>, waiting: set<int>, waiting': set<int>, need: bool)
      requires Armed(interest, waiting) && s in interest' && interest'.Keys == interest.Keys
      requires forall t :: t in interest' && t != s ==> interest'[t] == interest[t]
      requires (interest'[s].out <==> need) && forall t :: t in waiting' <==> if t == s then need else t in waiting
      ensures Armed(interest', waiting')
    {
    }

    lemma AllApart(cs: map<int, NetConnection>, broken: set<int>, gone: set<NetConnection>, objects: set<object>, s: int)
      requires Sound(cs, broken, gone, objects) && s in cs
      ensures forall t :: t in cs && t != s ==> cs[t].Repr() !! cs[s].Repr()
    {
      hide Settled, Held;
      forall t | t in cs && t != s
        ensures cs[t].Repr() !! cs[s].Repr()
      {
        assert Apart(cs[t], cs[s]);
      }
    }

    lemma BalancedStays(open: set<int>, interest: map<int, Mask>, interest': map<int, Mask>, held: set<int>, listening: int)
      requires Balanced(open, interest, held, listening) && interest'.Keys == interest.Keys
      ensures Balanced(open, interest', held, listening)
    {
    }

    /** The parts that a call for the connection under `s` may change; nothing for a socket that is no connection's. */
    ghost function Parts(s: int): set<object>
      reads this
    {
      if s in connections then connections[s].Repr() else {}
    }

    /** Accepting yields a socket that is not in use. */
    predicate Sensible(e: Event)
      reads this, kernel
    {
      && (e.socket == listenSocket && !e.accept.NoSocket? ==> e.accept.s != SOCKET_ERROR && e.accept.s !in kernel.open)
      && Orderly(e.arrival)
    }

    /** The socket that a read of the listener adds. */
    function Newcomer(e: Event): set<int>
      reads this
    {
      if e.socket == listenSocket && e.accept.Accepted? then {e.accept.s} else {}
    }

    /** All connections are still there, each under its socket, and all but the one under `s` are as they were. */
    twostate predicate OthersUntouched(s: int, objects: set<object>)
      reads this, objects
    {
      && (forall t :: t in old(connections) ==> t in connections && connections[t] == old(connections)[t])
      && (forall t :: t in old(connections) && t != s && old(connections)[t].Repr() <= objects ==> unchanged(old(connections)[t].Repr()))
    }

    /** What the connection under `s` holds. */
    ghost function At(s: int): Ends
      reads this, repr
    {
      if s in connections && connections[s].Repr() <= repr && connections[s].recvBuffer.Valid() && connections[s].sendBuffer.Valid()
      then connections[s].BothEnds() else EMPTY
    }

    ghost function All(): (r: map<int, Ends>)
      reads this, repr
      ensures r.Keys == connections.Keys && forall s :: s in connections ==> r[s] == At(s)
    {
      map s | s in connections :: At(s)
    }

    twostate predicate OthersHold(s: int)
      reads this, repr
    {
      forall t :: t in old(connections) && t != s ==> At(t) == old(At(t))
    }

    lemma KeptAt(broken: set<int>, s: int)
      requires Valid(broken) && s in connections
      ensures var c := connections[s];
              && c.socket == s && Held(s, c) && Tracks(c) && c.Repr() <= repr && kernel !in c.Repr() && this !in c.Repr() && (s !in broken ==> Settled(c))
              && s in kernel.interest && s != SOCKET_ERROR && s != listenSocket && s in kernel.open && c !in freed
    {
      hide First, ReadHeader;
    }

    /** Sockets are only added here, and only by accepting one. */
    twostate predicate OpenGrows(e: Event)
      reads this, kernel
    {
      && old(kernel.open) <= kernel.open && (e.socket != listenSocket ==> kernel.open == old(kernel.open))
      && forall t :: t in connections && t in old(kernel.open) ==> t in old(connections)
    }

    lemma ListenerApart(broken: set<int>)
      requires Valid(broken)
      ensures listenSocket !in connections
    {
      hide Sound, Waiting, Armed;
    }

    lemma BrokenMore(broken: set<int>, s: int)
      requires Valid(broken)
      ensures Valid(broken + {s})
    {
      hide Held, Settled, Waiting, Armed, Balanced, Apart;
    }

    method OnSocketRead(e: Event, ghost broken: set<int>) returns (code: int, packages: seq<Package>)
      requires Valid(broken) && e.socket !in broken && e.socket != SOCKET_ERROR && Sensible(e)
      modifies this`connections, this`repr, kernel, Parts(e.socket)
      ensures Valid(if code == 0 then broken else broken + {e.socket})
      ensures OthersUntouched(e.socket, old(repr)) && fresh(repr - old(repr)) && old(repr) <= repr
      ensures OpenGrows(e)
      ensures OthersHold(e.socket)
      ensures e.socket in old(connections) ==>
                Outcome(At(e.socket), code) == Reads(old(At(e.socket)), e.arrival) && packages == Handed(old(At(e.socket)), e.arrival)
      ensures e.socket in old(connections) ==> ReadCode(old(At(e.socket)), e.arrival, code, packages, At(e.socket).got)
      ensures listenSocket == old(listenSocket) && (e.socket == listenSocket ==> code == AcceptCode(e.accept))
      ensures kernel.handedOut == old(kernel.handedOut) + if e.socket == listenSocket then HandedOutBy(e.accept) else multiset{}
      ensures connections.Keys == old(connections).Keys + old(Newcomer(e)) && forall t :: t in old(Newcomer(e)) ==> t !in old(connections) && At(t) == EMPTY
      ensures e.socket != listenSocket && e.socket !in old(connections) ==> code == 0
    {
      hide Sound, Waiting, Balanced, Armed, Held, Settled, First, Receive, Orderly, Kernel.Valid, Reads, Handed, ReadCode;
      packages := [];
      if e.socket == listenSocket {
        ListenerApart(broken);
        code := OnAccept(e.accept, broken);
        BrokenMore(broken, e.socket);
      } else if e.socket !in connections {
        code := 0;
      } else {
        KeptAt(broken, e.socket);
        ghost var c := At(e.socket);
        code, packages := ReadKept(e.socket, e.arrival, broken);
        ReadCodeIs(c, e.arrival);
      }
    }

    /** The part for a connection: nothing that belongs to the others changes. */
    method ReadKept(s: int, arrival: Arrival, ghost broken: set<int>) returns (code: int, packages: seq<Package>)
      requires Valid(broken) && s in connections && s !in broken && Orderly(arrival)
      modifies kernel`interest, connections[s].Repr()
      ensures Valid(if code == 0 then broken else broken + {s})
      ensures OthersUntouched(s, old(repr))
      ensures OthersHold(s) && Outcome(At(s), code) == Reads(old(At(s)), arrival) && packages == Handed(old(At(s)), arrival)
    {
      hide Sound, Waiting, Balanced, Armed, Held, Settled, First, Receive, Orderly, Kernel.Valid;
      KeptAt(broken, s);
      ghost var interest, waiting := kernel.interest, Waiting(connections, repr);
      code, packages := ReadHeld(s, arrival, broken);
      ArmedAfter(s, interest, kernel.interest, waiting, Waiting(connections, repr), connections[s].IsNeedWrite());
      BalancedStays(kernel.open, interest, kernel.interest, connections.Keys, listenSocket);
    }

    method ReadHeld(s: int, arrival: Arrival, ghost broken: set<int>) returns (code: int, packages: seq<Package>)
      requires Sound(connections, broken, freed, repr) && s in connections && s !in broken && Orderly(arrival)
      requires kernel.Valid() && kernel !in repr && this !in repr && Tracks(connections[s])
      modifies kernel`interest, connections[s].Repr()
      ensures Sound(connections, if code == 0 then broken else broken + {s}, freed, repr)
      ensures forall t :: t in Waiting(connections, repr) <==> if t == s then connections[s].IsNeedWrite() else t in old(Waiting(connections, repr))
      ensures OthersUntouched(s, old(repr)) && kernel.Valid() && Tracks(connections[s]) && OnlyAt(kernel, s)
      ensures connections[s].recvBuffer.Valid() && connections[s].sendBuffer.Valid() && connections[s].socket == s
      ensures var c := connections[s];
              && old(c.recvBuffer.Valid() && c.sendBuffer.Valid())
              && Outcome(c.BothEnds(), code) == Reads(old(connections[s].BothEnds()), arrival)
              && packages == Handed(old(connections[s].BothEnds()), arrival)
    {
      hide Settled, Orderly, First, Receive, ReadHeader, AllAnswered;
      AllApart(connections, broken, freed, repr, s);
      code, packages := ReadConnection(connections[s], arrival, s);
    }

    method OnSocketWrite(e: Event, ghost broken: set<int>) returns (code: int)
      requires Valid(broken) && e.socket !in broken
      modifies kernel`interest, Parts(e.socket)
      ensures Valid(broken)
      ensures OthersUntouched(e.socket, old(repr))
      ensures OthersHold(e.socket)
      ensures e.socket in connections ==> Outcome(At(e.socket), code) == Writes(old(At(e.socket)), e.limit)
      ensures e.socket !in connections ==> code == 0
      ensures listenSocket == old(listenSocket) && connections == old(connections)
    {
      hide Sound, Waiting, Balanced, Armed, Held, Settled, First, Receive, Kernel.Valid;
      var s := e.socket;
      if s !in connections {
        return 0;
      }
      KeptAt(broken, s);
      ghost var interest, waiting := kernel.interest, Waiting(connections, repr);
      code := WriteHeld(s, e.limit, broken);
      ArmedAfter(s, interest, kernel.interest, waiting, Waiting(connections, repr), connections[s].IsNeedWrite());
      BalancedStays(kernel.open, interest, kernel.interest, connections.Keys, listenSocket);
    }

    method WriteHeld(s: int, limit: int, ghost broken: set<int>) returns (code: int)
      requires Sound(connections, broken, freed, repr) && s in connections && s !in broken
      requires kernel.Valid() && kernel !in repr && this !in repr && Tracks(connections[s])
      modifies kernel`interest, connections[s].Repr()
      ensures Sound(connections, broken, freed, repr)
      ensures forall t :: t in Waiting(connections, repr) <==> if t == s then connections[s].IsNeedWrite() else t in old(Waiting(connections, repr))
      ensures OthersUntouched(s, old(repr)) && kernel.Valid() && Tracks(connections[s]) && OnlyAt(kernel, s)
      ensures var c := connections[s];
              && c.socket == s && old(c.recvBuffer.Valid() && c.sendBuffer.Valid()) && c.recvBuffer.Valid() && c.sendBuffer.Valid()
              && Outcome(c.BothEnds(), code) == Writes(old(connections[s].BothEnds()), limit)
    {
      hide Settled, First, Receive, ReadHeader, Writes, Taken, AllAnswered;
      AllApart(connections, broken, freed, repr, s);
      ghost var sent;
      code, sent := WriteConnection(connections[s], limit, s);
    }

    /** SAFE_DELETE: the destructor closes what the connection still holds. */
    method Delete(con: NetConnection)
      requires kernel.Valid() && (con.socket == SOCKET_ERROR || con.socket in kernel.open)
      modifies con`socket, this`freed, if con.socket == SOCKET_ERROR then {} else {kernel}
      ensures kernel.Valid() && con.socket == SOCKET_ERROR && freed == old(freed) + {con}
      ensures old(con.socket) == SOCKET_ERROR ==> unchanged(kernel)
      ensures old(con.socket) != SOCKET_ERROR ==>
                && kernel.open == old(kernel.open) - {old(con.socket)} && kernel.interest == old(kernel.interest) - {old(con.socket)}
                && kernel.handedOut == old(kernel.handedOut)
    {
      if con.socket != SOCKET_ERROR {
        kernel.Close(con.socket);
        con.socket := SOCKET_ERROR;
      }
      freed := freed + {con};
    }

    lemma KeptWithout(cs: map<int, NetConnection>, broken: set<int>, gone: set<NetConnection>, objects: set<object>, s: int)
      requires Sound(cs, broken, gone, objects) && s in cs
      ensures Sound(cs - {s}, broken - {s}, gone + {cs[s]}, objects)
      ensures Waiting(cs - {s}, objects) == Waiting(cs, objects) - {s}
      ensures forall t :: t in cs && t != s ==> cs[s] !in cs[t].Repr()
    {
      hide Held, Settled;
      forall t | t in cs && t != s
        ensures cs[s] !in cs[t].Repr() && cs[t] != cs[s]
      {
        assert Apart(cs[t], cs[s]);
      }
    }

    method OnSocketClose(s: int, ghost broken: set<int>)
      requires Valid(broken) && s != SOCKET_ERROR
      modifies this`listenSocket, this`connections, this`freed, kernel, if s in connections then {connections[s]} else {}
      ensures Valid(broken - {s})
      ensures connections == old(connections) - {s} && kernel.open == old(kernel.open) - {s} && kernel.handedOut == old(kernel.handedOut)
      ensures freed == if s in old(connections) then old(freed) + {old(connections)[s]} else old(freed)
      ensures listenSocket == if s == old(listenSocket) then SOCKET_ERROR else old(listenSocket)
      ensures forall t :: t in connections ==> At(t) == old(At(t))
    {
      hide Valid, Sound, Waiting, Balanced, Armed, Kernel.Valid;
      ghost var interest := kernel.interest;
      AboutToClose(broken, s);
      kernel.Delete(s);
      if s == listenSocket {
        StopListener(broken, interest);
      } else if s in connections {
        DropConnection(s, broken, interest);
      } else {
        NothingToDrop(broken, s, interest);
      }
    }

    lemma AboutToClose(broken: set<int>, s: int)
      requires Valid(broken)
      ensures kernel.Valid() && this !in repr && kernel !in repr
      ensures Unwatched(broken, s, kernel.interest, kernel.interest - {s})
    {
      hide Sound, Waiting, Balanced, Armed;
    }

    /** Valid but for the interest in `s`, which has been given up. */
    ghost predicate Unwatched(broken: set<int>, s: int, interest: map<int, Mask>, interest': map<int, Mask>)
      reads this, kernel, repr
    {
      && this !in repr && kernel !in repr && kernel.Valid() && interest' == interest - {s}
      && Balanced(kernel.open, interest, connections.Keys, listenSocket)
      && Armed(interest, Waiting(connections, repr))
      && Sound(connections, broken, freed, repr)
    }

    method StopListener(ghost broken: set<int>, ghost interest: map<int, Mask>)
      requires Unwatched(broken, listenSocket, interest, kernel.interest) && listenSocket != SOCKET_ERROR
      modifies this`listenSocket, kernel
      ensures Valid(broken - {old(listenSocket)}) && kernel.open == old(kernel.open) - {old(listenSocket)}
      ensures kernel.handedOut == old(kernel.handedOut)
      ensures connections == old(connections) - {old(listenSocket)} && listenSocket == SOCKET_ERROR
    {
      hide Sound, Waiting, Balanced, Armed, Kernel.Valid;
      ghost var s, waiting := listenSocket, Waiting(connections, repr);
      SocketGone(kernel.open, interest, connections.Keys, s, waiting, s);
      NotHeld(connections, broken, freed, repr, s);
      StopListening();
      assert Waiting(connections, repr) == waiting && Sound(connections, broken - {s}, freed, repr);
      assert kernel.interest == interest - {s};
    }

    /** NetListener::Stop and NetListener::OnSocketClose. */
    method StopListening()
      requires kernel.Valid() && (listenSocket != SOCKET_ERROR ==> listenSocket in kernel.open)
      modifies this`listenSocket, kernel
      ensures kernel.Valid() && listenSocket == SOCKET_ERROR && kernel.handedOut == old(kernel.handedOut)
      ensures old(listenSocket) == SOCKET_ERROR ==> unchanged(kernel)
      ensures old(listenSocket) != SOCKET_ERROR ==>
                && kernel.open == old(kernel.open) - {old(listenSocket)} && kernel.interest == old(kernel.interest) - {old(listenSocket)}
                && kernel.closes == old(kernel.closes) + multiset{old(listenSocket)}
    {
      if listenSocket != SOCKET_ERROR {
        kernel.Close(listenSocket);
        listenSocket := SOCKET_ERROR;
      }
    }

    /** A socket that no connection holds. */
    lemma NotHeld(cs: map<int, NetConnection>, broken: set<int>, gone: set<NetConnection>, objects: set<object>, s: int)
      requires Sound(cs, broken, gone, objects)
      ensures s !in cs ==>
                && Sound(cs, broken - {s}, gone, objects) && Waiting(cs, objects) - {s} == Waiting(cs, objects)
                && cs - {s} == cs && cs.Keys - {s} == cs.Keys
    {
      hide Held, Settled, Apart;
    }

    method DropConnection(s: int, ghost broken: set<int>, ghost interest: map<int, Mask>)
      requires Unwatched(broken, s, interest, kernel.interest) && s in connections && s != listenSocket && s != SOCKET_ERROR
      modifies this`connections, this`freed, kernel, connections[s]
      ensures Valid(broken - {s}) && kernel.open == old(kernel.open) - {s} && kernel.handedOut == old(kernel.handedOut)
      ensures connections == old(connections) - {s} && freed == old(freed) + {old(connections)[s]}
    {
      hide Sound, Waiting, Balanced, Armed, Kernel.Valid;
      SocketGone(kernel.open, interest, connections.Keys, listenSocket, Waiting(connections, repr), s);
      Erase(s, broken);
      assert kernel.interest == interest - {s};
    }

    lemma NothingToDrop(broken: set<int>, s: int, interest: map<int, Mask>)
      requires Unwatched(broken, s, interest, kernel.interest) && s !in connections && s != listenSocket && s != SOCKET_ERROR
      ensures Valid(broken - {s}) && kernel.open == kernel.open - {s} && connections == connections - {s}
    {
      hide Sound, Waiting, Balanced, Armed, Kernel.Valid;
      SocketGone(kernel.open, interest, connections.Keys, listenSocket, Waiting(connections, repr), s);
      NotHeld(connections, broken, freed, repr, s);
      assert kernel.open - {s} == kernel.open;
    }

    /** The connection of a socket is taken out and freed, and the socket closed. */
    method Erase(s: int, ghost broken: set<int>)
      requires kernel.Valid() && Sound(connections, broken, freed, repr) && this !in repr && kernel !in repr
      requires s in connections && s in kernel.open
      modifies this`connections, this`freed, kernel, connections[s]
      ensures kernel.Valid() && Sound(connections, broken - {s}, freed, repr)
      ensures Waiting(connections, repr) == old(Waiting(connections, repr)) - {s}
      ensures connections == old(connections) - {s} && connections.Keys == old(connections).Keys - {s}
      ensures freed == old(freed) + {old(connections)[s]}
      ensures kernel.open == old(kernel.open) - {s} && kernel.interest == old(kernel.interest) - {s} && kernel.handedOut == old(kernel.handedOut)
    {
      hide Sound, Waiting, Kernel.Valid;
      KeptValid(s, broken);
      KeptWithout(connections, broken, freed, repr, s);
      var con := connections[s];
      connections := connections - {s};
      Forget(con, broken - {s});
      kernel.Close(s);
    }

    /** A connection that is no longer kept: its socket is taken from it, so that its destructor closes nothing. */
    method Forget(con: NetConnection, ghost broken: set<int>)
      requires con.Valid() && kernel.Valid() && this !in repr && kernel !in repr
      requires Sound(connections, broken, freed + {con}, repr) && forall t :: t in connections ==> con !in connections[t].Repr()
      modifies con, this`freed
      ensures kernel.Valid() && freed == old(freed) + {con}
      ensures Sound(connections, broken, freed, repr) && Waiting(connections, repr) == old(Waiting(connections, repr))
    {
      hide Held, Settled, Apart, Kernel.Valid;
      con.SetSocket(SOCKET_ERROR);
      Delete(con);
    }

    lemma KeptValid(s: int, broken: set<int>)
      requires Sound(connections, broken, freed, repr) && s in connections
      ensures connections[s].Valid() && connections[s] in repr
    {
      hide Settled, Apart;
    }

    /** One event of a batch: whether its socket has to be closed, and whether serving it was defined. */
    method ServeEvent(e: Event, ghost broken: set<int>) returns (remove: bool, defined: bool)
      requires Valid(broken) && e.socket !in broken && e.socket != SOCKET_ERROR && e.socket in kernel.open && Sensible(e)
      modifies this`connections, this`repr, kernel, Parts(e.socket)
      ensures Valid(if remove then broken + {e.socket} else broken)
      ensures OthersUntouched(e.socket, old(repr)) && fresh(repr - old(repr)) && old(repr) <= repr && OpenGrows(e)
      ensures OthersHold(e.socket) && listenSocket == old(listenSocket)
      ensures e.socket in old(connections) ==> (At(e.socket), remove) == Serves(old(At(e.socket)), e)
      ensures !defined <==> e.socket in old(connections) && Derails(old(At(e.socket)), e)
      ensures kernel.handedOut == old(kernel.handedOut) + Brought(listenSocket, e)
      ensures e.err ==> remove
      ensures e.socket == listenSocket ==> (remove <==> e.err || (e.readable && !e.accept.Accepted?))
      ensures e.socket != listenSocket && e.socket !in old(connections) ==> remove == e.err
      ensures var new' := if e.readable && !e.err then old(Newcomer(e)) else {};
              connections.Keys == old(connections).Keys + new' && forall t :: t in new' ==> t !in old(connections) && At(t) == EMPTY
    {
      hide Sound, Waiting, Balanced, Armed, Orderly, Kernel.Valid, Sensible, Valid, At, Reads, Writes, NetConnection.Repr;
      BrokenMore(broken, e.socket);
      ListenerApart(broken);
      if e.err {
        return true, true;
      }
      if e.readable {
        var code, _ := OnSocketRead(e, broken);
        if code != 0 {
          return true, code != UNDEFINED;
        }
      }
      if e.writable {
        ListenerApart(broken);
        BrokenMore(broken, e.socket);
        PartsAreMine(broken, e.socket);
        var code := OnSocketWrite(e, broken);
        if code != 0 {
          BrokenMore(broken, e.socket);
          return true, true;
        }
      }
      return false, true;
    }

    /** The same with its effect on all connections together. */
    method ServeAsOne(e: Event, ghost broken: set<int>) returns (remove: bool, defined: bool)
      requires Valid(broken) && e.socket !in broken && e.socket != SOCKET_ERROR && e.socket in kernel.open && Sensible(e)
      modifies this`connections, this`repr, kernel, Parts(e.socket)
      ensures Valid(if remove then broken + {e.socket} else broken)
      ensures OthersUntouched(e.socket, old(repr)) && fresh(repr - old(repr)) && old(repr) <= repr && OpenGrows(e)
      ensures (All(), remove) == ServeOne(old(listenSocket), old(All()), e) && listenSocket == old(listenSocket)
      ensures !defined <==> e.socket in old(All()) && Derails(old(All())[e.socket], e)
      ensures kernel.handedOut == old(kernel.handedOut) + Brought(listenSocket, e)
    {
      hide Valid, Kernel.Valid, Sensible, OthersUntouched, OpenGrows, At, Serves, NetConnection.Repr, ServeOne;
      ListenerApart(broken);
      ghost var before, joined := All(), if e.readable && !e.err then Newcomer(e) else {};
      remove, defined := ServeEvent(e, broken);
      assert forall t :: t in before && t != e.socket ==> All()[t] == before[t];
      IsServeOne(listenSocket, before, All(), e, remove, joined);
    }

    /** What epoll_wait may report: every socket at most once, and only sockets it was told to watch. */
    predicate Batch(events: seq<Event>, from: nat)
      reads this, kernel
    {
      forall i :: from <= i < |events| ==> events[i].socket in kernel.open && Sensible(events[i])
    }

    /** The loop over the events of a batch. It frees no connection: the sockets to be closed are only collected. Where an event
        leads to undefined behaviour it goes no further. */
    method ServeEvents(events: seq<Event>) returns (needRemove: seq<int>, defined: bool, ghost broken: set<int>)
      requires Valid({}) && Batch(events, 0) && Distinct(events)
      modifies this`connections, this`repr, kernel, repr
      ensures Valid(broken) && (forall s :: s in broken <==> s in needRemove) && SOCKET_ERROR !in broken
      ensures !defined <==> AnyDerails(old(All()), events, |events|)
      ensures defined ==> (All(), needRemove) == ServeAll(old(listenSocket), old(All()), events, |events|)
      ensures defined ==> kernel.handedOut == old(kernel.handedOut) + AllBrought(old(listenSocket), events, |events|)
      ensures freed == old(freed) && listenSocket == old(listenSocket) && old(kernel.open) <= kernel.open
      ensures forall s :: s in old(connections) ==> s in connections && connections[s] == old(connections)[s]
      ensures fresh(repr - old(repr))
    {
      hide Sensible, Valid, OthersUntouched, OpenGrows, Kernel.Valid, All, ServeOne, Derails, Brought, Progress, ServeAll, AnyDerails, AllBrought;
      needRemove, broken := [], {};
      NothingNew(events);
      PartsAreMine({}, SOCKET_ERROR);
      ghost var listening, cs, before := listenSocket, All(), kernel.handedOut;
      ProgressStart(listening, cs, events, before);
      for i := 0 to |events|
        invariant Valid(broken) && Batch(events, i)
        invariant forall s :: s in broken <==> s in needRemove
        invariant forall s :: s in broken ==> exists j :: 0 <= j < i && events[j].socket == s
        invariant SOCKET_ERROR !in broken && listenSocket == listening
        invariant Progress(listening, cs, events, i, All(), needRemove, before, kernel.handedOut)
        invariant old(kernel.open) <= kernel.open && fresh(repr - old(repr))
        invariant forall s :: s in old(connections) ==> s in connections && connections[s] == old(connections)[s]
      {
        PartsAreMine(broken, events[i].socket);
        ghost var now, gone, handedOut := All(), needRemove, kernel.handedOut;
        var remove, defined' := ServeNext(events, i, broken);
        ProgressStep(listening, cs, events, i, now, gone, before, handedOut, All(), remove, kernel.handedOut);
        if remove {
          needRemove, broken := needRemove + [events[i].socket], broken + {events[i].socket};
        }
        if !defined' {
          return needRemove, false, broken;
        }
      }
      ProgressEnd(listening, cs, events, All(), needRemove, before, kernel.handedOut);
      return needRemove, true, broken;
    }

    /** One round of that loop; the events behind it stay what they were. */
    method ServeNext(events: seq<Event>, i: nat, ghost broken: set<int>) returns (remove: bool, defined: bool)
      requires i < |events| && Valid(broken) && Batch(events, i) && Distinct(events) && events[i].socket !in broken
      modifies this`connections, this`repr, kernel, Parts(events[i].socket)
      ensures Valid(if remove then broken + {events[i].socket} else broken) && Batch(events, i + 1)
      ensures (All(), remove) == ServeOne(old(listenSocket), old(All()), events[i]) && listenSocket == old(listenSocket)
      ensures !defined <==> events[i].socket in old(All()) && Derails(old(All())[events[i].socket], events[i])
      ensures kernel.handedOut == old(kernel.handedOut) + Brought(listenSocket, events[i])
      ensures events[i].socket != SOCKET_ERROR && old(kernel.open) <= kernel.open && fresh(repr - old(repr))
      ensures forall s :: s in old(connections) ==> s in connections && connections[s] == old(connections)[s]
    {
      hide Valid, Kernel.Valid, Orderly, All, ServeOne;
      OpenIsReal(broken, events[i].socket);
      ReprsAreMine(broken);
      remove, defined := ServeAsOne(events[i], broken);
    }

    lemma ReprsAreMine(broken: set<int>)
      requires Valid(broken)
      ensures forall s :: s in connections ==> connections[s].Repr() <= repr
    {
      hide Held, Settled, Apart, Waiting, Armed, Balanced;
    }

    lemma PartsAreMine(broken: set<int>, s: int)
      requires Valid(broken)
      ensures this !in repr && kernel !in repr && Parts(s) <= repr
    {
      hide Held, Settled, Apart, Waiting, Armed, Balanced;
    }

    lemma OpenIsReal(broken: set<int>, s: int)
      requires Valid(broken) && s in kernel.open
      ensures s != SOCKET_ERROR
    {
      hide Sound, Waiting, Armed, Balanced;
    }

    static ghost function Members(s: seq<int>): set<int> {
      set x | x in s
    }

    static lemma AllElements(s: seq<int>, b: set<int>)
      requires forall x :: x in b <==> x in s
      ensures b <= Members(s[0..])
    {
      assert s[0..] == s;
      forall x | x in b
        ensures x in Members(s)
      {
        assert x in s;
      }
    }

    static lemma FewerElements(s: seq<int>, i: nat)
      requires i < |s|
      ensures Members(s[i..]) - {s[i]} <= Members(s[i + 1..])
    {
      assert s[i..] == [s[i]] + s[i + 1..];
    }

    /** The removals behind that loop. */
    method CloseAll(needRemove: seq<int>, ghost broken: set<int>)
      requires Valid(broken) && (forall s :: s in broken <==> s in needRemove) && SOCKET_ERROR !in broken
      modifies this`listenSocket, this`connections, this`freed, kernel, repr
      ensures Valid({}) && kernel.open == old(kernel.open) - broken && connections == old(connections) - broken
      ensures kernel.handedOut == old(kernel.handedOut) && repr == old(repr)
      ensures listenSocket == if old(listenSocket) in broken then SOCKET_ERROR else old(listenSocket)
      ensures forall t :: t in connections ==> At(t) == old(At(t))
    {
      hide Valid, Kernel.Valid, At;
      ghost var left := broken;
      PartsAreMine(broken, SOCKET_ERROR);
      AllElements(needRemove, broken);
      for i := 0 to |needRemove|
        invariant Valid(left) && left <= broken && left <= Members(needRemove[i..])
        invariant kernel.open == old(kernel.open) - (broken - left) && kernel.handedOut == old(kernel.handedOut)
        invariant connections == old(connections) - (broken - left)
        invariant listenSocket == if old(listenSocket) in broken - left then SOCKET_ERROR else old(listenSocket)
        invariant forall t :: t in connections ==> At(t) == old(At(t))
      {
        var s := needRemove[i];
        PartsAreMine(left, s);
        OnSocketClose(s, left);
        FewerElements(needRemove, i);
        left := left - {s};
      }
      assert needRemove[|needRemove|..] == [] && Members([]) == {};
      assert left == {};
    }

    /** SelectSocketLinux: a batch of events, or a failed wait. Every connection with an event is read from and written to as the
        event says; those for which that fails are gone, with their sockets, and all others are what they were. All of this unless
        a connection has received a header with a negative body size. */
    method SelectSocketLinux(failed: bool, events: seq<Event>) returns (defined: bool)
      requires Valid({}) && Batch(events, 0) && Distinct(events)
      modifies this, kernel, repr
      ensures !defined <==> !failed && AnyDerails(old(All()), events, |events|)
      ensures failed ==> unchanged(this) && unchanged(kernel)
      ensures defined ==> Valid({}) && fresh(repr - old(repr))
      ensures defined && !failed ==>
                Polled(events) && kernel.handedOut == old(kernel.handedOut) + AllBrought(old(listenSocket), events, |events|)
    {
      hide Valid, Kernel.Valid, Batch, At, ServeAll, Serves, Derails, Brought, Leaves, GoesOn;
      if failed {
        return true;
      }
      NothingNew(events);
      EachIsServed(listenSocket, All(), events, |events|);
      ghost var cs := All();
      QueuesFit();
      defined := ServeBatch(events);
      if defined {
        forall i | 0 <= i < |events| && events[i].socket in cs
          ensures Serves(cs[events[i].socket], events[i]).1 <==> Leaves(cs[events[i].socket], events[i])
          ensures !Serves(cs[events[i].socket], events[i]).1 ==>
                    GoesOn(cs[events[i].socket], events[i], Serves(cs[events[i].socket], events[i]).0)
        {
          ServesIs(cs[events[i].socket], events[i]);
        }
      }
    }

    lemma QueuesFit()
      requires Valid({})
      ensures forall s :: s in connections ==> |At(s).queue| <= 8192
    {
      hide Valid, Kernel.Valid, First, ReadHeader;
      forall s | s in connections
        ensures |At(s).queue| <= 8192
      {
        KeptAt({}, s);
      }
    }

    /** All events, and then the removals. */
    method ServeBatch(events: seq<Event>) returns (defined: bool)
      requires Valid({}) && Batch(events, 0) && Distinct(events)
      modifies this, kernel, repr
      ensures !defined <==> AnyDerails(old(All()), events, |events|)
      ensures defined ==> Valid({}) && fresh(repr - old(repr))
      ensures defined ==> kernel.handedOut == old(kernel.handedOut) + AllBrought(old(listenSocket), events, |events|)
      ensures defined ==> var (b, gone) := ServeAll(old(listenSocket), old(All()), events, |events|);
              && (forall s :: s in connections <==> s in b && s !in gone) && (forall s :: s in connections ==> At(s) == b[s])
              && (forall s :: s in gone ==> s !in kernel.open)
              && listenSocket == if old(listenSocket) in gone then SOCKET_ERROR else old(listenSocket)
      ensures defined ==> forall s :: s in connections && s in old(connections) ==> connections[s] == old(connections)[s]
    {
      hide Valid, Kernel.Valid, Batch, At, ServeAll, Derails, Brought;
      var needRemove;
      ghost var broken;
      needRemove, defined, broken := ServeEvents(events);
      if defined {
        CloseAll(needRemove, broken);
      }
    }

    lemma NothingNew(events: seq<Event>)
      requires Valid({}) && Batch(events, 0) && Distinct(events)
      ensures listenSocket !in All() && NewOnes(listenSocket, All(), events)
    {
      hide Sound, Waiting, Armed, Orderly, Kernel.Valid;
    }

    /** What a batch does to every connection. */
    twostate predicate Polled(events: seq<Event>)
      reads this, kernel, repr
    {
      var listening := old(listenSocket);
      && (forall i :: 0 <= i < |events| && events[i].socket in old(connections) ==>
            if Leaves(old(At(events[i].socket)), events[i]) then events[i].socket !in connections && events[i].socket !in kernel.open
            else && events[i].socket in connections && connections[events[i].socket] == old(connections)[events[i].socket]
                 && GoesOn(old(At(events[i].socket)), events[i], At(events[i].socket)))
      && (forall s :: s in old(connections) && (forall i :: 0 <= i < |events| ==> events[i].socket != s) ==>
            s in connections && connections[s] == old(connections)[s] && At(s) == old(At(s)))
      && (forall i :: 0 <= i < |events| && Joins(listening, events[i]) ==> events[i].accept.s in connections && At(events[i].accept.s) == EMPTY)
      && (forall s :: s in connections ==>
            s in old(connections) || exists i :: 0 <= i < |events| && Joins(listening, events[i]) && s == events[i].accept.s)
      && listenSocket == if exists i :: 0 <= i < |events| && events[i].socket == listening && (events[i].err || (events[i].readable && !events[i].accept.Accepted?))
                         then SOCKET_ERROR else listening
    }

    /** Release: every socket that was ever handed out has then been closed, each as often as it was handed out. */
    method Release()
      requires Valid({})
      modifies this, kernel, repr
      ensures connections == map[] && listenSocket == SOCKET_ERROR && kernel.Valid()
      ensures kernel.open == {} && kernel.closes == kernel.handedOut == old(kernel.handedOut)
      ensures old(freed) <= freed && forall s :: s in old(connections) ==> old(connections)[s] in freed
    {
      hide Valid, Kernel.Valid, Undeleted;
      ghost var held, all := connections, connections.Keys;
      OnlyConnections();
      StopListening();
      NoneDeleted();
      DeleteAll();
      AllDeleted();
      assert connections == held;
      connections := map[];
    }

    lemma NotListening()
      requires Valid({})
      ensures kernel.open == if listenSocket == SOCKET_ERROR then connections.Keys else connections.Keys + {listenSocket}
    {
      hide Sound, Waiting, Armed;
    }

    lemma NoneDeleted()
      requires kernel.Valid() && kernel.open == connections.Keys && this !in repr && kernel !in repr
      requires forall s :: s in connections ==> connections[s] in repr && connections[s].socket == s && s != SOCKET_ERROR
      requires forall s, t :: s in connections && t in connections && s != t ==> connections[s] != connections[t]
      ensures Undeleted(connections.Keys)
    {
      hide Kernel.Valid;
    }

    lemma AllDeleted()
      requires Undeleted({})
      ensures kernel.Valid() && kernel.open == {} && kernel.closes == kernel.handedOut
      ensures forall s :: s in connections ==> connections[s] in freed
    {
    }

    lemma OnlyConnections()
      requires Valid({})
      ensures kernel.open - {listenSocket} == connections.Keys && (listenSocket != SOCKET_ERROR ==> listenSocket in kernel.open)
      ensures listenSocket == SOCKET_ERROR ==> kernel.open == connections.Keys
      ensures this !in repr && kernel !in repr
      ensures forall s :: s in connections ==> connections[s] in repr && connections[s].socket == s && s != SOCKET_ERROR
      ensures forall s, t :: s in connections && t in connections && s != t ==> connections[s] != connections[t]
      ensures kernel.Valid()
    {
      hide Settled, Waiting, Armed;
      forall s, t | s in connections && t in connections && s != t
        ensures connections[s] != connections[t]
      {
        assert Apart(connections[s], connections[t]);
      }
    }

    /** The connections under `todo` have not been deleted yet, and hold all that is still open. */
    ghost predicate Undeleted(todo: set<int>)
      reads this, kernel, repr
    {
      && kernel.Valid() && kernel.open == todo && todo <= connections.Keys && this !in repr && kernel !in repr
      && (forall s :: s in todo ==> connections[s] in repr && connections[s].socket == s && s != SOCKET_ERROR)
      && (forall s, t :: s in todo && t in todo && s != t ==> connections[s] != connections[t])
      && (forall s :: s in connections && s !in todo ==> connections[s] in freed)
    }

    /** SAFE_DELETE_MAP. */
    method DeleteAll()
      requires Undeleted(connections.Keys)
      modifies this`freed, kernel, repr
      ensures Undeleted({}) && old(freed) <= freed && kernel.handedOut == old(kernel.handedOut)
    {
      hide Undeleted;
      var todo := connections.Keys;
      UndeletedFacts(todo);
      while todo != {}
        invariant Undeleted(todo) && old(freed) <= freed && kernel.handedOut == old(kernel.handedOut)
        decreases |todo|
      {
        var s := Pick(todo);
        UndeletedFacts(todo);
        DeleteOne(s, todo);
        todo := todo - {s};
      }
    }

    lemma UndeletedFacts(todo: set<int>)
      requires Undeleted(todo)
      ensures this !in repr && kernel !in repr && todo <= connections.Keys && forall s :: s in todo ==> connections[s] in repr
    {
      hide Kernel.Valid;
    }

    static method Pick(todo: set<int>) returns (s: int)
      requires todo != {}
      ensures s in todo
    {
      assert (forall x :: x !in todo) ==> todo == {};
      s :| s in todo;
    }

    method DeleteOne(s: int, ghost todo: set<int>)
      requires Undeleted(todo) && s in todo
      modifies this`freed, kernel, connections[s]
      ensures Undeleted(todo - {s}) && old(freed) <= freed && kernel.handedOut == old(kernel.handedOut)
    {
      hide Kernel.Valid;
      Delete(connections[s]);
    }
  }

  // ---------- a whole run ----------

  /** One poll: the listening socket and what the connections held then, and the events that were reported. */
  datatype Poll = Poll(listening: int, cs: map<int, Ends>, events: seq<Event>)

  predicate Survived(p: Poll) {
    !AnyDerails(p.cs, p.events, |p.events|)
  }

  function AllHandedOut(polls: seq<Poll>): multiset<int> {
    if polls == [] then multiset{}
    else var last := polls[|polls| - 1]; AllHandedOut(polls[..|polls| - 1]) + AllBrought(last.listening, last.events, |last.events|)
  }

  lemma AnotherPoll(polls: seq<Poll>, p: Poll)
    ensures AllHandedOut(polls + [p]) == AllHandedOut(polls) + AllBrought(p.listening, p.events, |p.events|)
  {
    assert (polls + [p])[..|polls|] == polls;
  }

  /** A server from its start to its end: whatever batches of events it is served, in between, every socket that the kernel has handed
      out, the listener's and all that accept has yielded, has been closed exactly as often as it was handed out, and nothing is
      open. A batch that cannot happen in the state reached counts as a failed wait. The run stops early exactly where some connection
      has received a negative body size. */
  method ServeRun(listening: int, script: seq<seq<Event>>) returns (m: NetConnectionManager, defined: bool, ghost polls: seq<Poll>)
    requires listening != SOCKET_ERROR
    ensures fresh(m) && fresh(m.kernel)
    ensures |polls| <= |script| && forall i :: 0 <= i < |polls| ==> polls[i].events == script[i] || polls[i].events == []
    ensures forall i :: 0 <= i < |polls| - 1 ==> Survived(polls[i])
    ensures if defined then |polls| == |script| && (polls != [] ==> Survived(polls[|polls| - 1])) else polls != [] && !Survived(polls[|polls| - 1])
    ensures defined ==> m.connections == map[] && m.kernel.open == {}
    ensures defined ==> m.kernel.closes == m.kernel.handedOut == multiset{listening} + AllHandedOut(polls)
  {
    hide NetConnectionManager.Valid, AllBrought, AllHandedOut, Survived;
    m := new NetConnectionManager();
    m.Init(listening);
    polls := [];
    NoPolls();
    for i := 0 to |script|
      invariant m.Valid({}) && fresh(m) && fresh(m.kernel) && fresh(m.repr) && |polls| == i
      invariant m.kernel.handedOut == multiset{listening} + AllHandedOut(polls)
      invariant forall j :: 0 <= j < i ==> (polls[j].events == script[j] || polls[j].events == []) && Survived(polls[j])
    {
      ghost var poll;
      defined, poll := ServePoll(m, script[i]);
      AnotherPoll(polls, poll);
      polls := polls + [poll];
      if !defined {
        return;
      }
    }
    defined := true;
    m.Release();
  }

  lemma NoPolls()
    ensures forall start: multiset<int> :: start + AllHandedOut([]) == start
  {
  }

  /** One batch, or a failed wait if it cannot happen. */
  method ServePoll(m: NetConnectionManager, batch: seq<Event>) returns (defined: bool, ghost poll: Poll)
    requires m.Valid({})
    modifies m, m.kernel, m.repr
    ensures (poll.events == batch || poll.events == []) && (defined <==> Survived(poll))
    ensures defined ==> m.Valid({}) && fresh(m.repr - old(m.repr))
    ensures defined ==> m.kernel.handedOut == old(m.kernel.handedOut) + AllBrought(poll.listening, poll.events, |poll.events|)
  {
    hide NetConnectionManager.Valid, NetConnectionManager.Polled, AllBrought, Derails, NetConnectionManager.All, Distinct;
    var events := if Distinct(batch) && m.Batch(batch, 0) then batch else [];
    NoEvents();
    poll := Poll(m.listenSocket, m.All(), events);
    defined := m.SelectSocketLinux(events == [], events);
  }

  lemma NoEvents()
    ensures Distinct([]) && forall listening :: AllBrought(listening, [], 0) == multiset{}
  {
  }

  /** One failed accept: the listener is closed, and nothing opens it again. */
  method DeafExample(listening: int) returns (m: NetConnectionManager)
    requires listening != SOCKET_ERROR
    ensures fresh(m) && m.Valid({}) && m.listenSocket == SOCKET_ERROR && listening !in m.kernel.open
  {
    hide NetConnectionManager.Valid, AllBrought, NetConnectionManager.At, Serves;
    m := new NetConnectionManager();
    m.Init(listening);
    var events := [Event(listening, false, true, false, NoSocket, Closed, 0)];
    assert m.Batch(events, 0);
    assert events[0].socket == listening && events[0].readable && !events[0].accept.Accepted?;
    var defined := m.SelectSocketLinux(false, events);
    m.NotListening();
  }

  /** A header alone, with the size -1. */
  lemma DerailingBytes(bytes: seq<Byte>, e: Event)
    requires bytes == PackBytes(NO_HEADER.(sign := HEADER_SIGN, bodySize := -1)) && e.arrival == Data(bytes) && e.readable && !e.err
    ensures Derails(EMPTY, e)
  {
    hide First, PackBytes, AllAnswered;
    NegativeExample();
    ReceiveStep(bytes);
    assert [] + bytes == bytes;
  }

  method AcceptOne(listening: int, s: int) returns (m: NetConnectionManager)
    requires listening != s && listening != SOCKET_ERROR && s != SOCKET_ERROR
    ensures fresh(m) && fresh(m.kernel) && fresh(m.repr) && m.Valid({}) && s in m.connections && m.At(s) == EMPTY
  {
    hide NetConnectionManager.Valid, AllBrought, NetConnectionManager.At, Serves, Derails;
    m := new NetConnectionManager();
    m.Init(listening);
    var events := [Event(listening, false, true, false, Accepted(s), Closed, 0)];
    var defined := m.SelectSocketLinux(false, events);
    assert Joins(listening, events[0]);
  }

  /** Any peer can send one: a server that has accepted one connection, and the 28 bytes of such a header. */
  method DerailExample(listening: int, s: int) returns (m: NetConnectionManager, defined: bool)
    requires listening != s && listening != SOCKET_ERROR && s != SOCKET_ERROR
    ensures fresh(m) && !defined
  {
    hide NetConnectionManager.Valid, AllBrought, NetConnectionManager.At, Serves, Derails, PackBytes;
    m := AcceptOne(listening, s);
    m.KeptAt({}, s);
    var bytes := PackBytes(NO_HEADER.(sign := HEADER_SIGN, bodySize := -1));
    var sending := [Event(s, false, true, false, NoSocket, Data(bytes), 0)];
    DerailingBytes(bytes, sending[0]);
    assert sending[0].socket in m.All() && m.All()[s] == EMPTY;
    defined := m.SelectSocketLinux(false, sending);
  }
}
