/** Packages on a byte stream: what a receiver makes of any prefix of it, however it is cut into pieces, and what two ends that
    are connected by a lossless byte channel can rely on. */
module NetStream {
  import opened DataUtil
  import opened NetPackage

  const NET_BUFFER_SIZE: nat := 8 * 1024
  const NET_PACKAGE_MAX_SIZE: nat := 1024
  const SEND_SIZE: nat := 1024  // the scratch array in Send

  lemma LimitsAre()
    ensures HEADER_SIZE == 28 && HEADER_SIGN == 0x58 && NET_PACKAGE_MAX_SIZE == SEND_SIZE == 1024 && NET_BUFFER_SIZE == 8192
  {
  }

  datatype Package = Package(header: Header, body: seq<Byte>)

  /** What Send makes of its arguments. */
  function MakePackage(guid: Int64, command: Int32, body: seq<Byte>): Package
    requires |body| < 0x8000_0000
  {
    Package(NO_HEADER.(sign := HEADER_SIGN, command := command, guid := guid, bodySize := |body|), body)
  }

  /** The header of what Send sends: the sign, what the caller has given, the number of bytes, and zeros. */
  lemma PackageIs(guid: Int64, command: Int32, body: seq<Byte>)
    requires |body| < 0x8000_0000
    ensures var p := MakePackage(guid, command, body);
            p.body == body && p.header == Header(0x58, 0, 0, 0, 0, 0, 0, command, guid, |body|)
  {
  }

  predicate ValidPackage(p: Package) {
    p.header.sign == HEADER_SIGN && p.header.bodySize == |p.body| <= NET_PACKAGE_MAX_SIZE
  }

  function Frame(p: Package): (r: seq<Byte>)
    ensures |r| == HEADER_SIZE + |p.body|
  {
    PackBytes(p.header) + p.body
  }

  function Frames(ps: seq<Package>): seq<Byte> {
    if ps == [] then [] else Frame(ps[0]) + Frames(ps[1..])
  }

  lemma {:induction false} FramesAppend(ps: seq<Package>, qs: seq<Package>)
    ensures Frames(ps + qs) == Frames(ps) + Frames(qs)
  {
    hide Frame;
    if ps == [] {
      assert ps + qs == qs;
    } else {
      FramesAppend(ps[1..], qs);
      assert (ps + qs)[1..] == ps[1..] + qs && (ps + qs)[0] == ps[0];
      assert Frame(ps[0]) + (Frames(ps[1..]) + Frames(qs)) == (Frame(ps[0]) + Frames(ps[1..])) + Frames(qs);
    }
  }

  // ---------- receiving ----------

  /** What the first bytes of a buffer hold. A negative body size passes the check on its upper bound only. */
  datatype Front = Incomplete | Refused | Negative | Complete(package: Package, rest: seq<Byte>)

  function First(b: seq<Byte>): (r: Front)
    ensures r.Complete? ==> ValidPackage(r.package) && |r.rest| + HEADER_SIZE + |r.package.body| == |b|
  {
    if |b| < HEADER_SIZE then Incomplete
    else
      var h := ReadHeader(b[..HEADER_SIZE]);
      if h.sign != HEADER_SIGN || h.bodySize > NET_PACKAGE_MAX_SIZE then Refused
      else if h.bodySize < 0 then Negative
      else if |b| < h.bodySize + HEADER_SIZE then Incomplete
      else Complete(Package(h, b[HEADER_SIZE..HEADER_SIZE + h.bodySize]), b[HEADER_SIZE + h.bodySize..])
  }

  /** Draining a receive buffer: the packages handed on, what stays in the buffer, and why draining stopped there. */
  datatype Received = Received(packages: seq<Package>, rest: seq<Byte>, stop: Front)

  function Receive(b: seq<Byte>): (r: Received)
    ensures !r.stop.Complete? && r.stop == First(r.rest) && |r.rest| <= |b|
    decreases |b|
  {
    var f := First(b);
    if f.Complete? then
      var r := Receive(f.rest);
      Received([f.package] + r.packages, r.rest, r.stop)
    else Received([], b, f)
  }

  lemma FirstOfFrame(p: Package, tail: seq<Byte>)
    requires ValidPackage(p)
    ensures First(Frame(p) + tail) == Complete(p, tail)
  {
    hide PackBytes, ReadHeader;
    var b := Frame(p) + tail;
    assert b[..HEADER_SIZE] == PackBytes(p.header);
    UnpackUndoesPack(p.header);
    assert b[HEADER_SIZE..HEADER_SIZE + |p.body|] == p.body && b[HEADER_SIZE + |p.body|..] == tail;
  }

  /** A complete package at the front is exactly its frame: nothing is skipped and nothing is read twice. */
  lemma FrontIsFrame(b: seq<Byte>)
    ensures First(b).Complete? ==> b == Frame(First(b).package) + First(b).rest
  {
    hide PackBytes, ReadHeader;
    if First(b).Complete? {
      PackUndoesUnpack(b[..HEADER_SIZE]);
    }
  }

  /** More bytes behind change nothing about what is already decided. */
  lemma FirstExtends(a: seq<Byte>, b: seq<Byte>)
    ensures First(a).Complete? ==> First(a + b) == Complete(First(a).package, First(a).rest + b)
    ensures First(a).Refused? || First(a).Negative? ==> First(a + b) == First(a)
  {
    hide ReadHeader;
    if |a| >= HEADER_SIZE {
      assert (a + b)[..HEADER_SIZE] == a[..HEADER_SIZE];
      var n := HEADER_SIZE + ReadHeader(a[..HEADER_SIZE]).bodySize;
      if HEADER_SIZE <= n <= |a| {
        assert (a + b)[HEADER_SIZE..n] == a[HEADER_SIZE..n] && (a + b)[n..] == a[n..] + b;
      }
    }
  }

  /** Draining after every piece is the same as draining once. */
  lemma {:induction false} ReceiveInTwo(a: seq<Byte>, b: seq<Byte>)
    ensures var r := Receive(a);
            && (r.stop.Incomplete? ==>
                  var s := Receive(r.rest + b); Receive(a + b) == Received(r.packages + s.packages, s.rest, s.stop))
            && (!r.stop.Incomplete? ==> Receive(a + b) == Received(r.packages, r.rest + b, r.stop))
    decreases |a|
  {
    hide First, Receive;
    FirstExtends(a, b);
    ReceiveStep(a);
    ReceiveStep(a + b);
    var f := First(a);
    if f.Complete? {
      ReceiveInTwo(f.rest, b);
      var r, s := Receive(f.rest), Receive(Receive(f.rest).rest + b);
      assert [f.package] + (r.packages + s.packages) == ([f.package] + r.packages) + s.packages;
    } else if f.Incomplete? {
      assert [] + Receive(a + b).packages == Receive(a + b).packages;
    }
  }

  lemma ReceiveStep(b: seq<Byte>)
    ensures var f := First(b);
            Receive(b) == if f.Complete? then Received([f.package] + Receive(f.rest).packages, Receive(f.rest).rest, Receive(f.rest).stop)
                          else Received([], b, f)
  {
    hide First;
  }

  function Stream(chunks: seq<seq<Byte>>): seq<Byte> {
    if chunks == [] then [] else chunks[0] + Stream(chunks[1..])
  }

  /** A connection that drains after every read, and gives up at the first read that it cannot go on from. */
  function ReceiveChunks(buffer: seq<Byte>, chunks: seq<seq<Byte>>): Received
    decreases |chunks|
  {
    var r := Receive(buffer);
    if chunks == [] || !r.stop.Incomplete? then r
    else
      var s := ReceiveChunks(r.rest + chunks[0], chunks[1..]);
      Received(r.packages + s.packages, s.rest, s.stop)
  }

  /** Fragmentation does not matter: however a stream is cut into reads, the packages handed on are those of the whole stream,
      and while the stream is in order, what is left in the buffer is the stream's unfinished end. */
  lemma {:induction false} FragmentationIsIrrelevant(buffer: seq<Byte>, chunks: seq<seq<Byte>>)
    ensures var r, whole := ReceiveChunks(buffer, chunks), Receive(buffer + Stream(chunks));
            && r.packages == whole.packages && r.stop == whole.stop
            && (whole.stop.Incomplete? ==> r.rest == whole.rest)
    decreases |chunks|
  {
    hide First, Receive;
    var r := Receive(buffer);
    if chunks == [] {
      assert buffer + Stream(chunks) == buffer;
    } else {
      ReceiveInTwo(buffer, Stream(chunks));
      if r.stop.Incomplete? {
        FragmentationIsIrrelevant(r.rest + chunks[0], chunks[1..]);
        assert r.rest + chunks[0] + Stream(chunks[1..]) == r.rest + Stream(chunks);
      }
    }
  }

  /** A drained buffer is shorter than the largest frame, so that the next read of up to 1024 bytes always finds room. */
  lemma LeftoverIsSmall(b: seq<Byte>)
    ensures Receive(b).stop.Incomplete? ==> |Receive(b).rest| < HEADER_SIZE + NET_PACKAGE_MAX_SIZE
    ensures HEADER_SIZE + NET_PACKAGE_MAX_SIZE + SEND_SIZE <= NET_BUFFER_SIZE
  {
    hide ReadHeader, Receive;
  }

  // ---------- by the bytes ----------

  /** The body size in the last four bytes of a header. */
  function Size(b: seq<Byte>): int
    requires |b| >= 28
  {
    Four(b, 24) - if b[27] >= 0x80 then 0x1_0000_0000 else 0
  }

  /** Less than a header, or a header that can be right and less than its body. */
  predicate Unfinished(b: seq<Byte>) {
    |b| < 28 || (b[0] == 0x58 && 0 <= Size(b) <= 1024 && |b| < 28 + Size(b))
  }

  predicate WrongHeader(b: seq<Byte>) {
    |b| >= 28 && (b[0] != 0x58 || Size(b) > 1024)
  }

  predicate NegativeSize(b: seq<Byte>) {
    |b| >= 28 && b[0] == 0x58 && Size(b) < 0
  }

  lemma FrontIs(b: seq<Byte>)
    ensures First(b).Incomplete? <==> Unfinished(b)
    ensures First(b).Refused? <==> WrongHeader(b)
    ensures First(b).Negative? <==> NegativeSize(b)
  {
    hide Decode;
    if |b| >= HEADER_SIZE {
      var h := b[..HEADER_SIZE];
      DecodeIs(h[24..28]);
      assert h[24..28] == b[24..28] && h[0] == b[0];
    }
  }

  lemma ValidIs(p: Package)
    ensures ValidPackage(p) <==> p.header.sign == 0x58 && p.header.bodySize == |p.body| && |p.body| <= 1024
  {
  }

  /** `b` is made of the packages `ps` and of a rest that begins with no other. */
  ghost predicate TakenApart(b: seq<Byte>, ps: seq<Package>, rest: seq<Byte>) {
    && (forall i :: 0 <= i < |ps| ==> ps[i].header.sign == 0x58 && ps[i].header.bodySize == |ps[i].body| <= 1024)
    && b == Frames(ps) + rest && (Unfinished(rest) || WrongHeader(rest) || NegativeSize(rest))
  }

  /** There is one way to do that, and draining does it. */
  lemma ReceiveTakesApart(b: seq<Byte>, ps: seq<Package>, rest: seq<Byte>)
    ensures TakenApart(b, ps, rest) <==> Receive(b).packages == ps && Receive(b).rest == rest
  {
    hide First, Receive, Frames, Unfinished, WrongHeader, NegativeSize;
    var r := Receive(b);
    NothingIsLost(b);
    FrontIs(r.rest);
    if TakenApart(b, ps, rest) {
      FrontIs(rest);
      BehindFrames(ps, rest);
      ReceiveStep(rest);
      assert ps + [] == ps;
    }
  }

  // ---------- negative body sizes ----------

  /** A header with the right sign and the top bit of its body size set. */
  predicate NegativeHeader(b: seq<Byte>) {
    |b| >= HEADER_SIZE && b[0] == HEADER_SIGN && b[HEADER_SIZE - 1] >= 0x80
  }

  /** The check of a received header lets a body size through exactly if it is at most 1024; the negative ones are those whose
      last byte has its top bit set. */
  lemma NegativeExactly(b: seq<Byte>)
    ensures First(b).Negative? <==> NegativeHeader(b)
  {
    hide Decode;
    if |b| >= HEADER_SIZE {
      var h := b[..HEADER_SIZE];
      SignIsTopBit(h[24..28]);
      assert h[24..28][3] == b[HEADER_SIZE - 1] && h[0] == b[0];
    }
  }

  lemma NegativeExample()
    ensures First(PackBytes(NO_HEADER.(sign := HEADER_SIGN, bodySize := -1))) == Negative
  {
    hide PackBytes, ReadHeader;
    var h := NO_HEADER.(sign := HEADER_SIGN, bodySize := -1);
    UnpackUndoesPack(h);
    assert PackBytes(h)[..HEADER_SIZE] == PackBytes(h);
  }

  /** Packages that the check lets through, and then such a header. */
  ghost predicate NegativeBehind(ps: seq<Package>, b: seq<Byte>) {
    AllValid(ps) && |Frames(ps)| <= |b| && b == Frames(ps) + b[|Frames(ps)|..] && NegativeHeader(b[|Frames(ps)|..])
  }

  /** Draining a stream meets a negative size exactly if one stands behind whole packages. */
  lemma NegativeStream(b: seq<Byte>)
    ensures Receive(b).stop.Negative? <==> exists ps :: NegativeBehind(ps, b)
  {
    hide First, Frame, Receive, Frames, NegativeHeader;
    var r := Receive(b);
    if r.stop.Negative? {
      NothingIsLost(b);
      NegativeExactly(r.rest);
      assert b[|Frames(r.packages)|..] == r.rest;
      assert NegativeBehind(r.packages, b);
    }
    if exists ps :: NegativeBehind(ps, b) {
      var ps :| NegativeBehind(ps, b);
      var tail := b[|Frames(ps)|..];
      NegativeExactly(tail);
      ReceiveStep(tail);
      BehindFrames(ps, tail);
    }
  }

  /** Whole packages at the front of a stream are handed on, and draining goes on behind them. */
  lemma {:induction false} BehindFrames(ps: seq<Package>, tail: seq<Byte>)
    requires AllValid(ps)
    ensures var r := Receive(tail); Receive(Frames(ps) + tail) == Received(ps + r.packages, r.rest, r.stop)
    decreases |ps|
  {
    hide First, Frame, Receive;
    if ps == [] {
      assert Frames(ps) + tail == tail && ps + Receive(tail).packages == Receive(tail).packages;
    } else {
      var more := Frames(ps[1..]) + tail;
      assert Frames(ps) + tail == Frame(ps[0]) + more;
      FirstOfFrame(ps[0], more);
      ReceiveStep(Frames(ps) + tail);
      BehindFrames(ps[1..], tail);
      assert [ps[0]] + (ps[1..] + Receive(tail).packages) == ps + Receive(tail).packages;
    }
  }

  /** What has been taken from a buffer and what is left make up the buffer. */
  lemma {:induction false} NothingIsLost(b: seq<Byte>)
    ensures b == Frames(Receive(b).packages) + Receive(b).rest
    ensures forall i :: 0 <= i < |Receive(b).packages| ==> ValidPackage(Receive(b).packages[i])
    decreases |b|
  {
    hide First, Frame;
    var f := First(b);
    FrontIsFrame(b);
    if f.Complete? {
      NothingIsLost(f.rest);
      var r := Receive(f.rest);
      assert ([f.package] + r.packages)[1..] == r.packages;
      assert Frame(f.package) + (Frames(r.packages) + r.rest) == (Frame(f.package) + Frames(r.packages)) + r.rest;
    }
  }

  predicate AllValid(ps: seq<Package>) {
    forall i :: 0 <= i < |ps| ==> ValidPackage(ps[i])
  }

  /** Whatever prefix of a serialised sequence of packages has arrived: draining hands on the packages that are complete in it,
      and never anything else. */
  lemma {:induction false} PrefixOfFrames(b: seq<Byte>, ps: seq<Package>)
    requires AllValid(ps) && b <= Frames(ps)
    ensures var r := Receive(b);
            && r.stop.Incomplete? && r.packages <= ps
            && r.rest + Frames(ps)[|b|..] == Frames(ps[|r.packages|..])
    decreases |b|
  {
    hide First, Frame;
    FirstOfPrefix(b, ps);
    var f := First(b);
    if f.Complete? {
      assert Frames(ps) == Frame(ps[0]) + Frames(ps[1..]);
      PrefixOfFrames(f.rest, ps[1..]);
      var r := Receive(f.rest);
      assert ps[1..][|r.packages|..] == ps[1 + |r.packages|..];
      assert Frames(ps)[|b|..] == Frames(ps[1..])[|f.rest|..];
    } else {
      assert b + Frames(ps)[|b|..] == Frames(ps) && ps[0..] == ps;
    }
  }

  lemma FirstOfPrefix(b: seq<Byte>, ps: seq<Package>)
    requires AllValid(ps) && b <= Frames(ps)
    ensures First(b).Incomplete? || (First(b).Complete? && ps != [] && First(b).package == ps[0]
                                     && First(b).rest <= Frames(ps[1..]) && |Frames(ps)| - |b| == |Frames(ps[1..])| - |First(b).rest|)
  {
    hide First;
    if ps == [] {
      EmptyIsIncomplete();
    } else {
      var tail := Frames(ps)[|b|..];
      assert b + tail == Frame(ps[0]) + Frames(ps[1..]);
      FirstOfFrame(ps[0], Frames(ps[1..]));
      FirstExtends(b, tail);
    }
  }

  lemma EmptyIsIncomplete()
    ensures First([]).Incomplete?
  {
  }

  // ---------- two connected ends ----------

  /** ByteBuffer::AddData on a buffer of NET_BUFFER_SIZE. */
  function Added(buffer: seq<Byte>, bytes: seq<Byte>): (r: (bool, seq<Byte>)) {
    if |buffer| + |bytes| > NET_BUFFER_SIZE then (false, buffer) else (true, buffer + bytes)
  }

  /** One direction between two connections: what Send has accepted, what has been handed on, and the bytes in between. */
  datatype Link = Link(accepted: seq<Package>, delivered: seq<Package>, sendBuffer: seq<Byte>, channel: seq<Byte>, recvBuffer: seq<Byte>)

  const START := Link([], [], [], [], [])

  datatype Step =
    | Send(guid: Int64, command: Int32, body: seq<Byte>)
    | DoSend(count: nat)  // the socket takes `count` bytes
    | Read(count: nat)    // `count` bytes arrive

  predicate Enabled(l: Link, step: Step) {
    match step
    case Send(_, _, body) => HEADER_SIZE + |body| <= SEND_SIZE
    case DoSend(count) => count <= |l.sendBuffer|
    case Read(count) => count <= |l.channel| && count <= 1024
  }

  function Next(l: Link, step: Step): Link
    requires Enabled(l, step)
  {
    match step
    case Send(guid, command, body) =>
      var p := MakePackage(guid, command, body);
      var (ok, buffer) := Added(l.sendBuffer, Frame(p));
      l.(accepted := if ok then l.accepted + [p] else l.accepted, sendBuffer := buffer)
    case DoSend(count) =>
      l.(sendBuffer := l.sendBuffer[count..], channel := l.channel + l.sendBuffer[..count])
    case Read(count) =>
      var (ok, buffer) := Added(l.recvBuffer, l.channel[..count]);
      var r := Receive(buffer);
      l.(channel := l.channel[count..], recvBuffer := r.rest, delivered := l.delivered + r.packages)
  }

  predicate Intact(l: Link) {
    && AllValid(l.accepted) && l.delivered <= l.accepted
    && l.recvBuffer + l.channel + l.sendBuffer == Frames(l.accepted[|l.delivered|..])
    && First(l.recvBuffer).Incomplete? && |l.recvBuffer| < HEADER_SIZE + NET_PACKAGE_MAX_SIZE && |l.sendBuffer| <= NET_BUFFER_SIZE
  }

  lemma SendKeepsIntact(l: Link, guid: Int64, command: Int32, body: seq<Byte>)
    requires Intact(l) && HEADER_SIZE + |body| <= SEND_SIZE
    ensures Intact(Next(l, Send(guid, command, body)))
  {
    hide Frame, First, Frames;
    var p := MakePackage(guid, command, body);
    var k := |l.delivered|;
    if Added(l.sendBuffer, Frame(p)).0 {
      FramesAppend(l.accepted[k..], [p]);
      OneFrame(p);
      assert (l.accepted + [p])[k..] == l.accepted[k..] + [p];
      assert l.recvBuffer + l.channel + (l.sendBuffer + Frame(p)) == (l.recvBuffer + l.channel + l.sendBuffer) + Frame(p);
    }
  }

  lemma OneFrame(p: Package)
    ensures Frames([p]) == Frame(p)
  {
    hide Frame;
    assert [p][1..] == [] && Frame(p) + [] == Frame(p);
  }

  lemma DoSendKeepsIntact(l: Link, count: nat)
    requires Intact(l) && count <= |l.sendBuffer|
    ensures Intact(Next(l, DoSend(count)))
  {
    hide First, Frames, AllValid;
    assert l.recvBuffer + (l.channel + l.sendBuffer[..count]) + l.sendBuffer[count..] == l.recvBuffer + l.channel + l.sendBuffer by {
      assert l.sendBuffer == l.sendBuffer[..count] + l.sendBuffer[count..];
    }
  }

  /** The bytes that have arrived are a prefix of what is still owed, so draining yields the next packages owed. */
  lemma ReadKeepsIntact(l: Link, count: nat)
    requires Intact(l) && Enabled(l, Read(count))
    ensures Added(l.recvBuffer, l.channel[..count]).0 && Receive(l.recvBuffer + l.channel[..count]).stop.Incomplete?
    ensures Intact(Next(l, Read(count)))
  {
    hide First, Frames, Receive;
    var b, owed := l.recvBuffer + l.channel[..count], l.accepted[|l.delivered|..];
    var behind := l.channel[count..] + l.sendBuffer;
    assert l.channel == l.channel[..count] + l.channel[count..];
    assert b + behind == Frames(owed);
    assert Frames(owed)[..|b|] == b && Frames(owed)[|b|..] == behind;
    PrefixOfFrames(b, owed);
    LeftoverIsSmall(b);
    var r := Receive(b);
    assert l.delivered + r.packages <= l.accepted by {
      assert l.accepted == l.delivered + owed;
    }
    assert owed[|r.packages|..] == l.accepted[|l.delivered| + |r.packages|..];
    assert r.rest + l.channel[count..] + l.sendBuffer == r.rest + behind;
  }

  predicate EnabledRun(l: Link, steps: seq<Step>)
    decreases |steps|
  {
    steps == [] || (Enabled(l, steps[0]) && EnabledRun(Next(l, steps[0]), steps[1..]))
  }

  function After(l: Link, steps: seq<Step>): Link
    requires EnabledRun(l, steps)
    decreases |steps|
  {
    if steps == [] then l else After(Next(l, steps[0]), steps[1..])
  }

  lemma {:induction false} RunKeepsIntact(l: Link, steps: seq<Step>)
    requires Intact(l) && EnabledRun(l, steps)
    ensures Intact(After(l, steps))
    decreases |steps|
  {
    hide Intact, Next;
    if steps != [] {
      match steps[0] {
        case Send(guid, command, body) => SendKeepsIntact(l, guid, command, body);
        case DoSend(count) => DoSendKeepsIntact(l, count);
        case Read(count) => ReadKeepsIntact(l, count);
      }
      RunKeepsIntact(Next(l, steps[0]), steps[1..]);
    }
  }

  /** End to end, for every interleaving of sends, partial writes and arbitrarily cut reads: what has been delivered is a prefix,
      in order and intact, of what Send accepted, and the bytes between are exactly the frames of the rest. */
  lemma DeliveredIsPrefix(steps: seq<Step>)
    requires EnabledRun(START, steps)
    ensures var l := After(START, steps);
            && l.delivered <= l.accepted
            && l.recvBuffer + l.channel + l.sendBuffer == Frames(l.accepted[|l.delivered|..])
            && |l.recvBuffer| < HEADER_SIZE + NET_PACKAGE_MAX_SIZE
  {
    hide First;
    EmptyIsIncomplete();
    RunKeepsIntact(START, steps);
  }

  /** Once the sender's buffer and the channel are empty, nothing is owed. */
  lemma NothingOwed(l: Link)
    requires Intact(l) && l.sendBuffer == [] && l.channel == []
    ensures l.delivered == l.accepted && l.recvBuffer == []
  {
    hide First, Frame;
    var owed := l.accepted[|l.delivered|..];
    assert l.recvBuffer == Frames(owed);
    if owed != [] {
      FirstOfFrame(owed[0], Frames(owed[1..]));
      assert false;
    }
  }

  /** And once the sender's buffer and the channel are empty, everything has been delivered. */
  lemma QuietMeansDelivered(steps: seq<Step>)
    requires EnabledRun(START, steps)
    ensures var l := After(START, steps); l.sendBuffer == [] && l.channel == [] ==> l.delivered == l.accepted && l.recvBuffer == []
  {
    hide First, Frame;
    EmptyIsIncomplete();
    RunKeepsIntact(START, steps);
    var l := After(START, steps);
    if l.sendBuffer == [] && l.channel == [] {
      NothingOwed(l);
    }
  }
}
