/** The poll server of simple_server.cpp: length-prefixed text requests, one
    shared map, per-connection buffers, and whole runs over many connections. */
module SimpleServer {
  import opened Basics
  import opened Orders
  import opened Wire

  const MAX_MSG: nat := 4096
  const SPACE: Byte := 32

  type Data = map<Str, Str>

  // ---------- Requests ----------

  /** std::string::find for one byte; -1 stands for npos. */
  function Find(s: Str, c: Byte, from: nat): (r: int)
    ensures -1 <= r < |s|
    ensures r >= 0 ==> from <= r && s[r] == c && forall j :: from <= j < r ==> s[j] != c
    ensures r == -1 ==> forall j :: from <= j < |s| ==> s[j] != c
    decreases |s| - from
  {
    if from >= |s| then -1 else if s[from] == c then from else Find(s, c, from + 1)
  }

  predicate StartsWith(s: Str, p: Str) { |s| >= |p| && s[..|p|] == p }

  /** A length-prefixed message. */
  function Frame(s: Str): Str { Le(|s|, LEN_BYTES) + s }

  lemma FrameBytes(s: Str)
    ensures |Frame(s)| == 4 + |s| && Spells32(Frame(s), 0, |s|) && Frame(s)[4..] == s
  {
    LittleEndian32(|s|);
  }

  /** do_request: the new map and the bytes appended to the output, possibly none. */
  function Respond(data: Data, cmd: Str): (Data, Str) {
    if StartsWith(cmd, Text("PING")) then (data, Frame(Text("PONG")))
    else if StartsWith(cmd, Text("GET")) then
      if Find(cmd, SPACE, 0) != -1 then
        var key := if |cmd| >= 4 then cmd[4..] else [];
        (data, Frame(if key in data then data[key] else []))
      else (data, [])
    else if StartsWith(cmd, Text("SET")) then
      var space1 := Find(cmd, SPACE, 0);
      var space2 := Find(cmd, SPACE, space1 + 1);
      if space1 != -1 && space2 != -1 then
        (data[cmd[space1 + 1..space2] := cmd[space2 + 1..]], Frame(Text("OK")))
      else (data, [])
    else (data, Frame(Text("ERROR")))
  }

  /** A GET without a space or a SET without two. */
  ghost predicate Silent(cmd: Str) {
    || (Text("GET") <= cmd && 32 !in cmd)
    || (Text("SET") <= cmd && !exists i, j :: 0 <= i < j < |cmd| && cmd[i] == 32 && cmd[j] == 32)
  }

  /** A request draws no reply exactly when it is one of those. */
  lemma SilentExactly(data: Data, cmd: Str)
    ensures Respond(data, cmd).1 == [] <==> Silent(cmd)
  {
    Prefixes(cmd);
    var space1 := Find(cmd, SPACE, 0);
    var space2 := Find(cmd, SPACE, space1 + 1);
    if StartsWith(cmd, Text("SET")) {
      if space1 != -1 && space2 != -1 {
        assert cmd[space1] == SPACE && cmd[space2] == SPACE;
      }
    }
  }

  /** What each kind of request is answered with and does to the map: by its first bytes,
      and for GET and SET by where its spaces are. */
  lemma {:induction false} RespondMeaning(data: Data, cmd: Str)
    ensures Text("PING") <= cmd ==> Respond(data, cmd) == (data, Frame(Text("PONG")))
    ensures !(Text("PING") <= cmd) && !(Text("GET") <= cmd) && !(Text("SET") <= cmd) ==>
              Respond(data, cmd) == (data, Frame(Text("ERROR")))
    ensures Text("GET") <= cmd && 32 in cmd ==>
              |cmd| >= 4 && Respond(data, cmd) == (data, Frame(if cmd[4..] in data then data[cmd[4..]] else []))
    ensures forall i, j :: Text("SET") <= cmd && FirstSpaces(cmd, i, j) ==>
              Respond(data, cmd) == (data[cmd[i + 1..j] := cmd[j + 1..]], Frame(Text("OK")))
    ensures Silent(cmd) ==> Respond(data, cmd) == (data, [])
  {
    Prefixes(cmd);
    SilentExactly(data, cmd);
    if Text("GET") <= cmd && 32 in cmd {
      assert Text("GET")[0] == 71 && Text("GET")[1] == 69 && Text("GET")[2] == 84;
      assert cmd[..3][0] == cmd[0] && cmd[..3][1] == cmd[1] && cmd[..3][2] == cmd[2];
    }
    forall i, j | Text("SET") <= cmd && FirstSpaces(cmd, i, j)
      ensures Respond(data, cmd) == (data[cmd[i + 1..j] := cmd[j + 1..]], Frame(Text("OK")))
    {
      FindAt(cmd, 0, i);
      FindAt(cmd, i + 1, j);
    }
  }

  /** The first two spaces of the request. */
  ghost predicate FirstSpaces(cmd: Str, i: int, j: int) {
    0 <= i < j < |cmd| && cmd[i] == 32 && cmd[j] == 32 && 32 !in cmd[..i] && 32 !in cmd[i + 1..j]
  }

  /** The three command words exclude one another. */
  lemma Prefixes(cmd: Str)
    ensures !(StartsWith(cmd, Text("PING")) && StartsWith(cmd, Text("GET")))
    ensures !(StartsWith(cmd, Text("PING")) && StartsWith(cmd, Text("SET")))
    ensures !(StartsWith(cmd, Text("GET")) && StartsWith(cmd, Text("SET")))
  {
    assert Text("PING")[0] == 80 && Text("GET")[0] == 71 && Text("SET")[0] == 83;
    assert StartsWith(cmd, Text("PING")) ==> cmd[..4][0] == 80;
    assert StartsWith(cmd, Text("GET")) ==> cmd[..3][0] == 71;
    assert StartsWith(cmd, Text("SET")) ==> cmd[..3][0] == 83;
  }

  /** The first space of a string whose first n bytes have none. */
  lemma FindAt(s: Str, from: nat, n: nat)
    requires from <= n < |s| && s[n] == SPACE && SPACE !in s[from..n]
    ensures Find(s, SPACE, from) == n
  {
  }

  function SetRequest(key: Str, value: Str): Str { Text("SET ") + key + [SPACE] + value }

  function GetRequest(key: Str): Str { Text("GET ") + key }

  /** SET stores the value under the key, provided the key has no space, and touches no other key. */
  lemma SetStores(data: Data, key: Str, value: Str)
    requires SPACE !in key
    ensures Respond(data, SetRequest(key, value)) == (data[key := value], Frame(Text("OK")))
  {
    var cmd := SetRequest(key, value);
    var n := 4 + |key|;
    assert cmd[..3] == Text("SET");
    assert cmd[0..3] == Text("SET") && cmd[3] == SPACE;
    assert cmd[4..n] == key && cmd[n] == SPACE && cmd[n + 1..] == value;
    Prefixes(cmd);
    FindAt(cmd, 0, 3);
    FindAt(cmd, 4, n);
  }

  /** GET answers with the stored value, or with an empty one, and changes nothing. */
  lemma GetReturns(data: Data, key: Str)
    ensures Respond(data, GetRequest(key)) == (data, Frame(if key in data then data[key] else []))
  {
    var cmd := GetRequest(key);
    assert cmd[..3] == Text("GET");
    assert cmd[0..3] == Text("GET") && cmd[3] == SPACE && cmd[4..] == key;
    Prefixes(cmd);
    FindAt(cmd, 0, 3);
  }

  // ---------- One connection ----------

  datatype ConnState = ConnState(wantRead: bool, wantWrite: bool, wantClose: bool, incoming: Str, outgoing: Str)

  const ACCEPTED := ConnState(true, false, false, [], [])

  datatype FrameStatus = Incomplete | TooLong | Ready(request: Str, rest: Str)

  /** What try_one_request finds at the front of the input. */
  function NextFrame(incoming: Str): FrameStatus {
    if |incoming| < 4 then Incomplete
    else
      var len := FromLe(incoming[..4]);
      if len > MAX_MSG then TooLong
      else if 4 + len > |incoming| then Incomplete
      else Ready(incoming[4..4 + len], incoming[4 + len..])
  }

  /** The declared length of the frame at the front, 0 while its header is incomplete. */
  ghost function Declared(b: Str): nat {
    if |b| < 4 then 0 else b[0] as int + 256 * (b[1] as int) + 65536 * (b[2] as int) + 16777216 * (b[3] as int)
  }

  /** A frame is too long above 4096 bytes, incomplete until its header and all its bytes
      are there, and otherwise taken off the front. */
  lemma {:induction false} FrameMeaning(b: Str)
    ensures NextFrame(b).TooLong? <==> Declared(b) > 4096
    ensures NextFrame(b).Incomplete? <==> |b| < 4 || (Declared(b) <= 4096 && |b| < 4 + Declared(b))
    ensures NextFrame(b).Ready? ==>
              var n := 4 + Declared(b); n <= |b| && NextFrame(b) == Ready(b[4..n], b[n..])
  {
    if |b| >= 4 { Value32(b[..4]); }
  }

  /** The requests that arrive whole at the front of a byte string, and the bytes behind them. */
  function Requests(b: Str): (r: seq<Str>)
    decreases |b|
  {
    match NextFrame(b)
    case Ready(request, rest) => [request] + Requests(rest)
    case _ => []
  }

  function Unserved(b: Str): (r: Str)
    ensures |r| <= |b| && !NextFrame(r).Ready?
    decreases |b|
  {
    match NextFrame(b)
    case Ready(_, rest) => Unserved(rest)
    case _ => b
  }

  /** More bytes leave the front frame as it was, or complete it. */
  lemma FrontStays(a: Str, b: Str)
    ensures NextFrame(a).Ready? ==> NextFrame(a + b) == NextFrame(a).(rest := NextFrame(a).rest + b)
    ensures NextFrame(a).TooLong? ==> NextFrame(a + b).TooLong?
  {
    if |a| >= 4 {
      assert (a + b)[..4] == a[..4];
      var n := 4 + FromLe(a[..4]);
      if n <= |a| {
        assert (a + b)[4..n] == a[4..n] && (a + b)[n..] == a[n..] + b;
      }
    }
  }

  /** Cutting a stream into requests may be interrupted anywhere. */
  lemma {:induction false} RequestsResume(a: Str, b: Str)
    ensures Requests(a + b) == Requests(a) + Requests(Unserved(a) + b)
    ensures Unserved(a + b) == Unserved(Unserved(a) + b)
    decreases |a|
  {
    FrontStays(a, b);
    match NextFrame(a)
    case Ready(request, rest) =>
      RequestsResume(rest, b);
      Assoc([request], Requests(rest), Requests(Unserved(rest) + b));
    case _ =>
  }

  /** A request carried out and the bytes it was answered with. */
  datatype Done = Done(request: Str, reply: Str)

  datatype Served = Served(data: Data, conn: ConnState, done: seq<Done>)

  /** The request loop of handle_read. */
  function Serve(data: Data, c: ConnState): Served
    decreases |c.incoming|
  {
    match NextFrame(c.incoming)
    case Incomplete => Served(data, c, [])
    case TooLong => Served(data, c.(wantClose := true), [])
    case Ready(request, rest) =>
      var (data', reply) := Respond(data, request);
      var later := Serve(data', c.(incoming := rest, outgoing := c.outgoing + reply, wantWrite := true));
      later.(done := [Done(request, reply)] + later.done)
  }

  function Asked(done: seq<Done>): (r: seq<Str>)
    ensures |r| == |done|
  {
    if done == [] then [] else [done[0].request] + Asked(done[1..])
  }

  /** The loop carries out the requests that have arrived whole, whatever the map. */
  lemma {:induction false} ServesRequests(data: Data, c: ConnState)
    ensures Asked(Serve(data, c).done) == Requests(c.incoming)
    ensures Serve(data, c).conn.incoming == Unserved(c.incoming)
    decreases |c.incoming|
  {
    match NextFrame(c.incoming)
    case Ready(request, rest) =>
      var (data', reply) := Respond(data, request);
      var c' := c.(incoming := rest, outgoing := c.outgoing + reply, wantWrite := true);
      ServesRequests(data', c');
      assert ([Done(request, reply)] + Serve(data', c').done)[1..] == Serve(data', c').done;
    case _ =>
  }

  /** The bytes of a list of requests, or of their replies, one after another. */
  ghost function BytesOf(part: Done -> Str, done: seq<Done>): Str {
    if done == [] then [] else part(done[0]) + BytesOf(part, done[1..])
  }

  function RequestPart(d: Done): Str { Frame(d.request) }

  function ReplyPart(d: Done): Str { d.reply }

  ghost function RequestBytes(done: seq<Done>): Str { BytesOf(RequestPart, done) }

  ghost function ReplyBytes(done: seq<Done>): Str { BytesOf(ReplyPart, done) }

  type Handler = (Data, Str) -> (Data, Str)

  /** Carrying out the requests one after another. */
  ghost function Replay(handler: Handler, data: Data, done: seq<Done>): Data
    decreases done
  {
    if done == [] then data else Replay(handler, handler(data, done[0].request).0, done[1..])
  }

  /** Every reply is the one due in the map its request met. */
  ghost predicate Honest(handler: Handler, data: Data, done: seq<Done>)
    decreases done
  {
    done != [] ==>
      && done[0].reply == handler(data, done[0].request).1
      && Honest(handler, handler(data, done[0].request).0, done[1..])
  }

  lemma FrontFrame(incoming: Str)
    requires NextFrame(incoming).Ready?
    ensures incoming == Frame(NextFrame(incoming).request) + NextFrame(incoming).rest
  {
    Read32(incoming[..4]);
    var n := 4 + FromLe(incoming[..4]);
    Join(incoming, 4, n);
    assert |incoming[4..n]| == FromLe(incoming[..4]);
  }

  /** The loop accounts for every input byte and every output byte, and stops
      only where no whole request is left. */
  lemma {:induction false} ServeConserves(data: Data, c: ConnState)
    ensures var s := Serve(data, c);
            && c.incoming == RequestBytes(s.done) + s.conn.incoming
            && s.conn.outgoing == c.outgoing + ReplyBytes(s.done)
            && s.data == Replay(Respond, data, s.done) && Honest(Respond, data, s.done)
    decreases |c.incoming|
  {
    match NextFrame(c.incoming)
    case Incomplete =>
    case TooLong =>
    case Ready(request, rest) =>
      FrontFrame(c.incoming);
      var (data', reply) := Respond(data, request);
      var c' := c.(incoming := rest, outgoing := c.outgoing + reply, wantWrite := true);
      ServeConserves(data', c');
      var later := Serve(data', c');
      assert ([Done(request, reply)] + later.done)[1..] == later.done;
      Assoc(Frame(request), RequestBytes(later.done), later.conn.incoming);
      Assoc(c.outgoing, reply, ReplyBytes(later.done));
  }

  /** The flags the loop leaves, and what it leaves in the input. */
  lemma {:induction false} ServeFlags(data: Data, c: ConnState)
    ensures var s := Serve(data, c);
            && s.conn.wantRead == c.wantRead
            && (s.conn.wantWrite <==> c.wantWrite || s.done != [])
            && (s.conn.wantClose <==> c.wantClose || NextFrame(s.conn.incoming).TooLong?)
            && !NextFrame(s.conn.incoming).Ready?
            && |s.conn.incoming| <= |c.incoming|
    decreases |c.incoming|
  {
    match NextFrame(c.incoming)
    case Incomplete =>
    case TooLong =>
    case Ready(request, rest) =>
      var (data', reply) := Respond(data, request);
      ServeFlags(data', c.(incoming := rest, outgoing := c.outgoing + reply, wantWrite := true));
  }

  /** Result of read(2) and of write(2) as the handlers see it. */
  datatype ReadResult = NoData | Ended | Bytes(data: Str)
  datatype WriteResult = Busy | Broken | Took(limit: nat)

  /** A connection and its history: the bytes it gave us, the bytes it got, and how many
      of its requests had been carried out when a write last emptied the output. */
  datatype Link = Link(conn: ConnState, received: Str, sent: Str, flushed: nat)

  datatype ReadOutcome = ReadOutcome(aborted: bool, data: Data, link: Link, done: seq<Done>)

  /** handle_read. The buffer is extended to its full size before the call and cut back only if data came. */
  function HandleRead(data: Data, l: Link, r: ReadResult): ReadOutcome {
    var c := l.conn;
    if |c.incoming| >= MAX_MSG then ReadOutcome(true, data, l, [])
    else
      match r
      case NoData => ReadOutcome(false, data, l, [])
      case Ended =>
        var filler := seq(MAX_MSG - |c.incoming|, _ => 0);
        ReadOutcome(false, data, l.(conn := c.(wantClose := true, incoming := c.incoming + filler)), [])
      case Bytes(b) =>
        var s := Serve(data, c.(incoming := c.incoming + b));
        ReadOutcome(false, s.data, l.(conn := s.conn, received := l.received + b), s.done)
  }

  datatype WriteOutcome = WriteOutcome(aborted: bool, link: Link)

  /** handle_write. */
  function HandleWrite(l: Link, w: WriteResult): WriteOutcome {
    var c := l.conn;
    if c.outgoing == [] then WriteOutcome(true, l)
    else
      match w
      case Busy => WriteOutcome(false, l)
      case Broken => WriteOutcome(false, l.(conn := c.(wantClose := true)))
      case Took(limit) =>
        var n := if limit < |c.outgoing| then limit else |c.outgoing|;
        var c' := c.(outgoing := c.outgoing[n..]);
        var l' := l.(sent := l.sent + c.outgoing[..n]);
        WriteOutcome(false,
                     if c'.outgoing == []
                     then l'.(conn := c'.(wantRead := true, wantWrite := false), flushed := |Requests(l.received)|)
                     else l'.(conn := c'))
  }

  ghost predicate AllSilent(requests: seq<Str>) {
    forall r :: r in requests ==> Silent(r)
  }

  /** An open connection between polls, given the requests it has had answered. It
      wants to write exactly when a request was carried out since the last flush,
      and has nothing to write exactly when all of those drew no reply. */
  ghost predicate Sound(l: Link, done: seq<Done>) {
    && l.received == RequestBytes(done) + l.conn.incoming
    && Requests(l.received) == Asked(done) && Unserved(l.received) == l.conn.incoming
    && l.sent + l.conn.outgoing == ReplyBytes(done)
    && |l.conn.incoming| <= MAX_MSG
    && l.conn.wantRead && !l.conn.wantClose
    && NextFrame(l.conn.incoming).Incomplete?
    && l.flushed <= |done|
    && (l.conn.wantWrite <==> l.flushed < |done|)
    && (l.conn.outgoing == [] <==> AllSilent(Requests(l.received)[l.flushed..]))
  }

  lemma {:induction false} BytesConcat(part: Done -> Str, a: seq<Done>, b: seq<Done>)
    ensures BytesOf(part, a + b) == BytesOf(part, a) + BytesOf(part, b)
  {
    if a == [] {
      assert a + b == b;
    } else {
      BytesConcat(part, a[1..], b);
      assert (a + b)[0] == a[0] && (a + b)[1..] == a[1..] + b;
      Assoc(part(a[0]), BytesOf(part, a[1..]), BytesOf(part, b));
    }
  }

  /** The read call keeps within the space it was offered. */
  predicate Offered(l: Link, r: ReadResult) {
    r.Bytes? ==> 0 < |r.data| <= MAX_MSG - |l.conn.incoming|
  }

  lemma {:induction false} AskedConcat(a: seq<Done>, b: seq<Done>)
    ensures Asked(a + b) == Asked(a) + Asked(b)
  {
    if a == [] {
      assert a + b == b;
    } else {
      AskedConcat(a[1..], b);
      assert (a + b)[0] == a[0] && (a + b)[1..] == a[1..] + b;
      Assoc([a[0].request], Asked(a[1..]), Asked(b));
    }
  }

  /** Honest replies are empty all together exactly when every request is silent. */
  lemma {:induction false} NoReplies(data: Data, done: seq<Done>)
    requires Honest(Respond, data, done)
    ensures ReplyBytes(done) == [] <==> AllSilent(Asked(done))
    decreases done
  {
    if done != [] {
      SilentExactly(data, done[0].request);
      NoReplies(Respond(data, done[0].request).0, done[1..]);
    }
  }

  /** Bytes read: what the connection has been asked, and what is left over. */
  lemma {:induction false} ReadAsks(data: Data, l: Link, b: Str, done: seq<Done>)
    requires Sound(l, done)
    ensures var s := Serve(data, l.conn.(incoming := l.conn.incoming + b));
            && l.received + b == RequestBytes(done + s.done) + s.conn.incoming
            && Requests(l.received + b) == Requests(l.received) + Asked(s.done) == Asked(done + s.done)
            && Unserved(l.received + b) == s.conn.incoming
  {
    var c := l.conn.(incoming := l.conn.incoming + b);
    var s := Serve(data, c);
    ServeConserves(data, c);
    ServesRequests(data, c);
    RequestsResume(l.received, b);
    AskedConcat(done, s.done);
    BytesConcat(RequestPart, done, s.done);
    Assoc(RequestBytes(done), l.conn.incoming, b);
    Assoc(RequestBytes(done), RequestBytes(s.done), s.conn.incoming);
  }

  /** Bytes read: what is queued for the connection, and when that is nothing. */
  lemma {:induction false} ReadQueues(data: Data, l: Link, b: Str, done: seq<Done>)
    requires Sound(l, done)
    ensures var s := Serve(data, l.conn.(incoming := l.conn.incoming + b));
            && l.sent + s.conn.outgoing == ReplyBytes(done + s.done)
            && l.flushed <= |Requests(l.received + b)|
            && (s.conn.outgoing == [] <==> AllSilent(Requests(l.received + b)[l.flushed..]))
  {
    var c := l.conn.(incoming := l.conn.incoming + b);
    var s := Serve(data, c);
    ServeConserves(data, c);
    ReadAsks(data, l, b, done);
    NoReplies(data, s.done);
    BytesConcat(ReplyPart, done, s.done);
    Assoc(l.sent, l.conn.outgoing, ReplyBytes(s.done));
    SilentTails(Requests(l.received), Asked(s.done), l.flushed);
  }

  lemma SilentTails(a: seq<Str>, b: seq<Str>, n: nat)
    requires n <= |a|
    ensures AllSilent((a + b)[n..]) <==> AllSilent(a[n..]) && AllSilent(b)
  {
    assert (a + b)[n..] == a[n..] + b;
  }

  /** A read on a sound connection: bytes, replies and map are accounted for; the
      connection is still sound unless it is to be closed. */
  lemma {:induction false} ReadKeepsSound(data: Data, l: Link, r: ReadResult, done: seq<Done>)
    requires Sound(l, done) && Offered(l, r) && !HandleRead(data, l, r).aborted
    ensures var o := HandleRead(data, l, r);
            && o.data == Replay(Respond, data, o.done) && Honest(Respond, data, o.done)
            && (!o.link.conn.wantClose ==> Sound(o.link, done + o.done))
  {
    if r.Bytes? {
      var c := l.conn.(incoming := l.conn.incoming + r.data);
      ServeConserves(data, c);
      ServeFlags(data, c);
      ReadAsks(data, l, r.data, done);
      ReadQueues(data, l, r.data, done);
    } else {
      assert done + [] == done;
    }
  }

  /** A write takes what it can from the front of the output, and nothing else changes hands. */
  lemma {:induction false} WriteMoves(l: Link, w: WriteResult)
    requires l.conn.outgoing != []
    ensures var l' := HandleWrite(l, w).link;
            && l'.sent + l'.conn.outgoing == l.sent + l.conn.outgoing
            && |l'.sent| == |l.sent| + (if w.Took? then if w.limit < |l.conn.outgoing| then w.limit else |l.conn.outgoing| else 0)
            && l.sent <= l'.sent && l'.received == l.received && l'.conn.incoming == l.conn.incoming
            && (l'.conn.wantClose <==> l.conn.wantClose || w.Broken?)
            && (w.Busy? ==> l' == l)
  {
    if w.Took? {
      var out := l.conn.outgoing;
      var n := if w.limit < |out| then w.limit else |out|;
      assert out == out[..n] + out[n..];
      Assoc(l.sent, out[..n], out[n..]);
    }
  }

  lemma {:induction false} WriteKeepsSound(l: Link, w: WriteResult, done: seq<Done>)
    requires Sound(l, done) && !HandleWrite(l, w).aborted
    ensures !HandleWrite(l, w).link.conn.wantClose ==> Sound(HandleWrite(l, w).link, done)
  {
    if w.Took? {
      var out := l.conn.outgoing;
      var n := if w.limit < |out| then w.limit else |out|;
      assert out == out[..n] + out[n..];
      Assoc(l.sent, out[..n], out[n..]);
    }
  }

  // ---------- Many connections ----------

  /** A request in the order the server carried it out, and whose it was. */
  datatype Logged = Logged(id: nat, done: Done)

  datatype World = World(aborted: bool, data: Data, open: map<nat, Link>, log: seq<Logged>, nextId: nat)

  const START := World(false, map[], map[], [], 0)

  /** A new connection, or one turn of the poll loop for one connection. */
  datatype Event = Accept | Poll(id: nat, read: Option<ReadResult>, write: Option<WriteResult>)

  function Tag(id: nat, done: seq<Done>): seq<Logged> {
    if done == [] then [] else [Logged(id, done[0])] + Tag(id, done[1..])
  }

  /** The whole log, and the part of it that belongs to one connection. */
  ghost function All(log: seq<Logged>): seq<Done> {
    if log == [] then [] else [log[0].done] + All(log[1..])
  }

  ghost function Mine(log: seq<Logged>, id: nat): seq<Done> {
    if log == [] then [] else (if log[0].id == id then [log[0].done] else []) + Mine(log[1..], id)
  }

  /** The read half of a turn. */
  function ReadHalf(w: World, id: nat, read: Option<ReadResult>): ReadOutcome
    requires id in w.open
  {
    var l := w.open[id];
    if l.conn.wantRead && read.Some? then HandleRead(w.data, l, read.value) else ReadOutcome(false, w.data, l, [])
  }

  /** One turn of the loop for a ready connection: read if wanted, then write if wanted,
      then close if asked to. The events poll may report are those asked for before
      the turn, so a write needs the wish to write from before the read as well. */
  function Turn(w: World, id: nat, read: Option<ReadResult>, write: Option<WriteResult>): World
    requires id in w.open
  {
    var a := ReadHalf(w, id, read);
    var log := w.log + Tag(id, a.done);
    var b := if a.aborted then WriteOutcome(true, a.link)
             else if w.open[id].conn.wantWrite && a.link.conn.wantWrite && write.Some? then HandleWrite(a.link, write.value)
             else WriteOutcome(false, a.link);
    World(b.aborted, a.data, if b.link.conn.wantClose then w.open - {id} else w.open[id := b.link], log, w.nextId)
  }

  function Next(w: World, e: Event): World {
    if w.aborted then w
    else
      match e
      case Accept => w.(open := w.open[w.nextId := Link(ACCEPTED, [], [], 0)], nextId := w.nextId + 1)
      case Poll(id, read, write) => if id in w.open then Turn(w, id, read, write) else w
  }

  /** read(2) returns no more than it was offered. */
  ghost predicate Possible(w: World, e: Event) {
    e.Poll? && e.id in w.open && e.read.Some? ==> Offered(w.open[e.id], e.read.value)
  }

  function After(events: seq<Event>): World {
    if events == [] then START else var n := |events| - 1; Next(After(events[..n]), events[n])
  }

  ghost predicate PossibleRun(events: seq<Event>) {
    events != [] ==> var n := |events| - 1; PossibleRun(events[..n]) && Possible(After(events[..n]), events[n])
  }

  /** The map is what the logged requests make of an empty one, in log order;
      every reply is the one due at its place in the log; and every open
      connection has had exactly its own requests taken in and its own replies
      sent or queued. */
  ghost predicate Inv(w: World) {
    && w.data == Replay(Respond, map[], All(w.log)) && Honest(Respond, map[], All(w.log))
    && (forall i :: 0 <= i < |w.log| ==> w.log[i].id < w.nextId)
    && (!w.aborted ==> forall id :: id in w.open ==> id < w.nextId && Sound(w.open[id], Mine(w.log, id)))
  }

  lemma {:induction false} ReplayConcat(handler: Handler, data: Data, a: seq<Done>, b: seq<Done>)
    ensures Replay(handler, data, a + b) == Replay(handler, Replay(handler, data, a), b)
    ensures Honest(handler, data, a) && Honest(handler, Replay(handler, data, a), b) ==> Honest(handler, data, a + b)
    decreases a
  {
    if a == [] {
      assert a + b == b;
    } else {
      ReplayConcat(handler, handler(data, a[0].request).0, a[1..], b);
      assert (a + b)[0] == a[0] && (a + b)[1..] == a[1..] + b;
    }
  }

  lemma {:induction false} AllTagged(id: nat, done: seq<Done>)
    ensures All(Tag(id, done)) == done && Mine(Tag(id, done), id) == done
    ensures forall other :: other != id ==> Mine(Tag(id, done), other) == []
    ensures forall i :: 0 <= i < |Tag(id, done)| ==> Tag(id, done)[i].id == id
  {
    if done != [] {
      AllTagged(id, done[1..]);
      assert Tag(id, done)[1..] == Tag(id, done[1..]);
    }
  }

  lemma {:induction false} AllConcat(a: seq<Logged>, b: seq<Logged>)
    ensures All(a + b) == All(a) + All(b)
  {
    if a == [] {
      assert a + b == b;
    } else {
      AllConcat(a[1..], b);
      assert (a + b)[0] == a[0] && (a + b)[1..] == a[1..] + b;
      Assoc([a[0].done], All(a[1..]), All(b));
    }
  }

  lemma {:induction false} MineConcat(a: seq<Logged>, b: seq<Logged>, id: nat)
    ensures Mine(a + b, id) == Mine(a, id) + Mine(b, id)
  {
    if a == [] {
      assert a + b == b;
    } else {
      MineConcat(a[1..], b, id);
      assert (a + b)[0] == a[0] && (a + b)[1..] == a[1..] + b;
      Assoc(if a[0].id == id then [a[0].done] else [], Mine(a[1..], id), Mine(b, id));
    }
  }

  lemma {:induction false} NobodysLog(log: seq<Logged>, id: nat)
    requires forall i :: 0 <= i < |log| ==> log[i].id < id
    ensures Mine(log, id) == []
  {
    if log != [] { NobodysLog(log[1..], id); }
  }

  /** What one turn adds to the log and to the map. */
  lemma {:induction false} LogGrows(w: World, id: nat, done: seq<Done>, other: nat)
    requires Inv(w) && id < w.nextId
    ensures var log := w.log + Tag(id, done);
            && All(log) == All(w.log) + done
            && Mine(log, id) == Mine(w.log, id) + done
            && (other != id ==> Mine(log, other) == Mine(w.log, other))
            && (forall i :: 0 <= i < |log| ==> log[i].id < w.nextId)
  {
    AllTagged(id, done);
    AllConcat(w.log, Tag(id, done));
    MineConcat(w.log, Tag(id, done), id);
    MineConcat(w.log, Tag(id, done), other);
    assert Mine(w.log, other) + [] == Mine(w.log, other);
  }

  lemma {:induction false} ReadHalfSound(w: World, id: nat, read: Option<ReadResult>)
    requires Inv(w) && !w.aborted && id in w.open && (read.Some? ==> Offered(w.open[id], read.value))
    ensures var a := ReadHalf(w, id, read);
            && a.data == Replay(Respond, w.data, a.done) && Honest(Respond, w.data, a.done)
            && (!a.aborted && !a.link.conn.wantClose ==> Sound(a.link, Mine(w.log, id) + a.done))
  {
    var l, done := w.open[id], Mine(w.log, id);
    assert Sound(l, done);
    assert done + [] == done;
    if l.conn.wantRead && read.Some? && |l.conn.incoming| < MAX_MSG {
      ReadKeepsSound(w.data, l, read.value, done);
    }
  }

  /** The connection whose turn it was. */
  lemma {:induction false} TurnSound(w: World, id: nat, read: Option<ReadResult>, write: Option<WriteResult>)
    requires Inv(w) && !w.aborted && id in w.open && (read.Some? ==> Offered(w.open[id], read.value))
    ensures var w' := Turn(w, id, read, write);
            !w'.aborted && id in w'.open ==> Sound(w'.open[id], Mine(w.log, id) + ReadHalf(w, id, read).done)
  {
    var a := ReadHalf(w, id, read);
    ReadHalfSound(w, id, read);
    if !a.aborted && w.open[id].conn.wantWrite && a.link.conn.wantWrite && write.Some? {
      WriteCloses(a.link, write.value);
      if !HandleWrite(a.link, write.value).aborted && !a.link.conn.wantClose {
        WriteKeepsSound(a.link, write.value, Mine(w.log, id) + a.done);
      }
    }
  }

  /** One turn keeps the invariant. */
  lemma {:induction false} TurnKeepsInv(w: World, id: nat, read: Option<ReadResult>, write: Option<WriteResult>)
    requires Inv(w) && !w.aborted && id in w.open && (read.Some? ==> Offered(w.open[id], read.value))
    ensures Inv(Turn(w, id, read, write))
  {
    var a := ReadHalf(w, id, read);
    var w' := Turn(w, id, read, write);
    ReadHalfSound(w, id, read);
    TurnSound(w, id, read, write);
    LogGrows(w, id, a.done, id);
    ReplayConcat(Respond, map[], All(w.log), a.done);
    if !w'.aborted {
      forall other | other in w'.open ensures other < w'.nextId && Sound(w'.open[other], Mine(w'.log, other)) {
        LogGrows(w, id, a.done, other);
        if other != id {
          assert other in w.open && w'.open[other] == w.open[other];
        }
      }
    }
  }

  /** Writing does not take back a request to close. */
  lemma WriteCloses(l: Link, w: WriteResult)
    ensures l.conn.wantClose ==> HandleWrite(l, w).link.conn.wantClose
  {
  }

  lemma {:induction false} AcceptKeepsInv(w: World)
    requires Inv(w) && !w.aborted
    ensures Inv(Next(w, Accept))
  {
    NobodysLog(w.log, w.nextId);
    var w' := Next(w, Accept);
    forall id | id in w'.open ensures id < w'.nextId && Sound(w'.open[id], Mine(w'.log, id)) {
      if id != w.nextId { assert id in w.open; }
    }
  }

  lemma {:induction false} NextKeepsInv(w: World, e: Event)
    requires Inv(w) && Possible(w, e)
    ensures Inv(Next(w, e))
  {
    if !w.aborted {
      match e
      case Poll(id, read, write) => if id in w.open { TurnKeepsInv(w, id, read, write); }
      case Accept => AcceptKeepsInv(w);
    }
  }

  /** Every state of every run. */
  lemma {:induction false} RunsAreSound(events: seq<Event>)
    requires PossibleRun(events)
    ensures Inv(After(events))
  {
    if events != [] {
      var n := |events| - 1;
      RunsAreSound(events[..n]);
      NextKeepsInv(After(events[..n]), events[n]);
    }
  }
}
