/** When the two size assertions of simple_server.cpp fail: exactly, turn by turn
    and over whole runs, in terms of the bytes a client has sent. */
module ServerAborts {
  import opened Basics
  import opened Orders
  import opened Wire
  import opened SimpleServer

  /** The bytes a read brings in. */
  function Arrived(read: Option<ReadResult>): Str {
    if read.Some? && read.value.Bytes? then read.value.data else []
  }

  /** The client has a full buffer's worth of an unfinished request outstanding and
      the server reads on; or requests were carried out since the last flush, all of
      them and all that arrive in this turn are silent, and the server writes. */
  ghost predicate Trips(l: Link, read: Option<ReadResult>, write: Option<WriteResult>) {
    var asked := Requests(l.received);
    || (read.Some? && |Unserved(l.received)| >= 4096)
    || (write.Some? && l.flushed < |asked| && AllSilent(Unanswered(l, Arrived(read))))
  }

  /** The requests since the last flush, once b has arrived. */
  function Unanswered(l: Link, b: Str): seq<Str> {
    var asked := Requests(l.received + b);
    if l.flushed <= |asked| then asked[l.flushed..] else []
  }

  /** What a read leaves for the write. */
  lemma {:induction false} ReadLeaves(data: Data, l: Link, r: ReadResult, done: seq<Done>)
    requires Sound(l, done) && !HandleRead(data, l, r).aborted
    ensures var c := HandleRead(data, l, r).link.conn;
            && (l.conn.wantWrite ==> c.wantWrite)
            && (c.outgoing == [] <==> AllSilent(Unanswered(l, Arrived(Some(r)))))
  {
    match r
    case Bytes(b) =>
      ReadQueues(data, l, b, done);
      ServeFlags(data, l.conn.(incoming := l.conn.incoming + b));
    case _ => assert l.received + [] == l.received;
  }

  lemma {:induction false} ReadHalfLeaves(w: World, id: nat, read: Option<ReadResult>, done: seq<Done>)
    requires id in w.open && Sound(w.open[id], done) && !ReadHalf(w, id, read).aborted
    ensures var c := ReadHalf(w, id, read).link.conn;
            && (w.open[id].conn.wantWrite ==> c.wantWrite)
            && (c.outgoing == [] <==> AllSilent(Unanswered(w.open[id], Arrived(read))))
  {
    var l := w.open[id];
    match read
    case Some(r) => ReadLeaves(w.data, l, r, done);
    case None => assert l.received + [] == l.received;
  }

  /** In every reachable state a turn trips an assertion exactly in those two cases. */
  lemma {:induction false} TurnAborts(w: World, id: nat, read: Option<ReadResult>, write: Option<WriteResult>)
    requires Inv(w) && !w.aborted && id in w.open
    ensures Turn(w, id, read, write).aborted <==> Trips(w.open[id], read, write)
  {
    assert Sound(w.open[id], Mine(w.log, id));
    if !ReadHalf(w, id, read).aborted { ReadHalfLeaves(w, id, read, Mine(w.log, id)); }
  }

  ghost predicate TripsAt(w: World, e: Event) {
    e.Poll? && e.id in w.open && Trips(w.open[e.id], e.read, e.write)
  }

  lemma {:induction false} NextAborts(w: World, e: Event)
    requires Inv(w) && !w.aborted
    ensures Next(w, e).aborted <==> TripsAt(w, e)
  {
    if e.Poll? && e.id in w.open { TurnAborts(w, e.id, e.read, e.write); }
  }

  /** Some poll of the run falls under the two cases. */
  ghost predicate Tripped(events: seq<Event>) {
    events != [] && var n := |events| - 1; Tripped(events[..n]) || TripsAt(After(events[..n]), events[n])
  }

  /** A run aborts exactly when it has such a poll. */
  lemma {:induction false} RunAborts(events: seq<Event>)
    requires PossibleRun(events)
    ensures After(events).aborted <==> Tripped(events)
  {
    if events != [] {
      var n := |events| - 1;
      RunAborts(events[..n]);
      RunsAreSound(events[..n]);
      if !After(events[..n]).aborted { NextAborts(After(events[..n]), events[n]); }
    }
  }

  // ---------- When a connection is closed ----------

  /** What the read half asks for: a close at the end of input, or on a frame beyond 4096 bytes. */
  lemma {:induction false} ReadCloses(data: Data, l: Link, r: ReadResult, done: seq<Done>)
    requires Sound(l, done) && !HandleRead(data, l, r).aborted
    ensures HandleRead(data, l, r).link.conn.wantClose
            <==> r.Ended? || Declared(Unserved(l.received + Arrived(Some(r)))) > 4096
  {
    match r
    case Bytes(b) =>
      ServeFlags(data, l.conn.(incoming := l.conn.incoming + b));
      ReadAsks(data, l, b, done);
      FrameMeaning(Unserved(l.received + b));
    case _ =>
      assert l.received + [] == l.received;
      FrameMeaning(l.conn.incoming);
  }

  lemma {:induction false} ReadHalfCloses(w: World, id: nat, read: Option<ReadResult>, done: seq<Done>)
    requires id in w.open && Sound(w.open[id], done) && !ReadHalf(w, id, read).aborted
    ensures ReadHalf(w, id, read).link.conn.wantClose
            <==> read == Some(Ended) || Declared(Unserved(w.open[id].received + Arrived(read))) > 4096
  {
    var l := w.open[id];
    match read
    case Some(r) => ReadCloses(w.data, l, r, done);
    case None =>
      assert l.received + [] == l.received;
      FrameMeaning(l.conn.incoming);
  }

  /** A turn closes its connection exactly at the end of input, on a failed write, or on
      a frame declared longer than 4096 bytes; no other connection is touched. */
  lemma {:induction false} TurnCloses(w: World, id: nat, read: Option<ReadResult>, write: Option<WriteResult>)
    requires Inv(w) && !w.aborted && id in w.open && !Turn(w, id, read, write).aborted
    ensures var w', l := Turn(w, id, read, write), w.open[id];
            && (id !in w'.open
                <==> || read == Some(Ended)
                     || (l.flushed < |Requests(l.received)| && write == Some(Broken))
                     || Declared(Unserved(l.received + Arrived(read))) > 4096)
            && (forall other :: other != id ==>
                  (other in w'.open <==> other in w.open) && (other in w.open ==> w'.open[other] == w.open[other]))
  {
    var a := ReadHalf(w, id, read);
    assert Sound(w.open[id], Mine(w.log, id));
    ReadHalfCloses(w, id, read, Mine(w.log, id));
    ReadHalfLeaves(w, id, read, Mine(w.log, id));
    if w.open[id].conn.wantWrite && write.Some? { WriteMoves(a.link, write.value); }
  }

  // ---------- What a client has to send ----------

  /** Between polls the buffer is full exactly when 4096 bytes of a frame of 4093
      to 4096 bytes have arrived. */
  lemma FullBuffer(l: Link, done: seq<Done>)
    requires Sound(l, done)
    ensures |Unserved(l.received)| >= 4096 <==> |l.conn.incoming| == 4096 && 4093 <= Declared(l.conn.incoming) <= 4096
  {
    FrameMeaning(l.conn.incoming);
  }

  /** A poll that only reads. */
  function Reading(id: nat, b: Str): Event { Poll(id, Some(Bytes(b)), None) }

  /** What such a read does to a connection. */
  lemma {:induction false} ReadingLink(data: Data, l: Link, b: Str, done: seq<Done>)
    requires Sound(l, done) && 0 < |b| <= MAX_MSG - |l.conn.incoming|
    ensures var o := HandleRead(data, l, Bytes(b));
            && !o.aborted && o.link.received == l.received + b && o.link.flushed == l.flushed
            && (o.link.conn.wantClose <==> NextFrame(Unserved(l.received + b)).TooLong?)
  {
    ServeFlags(data, l.conn.(incoming := l.conn.incoming + b));
    ReadAsks(data, l, b, done);
  }

  /** After such a poll the bytes are on the books, and the connection is gone exactly
      if they announce a frame beyond the limit. */
  lemma {:induction false} ReadingTurn(w: World, id: nat, b: Str)
    requires Inv(w) && !w.aborted && id in w.open && 0 < |b| <= MAX_MSG - |w.open[id].conn.incoming|
    ensures var w' := Next(w, Reading(id, b)); var l := w.open[id];
            && Inv(w') && !w'.aborted
            && (id in w'.open <==> !NextFrame(Unserved(l.received + b)).TooLong?)
            && (id in w'.open ==>
                  && Sound(w'.open[id], Mine(w'.log, id))
                  && w'.open[id].received == l.received + b && w'.open[id].flushed == l.flushed)
  {
    var l := w.open[id];
    assert Possible(w, Reading(id, b));
    NextKeepsInv(w, Reading(id, b));
    assert Sound(l, Mine(w.log, id));
    ReadingLink(w.data, l, b, Mine(w.log, id));
  }

  /** Whatever has gone on before on a connection with nothing to write: after a read
      the next write trips its assertion if and only if the read completed requests
      and all of them are silent. */
  lemma {:induction false} SilentBatchAborts(w: World, id: nat, b: Str, x: WriteResult)
    requires Inv(w) && !w.aborted && id in w.open && !w.open[id].conn.wantWrite
    requires 0 < |b| <= MAX_MSG - |w.open[id].conn.incoming|
    requires id in Next(w, Reading(id, b)).open
    ensures var asked := Requests(w.open[id].conn.incoming + b);
            Next(Next(w, Reading(id, b)), Poll(id, None, Some(x))).aborted <==> asked != [] && AllSilent(asked)
  {
    var l, w' := w.open[id], Next(w, Reading(id, b));
    assert Sound(l, Mine(w.log, id));
    ReadingTurn(w, id, b);
    NextAborts(w', Poll(id, None, Some(x)));
    assert w'.open[id].received + [] == w'.open[id].received;
    NewRequests(l, b);
  }

  /** With nothing unanswered, the unanswered requests are the new ones. */
  lemma {:induction false} NewRequests(l: Link, b: Str)
    requires l.flushed == |Requests(l.received)|
    ensures Unanswered(l, b) == Requests(Unserved(l.received) + b)
    ensures l.flushed < |Requests(l.received + b)| <==> Unanswered(l, b) != []
  {
    RequestsResume(l.received, b);
  }

  /** Whatever has gone on before on a connection: after a read the next read trips
      its assertion if and only if the buffer is full of one frame longer than 4092 bytes. */
  lemma {:induction false} LongFrameAborts(w: World, id: nat, b: Str, again: ReadResult)
    requires Inv(w) && !w.aborted && id in w.open
    requires 0 < |b| <= MAX_MSG - |w.open[id].conn.incoming|
    requires id in Next(w, Reading(id, b)).open
    ensures var incoming := w.open[id].conn.incoming + b;
            Next(Next(w, Reading(id, b)), Poll(id, Some(again), None)).aborted
            <==> |incoming| == 4096 && Declared(incoming) >= 4093
  {
    var l := w.open[id];
    assert Sound(l, Mine(w.log, id));
    ReadingTurn(w, id, b);
    NextAborts(Next(w, Reading(id, b)), Poll(id, Some(again), None));
    RequestsResume(l.received, b);
    StaysFull(l.conn.incoming + b);
  }

  /** Bytes left over fill the buffer only if nothing was taken off. */
  lemma {:induction false} StaysFull(b: Str)
    requires |b| <= MAX_MSG && !NextFrame(Unserved(b)).TooLong?
    ensures |Unserved(b)| >= 4096 <==> |b| == 4096 && Declared(b) >= 4093
  {
    FrameMeaning(b);
  }

  lemma {:induction false} WholeFrame(request: Str, rest: Str)
    requires |request| <= MAX_MSG
    ensures NextFrame(Frame(request) + rest) == Ready(request, rest)
  {
    var b := Frame(request) + rest;
    assert b[..4] == Le(|request|, LEN_BYTES);
    Length32(|request|);
    ModUnique(|request|, TWO32, 0, |request|);
    assert b[4..4 + |request|] == request && b[4 + |request|..] == rest;
  }

  /** A client that connects and sends b, and the world the server is then in. */
  lemma {:induction false} FirstRead(b: Str, e: Event)
    requires 0 < |b| <= MAX_MSG
    ensures var w := Next(START, Accept);
            && Inv(w) && !w.aborted && 0 in w.open && w.open[0] == Link(ACCEPTED, [], [], 0)
            && After([Accept, Reading(0, b), e]) == Next(Next(w, Reading(0, b)), e)
            && (PossibleRun([Accept, Reading(0, b), e]) <==> Possible(Next(w, Reading(0, b)), e))
  {
    AcceptKeepsInv(START);
    var events := [Accept, Reading(0, b), e];
    assert events[..2] == [Accept, Reading(0, b)] && events[..2][..1] == [Accept] && [Accept][..0] == [];
    assert After([Accept]) == Next(START, Accept);
    assert After([Accept, Reading(0, b)]) == Next(After([Accept]), Reading(0, b));
    assert PossibleRun([]) && PossibleRun([Accept]);
    assert PossibleRun([Accept, Reading(0, b)]);
  }

  /** The shortest runs of the first kind: one request, then a write. */
  lemma {:induction false} SilentRequestAborts(request: Str, x: WriteResult)
    requires |request| <= 4092
    ensures PossibleRun([Accept, Reading(0, Frame(request)), Poll(0, None, Some(x))])
    ensures After([Accept, Reading(0, Frame(request)), Poll(0, None, Some(x))]).aborted <==> Silent(request)
  {
    var b := Frame(request);
    FirstRead(b, Poll(0, None, Some(x)));
    var w := Next(START, Accept);
    WholeFrame(request, []);
    assert [] + b == b == b + [];
    assert Requests(b) == [request] && Unserved(b) == [];
    ReadingTurn(w, 0, b);
    SilentBatchAborts(w, 0, b, x);
    assert request in [request];
  }

  /** The bytes of one request that the buffer takes. */
  function FirstPart(request: Str): Str {
    var frame := Frame(request);
    if |frame| <= MAX_MSG then frame else frame[..MAX_MSG]
  }

  lemma {:induction false} FirstPartDeclares(request: Str)
    requires |request| <= MAX_MSG
    ensures FirstPart(request) != [] && Declared(FirstPart(request)) == |request| && !NextFrame(Unserved(FirstPart(request))).TooLong?
  {
    var b := FirstPart(request);
    assert b[..4] == Frame(request)[..4] == Le(|request|, LEN_BYTES);
    Length32(|request|);
    ModUnique(|request|, TWO32, 0, |request|);
    Value32(b[..4]);
    FrameMeaning(b);
    if |Frame(request)| <= MAX_MSG {
      WholeFrame(request, []);
      assert b + [] == b;
      assert Unserved(b) == [];
    }
  }

  /** The shortest runs of the second kind: as much of one request as the buffer takes, then a read. */
  lemma {:induction false} LongRequestAborts(request: Str, again: ReadResult)
    requires |request| <= MAX_MSG
    ensures again.NoData? ==> PossibleRun([Accept, Reading(0, FirstPart(request)), Poll(0, Some(again), None)])
    ensures After([Accept, Reading(0, FirstPart(request)), Poll(0, Some(again), None)]).aborted
            <==> |request| > 4092
  {
    var b := FirstPart(request);
    FirstRead(b, Poll(0, Some(again), None));
    FirstPartDeclares(request);
    assert [] + b == b;
    ReadingTurn(Next(START, Accept), 0, b);
    LongFrameAborts(Next(START, Accept), 0, b, again);
  }

  // ---------- Runs without an abort ----------

  /** None of the requests is of the kind that draws no reply. */
  ghost predicate NoSilence(done: seq<Done>) {
    forall r :: r in Asked(done) ==> !Silent(r)
  }

  /** No open connection has announced a frame that does not fit beside its header. */
  ghost predicate ShortFrames(w: World) {
    forall id :: id in w.open ==> Declared(w.open[id].conn.incoming) <= 4092
  }

  /** Short frames at every state of the run. */
  ghost predicate ShortRun(events: seq<Event>) {
    ShortFrames(After(events)) && (events != [] ==> ShortRun(events[..|events| - 1]))
  }

  lemma {:induction false} MineIsLogged(log: seq<Logged>, id: nat)
    ensures forall r :: r in Asked(Mine(log, id)) ==> r in Asked(All(log))
  {
    if log != [] {
      MineIsLogged(log[1..], id);
      AskedConcat([log[0].done], All(log[1..]));
      if log[0].id == id {
        AskedConcat([log[0].done], Mine(log[1..], id));
      } else {
        assert Mine(log, id) == Mine(log[1..], id);
      }
    }
  }

  lemma {:induction false} LogOnlyGrows(w: World, e: Event)
    ensures forall r :: r in Asked(All(w.log)) ==> r in Asked(All(Next(w, e).log))
  {
    if !w.aborted && e.Poll? && e.id in w.open {
      var now := Tag(e.id, ReadHalf(w, e.id, e.read).done);
      AllConcat(w.log, now);
      AskedConcat(All(w.log), All(now));
    }
  }

  /** What a read makes of a connection's requests. */
  lemma {:induction false} ReadExtends(data: Data, l: Link, r: ReadResult, done: seq<Done>)
    requires Sound(l, done) && !HandleRead(data, l, r).aborted
    ensures Asked(done + HandleRead(data, l, r).done) == Requests(l.received + Arrived(Some(r)))
  {
    match r
    case Bytes(b) => ReadAsks(data, l, b, done);
    case _ => assert l.received + [] == l.received && done + [] == done;
  }

  lemma {:induction false} ReadHalfExtends(w: World, id: nat, read: Option<ReadResult>, done: seq<Done>)
    requires id in w.open && Sound(w.open[id], done) && !ReadHalf(w, id, read).aborted
    ensures Asked(done + ReadHalf(w, id, read).done) == Requests(w.open[id].received + Arrived(read))
  {
    var l := w.open[id];
    match read
    case Some(r) => ReadExtends(w.data, l, r, done);
    case None => assert l.received + [] == l.received && done + [] == done;
  }

  /** With no silent request on the log of a connection, nothing it does trips the write assertion. */
  lemma TameWrite(l: Link, b: Str)
    requires forall r :: r in Requests(l.received + b) ==> !Silent(r)
    requires l.flushed < |Requests(l.received)|
    ensures !AllSilent(Unanswered(l, b))
  {
    RequestsResume(l.received, b);
    var asked := Requests(l.received + b);
    assert asked[l.flushed] == Unanswered(l, b)[0];
    assert asked[l.flushed] in Unanswered(l, b) && asked[l.flushed] in asked;
  }

  lemma {:induction false} TameNext(w: World, e: Event)
    requires Inv(w) && !w.aborted && ShortFrames(w)
    requires NoSilence(All(Next(w, e).log))
    ensures !Next(w, e).aborted
  {
    NextAborts(w, e);
    if e.Poll? && e.id in w.open {
      var done := ReadHalf(w, e.id, e.read).done;
      LogGrows(w, e.id, done, e.id);
      MineIsLogged(w.log + Tag(e.id, done), e.id);
      TameTurn(w, e.id, e.read, e.write);
    }
  }

  lemma {:induction false} TameTurn(w: World, id: nat, read: Option<ReadResult>, write: Option<WriteResult>)
    requires id in w.open && Sound(w.open[id], Mine(w.log, id))
    requires Declared(w.open[id].conn.incoming) <= 4092
    requires NoSilence(Mine(w.log, id) + ReadHalf(w, id, read).done)
    ensures !Trips(w.open[id], read, write)
  {
    var l, done := w.open[id], Mine(w.log, id);
    FullBuffer(l, done);
    ReadHalfExtends(w, id, read, done);
    if l.flushed < |Requests(l.received)| { TameWrite(l, Arrived(read)); }
  }

  /** Wanting to write is having something to write. */
  ghost predicate WritesWhenDue(w: World) {
    forall id :: id in w.open ==> (w.open[id].conn.wantWrite <==> w.open[id].conn.outgoing != [])
  }

  lemma {:induction false} NoSilenceWritesWhenDue(w: World)
    requires Inv(w) && !w.aborted && NoSilence(All(w.log))
    ensures WritesWhenDue(w)
  {
    forall id | id in w.open ensures w.open[id].conn.wantWrite <==> w.open[id].conn.outgoing != [] {
      MineIsLogged(w.log, id);
      LoudWritesWhenDue(w.open[id], Mine(w.log, id));
    }
  }

  lemma {:induction false} LoudWritesWhenDue(l: Link, done: seq<Done>)
    requires Sound(l, done) && NoSilence(done)
    ensures l.conn.wantWrite <==> l.conn.outgoing != []
  {
    assert l.received + [] == l.received;
    if l.flushed < |done| { TameWrite(l, []); }
  }

  /** If no request of a run is silent and no frame exceeds 4092 bytes, neither
      assertion ever fails, and a connection wants to write exactly when it has
      something to write. */
  lemma {:induction false} TameRun(events: seq<Event>)
    requires PossibleRun(events) && ShortRun(events) && NoSilence(All(After(events).log))
    ensures !After(events).aborted && WritesWhenDue(After(events))
  {
    RunsAreSound(events);
    if events != [] {
      var n := |events| - 1;
      LogOnlyGrows(After(events[..n]), events[n]);
      TameRun(events[..n]);
      RunsAreSound(events[..n]);
      TameNext(After(events[..n]), events[n]);
    }
    NoSilenceWritesWhenDue(After(events));
  }
}
