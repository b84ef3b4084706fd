/** What a receiver gets when polls cut arrays: the header and the elements that had
    arrived are lost, the other elements come out as messages of their own. */
module CutStreams {
  import opened Basics
  import opened Orders
  import opened Wire
  import opened Codec
  import opened Parsers
  import opened Streams

  // ---------- What is left of a message cut at a poll ----------

  /** The elements of an array as messages. */
  function Elements(items: seq<Pointer>): (r: seq<Message>)
    ensures |r| == |items|
  {
    if items == [] then [] else [Element(items[0])] + Elements(items[1..])
  }

  function Element(p: Pointer): Message { if p.To? then p.msg else Null }

  /** The messages still to come once a poll has met the first n bytes of m. */
  function CutMessage(m: Message, n: nat): seq<Message>
    decreases m, 1
  {
    if m.Array? && n >= 5 then CutItems(m.items, n - 5) else [m]
  }

  function CutPointer(p: Pointer, n: nat): seq<Message>
    decreases p, 2
  {
    match p
    case To(m) => CutMessage(m, n)
    case NullPtr => [Null]
  }

  /** Whole elements are gone, the one under way is cut in its turn, the others are still to come. */
  function CutItems(items: seq<Pointer>, n: nat): seq<Message>
    decreases items, 0
  {
    if items == [] then []
    else
      var size := |SerializePointer(items[0])|;
      if n < size then CutPointer(items[0], n) + Elements(items[1..]) else CutItems(items[1..], n - size)
  }

  /** The messages still to come once the bytes b of the stream have been polled. */
  function Todo(ms: seq<Message>, b: Str): seq<Message> {
    if ms == [] then []
    else
      var size := |Serialize(ms[0])|;
      if |b| < size then CutMessage(ms[0], |b|) + ms[1..] else Todo(ms[1..], b[size..])
  }

  lemma {:induction false} SerializeConcat(a: seq<Message>, b: seq<Message>)
    ensures SerializeAll(a + b) == SerializeAll(a) + SerializeAll(b)
  {
    if a == [] {
      assert a + b == b;
    } else {
      SerializeConcat(a[1..], b);
      var rest := a[1..] + b;
      assert a + b == [a[0]] + rest;
      SerializePrepend(a[0], rest);
      Assoc(Serialize(a[0]), SerializeAll(a[1..]), SerializeAll(b));
    }
  }

  lemma {:induction false} SerializePrepend(m: Message, ms: seq<Message>)
    ensures SerializeAll([m] + ms) == Serialize(m) + SerializeAll(ms)
  {
    assert ([m] + ms)[1..] == ms;
  }

  lemma {:induction false} ElementsBytes(items: seq<Pointer>)
    requires ItemsFit(items)
    ensures SerializeAll(Elements(items)) == SerializeItems(items) && AllFit(Elements(items))
  {
    if items != [] {
      ElementsBytes(items[1..]);
      assert Elements(items)[1..] == Elements(items[1..]);
    }
  }

  lemma {:induction false} OneMessage(m: Message)
    ensures SerializeAll([m]) == Serialize(m)
  {
    assert SerializeAll([m][1..]) == [];
    assert Serialize(m) + [] == Serialize(m);
  }

  /** The parser leaves what those messages begin with. */
  lemma {:induction false} CutMessageBytes(m: Message, n: nat)
    requires Fits(m) && n < |Serialize(m)|
    ensures var s := Serialize(m); var r := Parse(s[..n]);
            r.Nothing? && r.rest + s[n..] == SerializeAll(CutMessage(m, n)) && AllFit(CutMessage(m, n))
    decreases m, 1
  {
    var s := Serialize(m);
    Incomplete(m, n);
    if m.Array? && n >= 5 {
      var body := SerializeItems(m.items);
      CutItemsBytes(m.items, n - 5);
      assert s[n..] == body[n - 5..];
      PartOfArray(m.items, n);
    } else {
      assert s[..n] + s[n..] == s;
      OneMessage(m);
    }
  }

  lemma {:induction false} PartOfArray(items: seq<Pointer>, n: nat)
    requires |items| < TWO32 && 5 <= n < |Serialize(Array(items))|
    requires ParseItems(SerializeItems(items)[..n - 5], |items|).NoItems?
    ensures Parse(Serialize(Array(items))[..n]) == Nothing(ParseItems(SerializeItems(items)[..n - 5], |items|).rest)
  {
    var body := SerializeItems(items)[..n - 5];
    assert Serialize(Array(items))[..n] == Header(ARRAY, |items|) + body;
    HeaderFields(ARRAY, |items|, body);
    ModUnique(|items|, TWO32, 0, |items|);
  }

  lemma {:induction false} CutPointerBytes(p: Pointer, n: nat)
    requires PointerFits(p) && n < |SerializePointer(p)|
    ensures var s := SerializePointer(p); var r := Parse(s[..n]);
            r.Nothing? && r.rest + s[n..] == SerializeAll(CutPointer(p, n)) && AllFit(CutPointer(p, n))
    decreases p, 2
  {
    match p
    case To(m) => CutMessageBytes(m, n);
    case NullPtr =>
      var s := SerializePointer(p);
      assert s[..n] + s[n..] == s;
      OneMessage(Null);
  }

  lemma {:induction false} FirstCut(items: seq<Pointer>, n: nat)
    requires items != [] && n < |SerializePointer(items[0])| && Parse(SerializePointer(items[0])[..n]).Nothing?
    ensures var s, all := SerializePointer(items[0]), SerializeItems(items);
            && ParseItems(all[..n], |items|) == NoItems(Parse(s[..n]).rest)
            && all[n..] == s[n..] + SerializeItems(items[1..])
  {
    SplitLater(SerializePointer(items[0]), SerializeItems(items[1..]), n);
    assert SerializeItems(items)[..n] == SerializePointer(items[0])[..n];
  }

  lemma {:induction false} FirstWhole(items: seq<Pointer>, n: nat)
    requires ItemsFit(items) && items != [] && |SerializePointer(items[0])| <= n <= |SerializeItems(items)|
    ensures var k, all, tail := n - |SerializePointer(items[0])|, SerializeItems(items), SerializeItems(items[1..]);
            && all[n..] == tail[k..]
            && (ParseItems(tail[..k], |items| - 1).NoItems? ==>
                  ParseItems(all[..n], |items|) == ParseItems(tail[..k], |items| - 1))
  {
    var s, tail := SerializePointer(items[0]), SerializeItems(items[1..]);
    assert SerializeItems(items)[..n] == s + tail[..n - |s|];
    PointerRoundTrip(items[0], tail[..n - |s|]);
  }

  lemma {:induction false} FitConcat(a: seq<Message>, b: seq<Message>)
    requires AllFit(a) && AllFit(b)
    ensures AllFit(a + b)
  {
  }

  lemma {:induction false} CutItemsBytes(items: seq<Pointer>, n: nat)
    requires ItemsFit(items) && n < |SerializeItems(items)|
    ensures var s := SerializeItems(items); var r := ParseItems(s[..n], |items|);
            r.NoItems? && r.rest + s[n..] == SerializeAll(CutItems(items, n)) && AllFit(CutItems(items, n))
    decreases items, 0
  {
    var s, tail := SerializePointer(items[0]), SerializeItems(items[1..]);
    if n < |s| {
      var cut, others := CutPointer(items[0], n), Elements(items[1..]);
      CutPointerBytes(items[0], n);
      FirstCut(items, n);
      ElementsBytes(items[1..]);
      SerializeConcat(cut, others);
      FitConcat(cut, others);
      Assoc(Parse(s[..n]).rest, s[n..], tail);
    } else {
      FirstWhole(items, n);
      CutItemsBytes(items[1..], n - |s|);
    }
  }

  // ---------- One poll ----------

  /** A poll that meets an incomplete first message. */
  lemma {:induction false} DrainCut(ms: seq<Message>, b: Str)
    requires AllFit(ms) && PrefixOf(b, ms) && ms != [] && |b| < |Serialize(ms[0])|
    ensures Drain(b).1 + SerializeAll(ms)[|b|..] == SerializeAll(Todo(ms, b)) && AllFit(Todo(ms, b))
  {
    var s, tail := Serialize(ms[0]), SerializeAll(ms[1..]);
    var cut := CutMessage(ms[0], |b|);
    PartOfMessage(ms, b);
    Incomplete(ms[0], |b|);
    CutMessageBytes(ms[0], |b|);
    assert Drain(b).1 == Parse(b).rest;
    SplitLater(s, tail, |b|);
    Assoc(Drain(b).1, s[|b|..], tail);
    SerializeConcat(cut, ms[1..]);
    FitConcat(cut, ms[1..]);
  }

  lemma {:induction false} SplitLater(s: Str, tail: Str, n: nat)
    ensures n <= |s| ==> (s + tail)[n..] == s[n..] + tail
    ensures |s| <= n <= |s + tail| ==> (s + tail)[n..] == tail[n - |s|..]
  {
  }

  /** After a drain, the buffer and the bytes to come are the messages still to come. */
  lemma {:induction false} DrainLeaves(ms: seq<Message>, b: Str)
    requires AllFit(ms) && PrefixOf(b, ms)
    ensures Drain(b).1 + SerializeAll(ms)[|b|..] == SerializeAll(Todo(ms, b)) && AllFit(Todo(ms, b))
  {
    if ms == [] {
      assert b == [];
    } else if |b| < |Serialize(ms[0])| {
      DrainCut(ms, b);
    } else {
      var s := Serialize(ms[0]);
      WholeMessageArrived(ms, b);
      DrainFirst(ms[0], b[|s|..]);
      DrainLeaves(ms[1..], b[|s|..]);
      SplitLater(s, SerializeAll(ms[1..]), |b|);
    }
  }

  lemma {:induction false} DrainFirst(m: Message, rest: Str)
    requires Fits(m)
    ensures Drain(Serialize(m) + rest) == ([Normal(m)] + Drain(rest).0, Drain(rest).1)
  {
    HasWhole(m, rest);
    RoundTrip(m, rest);
  }

  /** A poll loses nothing if it finds no cut array, and at least a header if it does. */
  lemma {:induction false} PollCosts(ms: seq<Message>, b: Str)
    requires AllFit(ms) && PrefixOf(b, ms)
    ensures var size := |SerializeAll(ms[..Complete(ms, b)])| + |SerializeAll(Todo(ms, b))|;
            && (!CutInArray(ms, b) ==> size == |SerializeAll(ms)|)
            && (CutInArray(ms, b) ==> size <= |SerializeAll(ms)| - 5)
  {
    DrainLeaves(ms, b);
    DrainStream(ms, b);
    ReceivedSplits(ms, b);
  }

  /** Without a cut the messages still to come are those not yet whole. */
  lemma {:induction false} TodoUncut(ms: seq<Message>, b: Str)
    requires !CutInArray(ms, b)
    ensures Todo(ms, b) == ms[Complete(ms, b)..]
  {
    if ms != [] {
      var size := |Serialize(ms[0])|;
      if |b| < size {
        assert [ms[0]] + ms[1..] == ms[0..];
      } else {
        TodoUncut(ms[1..], b[size..]);
      }
    }
  }

  // ---------- Whole runs ----------

  /** What has been delivered, and the messages still to come. */
  datatype Progress = Progress(delivered: seq<Message>, todo: seq<Message>)

  /** The part of the remaining stream that has arrived while `unread` bytes have not. */
  ghost function Here(todo: seq<Message>, unread: int): Str {
    var s := SerializeAll(todo);
    if 0 <= unread <= |s| then s[..|s| - unread] else []
  }

  ghost function Unread(ms: seq<Message>, chunks: seq<Str>): int { |SerializeAll(ms)| - |Received(chunks)| }

  /** The receiver's view of a run, message by message. */
  ghost function Expected(ms: seq<Message>, chunks: seq<Str>): Progress {
    if chunks == [] then Progress([], ms)
    else
      var before := Expected(ms, chunks[..|chunks| - 1]);
      var b := Here(before.todo, Unread(ms, chunks));
      Progress(before.delivered + NormalAll(before.todo[..Complete(before.todo, b)]), Todo(before.todo, b))
  }

  /** The run has delivered that, and buffer and bytes to come make up what is still to come. */
  ghost predicate Agrees(ms: seq<Message>, chunks: seq<Str>) {
    var p := Expected(ms, chunks);
    && AllFit(p.todo)
    && Run(chunks).0 == p.delivered
    && PrefixOf(Received(chunks), ms)
    && Run(chunks).1 + SerializeAll(ms)[|Received(chunks)|..] == SerializeAll(p.todo)
  }

  /** What the parser is polled with next. */
  lemma {:induction false} NextPoll(ms: seq<Message>, chunks: seq<Str>)
    requires chunks != [] && PrefixOf(Received(chunks), ms) && Agrees(ms, chunks[..|chunks| - 1])
    ensures var n := |chunks| - 1;
            var todo, buffer := Expected(ms, chunks[..n]).todo, Run(chunks[..n]).1 + chunks[n];
            && PrefixOf(buffer, todo)
            && Here(todo, Unread(ms, chunks)) == buffer
            && SerializeAll(todo)[|buffer|..] == SerializeAll(ms)[|Received(chunks)|..]
  {
    var n := |chunks| - 1;
    RunStep(chunks);
    Advance(SerializeAll(ms), Received(chunks[..n]), chunks[n], Run(chunks[..n]).1);
  }

  /** One more chunk of the stream s behind the buffer. */
  lemma {:induction false} Advance(s: Str, received: Str, chunk: Str, buffer: Str)
    requires received + chunk <= s
    ensures var t := buffer + s[|received|..];
            && buffer + chunk <= t
            && t[..|t| - (|s| - |received + chunk|)] == buffer + chunk
            && t[|buffer + chunk|..] == s[|received + chunk|..]
  {
    var later := s[|received + chunk|..];
    assert s[|received|..] == chunk + later;
    Assoc(buffer, chunk, later);
  }

  /** For every stream and every chunking the run is the expected one. */
  lemma {:induction false} RunIsExpected(ms: seq<Message>, chunks: seq<Str>)
    requires AllFit(ms) && PrefixOf(Received(chunks), ms)
    ensures Agrees(ms, chunks)
  {
    if chunks != [] {
      var n := |chunks| - 1;
      ReceivedPrefix(chunks, ms);
      RunIsExpected(ms, chunks[..n]);
      NextPoll(ms, chunks);
      RunStep(chunks);
      var todo, buffer := Expected(ms, chunks[..n]).todo, Run(chunks[..n]).1 + chunks[n];
      DrainStream(todo, buffer);
      DrainLeaves(todo, buffer);
    }
  }

  /** Until a poll cuts an array the messages to come are a tail of the stream, and
      the cut shows in them exactly when it shows in the stream. */
  lemma {:induction false} TodoIsTail(ms: seq<Message>, chunks: seq<Str>)
    requires AllFit(ms) && PrefixOf(Received(chunks), ms) && NeverCut(ms, chunks)
    ensures Expected(ms, chunks).todo == ms[Complete(ms, Received(chunks))..]
  {
    if chunks == [] {
      assert Complete(ms, []) == 0;
    } else {
      var n := |chunks| - 1;
      ReceivedPrefix(chunks, ms);
      TodoIsTail(ms, chunks[..n]);
      SameCut(ms, chunks);
      var todo, here := Expected(ms, chunks[..n]).todo, Here(Expected(ms, chunks[..n]).todo, Unread(ms, chunks));
      TodoUncut(todo, here);
      TailOfTail(ms, Complete(ms, Received(chunks[..n])), Complete(todo, here));
    }
  }

  lemma {:induction false} TailOfTail(ms: seq<Message>, k: nat, more: nat)
    requires k <= |ms| && more <= |ms| - k
    ensures ms[k..][more..] == ms[k + more..]
  {
  }

  lemma {:induction false} SameCut(ms: seq<Message>, chunks: seq<Str>)
    requires AllFit(ms) && chunks != [] && PrefixOf(Received(chunks), ms)
    requires var front := chunks[..|chunks| - 1];
             NeverCut(ms, front) && Expected(ms, front).todo == ms[Complete(ms, Received(front))..]
    ensures var n := |chunks| - 1; var b := Received(chunks[..n]);
            var todo, here := Expected(ms, chunks[..n]).todo, Here(Expected(ms, chunks[..n]).todo, Unread(ms, chunks));
            && here == Pending(ms, b) + chunks[n]
            && Complete(ms, Received(chunks)) == Complete(ms, b) + Complete(todo, here)
            && (CutInArray(todo, here) <==> CutInArray(ms, Received(chunks)))
  {
    var n := |chunks| - 1;
    ReceivedPrefix(chunks, ms);
    DeliversEverything(ms, chunks[..n]);
    RunIsExpected(ms, chunks[..n]);
    NextPoll(ms, chunks);
    Resume(ms, Received(chunks[..n]), chunks[n]);
  }

  /** Bytes delivered and bytes of the messages to come, together. */
  ghost function Weight(ms: seq<Message>, chunks: seq<Str>): nat {
    |SerializeAll(Expected(ms, chunks).delivered)| + |SerializeAll(Expected(ms, chunks).todo)|
  }

  lemma {:induction false} WeightStep(ms: seq<Message>, chunks: seq<Str>)
    requires AllFit(ms) && chunks != [] && PrefixOf(Received(chunks), ms)
    ensures var n := |chunks| - 1;
            var todo := Expected(ms, chunks[..n]).todo; var here := Here(todo, Unread(ms, chunks));
            && (!CutInArray(todo, here) ==> Weight(ms, chunks) == Weight(ms, chunks[..n]))
            && (CutInArray(todo, here) ==> Weight(ms, chunks) <= Weight(ms, chunks[..n]) - 5)
  {
    var n := |chunks| - 1;
    ReceivedPrefix(chunks, ms);
    RunIsExpected(ms, chunks[..n]);
    NextPoll(ms, chunks);
    var before := Expected(ms, chunks[..n]);
    var here := Here(before.todo, Unread(ms, chunks));
    var whole := before.todo[..Complete(before.todo, here)];
    PollCosts(before.todo, here);
    SerializeConcat(before.delivered, NormalAll(whole));
    NormalAllBytes(whole);
  }

  /** Nothing of the stream is lost exactly as long as no poll has cut an array. */
  lemma {:induction false} WeightDrops(ms: seq<Message>, chunks: seq<Str>)
    requires AllFit(ms) && PrefixOf(Received(chunks), ms)
    ensures Weight(ms, chunks) <= |SerializeAll(ms)|
    ensures Weight(ms, chunks) == |SerializeAll(ms)| <==> NeverCut(ms, chunks)
  {
    if chunks == [] {
      assert !CutInArray(ms, []);
    } else {
      var front := chunks[..|chunks| - 1];
      ReceivedPrefix(chunks, ms);
      WeightDrops(ms, front);
      WeightStep(ms, chunks);
      if NeverCut(ms, front) {
        TodoIsTail(ms, front);
        SameCut(ms, chunks);
      }
    }
  }

  lemma {:induction false} WholeStream(ms: seq<Message>)
    ensures Complete(ms, SerializeAll(ms)) == |ms| && Todo(ms, SerializeAll(ms)) == []
  {
    if ms != [] {
      assert SerializeAll(ms)[|Serialize(ms[0])|..] == SerializeAll(ms[1..]);
      WholeStream(ms[1..]);
    }
  }

  /** Once everything has arrived nothing is still to come. */
  lemma {:induction false} NothingToCome(ms: seq<Message>, chunks: seq<Str>)
    requires AllFit(ms) && Received(chunks) == SerializeAll(ms)
    ensures Expected(ms, chunks).todo == [] && Run(chunks).1 == []
  {
    RunIsExpected(ms, chunks);
    if chunks != [] {
      var todo := Expected(ms, chunks[..|chunks| - 1]).todo;
      assert Here(todo, 0) == SerializeAll(todo);
      WholeStream(todo);
    }
    assert Run(chunks).1 + SerializeAll(ms)[|SerializeAll(ms)|..] == Run(chunks).1;
  }

  /** When the whole stream has arrived, the receiver has been given exactly its
      messages if and only if no poll found an array whose header had arrived and
      whose end had not. */
  lemma {:induction false} DeliveredIffNeverCut(ms: seq<Message>, chunks: seq<Str>)
    requires AllFit(ms) && Received(chunks) == SerializeAll(ms)
    ensures Run(chunks).0 == NormalAll(ms) <==> NeverCut(ms, chunks)
  {
    NothingToCome(ms, chunks);
    RunIsExpected(ms, chunks);
    WeightDrops(ms, chunks);
    NormalAllBytes(ms);
    if NeverCut(ms, chunks) {
      DeliversEverything(ms, chunks);
      WholeStream(ms);
      assert ms[..|ms|] == ms;
    }
  }

  lemma {:induction false} DrainWhole(ms: seq<Message>)
    requires AllFit(ms)
    ensures Drain(SerializeAll(ms)) == (NormalAll(ms), [])
  {
    WholeStream(ms);
    DrainStream(ms, SerializeAll(ms));
    DrainLeaves(ms, SerializeAll(ms));
    assert ms[..|ms|] == ms;
  }

  lemma {:induction false} TwoPolls(a: Str, b: Str)
    ensures Run([a, b]) == (Drain(a).0 + Drain(Drain(a).1 + b).0, Drain(Drain(a).1 + b).1)
  {
    assert [a, b][..1] == [a] && [a][..0] == [];
    RunStep([a, b]);
    RunStep([a]);
    assert [] + a == a && [] + Drain(a).0 == Drain(a).0;
  }

  /** An array polled once, right after its header, comes out as its elements. */
  lemma {:induction false} ArrayComesApart(items: seq<Pointer>)
    requires Fits(Array(items)) && items != []
    ensures Run([Serialize(Array(items))[..5], SerializeItems(items)]) == (NormalAll(Elements(items)), [])
  {
    var body := SerializeItems(items);
    HeaderIsLost(items);
    ElementsBytes(items);
    DrainWhole(Elements(items));
    TwoPolls(Serialize(Array(items))[..5], body);
    assert [] + body == body && [] + NormalAll(Elements(items)) == NormalAll(Elements(items));
  }
}
