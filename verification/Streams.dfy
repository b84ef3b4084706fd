/** What comes out of the parser when a serialized stream arrives in chunks and
    the parser is drained after each one. */
module Streams {
  import opened Basics
  import opened Orders
  import opened Wire
  import opened Codec
  import opened Parsers

  /** serialize_messages. */
  function SerializeAll(ms: seq<Message>): Str {
    if ms == [] then [] else Serialize(ms[0]) + SerializeAll(ms[1..])
  }

  function NormalAll(ms: seq<Message>): (r: seq<Message>)
    ensures |r| == |ms|
  {
    if ms == [] then [] else [Normal(ms[0])] + NormalAll(ms[1..])
  }

  ghost predicate AllFit(ms: seq<Message>) {
    forall i :: 0 <= i < |ms| ==> Fits(ms[i])
  }

  /** Parse as long as has_message says so and a message comes out: the messages,
      and what stays buffered. A parse that consumes nothing would repeat for
      ever; the loop is cut there. */
  function Drain(buf: Str): (seq<Message>, Str)
    decreases |buf|
  {
    if !HasMessage(buf) then ([], buf)
    else
      match Parse(buf)
      case Got(m, rest) =>
        if |rest| < |buf| then var (later, left) := Drain(rest); ([m] + later, left) else ([], buf)
      case Nothing(rest) => ([], rest)
      case Fault => ([], buf)
  }

  function Received(chunks: seq<Str>): Str {
    if chunks == [] then [] else var n := |chunks| - 1; Received(chunks[..n]) + chunks[n]
  }

  /** Feed and drain, chunk by chunk: everything delivered, and the buffer. */
  function Run(chunks: seq<Str>): (seq<Message>, Str) {
    if chunks == [] then ([], [])
    else
      var n := |chunks| - 1;
      var (delivered, buffer) := Run(chunks[..n]);
      var (more, left) := Drain(buffer + chunks[n]);
      (delivered + more, left)
  }

  // ---------- Where a received prefix stands in the stream ----------

  /** b is a prefix of the stream ms. */
  ghost predicate PrefixOf(b: Str, ms: seq<Message>) { b <= SerializeAll(ms) }

  /** How many messages of ms have arrived whole in b. */
  ghost function Complete(ms: seq<Message>, b: Str): (k: nat)
    ensures k <= |ms|
  {
    if ms == [] || |b| < |Serialize(ms[0])| then 0
    else 1 + Complete(ms[1..], b[|Serialize(ms[0])|..])
  }

  /** The bytes of the message still under way. */
  ghost function Pending(ms: seq<Message>, b: Str): Str {
    if ms == [] || |b| < |Serialize(ms[0])| then b
    else Pending(ms[1..], b[|Serialize(ms[0])|..])
  }

  /** The message under way is an array of which at least the header has arrived. */
  ghost predicate CutInArray(ms: seq<Message>, b: Str) {
    ms != [] &&
    if |b| < |Serialize(ms[0])| then ms[0].Array? && |b| >= 5
    else CutInArray(ms[1..], b[|Serialize(ms[0])|..])
  }

  lemma {:induction false} WholeMessageArrived(ms: seq<Message>, b: Str)
    requires PrefixOf(b, ms) && ms != [] && |b| >= |Serialize(ms[0])|
    ensures var s := Serialize(ms[0]); b == s + b[|s|..] && PrefixOf(b[|s|..], ms[1..])
  {
  }

  lemma {:induction false} PartOfMessage(ms: seq<Message>, b: Str)
    requires PrefixOf(b, ms) && ms != [] && |b| < |Serialize(ms[0])|
    ensures b == Serialize(ms[0])[..|b|]
  {
  }

  // ---------- An incomplete message is never delivered ----------

  lemma {:induction false} HasWhole(m: Message, rest: Str)
    requires Fits(m)
    ensures HasMessage(Serialize(m) + rest)
  {
    match m
    case Simple(s) => HasText(SIMPLE_STRING, s, rest);
    case Error(s) => HasText(ERROR_MSG, s, rest);
    case Bulk(s) => HasText(BULK_STRING, s, rest);
    case Integer(v) =>
      HeaderFields(INTEGER, 8, Le(v, INT_BYTES) + rest);
      assert Serialize(m) + rest == Header(INTEGER, 8) + (Le(v, INT_BYTES) + rest);
    case Array(items) =>
    case Null => HeaderFields(NULL_VALUE, 0, rest);
  }

  lemma HasText(kind: Byte, s: Str, rest: Str)
    requires |s| <= MAX_TEXT
    ensures HasMessage(Header(kind, |s|) + s + rest)
  {
    HeaderFields(kind, |s|, s + rest);
    NoWrap(|s|);
    assert Header(kind, |s|) + s + rest == Header(kind, |s|) + (s + rest);
  }

  /** A proper prefix of a message: nothing is parsed; and has_message sees it
      for what it is unless it is an array whose header is complete, in which case
      at least that header is lost. */
  lemma {:induction false} Incomplete(m: Message, n: nat)
    requires Fits(m) && n < |Serialize(m)|
    ensures var t := Serialize(m)[..n];
            && Parse(t).Nothing?
            && (HasMessage(t) <==> m.Array? && n >= 5)
            && (m.Array? && n >= 5 ==> |Parse(t).rest| <= n - 5)
            && (!m.Array? || n < 5 ==> Parse(t).rest == t)
    decreases m, 1
  {
    var t := Serialize(m)[..n];
    if n >= 5 {
      match m
      case Simple(s) => PartOfText(SIMPLE_STRING, s, n);
      case Error(s) => PartOfText(ERROR_MSG, s, n);
      case Bulk(s) => PartOfText(BULK_STRING, s, n);
      case Integer(v) =>
        assert t == Header(INTEGER, 8) + Le(v, INT_BYTES)[..n - 5];
        HeaderFields(INTEGER, 8, Le(v, INT_BYTES)[..n - 5]);
      case Array(items) =>
        var body := SerializeItems(items)[..n - 5];
        assert t == Header(ARRAY, |items|) + body;
        HeaderFields(ARRAY, |items|, body);
        ModUnique(|items|, TWO32, 0, |items|);
        ItemsIncomplete(items, n - 5);
    }
  }

  lemma {:induction false} PartOfText(kind: Byte, s: Str, n: nat)
    requires IsText(kind) && |s| <= MAX_TEXT && 5 <= n < 5 + |s|
    ensures var t := (Header(kind, |s|) + s)[..n]; Parse(t) == Nothing(t) && !HasMessage(t)
  {
    var t := (Header(kind, |s|) + s)[..n];
    assert t == Header(kind, |s|) + s[..n - 5];
    HeaderFields(kind, |s|, s[..n - 5]);
    NoWrap(|s|);
  }

  lemma {:induction false} PointerIncomplete(p: Pointer, n: nat)
    requires PointerFits(p) && n < |SerializePointer(p)|
    ensures Parse(SerializePointer(p)[..n]).Nothing?
    decreases p, 2
  {
    match p
    case To(m) => Incomplete(m, n);
    case NullPtr =>
  }

  lemma {:induction false} ItemsIncomplete(items: seq<Pointer>, n: nat)
    requires ItemsFit(items) && n < |SerializeItems(items)|
    ensures ParseItems(SerializeItems(items)[..n], |items|).NoItems?
    decreases items, 0
  {
    var s, tail := SerializePointer(items[0]), SerializeItems(items[1..]);
    assert SerializeItems(items) == s + tail;
    if n < |s| {
      assert (s + tail)[..n] == s[..n];
      PointerIncomplete(items[0], n);
    } else {
      var left := tail[..n - |s|];
      assert (s + tail)[..n] == s + left;
      PointerRoundTrip(items[0], left);
      ItemsIncomplete(items[1..], n - |s|);
    }
  }

  // ---------- Draining a prefix of a stream ----------

  /** From a prefix of a stream the whole messages come out, in order; the
      incomplete one stays, whole, unless it is an array with its header. */
  lemma {:induction false} DrainStream(ms: seq<Message>, b: Str)
    requires AllFit(ms) && PrefixOf(b, ms)
    ensures Drain(b).0 == NormalAll(ms[..Complete(ms, b)])
    ensures !CutInArray(ms, b) ==> Drain(b).1 == Pending(ms, b)
    ensures CutInArray(ms, b) ==> |Drain(b).1| <= |Pending(ms, b)| - 5
  {
    if ms == [] {
      assert b == [];
    } else if |b| < |Serialize(ms[0])| {
      PartOfMessage(ms, b);
      Incomplete(ms[0], |b|);
    } else {
      var m, s := ms[0], Serialize(ms[0]);
      var rest := b[|s|..];
      WholeMessageArrived(ms, b);
      HasWhole(m, rest);
      RoundTrip(m, rest);
      DrainStream(ms[1..], rest);
      TakeOneMore(ms, Complete(ms[1..], rest));
      assert Drain(b) == ([Normal(m)] + Drain(rest).0, Drain(rest).1);
    }
  }

  lemma {:induction false} ReceivedSplits(ms: seq<Message>, b: Str)
    requires PrefixOf(b, ms)
    ensures b == SerializeAll(ms[..Complete(ms, b)]) + Pending(ms, b)
  {
    if ms != [] && |b| >= |Serialize(ms[0])| {
      var s := Serialize(ms[0]);
      var rest := b[|s|..];
      WholeMessageArrived(ms, b);
      ReceivedSplits(ms[1..], rest);
      var k := Complete(ms[1..], rest);
      TakeOneMore(ms, k);
      Assoc(s, SerializeAll(ms[1..][..k]), Pending(ms[1..], rest));
    }
  }

  lemma {:induction false} TakeOneMore(ms: seq<Message>, k: nat)
    requires k < |ms|
    ensures SerializeAll(ms[..1 + k]) == Serialize(ms[0]) + SerializeAll(ms[1..][..k])
    ensures NormalAll(ms[..1 + k]) == [Normal(ms[0])] + NormalAll(ms[1..][..k])
  {
    assert ms[..1 + k][1..] == ms[1..][..k];
  }

  /** Going on from the pending bytes is the same as starting over with everything. */
  lemma {:induction false} Resume(ms: seq<Message>, b: Str, chunk: Str)
    requires PrefixOf(b + chunk, ms)
    ensures PrefixOf(b, ms)
    ensures var k := Complete(ms, b);
            var tail := Pending(ms, b) + chunk;
            && PrefixOf(tail, ms[k..])
            && Complete(ms, b + chunk) == k + Complete(ms[k..], tail)
            && Pending(ms, b + chunk) == Pending(ms[k..], tail)
            && (CutInArray(ms, b + chunk) <==> CutInArray(ms[k..], tail))
  {
    assert b == (b + chunk)[..|b|];
    if ms != [] && |b| >= |Serialize(ms[0])| {
      var n := |Serialize(ms[0])|;
      WholeMessageArrived(ms, b + chunk);
      assert (b + chunk)[n..] == b[n..] + chunk;
      Resume(ms[1..], b[n..], chunk);
      var k := Complete(ms[1..], b[n..]);
      assert ms[1 + k..] == ms[1..][k..];
    } else {
      assert ms[0..] == ms;
    }
  }

  lemma {:induction false} NormalAllConcat(a: seq<Message>, b: seq<Message>)
    ensures NormalAll(a + b) == NormalAll(a) + NormalAll(b)
  {
    if a == [] {
      assert a + b == b;
    } else {
      NormalAllConcat(a[1..], b);
      assert (a + b)[0] == a[0] && (a + b)[1..] == a[1..] + b;
      Assoc([Normal(a[0])], NormalAll(a[1..]), NormalAll(b));
    }
  }

  lemma {:induction false} NormalAllBytes(ms: seq<Message>)
    ensures SerializeAll(NormalAll(ms)) == SerializeAll(ms)
  {
    if ms != [] {
      NormalSame(ms[0]);
      NormalAllBytes(ms[1..]);
      assert NormalAll(ms)[1..] == NormalAll(ms[1..]);
    }
  }

  // ---------- Whole runs ----------

  /** Delivered messages and buffer together are exactly the bytes received. */
  ghost predicate Intact(chunks: seq<Str>) {
    SerializeAll(Run(chunks).0) + Run(chunks).1 == Received(chunks)
  }

  /** Intact at every poll of the run. */
  ghost predicate AlwaysIntact(chunks: seq<Str>) {
    Intact(chunks) && (chunks != [] ==> AlwaysIntact(chunks[..|chunks| - 1]))
  }

  /** No poll of the run finds an array whose header has arrived and whose end has not. */
  ghost predicate NeverCut(ms: seq<Message>, chunks: seq<Str>) {
    !CutInArray(ms, Received(chunks)) && (chunks != [] ==> NeverCut(ms, chunks[..|chunks| - 1]))
  }

  /** The run has delivered every message that arrived whole and kept the rest. */
  ghost predicate UpToDate(ms: seq<Message>, chunks: seq<Str>) {
    var b := Received(chunks);
    Run(chunks) == (NormalAll(ms[..Complete(ms, b)]), Pending(ms, b))
  }

  lemma {:induction false} UpToDateIsIntact(ms: seq<Message>, chunks: seq<Str>)
    requires PrefixOf(Received(chunks), ms) && UpToDate(ms, chunks)
    ensures Intact(chunks)
  {
    var b := Received(chunks);
    ReceivedSplits(ms, b);
    NormalAllBytes(ms[..Complete(ms, b)]);
  }

  /** Draining what is pending together with one more chunk. */
  lemma {:induction false} DrainMore(ms: seq<Message>, b: Str, chunk: Str)
    requires AllFit(ms) && PrefixOf(b + chunk, ms)
    ensures var (more, left) := Drain(Pending(ms, b) + chunk);
            && NormalAll(ms[..Complete(ms, b)]) + more == NormalAll(ms[..Complete(ms, b + chunk)])
            && (!CutInArray(ms, b + chunk) ==> left == Pending(ms, b + chunk))
            && (CutInArray(ms, b + chunk) ==> |left| <= |Pending(ms, b + chunk)| - 5)
  {
    var k, tail := Complete(ms, b), Pending(ms, b) + chunk;
    Resume(ms, b, chunk);
    DrainStream(ms[k..], tail);
    TakeMore(ms, k, Complete(ms[k..], tail));
  }

  /** The state after one more chunk, whether or not bytes were lost. */
  lemma {:induction false} NextState(ms: seq<Message>, chunks: seq<Str>)
    requires AllFit(ms) && chunks != [] && PrefixOf(Received(chunks), ms)
    requires UpToDate(ms, chunks[..|chunks| - 1])
    ensures var b := Received(chunks);
            && Run(chunks).0 == NormalAll(ms[..Complete(ms, b)])
            && (!CutInArray(ms, b) ==> Run(chunks).1 == Pending(ms, b))
            && (CutInArray(ms, b) ==> |Run(chunks).1| <= |Pending(ms, b)| - 5)
  {
    var n := |chunks| - 1;
    RunStep(chunks);
    DrainMore(ms, Received(chunks[..n]), chunks[n]);
  }

  lemma {:induction false} RunStep(chunks: seq<Str>)
    requires chunks != []
    ensures var n := |chunks| - 1;
            var (delivered, buffer) := Run(chunks[..n]);
            && Run(chunks) == (delivered + Drain(buffer + chunks[n]).0, Drain(buffer + chunks[n]).1)
            && Received(chunks) == Received(chunks[..n]) + chunks[n]
  {
  }

  lemma {:induction false} TakeMore(ms: seq<Message>, k: nat, more: nat)
    requires k + more <= |ms|
    ensures NormalAll(ms[..k + more]) == NormalAll(ms[..k]) + NormalAll(ms[k..][..more])
  {
    NormalAllConcat(ms[..k], ms[k..][..more]);
    assert ms[..k] + ms[k..][..more] == ms[..k + more];
  }

  /** One more chunk after a run that is up to date. */
  lemma {:induction false} OneMoreChunk(ms: seq<Message>, chunks: seq<Str>)
    requires AllFit(ms) && chunks != [] && PrefixOf(Received(chunks), ms)
    requires UpToDate(ms, chunks[..|chunks| - 1])
    ensures CutInArray(ms, Received(chunks)) ==> !Intact(chunks)
    ensures !CutInArray(ms, Received(chunks)) ==> UpToDate(ms, chunks)
  {
    var b := Received(chunks);
    NextState(ms, chunks);
    ReceivedSplits(ms, b);
    NormalAllBytes(ms[..Complete(ms, b)]);
  }

  lemma {:induction false} ReceivedPrefix(chunks: seq<Str>, ms: seq<Message>)
    requires chunks != [] && PrefixOf(Received(chunks), ms)
    ensures PrefixOf(Received(chunks[..|chunks| - 1]), ms)
  {
  }

  /** As long as no poll happens inside an array, everything that arrived whole
      has been delivered, in order, and only the incomplete message is buffered. */
  lemma {:induction false} DeliversEverything(ms: seq<Message>, chunks: seq<Str>)
    requires AllFit(ms) && PrefixOf(Received(chunks), ms) && NeverCut(ms, chunks)
    ensures UpToDate(ms, chunks)
  {
    if chunks == [] {
      assert Complete(ms, []) == 0 && Pending(ms, []) == [];
      assert ms[..0] == [];
    } else {
      ReceivedPrefix(chunks, ms);
      DeliversEverything(ms, chunks[..|chunks| - 1]);
      OneMoreChunk(ms, chunks);
    }
  }

  /** No byte is lost at any poll of a run if and only if no poll finds an array
      whose header has arrived and whose end has not. */
  lemma {:induction false} IntactIffNeverCut(ms: seq<Message>, chunks: seq<Str>)
    requires AllFit(ms) && PrefixOf(Received(chunks), ms)
    ensures AlwaysIntact(chunks) <==> NeverCut(ms, chunks)
  {
    if chunks != [] {
      ReceivedPrefix(chunks, ms);
      IntactIffNeverCut(ms, chunks[..|chunks| - 1]);
      if NeverCut(ms, chunks[..|chunks| - 1]) {
        DeliversEverything(ms, chunks[..|chunks| - 1]);
        OneMoreChunk(ms, chunks);
        if UpToDate(ms, chunks) { UpToDateIsIntact(ms, chunks); }
      }
    }
  }

  /** Polled right after its header, an array that has elements loses that header and is never delivered. */
  lemma {:induction false} HeaderIsLost(items: seq<Pointer>)
    requires Fits(Array(items)) && items != []
    ensures Drain(Serialize(Array(items))[..5]) == ([], [])
  {
    Incomplete(Array(items), 5);
  }

  /** Without arrays every chunking delivers the same. */
  lemma {:induction false} FlatStreamsNeverCut(ms: seq<Message>, b: Str)
    requires forall i :: 0 <= i < |ms| ==> !ms[i].Array?
    ensures !CutInArray(ms, b)
  {
    if ms != [] && |b| >= |Serialize(ms[0])| { FlatStreamsNeverCut(ms[1..], b[|Serialize(ms[0])|..]); }
  }
}
