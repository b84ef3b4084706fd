/** Serializing a message and parsing one back from the front of a buffer. */
module Codec {
  import opened Basics
  import opened Orders
  import opened Wire

  const SIMPLE_STRING: Byte := 1
  const ERROR_MSG: Byte := 2
  const INTEGER: Byte := 3
  const BULK_STRING: Byte := 4
  const ARRAY: Byte := 5
  const NULL_VALUE: Byte := 6

  function Header(kind: Byte, length: nat): (h: Str)
    ensures |h| == 5
  {
    [kind] + Le(length, LEN_BYTES)
  }

  /** Message::serialize. A length beyond 32 bits is truncated by Le. */
  function Serialize(m: Message): (b: Str)
    ensures |b| >= 5
    decreases m, 1
  {
    match m
    case Simple(s) => Header(SIMPLE_STRING, |s|) + s
    case Error(s) => Header(ERROR_MSG, |s|) + s
    case Integer(v) => Header(INTEGER, 8) + Le(v, INT_BYTES)
    case Bulk(s) => Header(BULK_STRING, |s|) + s
    case Array(items) => Header(ARRAY, |items|) + SerializeItems(items)
    case Null => Header(NULL_VALUE, 0)
  }

  /** A null element is written as a null message. */
  function SerializePointer(p: Pointer): (b: Str)
    ensures |b| >= 5
    decreases p, 2
  {
    match p
    case To(m) => Serialize(m)
    case NullPtr => Header(NULL_VALUE, 0)
  }

  function SerializeItems(items: seq<Pointer>): Str
    decreases items, 0
  {
    if items == [] then []
    else SerializePointer(items[0]) + SerializeItems(items[1..])
  }

  function SerializedSize(m: Message): nat
    decreases m, 1
  {
    match m
    case Simple(s) => 5 + |s|
    case Error(s) => 5 + |s|
    case Integer(v) => 5 + 8
    case Bulk(s) => 5 + |s|
    case Array(items) => 5 + ItemsSize(items)
    case Null => 5
  }

  function PointerSize(p: Pointer): nat
    decreases p, 2
  {
    match p
    case To(m) => SerializedSize(m)
    case NullPtr => 5
  }

  function ItemsSize(items: seq<Pointer>): nat
    decreases items, 0
  {
    if items == [] then 0 else PointerSize(items[0]) + ItemsSize(items[1..])
  }

  // ---------- Parsing ----------

  /** What a call leaves: a message and the unread bytes; no message, and what is
      left of the buffer; or a read past the end of the buffer. */
  datatype Outcome = Got(msg: Message, rest: Str) | Nothing(rest: Str) | Fault

  datatype ItemsOutcome = GotItems(items: seq<Pointer>, rest: Str) | NoItems(rest: Str) | ItemsFault

  /** `5 + length` in 32-bit arithmetic. */
  function Needed(length: nat): nat { (5 + length) % TWO32 }

  function LengthField(buf: Str): (n: nat)
    requires |buf| >= 5
    ensures n < TWO32
  {
    Read32(buf[1..5]);
    FromLe(buf[1..5])
  }

  predicate IsText(kind: Byte) { kind == SIMPLE_STRING || kind == ERROR_MSG || kind == BULK_STRING }

  function TextMessage(kind: Byte, s: Str): Message {
    if kind == SIMPLE_STRING then Simple(s) else if kind == ERROR_MSG then Error(s) else Bulk(s)
  }

  /** The three string parsers: the test and the erasure use the wrapped sum, the copy the true one. */
  function ParseText(kind: Byte, buf: Str): (r: Outcome)
    requires |buf| >= 5
    ensures r.Got? ==> |r.rest| <= |buf|
    ensures r.Nothing? ==> r.rest == buf
  {
    var length := LengthField(buf);
    if |buf| < Needed(length) then Nothing(buf)
    else if |buf| < 5 + length then Fault
    else
      var text := buf[5..5 + length];
      Got(TextMessage(kind, text), buf[Needed(length)..])
  }

  function ParseInteger(buf: Str): (r: Outcome)
    requires |buf| >= 5
    ensures r.Got? ==> |r.rest| <= |buf|
    ensures r.Nothing? ==> r.rest == buf
    ensures !r.Fault?
  {
    if LengthField(buf) != 8 || |buf| < 13 then Nothing(buf)
    else
      ReadInt64(buf[5..13]);
      Got(Integer(Signed(FromLe(buf[5..13]))), buf[13..])
  }

  /** Parser::parse_message. */
  function Parse(buf: Str): (r: Outcome)
    ensures r.Got? || r.Nothing? ==> |r.rest| <= |buf|
    decreases |buf|, 0
  {
    if |buf| < 5 then Nothing(buf)
    else if IsText(buf[0]) then ParseText(buf[0], buf)
    else if buf[0] == INTEGER then ParseInteger(buf)
    else if buf[0] == ARRAY then
      match ParseItems(buf[5..], LengthField(buf))
      case GotItems(items, rest) => Got(Array(items), rest)
      case NoItems(rest) => Nothing(rest)
      case ItemsFault => Fault
    else if buf[0] == NULL_VALUE then Got(Null, buf[5..])
    else Nothing([])
  }

  /** The loop of parse_array, after the header is gone. */
  function ParseItems(buf: Str, count: nat): (r: ItemsOutcome)
    ensures r.GotItems? || r.NoItems? ==> |r.rest| <= |buf|
    decreases |buf|, 1 + count
  {
    if count == 0 then GotItems([], buf)
    else
      match Parse(buf)
      case Nothing(rest) => NoItems(rest)
      case Fault => ItemsFault
      case Got(m, rest) => Prepend([To(m)], ParseItems(rest, count - 1))
  }

  function Prepend(front: seq<Pointer>, r: ItemsOutcome): ItemsOutcome {
    if r.GotItems? then GotItems(front + r.items, r.rest) else r
  }

  // ---------- Round trip ----------

  /** The message the receiver sees: a null pointer arrives as a null message. */
  function Normal(m: Message): Message
    decreases m, 1
  {
    if m.Array? then Array(NormalItems(m.items)) else m
  }

  function NormalPointer(p: Pointer): Pointer
    decreases p, 2
  {
    match p
    case To(m) => To(Normal(m))
    case NullPtr => To(Null)
  }

  function NormalItems(items: seq<Pointer>): (r: seq<Pointer>)
    ensures |r| == |items|
    decreases items, 0
  {
    if items == [] then [] else [NormalPointer(items[0])] + NormalItems(items[1..])
  }

  const MAX_TEXT: int := TWO32 - 6

  /** Every string and every array is short enough for the length field. */
  predicate Fits(m: Message)
    decreases m, 1
  {
    match m
    case Simple(s) => |s| <= MAX_TEXT
    case Error(s) => |s| <= MAX_TEXT
    case Integer(_) => true
    case Bulk(s) => |s| <= MAX_TEXT
    case Array(items) => |items| < TWO32 && ItemsFit(items)
    case Null => true
  }

  predicate PointerFits(p: Pointer)
    decreases p, 2
  {
    match p
    case To(m) => Fits(m)
    case NullPtr => true
  }

  predicate ItemsFit(items: seq<Pointer>)
    decreases items, 0
  {
    items == [] || (PointerFits(items[0]) && ItemsFit(items[1..]))
  }

  lemma HeaderFields(kind: Byte, length: nat, body: Str)
    ensures var buf := Header(kind, length) + body;
            && |buf| == 5 + |body| && buf[0] == kind && buf[5..] == body
            && LengthField(buf) == length % TWO32
  {
    var buf := Header(kind, length) + body;
    assert buf[1..5] == Le(length, LEN_BYTES);
    Length32(length);
  }

  /** The documented layout, byte by byte: a type code from 1 to 6, the length in four
      little-endian bytes, the data. */
  lemma {:induction false} WireFormat(m: Message)
    ensures var b := Serialize(m);
            match m
            case Simple(s) => b[0] == 1 && Spells32(b, 1, |s|) && b[5..] == s
            case Error(s) => b[0] == 2 && Spells32(b, 1, |s|) && b[5..] == s
            case Integer(v) => b[0] == 3 && Spells32(b, 1, 8) && |b| == 13 && Spells64(b, 5, v)
            case Bulk(s) => b[0] == 4 && Spells32(b, 1, |s|) && b[5..] == s
            case Array(items) => b[0] == 5 && Spells32(b, 1, |items|) && b[5..] == SerializeItems(items)
            case Null => b == [6, 0, 0, 0, 0]
  {
    match m
    case Simple(s) => HeaderBytes(SIMPLE_STRING, |s|, s);
    case Error(s) => HeaderBytes(ERROR_MSG, |s|, s);
    case Integer(v) =>
      HeaderBytes(INTEGER, 8, Le(v, INT_BYTES));
      LittleEndian64(v);
    case Bulk(s) => HeaderBytes(BULK_STRING, |s|, s);
    case Array(items) => HeaderBytes(ARRAY, |items|, SerializeItems(items));
    case Null =>
      HeaderBytes(NULL_VALUE, 0, []);
      assert Header(NULL_VALUE, 0) + [] == Header(NULL_VALUE, 0);
  }

  lemma {:induction false} HeaderBytes(kind: Byte, length: nat, body: Str)
    ensures var b := Header(kind, length) + body; b[0] == kind && Spells32(b, 1, length) && b[5..] == body
  {
    LittleEndian32(length);
  }

  /** The elements follow one another; a null pointer is written as a null message. */
  lemma {:induction false} ItemsFormat(items: seq<Pointer>, p: Pointer)
    ensures SerializeItems([]) == []
    ensures SerializeItems(items + [p])
            == SerializeItems(items) + if p.To? then Serialize(p.msg) else [6, 0, 0, 0, 0]
  {
    if items == [] {
      WireFormat(Null);
      assert [] + [p] == [p] && [p][1..] == [];
      assert SerializePointer(p) + [] == SerializePointer(p);
    } else {
      ItemsFormat(items[1..], p);
      assert (items + [p])[0] == items[0] && (items + [p])[1..] == items[1..] + [p];
      Assoc(SerializePointer(items[0]), SerializeItems(items[1..]), if p.To? then Serialize(p.msg) else [6, 0, 0, 0, 0]);
    }
  }

  /** The length a header declares. */
  ghost function Length(buf: Str): nat
    requires |buf| >= 5
  {
    buf[1] as int + 256 * (buf[2] as int) + 65536 * (buf[3] as int) + 16777216 * (buf[4] as int)
  }

  /** What is not a message and how much of it goes: nothing while fewer than five
      bytes are there, everything on an unknown type, nothing on an integer whose length
      is not 8, and nothing while a text is shorter than its length, added up in 32 bits. */
  lemma {:induction false} Refused(buf: Str)
    ensures |buf| < 5 ==> Parse(buf) == Nothing(buf)
    ensures |buf| >= 5 && !(1 <= buf[0] <= 6) ==> Parse(buf) == Nothing([])
    ensures |buf| >= 5 && buf[0] == 3 ==>
              (Parse(buf).Got? <==> Length(buf) == 8 && |buf| >= 13) && (!Parse(buf).Got? ==> Parse(buf) == Nothing(buf))
    ensures |buf| >= 5 && (buf[0] == 1 || buf[0] == 2 || buf[0] == 4) ==>
              && (Parse(buf).Nothing? <==> |buf| < (5 + Length(buf)) % TWO32)
              && (Parse(buf).Nothing? ==> Parse(buf) == Nothing(buf))
              && (Parse(buf).Fault? <==> (5 + Length(buf)) % TWO32 <= |buf| < 5 + Length(buf))
  {
    if |buf| >= 5 { Value32(buf[1..5]); }
  }

  lemma NoWrap(n: nat)
    requires n <= MAX_TEXT
    ensures n % TWO32 == n && Needed(n) == 5 + n
  {
  }

  lemma SliceOut(h: Str, s: Str, rest: Str)
    ensures (h + s + rest)[|h|..|h| + |s|] == s && (h + s + rest)[|h| + |s|..] == rest
  {
  }

  lemma {:induction false} TextRoundTrip(kind: Byte, s: Str, rest: Str)
    requires IsText(kind) && |s| <= MAX_TEXT
    ensures Parse(Header(kind, |s|) + s + rest) == Got(TextMessage(kind, s), rest)
  {
    var buf := Header(kind, |s|) + s + rest;
    assert buf == Header(kind, |s|) + (s + rest);
    HeaderFields(kind, |s|, s + rest);
    NoWrap(|s|);
    assert buf[0] == kind && LengthField(buf) == |s|;
    SliceOut(Header(kind, |s|), s, rest);
    assert ParseText(kind, buf) == Got(TextMessage(kind, s), rest);
  }

  lemma {:induction false} IntegerRoundTrip(v: Int64, rest: Str)
    ensures Parse(Header(INTEGER, 8) + Le(v, INT_BYTES) + rest) == Got(Integer(v), rest)
  {
    var h, s := Header(INTEGER, 8), Le(v, INT_BYTES);
    var buf := h + s + rest;
    Assoc(h, s, rest);
    HeaderFields(INTEGER, 8, s + rest);
    SliceOut(h, s, rest);
    Integer64(v);
    assert ParseInteger(buf) == Got(Integer(v), rest);
  }

  /** The header of an array sends the parser into its elements. */
  lemma {:induction false} ArrayParses(items: seq<Pointer>, rest: Str)
    requires |items| < TWO32
    ensures Parse(Serialize(Array(items)) + rest)
            == match ParseItems(SerializeItems(items) + rest, |items|)
               case GotItems(got, left) => Got(Array(got), left)
               case NoItems(left) => Nothing(left)
               case ItemsFault => Fault
  {
    var body := SerializeItems(items) + rest;
    var buf := Header(ARRAY, |items|) + body;
    HeaderFields(ARRAY, |items|, body);
    ModUnique(|items|, TWO32, 0, |items|);
    assert buf[0] == ARRAY && buf[5..] == body && LengthField(buf) == |items|;
    assert Serialize(Array(items)) + rest == buf;
  }

  /** Parsing a serialized message followed by any bytes gives the message and leaves those bytes. */
  lemma {:induction false} RoundTrip(m: Message, rest: Str)
    requires Fits(m)
    ensures Parse(Serialize(m) + rest) == Got(Normal(m), rest)
    decreases m, 1
  {
    match m
    case Simple(s) => TextRoundTrip(SIMPLE_STRING, s, rest);
    case Error(s) => TextRoundTrip(ERROR_MSG, s, rest);
    case Integer(v) => IntegerRoundTrip(v, rest);
    case Bulk(s) => TextRoundTrip(BULK_STRING, s, rest);
    case Array(items) =>
      ItemsRoundTrip(items, rest);
      ArrayParses(items, rest);
    case Null => HeaderFields(NULL_VALUE, 0, rest);
  }

  lemma {:induction false} PointerRoundTrip(p: Pointer, rest: Str)
    requires PointerFits(p)
    ensures var r := Parse(SerializePointer(p) + rest);
            r.Got? && To(r.msg) == NormalPointer(p) && r.rest == rest
    decreases p, 2
  {
    match p
    case To(m) => RoundTrip(m, rest);
    case NullPtr => HeaderFields(NULL_VALUE, 0, rest);
  }

  lemma {:induction false} ItemsRoundTrip(items: seq<Pointer>, rest: Str)
    requires ItemsFit(items)
    ensures ParseItems(SerializeItems(items) + rest, |items|) == GotItems(NormalItems(items), rest)
    decreases items, 0
  {
    if items == [] {
      assert SerializeItems(items) + rest == rest;
    } else {
      var tail := SerializeItems(items[1..]) + rest;
      assert SerializeItems(items) + rest == SerializePointer(items[0]) + tail;
      PointerRoundTrip(items[0], tail);
      ItemsRoundTrip(items[1..], rest);
    }
  }

  /** serialized_size is the length of what serialize returns. */
  lemma {:induction false} SizeIsLength(m: Message)
    ensures |Serialize(m)| == SerializedSize(m)
    decreases m, 1
  {
    if m.Array? { ItemsSizeIsLength(m.items); }
  }

  lemma {:induction false} PointerSizeIsLength(p: Pointer)
    ensures |SerializePointer(p)| == PointerSize(p)
    decreases p, 2
  {
    if p.To? { SizeIsLength(p.msg); }
  }

  lemma {:induction false} ItemsSizeIsLength(items: seq<Pointer>)
    ensures |SerializeItems(items)| == ItemsSize(items)
    decreases items, 0
  {
    if items != [] { PointerSizeIsLength(items[0]); ItemsSizeIsLength(items[1..]); }
  }

  // ---------- Exactly when the round trip holds ----------

  /** Normalising changes neither the bytes nor whether they fit. */
  lemma {:induction false} NormalSame(m: Message)
    ensures Serialize(Normal(m)) == Serialize(m) && (Fits(Normal(m)) <==> Fits(m))
    decreases m, 1
  {
    if m.Array? { NormalItemsSame(m.items); }
  }

  lemma {:induction false} NormalPointerSame(p: Pointer)
    ensures SerializePointer(NormalPointer(p)) == SerializePointer(p)
    ensures PointerFits(NormalPointer(p)) <==> PointerFits(p)
    decreases p, 2
  {
    if p.To? { NormalSame(p.msg); }
  }

  lemma {:induction false} NormalItemsSame(items: seq<Pointer>)
    ensures SerializeItems(NormalItems(items)) == SerializeItems(items)
    ensures ItemsFit(NormalItems(items)) <==> ItemsFit(items)
    decreases items, 0
  {
    if items != [] {
      NormalPointerSame(items[0]);
      NormalItemsSame(items[1..]);
      assert NormalItems(items)[1..] == NormalItems(items[1..]);
    }
  }

  /** No null pointer at any depth. */
  ghost predicate NoNulls(m: Message)
    decreases m, 1
  {
    m.Array? ==> NoNullItems(m.items)
  }

  ghost predicate NoNullItems(items: seq<Pointer>)
    decreases items, 0
  {
    items != [] ==> NotNull(items[0]) && NoNullItems(items[1..])
  }

  ghost predicate NotNull(p: Pointer)
    decreases p, 2
  {
    p.To? && NoNulls(p.msg)
  }

  /** The receiver sees the message itself exactly when it has no null pointer. */
  lemma {:induction false} NormalExactly(m: Message)
    ensures Normal(m) == m <==> NoNulls(m)
    decreases m, 1
  {
    if m.Array? { NormalItemsExactly(m.items); }
  }

  lemma {:induction false} NormalPointerExactly(p: Pointer)
    ensures NormalPointer(p) == p <==> NotNull(p)
    decreases p, 2
  {
    if p.To? { NormalExactly(p.msg); }
  }

  lemma {:induction false} NormalItemsExactly(items: seq<Pointer>)
    ensures NormalItems(items) == items <==> NoNullItems(items)
    decreases items, 0
  {
    if items != [] {
      NormalItemsExactly(items[1..]);
      NormalPointerExactly(items[0]);
      assert NormalItems(items)[0] == NormalPointer(items[0]) && NormalItems(items)[1..] == NormalItems(items[1..]);
      assert items == [items[0]] + items[1..];
    }
  }

  ghost predicate SuffixOf(r: Str, buf: Str) { |r| <= |buf| && r == buf[|buf| - |r|..] }

  /** A parsed message accounts for at least the bytes it consumed, and for
      exactly those bytes when no length wrapped around, that is, when it fits. */
  lemma {:induction false} ParsedSize(buf: Str)
    requires Parse(buf).Got?
    ensures var r := Parse(buf);
            && SuffixOf(r.rest, buf)
            && |Serialize(r.msg)| + |r.rest| >= |buf|
            && (|Serialize(r.msg)| + |r.rest| == |buf| <==> Fits(r.msg))
    decreases |buf|, 0
  {
    if IsText(buf[0]) {
      WrapsWhenLong(LengthField(buf));
    } else if buf[0] == ARRAY {
      ParsedItemsSize(buf[5..], LengthField(buf));
      SuffixOfTail(Parse(buf).rest, buf, 5);
    }
  }

  lemma WrapsWhenLong(n: nat)
    requires n < TWO32
    ensures Needed(n) == if n <= MAX_TEXT then 5 + n else 5 + n - TWO32
  {
  }

  lemma SuffixOfTail(r: Str, buf: Str, k: nat)
    requires k <= |buf| && SuffixOf(r, buf[k..])
    ensures SuffixOf(r, buf)
  {
  }

  lemma {:induction false} ParsedItemsSize(buf: Str, count: nat)
    requires ParseItems(buf, count).GotItems?
    ensures var r := ParseItems(buf, count);
            && |r.items| == count
            && SuffixOf(r.rest, buf)
            && |SerializeItems(r.items)| + |r.rest| >= |buf|
            && (|SerializeItems(r.items)| + |r.rest| == |buf| <==> ItemsFit(r.items))
    decreases |buf|, 1 + count
  {
    if count > 0 {
      var first := Parse(buf);
      var others := ParseItems(first.rest, count - 1);
      ParsedSize(buf);
      ParsedItemsSize(first.rest, count - 1);
      SuffixOfTail(others.rest, buf, |buf| - |first.rest|);
      SerializeCons(first.msg, others.items);
    }
  }

  /** The round trip holds, with exactly the trailing bytes left, if and only if the message fits. */
  lemma {:induction false} RoundTripExact(m: Message, rest: Str)
    ensures Parse(Serialize(m) + rest) == Got(Normal(m), rest) <==> Fits(m)
  {
    if Fits(m) {
      RoundTrip(m, rest);
    } else if Parse(Serialize(m) + rest) == Got(Normal(m), rest) {
      ParsedSize(Serialize(m) + rest);
      NormalSame(m);
    }
  }

  /** Two messages with one encoding a prefix of the other's bytes are the same to a receiver. */
  lemma {:induction false} PrefixFree(m: Message, n: Message, x: Str, y: Str)
    requires Fits(m) && Fits(n) && Serialize(m) + x == Serialize(n) + y
    ensures Normal(m) == Normal(n) && x == y
  {
    RoundTrip(m, x);
    RoundTrip(n, y);
  }

  // ---------- From bytes back to bytes ----------

  /** The null headers met while parsing the first message of buf carry length zero. */
  ghost predicate ZeroNulls(buf: Str)
    decreases |buf|, 0
  {
    |buf| >= 5 ==>
      && (buf[0] == NULL_VALUE ==> LengthField(buf) == 0)
      && (buf[0] == ARRAY ==> ZeroNullItems(buf[5..], LengthField(buf)))
  }

  ghost predicate ZeroNullItems(buf: Str, count: nat)
    decreases |buf|, 1 + count
  {
    count > 0 ==> ZeroNulls(buf) && (Parse(buf).Got? ==> ZeroNullItems(Parse(buf).rest, count - 1))
  }

  lemma {:induction false} TextWritesBack(buf: Str)
    requires |buf| >= 5 && IsText(buf[0]) && LengthField(buf) <= MAX_TEXT && ParseText(buf[0], buf).Got?
    ensures var r := ParseText(buf[0], buf); buf == Serialize(r.msg) + r.rest
  {
    HeaderOf(buf);
    WrapsWhenLong(LengthField(buf));
    var n := 5 + LengthField(buf);
    Join(buf, 5, n);
    assert Serialize(TextMessage(buf[0], buf[5..n])) == buf[..5] + buf[5..n];
  }

  lemma {:induction false} IntegerWritesBack(buf: Str)
    requires |buf| >= 5 && buf[0] == INTEGER && ParseInteger(buf).Got?
    ensures var r := ParseInteger(buf); buf == Serialize(r.msg) + r.rest
  {
    HeaderOf(buf);
    ReadInt64(buf[5..13]);
    Join(buf, 5, 13);
    assert Serialize(ParseInteger(buf).msg) == buf[..5] + buf[5..13];
  }

  lemma {:induction false} ArrayWritesBack(buf: Str)
    requires Parse(buf).Got? && buf[0] == ARRAY
    ensures var r := Parse(buf);
            && r.msg.Array?
            && (buf == Serialize(r.msg) + r.rest <==> buf[5..] == SerializeItems(r.msg.items) + r.rest)
  {
    var r := Parse(buf);
    ParsedItemsSize(buf[5..], LengthField(buf));
    HeaderOf(buf);
    var body := SerializeItems(r.msg.items) + r.rest;
    assert Serialize(r.msg) + r.rest == buf[..5] + body;
    assert buf == buf[..5] + buf[5..];
    SplitEqual(buf[..5], buf[5..], body);
  }

  /** What was consumed is what would be written again, if and only if every null header carried length zero. */
  lemma {:induction false} WritesBackExactly(buf: Str)
    requires Parse(buf).Got? && Fits(Parse(buf).msg)
    ensures var r := Parse(buf); buf == Serialize(r.msg) + r.rest <==> ZeroNulls(buf)
    decreases |buf|, 0
  {
    if IsText(buf[0]) {
      TextWritesBack(buf);
    } else if buf[0] == INTEGER {
      IntegerWritesBack(buf);
    } else if buf[0] == ARRAY {
      ArrayWritesBack(buf);
      ItemsWriteBack(buf[5..], LengthField(buf));
    } else {
      NullHeader(buf);
    }
  }

  lemma SplitEqual(h: Str, a: Str, b: Str)
    ensures h + a == h + b <==> a == b
  {
    assert (h + a)[|h|..] == a && (h + b)[|h|..] == b;
  }

  lemma HeaderOf(buf: Str)
    requires |buf| >= 5
    ensures buf[..5] == Header(buf[0], LengthField(buf))
  {
    Read32(buf[1..5]);
    assert buf[..5] == [buf[0]] + buf[1..5];
  }

  lemma NullHeader(buf: Str)
    requires |buf| >= 5 && buf[0] == NULL_VALUE
    ensures buf == Serialize(Null) + buf[5..] <==> LengthField(buf) == 0
  {
    HeaderOf(buf);
    assert buf == buf[..5] + buf[5..];
    HeaderFields(NULL_VALUE, 0, buf[5..]);
  }

  /** With the head's length fixed, the rest of buf is what the whole says it is. */
  lemma SameTail(buf: Str, head: Str, rest: Str, body: Str)
    requires SuffixOf(rest, buf) && |head| + |rest| == |buf|
    ensures buf == head + body <==> buf == head + rest && rest == body
  {
  }

  lemma {:induction false} SerializeCons(m: Message, items: seq<Pointer>)
    ensures SerializeItems([To(m)] + items) == Serialize(m) + SerializeItems(items)
    ensures ItemsFit([To(m)] + items) <==> Fits(m) && ItemsFit(items)
  {
    assert ([To(m)] + items)[1..] == items;
  }

  /** The first element and the others. */
  lemma {:induction false} ItemsFirst(buf: Str, count: nat)
    requires ParseItems(buf, count).GotItems? && count > 0
    ensures Parse(buf).Got? && ParseItems(Parse(buf).rest, count - 1).GotItems?
    ensures var first := Parse(buf); var others := ParseItems(first.rest, count - 1);
            && ParseItems(buf, count) == GotItems([To(first.msg)] + others.items, others.rest)
            && (ZeroNullItems(buf, count) <==> ZeroNulls(buf) && ZeroNullItems(first.rest, count - 1))
  {
  }

  lemma {:induction false} ItemsWriteBack(buf: Str, count: nat)
    requires ParseItems(buf, count).GotItems? && ItemsFit(ParseItems(buf, count).items)
    ensures var r := ParseItems(buf, count);
            buf == SerializeItems(r.items) + r.rest <==> ZeroNullItems(buf, count)
    decreases |buf|, 1 + count
  {
    if count > 0 {
      var first := Parse(buf);
      var others := ParseItems(first.rest, count - 1);
      ItemsFirst(buf, count);
      SerializeCons(first.msg, others.items);
      ParsedSize(buf);
      WritesBackExactly(buf);
      ItemsWriteBack(first.rest, count - 1);
      Assoc(Serialize(first.msg), SerializeItems(others.items), others.rest);
      SameTail(buf, Serialize(first.msg), first.rest, SerializeItems(others.items) + others.rest);
    }
  }
}
