/** The incremental parser object and what it delivers from a byte stream that
    arrives in arbitrary chunks. */
module Parsers {
  import opened Orders
  import opened Wire
  import opened Codec

  /** Parser::has_message: any array header counts as a message. */
  predicate HasMessage(buf: Str) {
    |buf| >= 5 && (buf[0] == ARRAY || |buf| >= Needed(LengthField(buf)))
  }

  datatype Reply = Msg(msg: Message) | NoMsg | OutOfBounds

  /** What a caller of parse_message sees. */
  function ReplyOf(r: Outcome): Reply {
    match r
    case Got(m, _) => Msg(m)
    case Nothing(_) => NoMsg
    case Fault => OutOfBounds
  }

  /** One turn of the element loop. */
  lemma {:induction false} NextItem(front: seq<Pointer>, buf: Str, count: nat)
    requires count > 0
    ensures var step := Parse(buf);
            Prepend(front, ParseItems(buf, count))
            == match step
               case Got(m, rest) => Prepend(front + [To(m)], ParseItems(rest, count - 1))
               case Nothing(rest) => NoItems(rest)
               case Fault => ItemsFault
  {
  }

  class Parser {
    var buffer: Str

    constructor ()
      ensures buffer == []
    {
      buffer := [];
    }

    method Feed(data: Str)
      modifies this
      ensures buffer == old(buffer) + data
    {
      buffer := buffer + data;
    }

    method ConsumeBytes(count: nat)
      modifies this
      ensures buffer == if count >= |old(buffer)| then [] else old(buffer)[count..]
    {
      buffer := if count >= |buffer| then [] else buffer[count..];
    }

    /** Reads past the end leave the buffer as it was. */
    method ParseMessage() returns (r: Reply)
      modifies this
      ensures r == ReplyOf(Parse(old(buffer)))
      ensures !Parse(old(buffer)).Fault? ==> buffer == Parse(old(buffer)).rest
      ensures |buffer| <= |old(buffer)|
      decreases |buffer|, 1
    {
      if |buffer| < 5 { return NoMsg; }
      var kind, length := buffer[0], LengthField(buffer);
      if IsText(kind) {
        if |buffer| < Needed(length) { return NoMsg; }
        if |buffer| < 5 + length { return OutOfBounds; }
        r := Msg(TextMessage(kind, buffer[5..5 + length]));
        ConsumeBytes(Needed(length));
      } else if kind == INTEGER {
        if length != 8 || |buffer| < 13 { return NoMsg; }
        ReadInt64(buffer[5..13]);
        r := Msg(Integer(Signed(FromLe(buffer[5..13]))));
        ConsumeBytes(13);
      } else if kind == ARRAY {
        r := ParseArray(length);
      } else if kind == NULL_VALUE {
        ConsumeBytes(5);
        r := Msg(Null);
      } else {
        buffer := [];
        r := NoMsg;
      }
    }

    /** parse_array: the header goes first, and stays gone if an element is missing. */
    method ParseArray(count: nat) returns (r: Reply)
      requires |buffer| >= 5
      modifies this
      ensures match ParseItems(old(buffer)[5..], count)
              case GotItems(items, rest) => r == Msg(Array(items)) && buffer == rest
              case NoItems(rest) => r == NoMsg && buffer == rest
              case ItemsFault => r == OutOfBounds
      ensures |buffer| <= |old(buffer)|
      decreases |buffer|, 0
    {
      ConsumeBytes(5);
      ghost var body := buffer;
      var items: seq<Pointer> := [];
      for i := 0 to count
        invariant |buffer| <= |body|
        invariant ParseItems(body, count) == Prepend(items, ParseItems(buffer, count - i))
      {
        NextItem(items, buffer, count - i);
        var elem := ParseMessage();
        if elem.NoMsg? { return NoMsg; }
        if elem.OutOfBounds? { return OutOfBounds; }
        items := items + [To(elem.msg)];
      }
      assert items + [] == items;
      r := Msg(Array(items));
    }
  }
}
