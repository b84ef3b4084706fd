/** The command layer: command arrays, dispatch and the key-value handlers,
    against a reference interpreter over a plain map. */
module KvStores {
  import opened Basics
  import opened Orders
  import opened Wire
  import opened Codec
  import Glob
  import Chains
  import HashTables

  // ---------- Command arrays ----------

  /** make_command. */
  function MakeCommand(args: seq<Str>): Message { Array(Bulks(args)) }

  function Bulks(args: seq<Str>): (r: seq<Pointer>)
    ensures |r| == |args| && forall i :: 0 <= i < |args| ==> r[i] == To(Bulk(args[i]))
  {
    if args == [] then [] else [To(Bulk(args[0]))] + Bulks(args[1..])
  }

  predicate IsString(p: Pointer) { p.To? && (p.msg.Simple? || p.msg.Bulk?) }

  /** The texts of the elements, or nothing at all if one of them is not a string. */
  ghost function Texts(items: seq<Pointer>): seq<Str> {
    if exists i :: 0 <= i < |items| && !IsString(items[i]) then []
    else seq(|items|, i requires 0 <= i < |items| && IsString(items[i]) => items[i].msg.text)
  }

  /** parse_command: the loop stops and clears at the first element that is not a string. */
  method ParseCommand(request: Pointer) returns (args: seq<Str>)
    ensures args == if request.To? && request.msg.Array? then Texts(request.msg.items) else []
  {
    args := [];
    if request.NullPtr? || !request.msg.Array? { return; }
    var items := request.msg.items;
    for i := 0 to |items|
      invariant |args| == i
      invariant forall j :: 0 <= j < i ==> IsString(items[j]) && args[j] == items[j].msg.text
    {
      if !IsString(items[i]) { return []; }
      args := args + [items[i].msg.text];
    }
  }

  /** A command goes over the wire and comes back as the same arguments. */
  lemma {:induction false} CommandSurvives(args: seq<Str>, rest: Str)
    requires |args| < TWO32 && forall i :: 0 <= i < |args| ==> |args[i]| <= MAX_TEXT
    ensures Parse(Serialize(MakeCommand(args)) + rest) == Got(MakeCommand(args), rest)
    ensures Texts(MakeCommand(args).items) == args
  {
    BulksFit(args);
    RoundTrip(MakeCommand(args), rest);
  }

  lemma {:induction false} BulksFit(args: seq<Str>)
    requires forall i :: 0 <= i < |args| ==> |args[i]| <= MAX_TEXT
    ensures ItemsFit(Bulks(args)) && NormalItems(Bulks(args)) == Bulks(args)
  {
    if args != [] {
      BulksFit(args[1..]);
      assert Bulks(args)[1..] == Bulks(args[1..]);
      assert Normal(Bulk(args[0])) == Bulk(args[0]) && NormalPointer(To(Bulk(args[0]))) == To(Bulk(args[0]));
    }
  }

  // ---------- The reference interpreter ----------

  function ToUpper(c: Byte): Byte { if 97 <= c <= 122 then c - 32 else c }

  function Upper(s: Str): Str { seq(|s|, i requires 0 <= i < |s| => ToUpper(s[i])) }

  datatype Command = Get | Set | Del | Exists | Keys | Ping | Echo | FlushDb | DbSize | Info | Unknown

  /** The handler registered under a name. */
  function CommandOf(name: Str): Command {
    if name == Text("GET") then Get
    else if name == Text("SET") then Set
    else if name == Text("DEL") then Del
    else if name == Text("EXISTS") then Exists
    else if name == Text("KEYS") then Keys
    else if name == Text("PING") then Ping
    else if name == Text("ECHO") then Echo
    else if name == Text("FLUSHDB") then FlushDb
    else if name == Text("DBSIZE") then DbSize
    else if name == Text("INFO") then Info
    else Unknown
  }

  /** The registered names. */
  function NameOf(command: Command): string
    requires !command.Unknown?
  {
    match command
    case Get => "GET" case Set => "SET" case Del => "DEL" case Exists => "EXISTS" case Keys => "KEYS"
    case Ping => "PING" case Echo => "ECHO" case FlushDb => "FLUSHDB" case DbSize => "DBSIZE" case Info => "INFO"
  }

  /** A name reaches a handler exactly when it is the one registered for it, so no
      handler hides another and every other name is unknown. */
  lemma {:induction false} NamesReachTheirHandlers(name: Str, command: Command)
    requires !command.Unknown?
    ensures CommandOf(name) == command <==> name == Text(NameOf(command))
    ensures CommandOf(name) == Unknown <==> forall c: Command :: !c.Unknown? ==> name != Text(NameOf(c))
  {
    Registered(command);
    if CommandOf(name) == Unknown {
      forall c: Command | !c.Unknown? ensures name != Text(NameOf(c)) { Registered(c); }
    } else {
      assert name == Text(NameOf(CommandOf(name)));
    }
  }

  lemma {:induction false} Registered(c: Command)
    requires !c.Unknown?
    ensures CommandOf(Text(NameOf(c))) == c
  {
    assert Text("GET")[0] == 71 && Text("SET")[0] == 83 && Text("DEL")[0] == 68;
    assert Text("KEYS")[0] == 75 && Text("PING")[0] == 80 && Text("ECHO")[0] == 69 && Text("INFO")[0] == 73;
    assert Text("EXISTS")[0] == 69 && Text("DBSIZE")[0] == 68;
  }

  /** Equal but for case: each byte is the same, or the two are a letter and its capital, 32 apart. */
  ghost predicate SameButCase(a: Str, b: Str) {
    |a| == |b| && forall i :: 0 <= i < |a| ==>
      || a[i] == b[i]
      || (97 <= a[i] <= 122 && b[i] == a[i] - 32)
      || (65 <= a[i] <= 90 && b[i] == a[i] + 32)
  }

  lemma {:induction false} UpperMeaning(a: Str, b: Str)
    ensures Upper(a) == Upper(b) <==> SameButCase(a, b)
  {
    if Upper(a) == Upper(b) {
      assert |a| == |Upper(a)| && |b| == |Upper(b)|;
      forall i | 0 <= i < |a| ensures ToUpper(a[i]) == ToUpper(b[i]) {
        assert Upper(a)[i] == Upper(b)[i];
      }
    }
  }

  /** A command is carried out by a handler exactly when its name is the registered one, in any case. */
  lemma {:induction false} CaseDoesNotMatter(name: Str, command: Command)
    requires !command.Unknown?
    ensures CommandOf(Upper(name)) == command <==> SameButCase(name, Text(NameOf(command)))
  {
    var registered := Text(NameOf(command));
    NamesReachTheirHandlers(Upper(name), command);
    UpperMeaning(name, registered);
    Capitals(command);
  }

  /** The registered names are in capitals. */
  lemma {:induction false} Capitals(command: Command)
    requires !command.Unknown?
    ensures Upper(Text(NameOf(command))) == Text(NameOf(command))
  {
  }

  /** static_cast<int64_t> of a count. */
  function Count64(n: nat): (r: Int64)
    ensures n < 0x8000_0000_0000_0000 ==> r == n
    ensures (n - r) % 0x1_0000_0000_0000_0000 == 0
  {
    Signed(n % TWO64)
  }

  function WrongArity(name: string): Message {
    Error(Text("ERR wrong number of arguments for '" + name + "'"))
  }

  /** The reply is this number, as long as it is below 2^63. */
  ghost predicate Says(reply: Message, n: int) {
    0 <= n < 0x8000_0000_0000_0000 ==> reply == Integer(n)
  }

  function UnknownCommand(name: Str): Message {
    Error(Text("ERR unknown command '") + name + Text("'"))
  }

  /** What a command must answer: one message, a list of these keys in some order, or any text. */
  datatype Answer = Exactly(msg: Message) | KeyList(keys: set<Str>) | SomeText

  ghost predicate Answers(reply: Message, a: Answer) {
    match a
    case Exactly(m) => reply == m
    case KeyList(keys) =>
      && reply.Array?
      && (forall i, j :: 0 <= i < j < |reply.items| ==> reply.items[i] != reply.items[j])
      && (forall p :: p in reply.items ==> p.To? && p.msg.Bulk?)
      && (forall k :: To(Bulk(k)) in reply.items <==> k in keys)
    case SomeText => reply.Bulk?
  }

  /** How many of the arguments are keys of m, repetitions included. */
  ghost function Present(m: map<Str, Str>, args: seq<Str>): nat {
    if args == [] then 0
    else Present(m, args[..|args| - 1]) + if args[|args| - 1] in m then 1 else 0
  }

  /** That is, the number of positions behind the command name that hold a key of m. */
  lemma {:induction false} PresentBehind(m: map<Str, Str>, args: seq<Str>)
    requires args != []
    ensures Present(m, args[1..]) == |set i | 1 <= i < |args| && args[i] in m|
  {
    var n := |args| - 1;
    var all := set i | 1 <= i < |args| && args[i] in m;
    if n == 0 {
      assert all == {};
    } else {
      PresentBehind(m, args[..n]);
      assert args[..n][1..] == args[1..][..n - 1];
      var before := set i | 1 <= i < |args[..n]| && args[..n][i] in m;
      assert all == before + if args[n] in m then {n} else {};
    }
  }

  ghost function Without(m: map<Str, Str>, args: seq<Str>): map<Str, Str> {
    map k | k in m && k !in args :: m[k]
  }

  /** One command on a plain map. */
  ghost function Reference(m: map<Str, Str>, args: seq<Str>): (map<Str, Str>, Answer) {
    if args == [] then (m, Exactly(Error(Text("ERR empty command"))))
    else Effect(CommandOf(Upper(args[0])), m, args)
  }

  ghost function Effect(command: Command, m: map<Str, Str>, args: seq<Str>): (map<Str, Str>, Answer)
    requires args != []
  {
    match command
    case Get =>
      (m, Exactly(if |args| != 2 then WrongArity("GET") else if args[1] in m then Bulk(m[args[1]]) else Null))
    case Set =>
      if |args| < 3 then (m, Exactly(WrongArity("SET")))
      else (m[args[1] := args[2]], Exactly(Simple(Text("OK"))))
    case Del =>
      if |args| < 2 then (m, Exactly(WrongArity("DEL")))
      else
        var m' := Without(m, args[1..]);
        DelDrops(m, args[1..]);
        (m', Exactly(Integer(Count64(|m| - |m'|))))
    case Exists =>
      (m, Exactly(if |args| < 2 then WrongArity("EXISTS") else Integer(Count64(Present(m, args[1..])))))
    case Keys =>
      (m, if |args| != 2 then Exactly(WrongArity("KEYS"))
          else KeyList(set k | k in m && Glob.Accepted(k, args[1])))
    case Ping =>
      (m, Exactly(if |args| == 1 then Simple(Text("PONG")) else if |args| == 2 then Bulk(args[1])
                  else WrongArity("PING")))
    case Echo => (m, Exactly(if |args| != 2 then WrongArity("ECHO") else Bulk(args[1])))
    case FlushDb =>
      if |args| != 1 then (m, Exactly(WrongArity("FLUSHDB"))) else (map[], Exactly(Simple(Text("OK"))))
    case DbSize => (m, Exactly(if |args| != 1 then WrongArity("DBSIZE") else Integer(Count64(|m|))))
    case Info => (m, SomeText)
    case Unknown => (m, Exactly(UnknownCommand(args[0])))
  }

  /** The map after a whole session. */
  ghost function After(m: map<Str, Str>, commands: seq<seq<Str>>): map<Str, Str> {
    if commands == [] then m
    else var n := |commands| - 1; Reference(After(m, commands[..n]), commands[n]).0
  }

  /** The reply is the one due to the command in the map it met. */
  ghost predicate IsDue(reply: Message, m: map<Str, Str>, args: seq<Str>) { Answers(reply, Reference(m, args).1) }

  /** One reply to each command of the session, and each right at its turn. */
  ghost predicate EachTurn(right: (Message, map<Str, Str>, seq<Str>) -> bool,
                           m: map<Str, Str>, commands: seq<seq<Str>>, replies: seq<Message>)
  {
    && |replies| == |commands|
    && (commands != [] ==>
          var n := |commands| - 1;
          && EachTurn(right, m, commands[..n], replies[..n])
          && right(replies[n], After(m, commands[..n]), commands[n]))
  }

  ghost predicate Faithful(m: map<Str, Str>, commands: seq<seq<Str>>, replies: seq<Message>) {
    EachTurn(IsDue, m, commands, replies)
  }

  lemma {:induction false} FaithfulStep(m: map<Str, Str>, commands: seq<seq<Str>>, i: nat,
                                        replies: seq<Message>, reply: Message)
    requires i < |commands| && Faithful(m, commands[..i], replies)
    requires Answers(reply, Reference(After(m, commands[..i]), commands[i]).1)
    ensures Faithful(m, commands[..i + 1], replies + [reply])
    ensures After(m, commands[..i + 1]) == Reference(After(m, commands[..i]), commands[i]).0
  {
    assert commands[..i + 1][..i] == commands[..i];
    assert (replies + [reply])[..i] == replies;
  }

  lemma WithoutStep(m: map<Str, Str>, args: seq<Str>, i: nat)
    requires i < |args|
    ensures var m', m'' := Without(m, args[..i]), Without(m, args[..i + 1]);
            && m'' == m' - {args[i]}
            && |m'| == |m''| + if args[i] in m' then 1 else 0
  {
  }

  /** Deleting never adds keys, so the reply to DEL is the drop in the key count. */
  lemma DelDrops(m: map<Str, Str>, args: seq<Str>)
    ensures |Without(m, args)| <= |m|
  {
    SubsetSize(Without(m, args).Keys, m.Keys);
  }

  lemma {:induction false} SubsetSize(a: set<Str>, b: set<Str>)
    requires a <= b
    ensures |a| <= |b|
  {
    assert b == a + (b - a);
  }

  ghost predicate StarFree(m: map<Str, Str>) {
    forall k :: k in m ==> Glob.STAR !in k
  }

  /** The keys KEYS lists, and the keys the pattern matches. */
  ghost function AcceptedKeys(m: map<Str, Str>, pattern: Str): set<Str> {
    set k | k in m && Glob.Accepted(k, pattern)
  }

  ghost function MatchedKeys(m: map<Str, Str>, pattern: Str): set<Str> {
    set k | k in m && Glob.Matches(k, pattern)
  }

  /** KEYS lists exactly the matching keys, whatever the pattern. */
  ghost predicate KeysExact(m: map<Str, Str>) {
    forall pattern :: AcceptedKeys(m, pattern) == MatchedKeys(m, pattern)
  }

  /** KEYS is exact on a map if and only if no key of it contains '*'. */
  lemma {:induction false} KeysExactIffStarFree(m: map<Str, Str>)
    ensures KeysExact(m) <==> StarFree(m)
  {
    forall k | k in m ensures (forall p :: Glob.Accepted(k, p) <==> Glob.Matches(k, p)) <==> Glob.STAR !in k {
      Glob.ExactIffNoStar(k);
    }
    if StarFree(m) {
      forall p ensures AcceptedKeys(m, p) == MatchedKeys(m, p) { }
    }
    if KeysExact(m) {
      forall k, p | k in m ensures Glob.Accepted(k, p) <==> Glob.Matches(k, p) {
        assert k in AcceptedKeys(m, p) <==> k in MatchedKeys(m, p);
      }
    }
  }

  /** The command is not a SET of a key that contains '*'. */
  ghost predicate PlainSet(args: seq<Str>) {
    args != [] && CommandOf(Upper(args[0])) == Set && |args| >= 3 ==> Glob.STAR !in args[1]
  }

  lemma {:induction false} PlainSetKeeps(m: map<Str, Str>, args: seq<Str>)
    requires StarFree(m)
    ensures StarFree(Reference(m, args).0) <==> PlainSet(args)
  {
    if args != [] && CommandOf(Upper(args[0])) == Set && |args| >= 3 {
      assert args[1] in Reference(m, args).0;
    }
  }

  /** KEYS is exact before, between and after the commands. */
  ghost predicate KeysExactThroughout(m: map<Str, Str>, commands: seq<seq<Str>>) {
    KeysExact(After(m, commands)) && (commands != [] ==> KeysExactThroughout(m, commands[..|commands| - 1]))
  }

  /** Over a session from an empty store KEYS stays exact if and only if no key set contains '*'. */
  lemma {:induction false} SessionKeysExact(commands: seq<seq<Str>>)
    ensures KeysExactThroughout(map[], commands) <==> forall c :: c in commands ==> PlainSet(c)
  {
    KeysExactIffStarFree(After(map[], commands));
    if commands != [] {
      var n := |commands| - 1;
      SessionKeysExact(commands[..n]);
      KeysExactIffStarFree(After(map[], commands[..n]));
      assert commands == commands[..n] + [commands[n]];
      if StarFree(After(map[], commands[..n])) { PlainSetKeeps(After(map[], commands[..n]), commands[n]); }
    }
  }

  /** In such a session every KEYS command is answered with the keys its pattern matches. */
  lemma {:induction false} KeysReplies(commands: seq<seq<Str>>, replies: seq<Message>, i: nat)
    requires Faithful(map[], commands, replies) && i < |commands|
    requires forall c :: c in commands ==> PlainSet(c)
    requires |commands[i]| == 2 && CommandOf(Upper(commands[i][0])) == Keys
    ensures Answers(replies[i], KeyList(MatchedKeys(After(map[], commands[..i]), commands[i][1])))
  {
    ReplyAt(IsDue, map[], commands, replies, i);
    SessionKeysExact(commands[..i]);
    KeysDue(After(map[], commands[..i]), commands[i]);
  }

  lemma {:induction false} ReplyAt(right: (Message, map<Str, Str>, seq<Str>) -> bool,
                                   m: map<Str, Str>, commands: seq<seq<Str>>, replies: seq<Message>, i: nat)
    requires EachTurn(right, m, commands, replies) && i < |commands|
    ensures right(replies[i], After(m, commands[..i]), commands[i])
  {
    var n := |commands| - 1;
    if i < n {
      assert commands[..n][..i] == commands[..i];
      ReplyAt(right, m, commands[..n], replies[..n], i);
    }
  }

  lemma {:induction false} KeysDue(m: map<Str, Str>, args: seq<Str>)
    requires KeysExact(m) && |args| == 2 && CommandOf(Upper(args[0])) == Keys
    ensures Reference(m, args).1 == KeyList(MatchedKeys(m, args[1]))
  {
    assert AcceptedKeys(m, args[1]) == MatchedKeys(m, args[1]);
  }

  /** The loop that turns keys into bulk strings. */
  method BulkItems(keys: seq<Str>) returns (items: seq<Pointer>)
    ensures items == Bulks(keys)
  {
    items := [];
    for i := 0 to |keys|
      invariant items == Bulks(keys[..i])
    {
      items := items + [To(Bulk(keys[i]))];
    }
    assert keys[..|keys|] == keys;
  }

  lemma BulksAnswer(names: seq<Str>, keys: set<Str>)
    requires forall i, j :: 0 <= i < j < |names| ==> names[i] != names[j]
    requires forall k :: k in names <==> k in keys
    ensures Answers(Array(Bulks(names)), KeyList(keys))
  {
  }

  // ---------- The object ----------

  class KvStore {
    const table: HashTables.HashTable
    const infoText: (nat, nat) -> Str
    var commandsProcessed: nat
    var getCommands: nat
    var setCommands: nat
    var delCommands: nat

    ghost predicate Valid()
      reads this, table, table.Nodes()
    {
      table.Valid()
    }

    ghost function Data(): map<Str, Str>
      reads this, table
    {
      table.contents
    }

    constructor (murmur: Chains.Hash, infoText: (nat, nat) -> Str)
      ensures Valid() && Data() == map[] && fresh(table) && table.Nodes() == {}
    {
      table := new HashTables.HashTable(murmur, 16);
      this.infoText := infoText;
      commandsProcessed, getCommands, setCommands, delCommands := 0, 0, 0, 0;
    }

    method HandleGet(args: seq<Str>) returns (reply: Message)
      requires Valid()
      modifies this`getCommands
      ensures reply == if |args| != 2 then WrongArity("GET")
                       else if args[1] in Data() then Bulk(Data()[args[1]]) else Null
    {
      if |args| != 2 { return WrongArity("GET"); }
      getCommands := getCommands + 1;
      var value := table.Get(args[1]);
      reply := if value.Some? then Bulk(value.value) else Null;
    }

    method HandleSet(args: seq<Str>) returns (reply: Message)
      requires Valid()
      modifies this`setCommands, table, table.Nodes()
      ensures Valid() && fresh(table.Nodes() - old(table.Nodes()))
      ensures |args| < 3 ==> reply == WrongArity("SET") && Data() == old(Data())
      ensures |args| >= 3 ==> reply == Simple(Text("OK")) && Data() == old(Data())[args[1] := args[2]]
    {
      if |args| < 3 { return WrongArity("SET"); }
      setCommands := setCommands + 1;
      var isNew := table.Set(args[1], args[2]);
      reply := Simple(Text("OK"));
    }

    method HandleFlushDb(args: seq<Str>) returns (reply: Message)
      requires Valid()
      modifies table
      ensures Valid() && table.Nodes() == old(table.Nodes())
      ensures |args| != 1 ==> reply == WrongArity("FLUSHDB") && Data() == old(Data())
      ensures |args| == 1 ==> reply == Simple(Text("OK")) && Data() == map[]
    {
      if |args| != 1 { return WrongArity("FLUSHDB"); }
      table.Clear();
      reply := Simple(Text("OK"));
    }

    method HandleDel(args: seq<Str>) returns (reply: Message)
      requires Valid() && |args| >= 1
      modifies this`delCommands, table, table.Nodes()
      ensures Valid() && table.Nodes() == old(table.Nodes())
      ensures |args| < 2 ==> reply == WrongArity("DEL") && Data() == old(Data())
      ensures |args| >= 2 ==> Data() == Without(old(Data()), args[1..])
      ensures |args| >= 2 ==> |Data()| <= |old(Data())| && reply == Integer(Count64(|old(Data())| - |Data()|))
      ensures |args| >= 2 ==> Says(reply, |old(Data())| - |Data()|)
    {
      if |args| < 2 { return WrongArity("DEL"); }
      delCommands := delCommands + 1;
      var deleted := 0;
      var keys := args[1..];
      assert Without(old(Data()), keys[..0]) == old(Data());
      for i := 0 to |keys|
        invariant Valid() && table.Nodes() == old(table.Nodes())
        invariant Data() == Without(old(Data()), keys[..i])
        invariant |Data()| + deleted == |old(Data())|
      {
        WithoutStep(old(Data()), keys, i);
        var gone := table.Del(keys[i]);
        if gone { deleted := deleted + 1; }
      }
      assert keys[..|keys|] == keys;
      reply := Integer(Count64(deleted));
    }

    method HandleExists(args: seq<Str>) returns (reply: Message)
      requires Valid() && |args| >= 1
      ensures reply == if |args| < 2 then WrongArity("EXISTS") else Integer(Count64(Present(Data(), args[1..])))
      ensures |args| >= 2 ==> Says(reply, |set i | 1 <= i < |args| && args[i] in Data()|)
    {
      if |args| < 2 { return WrongArity("EXISTS"); }
      var count := 0;
      var keys := args[1..];
      for i := 0 to |keys|
        invariant count == Present(Data(), keys[..i])
      {
        assert keys[..i + 1][..i] == keys[..i];
        var there := table.Exists(keys[i]);
        if there { count := count + 1; }
      }
      assert keys[..|keys|] == keys;
      reply := Integer(Count64(count));
      PresentBehind(Data(), args);
    }

    method HandleKeys(args: seq<Str>) returns (reply: Message)
      requires Valid() && |args| >= 1
      ensures |args| != 2 ==> reply == WrongArity("KEYS")
      ensures |args| == 2 ==> Answers(reply, KeyList(set k | k in Data() && Glob.Accepted(k, args[1])))
    {
      if |args| != 2 { return WrongArity("KEYS"); }
      var keys := table.Keys(args[1]);
      var items := BulkItems(keys);
      BulksAnswer(keys, set k | k in Data() && Glob.Accepted(k, args[1]));
      reply := Array(items);
    }

    method HandlePing(args: seq<Str>) returns (reply: Message)
      ensures |args| == 1 ==> reply == Simple(Text("PONG"))
      ensures |args| == 2 ==> reply == Bulk(args[1])
      ensures |args| != 1 && |args| != 2 ==> reply == WrongArity("PING")
    {
      if |args| == 1 { return Simple(Text("PONG")); }
      reply := if |args| == 2 then Bulk(args[1]) else WrongArity("PING");
    }

    method HandleEcho(args: seq<Str>) returns (reply: Message)
      ensures |args| == 2 ==> reply == Bulk(args[1])
      ensures |args| != 2 ==> reply == WrongArity("ECHO")
    {
      if |args| != 2 { return WrongArity("ECHO"); }
      reply := Bulk(args[1]);
    }

    method HandleDbSize(args: seq<Str>) returns (reply: Message)
      requires Valid()
      ensures |args| != 1 ==> reply == WrongArity("DBSIZE")
      ensures |args| == 1 ==> reply == Integer(Count64(|Data()|)) && Says(reply, |Data()|)
    {
      if |args| != 1 { return WrongArity("DBSIZE"); }
      reply := Integer(Count64(table.size));
    }

    /** The handlers, each answering as the reference does and leaving the map it leaves. */
    method Handle(command: Command, args: seq<Str>) returns (reply: Message)
      requires Valid() && args != []
      modifies this, table, table.Nodes()
      ensures Valid() && fresh(table.Nodes() - old(table.Nodes()))
      ensures Answers(reply, Effect(command, old(Data()), args).1)
      ensures Data() == Effect(command, old(Data()), args).0
    {
      match command {
        case Get => reply := HandleGet(args);
        case Set => reply := HandleSet(args);
        case Del => reply := HandleDel(args);
        case Exists => reply := HandleExists(args);
        case Keys => reply := HandleKeys(args);
        case Ping => reply := HandlePing(args);
        case Echo => reply := HandleEcho(args);
        case FlushDb => reply := HandleFlushDb(args);
        case DbSize => reply := HandleDbSize(args);
        case Info => reply := Bulk(infoText(table.size, commandsProcessed));
        case Unknown => reply := UnknownCommand(args[0]);
      }
    }

    /** execute_raw. */
    method ExecuteRaw(args: seq<Str>) returns (reply: Message)
      requires Valid()
      modifies this, table, table.Nodes()
      ensures Valid() && fresh(table.Nodes() - old(table.Nodes()))
      ensures Answers(reply, Reference(old(Data()), args).1)
      ensures Data() == Reference(old(Data()), args).0
    {
      if args == [] { return Error(Text("ERR empty command")); }
      reply := Handle(CommandOf(Upper(args[0])), args);
    }

    /** execute_command on a parsed request. */
    method ExecuteCommand(request: Pointer) returns (reply: Message)
      requires Valid()
      modifies this, table, table.Nodes()
      ensures Valid() && fresh(table.Nodes() - old(table.Nodes()))
      ensures var args := if request.To? && request.msg.Array? then Texts(request.msg.items) else [];
              if args == []
              then reply == Error(Text("ERR invalid command format")) && Data() == old(Data())
              else Answers(reply, Reference(old(Data()), args).1) && Data() == Reference(old(Data()), args).0
    {
      commandsProcessed := commandsProcessed + 1;
      var args := ParseCommand(request);
      if args == [] { return Error(Text("ERR invalid command format")); }
      reply := ExecuteRaw(args);
    }

    /** A whole session: replies and final map are those of the reference. */
    method Session(commands: seq<seq<Str>>) returns (replies: seq<Message>)
      requires Valid()
      modifies this, table, table.Nodes()
      ensures Valid() && fresh(table.Nodes() - old(table.Nodes()))
      ensures Data() == After(old(Data()), commands)
      ensures Faithful(old(Data()), commands, replies)
    {
      replies := [];
      for i := 0 to |commands|
        invariant Valid() && fresh(table.Nodes() - old(table.Nodes()))
        invariant Data() == After(old(Data()), commands[..i])
        invariant Faithful(old(Data()), commands[..i], replies)
      {
        var reply := ExecuteRaw(commands[i]);
        FaithfulStep(old(Data()), commands, i, replies, reply);
        replies := replies + [reply];
      }
      assert commands[..|commands|] == commands;
    }
  }
}
