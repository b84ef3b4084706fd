/** Splitting a line typed at the client into arguments. */
module CommandLines {
  import opened Basics
  import opened Orders

  const QUOTE: Byte := 34
  const BACKSLASH: Byte := 92
  const SPACE: Byte := 32

  /** The four variables of the loop. */
  datatype Scan = Scan(args: seq<Str>, current: Str, inQuotes: bool, escapeNext: bool)

  const FRESH := Scan([], [], false, false)

  /** The byte an escaped c stands for. */
  function Unescape(c: Byte): Byte {
    if c == 110 then 10 else if c == 114 then 13 else if c == 116 then 9 else c
  }

  function Flush(s: Scan): Scan {
    if s.current == [] then s else s.(args := s.args + [s.current], current := [])
  }

  function Step(s: Scan, c: Byte): Scan {
    if s.escapeNext then s.(current := s.current + [Unescape(c)], escapeNext := false)
    else if c == BACKSLASH then s.(escapeNext := true)
    else if c == QUOTE then s.(inQuotes := !s.inQuotes)
    else if c == SPACE && !s.inQuotes then Flush(s)
    else s.(current := s.current + [c])
  }

  function Run(s: Scan, line: Str): Scan
    decreases line
  {
    if line == [] then s else Run(Step(s, line[0]), line[1..])
  }

  /** The arguments of a line. */
  function Split(line: Str): seq<Str> { Flush(Run(FRESH, line)).args }

  /** parse_command_line. */
  method ParseCommandLine(line: Str) returns (args: seq<Str>)
    ensures args == Split(line)
  {
    args := [];
    var current: Str, inQuotes, escapeNext := [], false, false;
    for i := 0 to |line|
      invariant Run(Scan(args, current, inQuotes, escapeNext), line[i..]) == Run(FRESH, line)
    {
      var c := line[i];
      assert line[i..][1..] == line[i + 1..];
      if escapeNext {
        current := current + [Unescape(c)];
        escapeNext := false;
      } else if c == BACKSLASH {
        escapeNext := true;
      } else if c == QUOTE {
        inQuotes := !inQuotes;
      } else if c == SPACE && !inQuotes {
        if current != [] {
          args := args + [current];
          current := [];
        }
      } else {
        current := current + [c];
      }
    }
    if current != [] { args := args + [current]; }
  }

  // ---------- Quoting ----------

  function Escape(s: Str): Str {
    if s == [] then []
    else (if s[0] == BACKSLASH || s[0] == QUOTE then [BACKSLASH, s[0]] else [s[0]]) + Escape(s[1..])
  }

  function Quoted(s: Str): Str { [QUOTE] + Escape(s) + [QUOTE] }

  /** Each argument quoted, with a space between them. */
  function QuotedLine(args: seq<Str>): Str {
    if args == [] then []
    else if |args| == 1 then Quoted(args[0])
    else Quoted(args[0]) + [SPACE] + QuotedLine(args[1..])
  }

  function NonEmpty(args: seq<Str>): seq<Str> {
    if args == [] then [] else (if args[0] == [] then [] else [args[0]]) + NonEmpty(args[1..])
  }

  lemma {:induction false} RunConcat(s: Scan, a: Str, b: Str)
    ensures Run(s, a + b) == Run(Run(s, a), b)
    decreases a
  {
    if a == [] {
      assert a + b == b;
    } else {
      assert (a + b)[0] == a[0] && (a + b)[1..] == a[1..] + b;
      RunConcat(Step(s, a[0]), a[1..], b);
    }
  }

  /** Inside quotes escaped text comes back byte for byte. */
  lemma {:induction false} EscapedComesBack(s: Scan, text: Str)
    requires s.inQuotes && !s.escapeNext
    ensures Run(s, Escape(text)) == s.(current := s.current + text)
    decreases text
  {
    if text == [] {
      assert s.current + text == s.current;
    } else {
      var front := if text[0] == BACKSLASH || text[0] == QUOTE then [BACKSLASH, text[0]] else [text[0]];
      RunConcat(s, front, Escape(text[1..]));
      var s' := s.(current := s.current + [text[0]]);
      if |front| == 2 {
        assert front[1..] == [text[0]] && front[1..][1..] == [];
        assert Step(Step(s, BACKSLASH), text[0]) == s';
        assert Run(Step(s, BACKSLASH), front[1..]) == s';
      }
      assert Run(s, front) == s';
      EscapedComesBack(s', text[1..]);
      assert s.current + text == s'.current + text[1..];
    }
  }

  /** A scan between arguments. */
  predicate AtRest(s: Scan) { s.current == [] && !s.inQuotes && !s.escapeNext }

  lemma {:induction false} OneArgument(s: Scan, arg: Str)
    requires AtRest(s)
    ensures Run(s, Quoted(arg)) == s.(current := arg)
  {
    var open := s.(inQuotes := true);
    var text := open.(current := arg);
    RunConcat(s, [QUOTE] + Escape(arg), [QUOTE]);
    RunConcat(s, [QUOTE], Escape(arg));
    assert Run(s, [QUOTE]) == open;
    EscapedComesBack(open, arg);
    assert [] + arg == arg;
    assert Run(text, [QUOTE]) == text.(inQuotes := false);
  }

  lemma {:induction false} LineComesBack(s: Scan, args: seq<Str>)
    requires AtRest(s)
    ensures Flush(Run(s, QuotedLine(args))) == s.(args := s.args + NonEmpty(args))
    decreases args
  {
    if args == [] {
      assert s.args + [] == s.args;
    } else {
      OneArgument(s, args[0]);
      var s' := Flush(s.(current := args[0]));
      if |args| == 1 {
        assert NonEmpty(args[1..]) == [];
      } else {
        RunConcat(s, Quoted(args[0]) + [SPACE], QuotedLine(args[1..]));
        RunConcat(s, Quoted(args[0]), [SPACE]);
        assert Run(s, Quoted(args[0]) + [SPACE]) == s';
        LineComesBack(s', args[1..]);
      }
      assert s'.args + NonEmpty(args[1..]) == s.args + NonEmpty(args);
    }
  }

  /** Quoting and splitting returns the arguments, in order, without the empty ones. */
  lemma QuoteThenSplit(args: seq<Str>)
    ensures Split(QuotedLine(args)) == NonEmpty(args)
  {
    LineComesBack(FRESH, args);
    assert [] + NonEmpty(args) == NonEmpty(args);
  }

  lemma {:induction false} NonEmptySame(args: seq<Str>)
    ensures NonEmpty(args) == args <==> [] !in args
    ensures |NonEmpty(args)| <= |args|
  {
    if args != [] {
      NonEmptySame(args[1..]);
      assert args == [args[0]] + args[1..];
      if args[0] != [] { assert NonEmpty(args)[1..] == NonEmpty(args[1..]); }
    }
  }

  /** The round trip gives back the same list if and only if no argument is empty. */
  lemma RoundTripExact(args: seq<Str>)
    ensures Split(QuotedLine(args)) == args <==> [] !in args
  {
    QuoteThenSplit(args);
    NonEmptySame(args);
  }

  /** No line yields an empty argument. */
  lemma {:induction false} RunHasNoEmpty(s: Scan, line: Str)
    requires [] !in s.args
    ensures [] !in Run(s, line).args
    decreases line
  {
    if line != [] { RunHasNoEmpty(Step(s, line[0]), line[1..]); }
  }

  lemma SplitHasNoEmpty(line: Str)
    ensures [] !in Split(line)
  {
    RunHasNoEmpty(FRESH, line);
  }

  // ---------- Every way of writing an argument ----------

  /** A byte of an argument as typed: itself, or behind a backslash. */
  datatype Typed = Typed(escaped: bool, c: Byte)

  /** A stretch of an argument, in quotes or not. */
  datatype Stretch = Stretch(quoted: bool, text: seq<Typed>)

  /** An argument and the number of spaces in front of it. */
  datatype Word = Word(gap: nat, stretches: seq<Stretch>)

  /** What a typed byte stands for: behind a backslash n, r and t are line feed, carriage
      return and tab, and every other byte is itself. */
  function ByteMeant(t: Typed): Byte {
    if t.escaped && t.c == 110 then 10
    else if t.escaped && t.c == 114 then 13
    else if t.escaped && t.c == 116 then 9
    else t.c
  }

  function Meant(text: seq<Typed>): Str {
    if text == [] then [] else [ByteMeant(text[0])] + Meant(text[1..])
  }

  function WordMeant(stretches: seq<Stretch>): Str {
    if stretches == [] then [] else Meant(stretches[0].text) + WordMeant(stretches[1..])
  }

  function WordsMeant(words: seq<Word>): seq<Str> {
    if words == [] then [] else [WordMeant(words[0].stretches)] + WordsMeant(words[1..])
  }

  /** The bytes typed. */
  function Keystrokes(text: seq<Typed>): Str {
    if text == [] then []
    else (if text[0].escaped then [92, text[0].c] else [text[0].c]) + Keystrokes(text[1..])
  }

  function StretchBytes(x: Stretch): Str {
    if x.quoted then [34] + Keystrokes(x.text) + [34] else Keystrokes(x.text)
  }

  function WordBytes(stretches: seq<Stretch>): Str {
    if stretches == [] then [] else StretchBytes(stretches[0]) + WordBytes(stretches[1..])
  }

  function Spaces(n: nat): Str { seq(n, _ => 32) }

  function WordsBytes(words: seq<Word>): Str {
    if words == [] then [] else Spaces(words[0].gap) + WordBytes(words[0].stretches) + WordsBytes(words[1..])
  }

  /** Quotes and backslashes need a backslash, and outside quotes so do spaces. */
  predicate Writable(x: Stretch) {
    forall i :: 0 <= i < |x.text| && !x.text[i].escaped ==>
      x.text[i].c != 34 && x.text[i].c != 92 && (x.quoted || x.text[i].c != 32)
  }

  predicate WritableWord(w: Word) { forall i :: 0 <= i < |w.stretches| ==> Writable(w.stretches[i]) }

  lemma {:induction false} TypedText(s: Scan, x: Stretch)
    requires Writable(x) && s.inQuotes == x.quoted && !s.escapeNext
    ensures Run(s, Keystrokes(x.text)) == s.(current := s.current + Meant(x.text))
    decreases |x.text|
  {
    if x.text == [] {
      assert s.current + [] == s.current;
    } else {
      var t := x.text[0];
      var s' := s.(current := s.current + [ByteMeant(t)]);
      var strokes := if t.escaped then [92, t.c] else [t.c];
      TypedByte(s, t);
      RunConcat(s, strokes, Keystrokes(x.text[1..]));
      TypedText(s', x.(text := x.text[1..]));
      Assoc(s.current, [ByteMeant(t)], Meant(x.text[1..]));
    }
  }

  /** One typed byte, inside quotes and outside. */
  lemma {:induction false} TypedByte(s: Scan, t: Typed)
    requires !s.escapeNext && (t.escaped || (t.c != 34 && t.c != 92 && (s.inQuotes || t.c != 32)))
    ensures Run(s, if t.escaped then [92, t.c] else [t.c]) == s.(current := s.current + [ByteMeant(t)])
  {
    if t.escaped {
      assert [92, t.c][1..] == [t.c] && [t.c][1..] == [];
      assert Run(Step(s, 92), [t.c]) == Run(Step(Step(s, 92), t.c), []);
    } else {
      assert [t.c][1..] == [];
      assert Run(s, [t.c]) == Run(Step(s, t.c), []);
    }
  }

  lemma {:induction false} TypedStretch(s: Scan, x: Stretch)
    requires Writable(x) && !s.inQuotes && !s.escapeNext
    ensures Run(s, StretchBytes(x)) == s.(current := s.current + Meant(x.text))
  {
    if x.quoted {
      var open := s.(inQuotes := true);
      RunConcat(s, [34] + Keystrokes(x.text), [34]);
      RunConcat(s, [34], Keystrokes(x.text));
      assert Run(s, [34]) == open;
      TypedText(open, x);
      assert Run(open.(current := s.current + Meant(x.text)), [34]) == s.(current := s.current + Meant(x.text));
    } else {
      TypedText(s, x);
    }
  }

  lemma {:induction false} TypedWord(s: Scan, stretches: seq<Stretch>)
    requires (forall i :: 0 <= i < |stretches| ==> Writable(stretches[i])) && !s.inQuotes && !s.escapeNext
    ensures Run(s, WordBytes(stretches)) == s.(current := s.current + WordMeant(stretches))
    decreases |stretches|
  {
    if stretches == [] {
      assert s.current + [] == s.current;
    } else {
      var m := Meant(stretches[0].text);
      TypedStretch(s, stretches[0]);
      RunConcat(s, StretchBytes(stretches[0]), WordBytes(stretches[1..]));
      TypedWord(s.(current := s.current + m), stretches[1..]);
      Assoc(s.current, m, WordMeant(stretches[1..]));
    }
  }

  lemma {:induction false} TypedSpaces(s: Scan, n: nat)
    requires !s.inQuotes && !s.escapeNext
    ensures Run(s, Spaces(n)) == if n == 0 then s else Flush(s)
    decreases n
  {
    if n > 0 {
      assert Spaces(n)[1..] == Spaces(n - 1);
      TypedSpaces(Flush(s), n - 1);
    }
  }

  lemma {:induction false} TypedWords(s: Scan, words: seq<Word>)
    requires !s.inQuotes && !s.escapeNext && forall i :: 0 <= i < |words| ==> WritableWord(words[i])
    requires words != [] && words[0].gap == 0 ==> s.current == []
    requires forall i :: 1 <= i < |words| ==> words[i].gap > 0
    ensures var r := Run(s, WordsBytes(words));
            && !r.inQuotes && !r.escapeNext
            && Flush(r).args == Flush(s).args + NonEmpty(WordsMeant(words))
    decreases |words|
  {
    if words == [] {
      assert Flush(s).args + [] == Flush(s).args;
    } else {
      var w, m := words[0], WordMeant(words[0].stretches);
      RunConcat(s, Spaces(w.gap) + WordBytes(w.stretches), WordsBytes(words[1..]));
      RunConcat(s, Spaces(w.gap), WordBytes(w.stretches));
      TypedSpaces(s, w.gap);
      TypedWord(Flush(s), w.stretches);
      assert [] + m == m;
      var s' := Flush(s).(current := m);
      TypedWords(s', words[1..]);
      var first := if m == [] then [] else [m];
      assert Flush(s').args == Flush(s).args + first;
      Assoc(Flush(s).args, first, NonEmpty(WordsMeant(words[1..])));
    }
  }

  /** However the arguments are written, with whatever spaces around them, splitting gives
      what was meant, in order, without the empty ones. */
  lemma {:induction false} SplitsWhatIsMeant(words: seq<Word>, trailing: nat)
    requires forall i :: 0 <= i < |words| ==> WritableWord(words[i])
    requires forall i :: 1 <= i < |words| ==> words[i].gap > 0
    ensures Split(WordsBytes(words) + Spaces(trailing)) == NonEmpty(WordsMeant(words))
  {
    TypedWords(FRESH, words);
    RunConcat(FRESH, WordsBytes(words), Spaces(trailing));
    TypedSpaces(Run(FRESH, WordsBytes(words)), trailing);
    assert [] + NonEmpty(WordsMeant(words)) == NonEmpty(WordsMeant(words));
  }

  /** Arguments as they are, one or more spaces between them. */
  function PlainLine(args: seq<Str>, gaps: seq<nat>): Str
    requires |gaps| == |args|
  {
    if args == [] then [] else Spaces(gaps[0]) + args[0] + PlainLine(args[1..], gaps[1..])
  }

  function PlainWords(args: seq<Str>, gaps: seq<nat>): (words: seq<Word>)
    requires |gaps| == |args|
    ensures |words| == |args| && forall i :: 0 <= i < |args| ==> words[i] == Word(gaps[i], [Stretch(false, Plainly(args[i]))])
  {
    if args == [] then []
    else [Word(gaps[0], [Stretch(false, Plainly(args[0]))])] + PlainWords(args[1..], gaps[1..])
  }

  function Plainly(arg: Str): (text: seq<Typed>)
    ensures |text| == |arg| && forall i :: 0 <= i < |arg| ==> text[i] == Typed(false, arg[i])
  {
    if arg == [] then [] else [Typed(false, arg[0])] + Plainly(arg[1..])
  }

  lemma {:induction false} PlainlyTyped(arg: Str)
    ensures Keystrokes(Plainly(arg)) == arg && Meant(Plainly(arg)) == arg
    decreases |arg|
  {
    if arg != [] {
      PlainlyTyped(arg[1..]);
      assert Plainly(arg)[1..] == Plainly(arg[1..]);
      assert arg == [arg[0]] + arg[1..];
    }
  }

  lemma {:induction false} PlainlyMeant(args: seq<Str>, gaps: seq<nat>)
    requires |gaps| == |args|
    ensures WordsBytes(PlainWords(args, gaps)) == PlainLine(args, gaps) && WordsMeant(PlainWords(args, gaps)) == args
    decreases |args|
  {
    if args != [] {
      PlainlyMeant(args[1..], gaps[1..]);
      PlainlyTyped(args[0]);
      var x := Stretch(false, Plainly(args[0]));
      assert PlainWords(args, gaps)[1..] == PlainWords(args[1..], gaps[1..]);
      assert WordBytes([x]) == args[0] && WordMeant([x]) == args[0] by {
        assert [x][1..] == [] && args[0] + [] == args[0];
      }
      assert args == [args[0]] + args[1..];
    }
  }

  /** Non-empty arguments without space, quote or backslash come back from a line that
      has them side by side, any positive number of spaces apart. */
  lemma {:induction false} PlainComesBack(args: seq<Str>, gaps: seq<nat>, trailing: nat)
    requires |gaps| == |args| && forall i :: 1 <= i < |args| ==> gaps[i] > 0
    requires forall a :: a in args ==> a != [] && 32 !in a && 34 !in a && 92 !in a
    ensures Split(PlainLine(args, gaps) + Spaces(trailing)) == args
  {
    PlainlyMeant(args, gaps);
    forall i | 0 <= i < |args| ensures WritableWord(PlainWords(args, gaps)[i]) {
      assert args[i] in args;
    }
    SplitsWhatIsMeant(PlainWords(args, gaps), trailing);
    NonEmptySame(args);
  }

  /** A line that ends inside quotes counts as closed, and a backslash at the very end as not typed. */
  lemma {:induction false} OpenEnd(line: Str)
    requires !Run(FRESH, line).escapeNext
    ensures Split(line + [92]) == Split(line)
    ensures Run(FRESH, line).inQuotes ==> Split(line + [34]) == Split(line)
  {
    RunConcat(FRESH, line, [92]);
    RunConcat(FRESH, line, [34]);
    assert Run(Run(FRESH, line), [92]) == Step(Run(FRESH, line), 92);
    assert Run(Run(FRESH, line), [34]) == Step(Run(FRESH, line), 34);
  }
}
