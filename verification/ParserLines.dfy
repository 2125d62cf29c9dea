/**
 What the shell parser (parser-for-shell-noodlez102/myshell_parser.c) makes of lines, character by character: which
 characters separate, which have a meaning of their own, and that a line may end in a newline.
 */
module ParserLines {
  import opened Wrappers
  import opened ParserTokens
  import opened ParserGrammar
  import opened ParserRoundTrip

  // ---------------------------------------------------------------------------------------------
  // Whitespace
  // ---------------------------------------------------------------------------------------------

  /** Two lines that differ in nothing but which whitespace character stands where. */
  predicate Alike(a: string, b: string) {
    && |a| == |b|
    && forall i :: 0 <= i < |a| ==> a[i] == b[i] || (IsSpace(a[i]) && IsSpace(b[i]))
  }

  lemma {:induction false} SpansAlike(a: string, b: string)
    requires Alike(a, b)
    ensures SpaceSpan(a) == SpaceSpan(b)
    ensures WordSpan(a) == WordSpan(b) && a[..WordSpan(a)] == b[..WordSpan(b)]
  {
    if a != "" {
      assert a[0] == b[0] || (IsSpace(a[0]) && IsSpace(b[0]));
      SpansAlike(a[1..], b[1..]);
      if IsWordChar(a[0]) {
        var n := WordSpan(a[1..]);
        assert a[..n + 1] == [a[0]] + a[1..][..n] && b[..n + 1] == [b[0]] + b[1..][..n];
      }
    }
  }

  lemma {:induction false} LexAlike(a: string, b: string)
    requires Alike(a, b)
    ensures Lex(a) == Lex(b)
    decreases |a|
  {
    SpansAlike(a, b);
    var a', b' := a[SpaceSpan(a)..], b[SpaceSpan(b)..];
    assert Alike(a', b');
    if a' != "" {
      SpansAlike(a', b');
      assert a'[0] == b'[0];
      LexAlike(a'[FirstLength(a')..], b'[FirstLength(b')..]);
    }
  }

  /** A newline, a tab and a blank mean the same wherever they stand in a line. */
  lemma BlanksAreAlike(before: string, c: char, d: char, after: string)
    requires c in "\n\t " && d in "\n\t "
    ensures Build(before + [c] + after) == Build(before + [d] + after)
  {
    LexAlike(before + [c] + after, before + [d] + after);
  }

  /** A whitespace character at the end of a line makes no token. */
  lemma {:induction false} LexEnd(s: string, c: char)
    requires IsSpace(c)
    ensures Lex(s + [c]) == Lex(s)
    decreases |s|
  {
    var n := SpaceSpan(s);
    var rest := s[n..];
    SpaceSpanSkipsSpace(s);
    if rest == "" {
      assert s[..n] == s && (s + [c]) + "" == s + [c];
      SpaceSpanOfSplit(s + [c], "");
    } else {
      var tail := rest[FirstLength(rest)..];
      assert s + [c] == s[..n] + (rest + [c]);
      SpaceSpanOfSplit(s[..n], rest + [c]);
      assert (s + [c])[n..] == rest + [c];
      FirstEnd(rest, c);
      LexEnd(tail, c);
    }
  }

  /** The first token of a text does not depend on a whitespace character at its end. */
  lemma FirstEnd(rest: string, c: char)
    requires IsSpace(c) && rest != "" && !IsSpace(rest[0])
    ensures FirstToken(rest + [c]) == FirstToken(rest) && FirstLength(rest + [c]) == FirstLength(rest)
    ensures (rest + [c])[FirstLength(rest + [c])..] == rest[FirstLength(rest)..] + [c]
  {
    var w := WordSpan(rest);
    WordSpanTakesWord(rest);
    assert rest + [c] == rest[..w] + (rest[w..] + [c]);
    WordSpanOfSplit(rest[..w], rest[w..] + [c]);
  }

  lemma LexStart(s: string, c: char)
    requires IsSpace(c)
    ensures Lex([c] + s) == Lex(s)
  {
    var s' := [c] + s;
    assert s'[1..] == s;
    var n := SpaceSpan(s);
    assert SpaceSpan(s') == 1 + n && s'[n + 1..] == s[n..];
  }

  /** A line means the same with a newline, a tab or a blank after it, or before it. */
  lemma EndsDoNotMatter(line: string, c: char)
    requires c in "\n\t "
    ensures Build(line + [c]) == Build(line) && Build([c] + line) == Build(line)
  {
    LexEnd(line, c);
    LexStart(line, c);
  }

  // ---------------------------------------------------------------------------------------------
  // Shell lines
  // ---------------------------------------------------------------------------------------------

  /** A word of 1 to 32 characters, none of them a separator or one of the four with a meaning of their own. */
  predicate ShellWord(w: string) {
    1 <= |w| <= 32 && forall i :: 0 <= i < |w| ==> w[i] !in "\n\t <>|&\0"
  }

  predicate ShellCommand(c: Command) {
    && (forall i :: 0 <= i < |c.args| ==> ShellWord(c.args[i]))
    && (c.redirectIn.Some? ==> ShellWord(c.redirectIn.value))
    && (c.redirectOut.Some? ==> ShellWord(c.redirectOut.value))
    && (c.args == [] ==> c.redirectIn.None? && c.redirectOut.None?)
  }

  predicate ShellPipeline(p: Pipeline) {
    && p.commands != []
    && (forall i :: 0 <= i < |p.commands| ==> ShellCommand(p.commands[i]))
    && (forall i :: 0 <= i < |p.commands| - 1 ==> p.commands[i].args != [])
  }

  function ArgsLine(ws: seq<string>): string {
    if ws == [] then "" else " " + ws[0] + ArgsLine(ws[1..])
  }

  function CommandLine(c: Command): string {
    ArgsLine(c.args)
    + (if c.redirectIn.Some? then " < " + c.redirectIn.value else "")
    + (if c.redirectOut.Some? then " > " + c.redirectOut.value else "")
  }

  /** Commands, each after a bar. */
  function PipedLine(cs: seq<Command>): string {
    if cs == [] then "" else " |" + CommandLine(cs[0]) + PipedLine(cs[1..])
  }

  /** A pipeline as it is typed. */
  function ShellLine(p: Pipeline): string
    requires p.commands != []
  {
    CommandLine(p.commands[0]) + PipedLine(p.commands[1..]) + (if p.isBackground then " &" else "")
  }

  lemma ShellIsWellFormed(p: Pipeline)
    ensures ShellPipeline(p) <==> WellFormed(p)
  {
    forall w: string
      ensures ShellWord(w) <==> LegalWord(w)
    {
      WordIsLegal(w);
    }
    assert forall c :: ShellCommand(c) <==> WellFormedCommand(c);
  }

  lemma WordIsLegal(w: string)
    ensures ShellWord(w) <==> LegalWord(w)
  {
    assert LegalWord(w) ==> forall i :: 0 <= i < |w| ==> IsWordChar(w[i]);
  }

  /** Tokens with a blank before each. */
  function Spaced(ts: seq<Token>): string {
    if ts == [] then "" else " " + Text(ts[0]) + Spaced(ts[1..])
  }

  lemma {:induction false} SpacedConcat(a: seq<Token>, b: seq<Token>)
    ensures Spaced(a + b) == Spaced(a) + Spaced(b)
  {
    if a == [] {
      assert a + b == b;
    } else {
      assert (a + b)[1..] == a[1..] + b;
      SpacedConcat(a[1..], b);
    }
  }

  lemma {:induction false} SpacedIsLayout(ts: seq<Token>)
    ensures Spaced(ts) == Layout(ts, Spaces(|ts|) + [""])
  {
    if ts != [] {
      SpacedIsLayout(ts[1..]);
      assert (Spaces(|ts|) + [""])[1..] == Spaces(|ts[1..]|) + [""];
    }
  }

  lemma {:induction false} ArgsSpaced(ws: seq<string>)
    ensures ArgsLine(ws) == Spaced(WordTokens(ws))
  {
    if ws != [] {
      ArgsSpaced(ws[1..]);
      assert WordTokens(ws)[1..] == WordTokens(ws[1..]);
    }
  }

  lemma SpacedIn(path: string)
    ensures Spaced([LeftAngle, Word(path)]) == " < " + path
  {
    var ts := [Word(path)];
    assert ts[1..] == [] && [LeftAngle, Word(path)][1..] == ts;
    assert Spaced(ts) == " " + path;
    assert " <" + (" " + path) == " < " + path;
  }

  lemma SpacedOut(path: string)
    ensures Spaced([RightAngle, Word(path)]) == " > " + path
  {
    var ts := [Word(path)];
    assert ts[1..] == [] && [RightAngle, Word(path)][1..] == ts;
    assert Spaced(ts) == " " + path;
    assert " >" + (" " + path) == " > " + path;
  }

  lemma CommandSpaced(c: Command)
    ensures CommandLine(c) == Spaced(CommandTokens(CanonicalCommand(c)))
  {
    var s := CanonicalCommand(c);
    ArgsSpaced(c.args);
    SpacedConcat(WordTokens(c.args), RedirectTokens(s.pairs, s.tail));
    RedirectsSpaced(c);
  }

  lemma RedirectsSpaced(c: Command)
    ensures var s := CanonicalCommand(c);
      Spaced(RedirectTokens(s.pairs, s.tail)) ==
        (if c.redirectIn.Some? then " < " + c.redirectIn.value else "")
        + (if c.redirectOut.Some? then " > " + c.redirectOut.value else "")
  {
    var s := CanonicalCommand(c);
    SpacedConcat(PairTokens(s.pairs), TailTokens(s.tail));
    match (c.redirectIn, c.redirectOut)
    case (None, None) =>
    case (Some(i), None) => SpacedIn(i);
    case (None, Some(o)) => SpacedOut(o);
    case (Some(i), Some(o)) => BothSpaced(i, o);
  }

  lemma BothSpaced(i: string, o: string)
    ensures Spaced(PairTokens([(i, o)])) == " < " + i + " > " + o
  {
    var left, right := [LeftAngle, Word(i)], [RightAngle, Word(o)];
    SpacedIn(i);
    SpacedOut(o);
    assert PairTokens([(i, o)]) == left + right;
    SpacedConcat(left, right);
    Concat3(" < " + i, " > ", o);
  }

  lemma {:induction false} PipedSpaced(cs: seq<Command>)
    ensures PipedLine(cs) == Spaced(PipedTokens(CanonicalCommands(cs)))
    decreases |cs|
  {
    if cs != [] {
      var first, rest := CommandTokens(CanonicalCommand(cs[0])), PipedTokens(CanonicalCommands(cs[1..]));
      CommandSpaced(cs[0]);
      PipedSpaced(cs[1..]);
      assert CanonicalCommands(cs)[1..] == CanonicalCommands(cs[1..]);
      SpacedConcat([Pipe] + first, rest);
      SpacedConcat([Pipe], first);
      assert [Pipe][1..] == [];
    }
  }

  lemma EndSpaced(background: bool)
    ensures Spaced(EndTokens(background)) == if background then " &" else ""
  {
    assert [Ampersand][1..] == [];
  }

  lemma LineSpaced(p: Pipeline)
    requires p.commands != []
    ensures ShellLine(p) == Spaced(PrintTokens(p))
  {
    var cs, end := p.commands, EndTokens(p.isBackground);
    var first, rest := CommandTokens(CanonicalCommand(cs[0])), PipedTokens(CanonicalCommands(cs[1..]));
    CommandSpaced(cs[0]);
    PipedSpaced(cs[1..]);
    EndSpaced(p.isBackground);
    assert PrintTokens(p) == first + (rest + end) by {
      assert CanonicalCommands(cs)[1..] == CanonicalCommands(cs[1..]);
    }
    SpacedConcat(first, rest + end);
    SpacedConcat(rest, end);
    Concat3(Spaced(first), Spaced(rest), Spaced(end));
  }

  /** A pipeline as it is typed, newline and all, is parsed to that pipeline. */
  lemma ShellLineIsParsed(p: Pipeline)
    requires ShellPipeline(p)
    ensures Build(ShellLine(p)) == Some(p) && Build(ShellLine(p) + "\n") == Some(p)
  {
    var ts := PrintTokens(p);
    var gaps := Spaces(|ts|) + [""];
    ShellIsWellFormed(p);
    LineSpaced(p);
    SpacedIsLayout(ts);
    assert LegalGaps(ts, gaps);
    RoundTrip(p, gaps);
    EndsDoNotMatter(ShellLine(p), '\n');
  }
}
