/**
 What the shell parser promises about whole lines: printing then parsing gives the pipeline back, whatever legal
 whitespace is used; parsing gives exactly the well-formed pipelines; and the argument array is large enough.
 */
module ParserRoundTrip {
  import opened Wrappers
  import opened ParserTokens
  import opened ParserGrammar

  const MAX_LINE_LENGTH := 512
  const MAX_ARGV_LENGTH := MAX_LINE_LENGTH / 2 + 1

  // ---------------------------------------------------------------------------------------------
  // Legal words in syntax trees and in token sequences
  // ---------------------------------------------------------------------------------------------

  predicate LegalText(w: string) {
    LegalToken(Word(w))
  }

  predicate LegalTexts(ws: seq<string>) {
    forall i :: 0 <= i < |ws| ==> LegalText(ws[i])
  }

  predicate LegalPairTexts(ps: seq<(string, string)>) {
    forall i :: 0 <= i < |ps| ==> LegalText(ps[i].0) && LegalText(ps[i].1)
  }

  predicate CleanCommand(c: CommandSyntax) {
    LegalTexts(c.args) && LegalPairTexts(c.pairs) && (c.tail != NoTail ==> LegalText(c.tail.path))
  }

  predicate CleanCommands(cs: seq<CommandSyntax>) {
    forall i :: 0 <= i < |cs| ==> CleanCommand(cs[i])
  }

  lemma LegalConcat(a: seq<Token>, b: seq<Token>)
    ensures LegalTokens(a + b) <==> LegalTokens(a) && LegalTokens(b)
  {
    var c := a + b;
    assert forall i :: 0 <= i < |a| ==> c[i] == a[i];
    assert forall i :: 0 <= i < |b| ==> c[|a| + i] == b[i];
  }

  lemma {:induction false} LegalWordTokens(ws: seq<string>)
    ensures LegalTokens(WordTokens(ws)) <==> LegalTexts(ws)
  {
    if ws != [] {
      LegalWordTokens(ws[1..]);
      LegalConcat([Word(ws[0])], WordTokens(ws[1..]));
      assert LegalTokens([Word(ws[0])]) <==> LegalToken([Word(ws[0])][0]);
      assert ws == [ws[0]] + ws[1..];
    }
  }

  lemma LegalPair(p: (string, string))
    ensures LegalTokens([LeftAngle, Word(p.0), RightAngle, Word(p.1)]) <==> LegalText(p.0) && LegalText(p.1)
  {
    var ts := [LeftAngle, Word(p.0), RightAngle, Word(p.1)];
    assert LegalTokens(ts) ==> LegalToken(ts[1]) && LegalToken(ts[3]);
  }

  lemma {:induction false} LegalPairTokens(ps: seq<(string, string)>)
    ensures LegalTokens(PairTokens(ps)) <==> LegalPairTexts(ps)
  {
    if ps != [] {
      LegalPairTokens(ps[1..]);
      LegalPair(ps[0]);
      LegalConcat([LeftAngle, Word(ps[0].0), RightAngle, Word(ps[0].1)], PairTokens(ps[1..]));
      assert ps == [ps[0]] + ps[1..];
    }
  }

  lemma LegalCommandTokens(c: CommandSyntax)
    ensures LegalTokens(CommandTokens(c)) <==> CleanCommand(c)
  {
    LegalWordTokens(c.args);
    LegalPairTokens(c.pairs);
    LegalConcat(PairTokens(c.pairs), TailTokens(c.tail));
    LegalConcat(WordTokens(c.args), RedirectTokens(c.pairs, c.tail));
    var tail := TailTokens(c.tail);
    assert c.tail != NoTail ==> tail[1] == Word(c.tail.path);
  }

  lemma {:induction false} LegalPipedTokens(cs: seq<CommandSyntax>)
    ensures LegalTokens(PipedTokens(cs)) <==> CleanCommands(cs)
  {
    if cs != [] {
      LegalPipedTokens(cs[1..]);
      LegalCommandTokens(cs[0]);
      LegalConcat([Pipe], CommandTokens(cs[0]));
      LegalConcat([Pipe] + CommandTokens(cs[0]), PipedTokens(cs[1..]));
      assert cs == [cs[0]] + cs[1..];
    }
  }

  lemma LegalLineTokens(l: LineSyntax)
    requires l.commands != []
    ensures LegalTokens(LineTokens(l)) <==> CleanCommands(l.commands)
  {
    var cs := l.commands;
    LegalCommandTokens(cs[0]);
    LegalPipedTokens(cs[1..]);
    LegalConcat(PipedTokens(cs[1..]), EndTokens(l.background));
    LegalConcat(CommandTokens(cs[0]), PipedTokens(cs[1..]) + EndTokens(l.background));
    assert cs == [cs[0]] + cs[1..];
  }

  // ---------------------------------------------------------------------------------------------
  // Round trip
  // ---------------------------------------------------------------------------------------------

  predicate LegalWord(w: string) {
    LegalText(w) && |w| <= MAX_WORD_LENGTH
  }

  predicate WellFormedCommand(c: Command) {
    && (forall i :: 0 <= i < |c.args| ==> LegalWord(c.args[i]))
    && (c.redirectIn.Some? ==> LegalWord(c.redirectIn.value))
    && (c.redirectOut.Some? ==> LegalWord(c.redirectOut.value))
    && (c.args == [] ==> c.redirectIn.None? && c.redirectOut.None?)
  }

  /** Nonempty commands of legal words; only the last command may be empty, and then it has no redirects. */
  predicate WellFormed(p: Pipeline) {
    && p.commands != []
    && (forall i :: 0 <= i < |p.commands| ==> WellFormedCommand(p.commands[i]))
    && (forall i :: 0 <= i < |p.commands| - 1 ==> p.commands[i].args != [])
  }

  /** How the printer writes a command: the arguments, then `<`, then `>`. */
  function CanonicalCommand(c: Command): CommandSyntax {
    match (c.redirectIn, c.redirectOut)
    case (None, None) => CommandSyntax(c.args, [], NoTail)
    case (Some(i), None) => CommandSyntax(c.args, [], InTail(i))
    case (None, Some(o)) => CommandSyntax(c.args, [], OutTail(o))
    case (Some(i), Some(o)) => CommandSyntax(c.args, [(i, o)], NoTail)
  }

  function CanonicalCommands(cs: seq<Command>): (r: seq<CommandSyntax>)
    ensures |r| == |cs|
    ensures forall i :: 0 <= i < |cs| ==> r[i] == CanonicalCommand(cs[i])
  {
    if cs == [] then [] else [CanonicalCommand(cs[0])] + CanonicalCommands(cs[1..])
  }

  function Canonical(p: Pipeline): LineSyntax {
    LineSyntax(CanonicalCommands(p.commands), p.isBackground)
  }

  /** The canonical printer: the tokens of a pipeline. */
  function PrintTokens(p: Pipeline): seq<Token>
    requires p.commands != []
  {
    LineTokens(Canonical(p))
  }

  lemma CanonicalIsLegal(p: Pipeline)
    requires WellFormed(p)
    ensures LegalLine(Canonical(p)) && CleanCommands(Canonical(p).commands)
    ensures Meaning(Canonical(p)) == p
  {
    var cs := CanonicalCommands(p.commands);
    forall i | 0 <= i < |cs|
      ensures LegalCommand(cs[i]) && CleanCommand(cs[i]) && CommandMeaning(cs[i]) == p.commands[i]
    {
      CanonicalCommandIsLegal(p.commands[i]);
    }
    assert CommandMeanings(cs) == p.commands;
  }

  lemma CanonicalCommandIsLegal(c: Command)
    requires WellFormedCommand(c)
    ensures var s := CanonicalCommand(c); LegalCommand(s) && CleanCommand(s) && CommandMeaning(s) == c
  {}

  /** Printing a well-formed pipeline with any legal whitespace and parsing the line gives the pipeline back. */
  lemma RoundTrip(p: Pipeline, gaps: seq<string>)
    requires WellFormed(p)
    requires LegalGaps(PrintTokens(p), gaps)
    ensures IsLine(Layout(PrintTokens(p), gaps)) && Build(Layout(PrintTokens(p), gaps)) == Some(p)
  {
    CanonicalIsLegal(p);
    LegalLineTokens(Canonical(p));
    LayoutIsLine(PrintTokens(p), gaps);
    LexOfLayout(PrintTokens(p), gaps);
    ParseComplete(Canonical(p));
  }

  /** Every pipeline the parser builds is well formed. */
  lemma BuildIsWellFormed(line: string)
    requires IsLine(line) && Build(line).Some?
    ensures WellFormed(Build(line).value)
  {
    LayoutOfLex(line);
    var l := ParseSound(Lex(line));
    LegalLineTokens(l);
    MeaningIsWellFormed(l);
  }

  lemma MeaningIsWellFormed(l: LineSyntax)
    requires LegalLine(l) && CleanCommands(l.commands)
    ensures WellFormed(Meaning(l))
  {
    var p := Meaning(l);
    forall i | 0 <= i < |p.commands|
      ensures WellFormedCommand(p.commands[i])
    {
      CommandIsWellFormed(l.commands[i]);
    }
  }

  lemma CommandIsWellFormed(c: CommandSyntax)
    requires LegalCommand(c) && CleanCommand(c)
    ensures WellFormedCommand(CommandMeaning(c))
  {
    assert forall j :: 0 <= j < |c.args| ==> LegalText(c.args[j]);
  }

  function Spaces(n: nat): seq<string> {
    seq(n, i => " ")
  }

  /** The parser builds exactly the well-formed pipelines. */
  lemma Image(p: Pipeline)
    ensures (exists line :: IsLine(line) && Build(line) == Some(p)) <==> WellFormed(p)
  {
    if WellFormed(p) {
      var ts := PrintTokens(p);
      RoundTrip(p, Spaces(|ts| + 1));
    }
    forall line | IsLine(line) && Build(line) == Some(p)
      ensures WellFormed(p)
    {
      BuildIsWellFormed(line);
    }
  }

  /** Printing what was built and parsing it again gives the same pipeline, repeated redirects included. */
  lemma Idempotent(line: string, p: Pipeline)
    requires IsLine(line) && Build(line) == Some(p)
    ensures WellFormed(p)
    ensures forall gaps :: LegalGaps(PrintTokens(p), gaps) ==> Build(Layout(PrintTokens(p), gaps)) == Some(p)
  {
    BuildIsWellFormed(line);
    forall gaps | LegalGaps(PrintTokens(p), gaps)
      ensures Build(Layout(PrintTokens(p), gaps)) == Some(p)
    {
      RoundTrip(p, gaps);
    }
  }

  // ---------------------------------------------------------------------------------------------
  // Counting
  // ---------------------------------------------------------------------------------------------

  function PipeCount(ts: seq<Token>): nat {
    if ts == [] then 0 else (if ts[0] == Pipe then 1 else 0) + PipeCount(ts[1..])
  }

  lemma {:induction false} PipeCountConcat(a: seq<Token>, b: seq<Token>)
    ensures PipeCount(a + b) == PipeCount(a) + PipeCount(b)
  {
    if a == [] {
      assert a + b == b;
    } else {
      assert (a + b)[1..] == a[1..] + b;
      PipeCountConcat(a[1..], b);
    }
  }

  lemma {:induction false} NoPipes(ts: seq<Token>)
    requires Pipe !in ts
    ensures PipeCount(ts) == 0
  {
    if ts != [] {
      NoPipes(ts[1..]);
    }
  }

  lemma {:induction false} NoPipesInWords(ws: seq<string>)
    ensures PipeCount(WordTokens(ws)) == 0
  {
    if ws != [] {
      NoPipesInWords(ws[1..]);
      assert WordTokens(ws)[1..] == WordTokens(ws[1..]);
    }
  }

  lemma {:induction false} NoPipesInPairs(ps: seq<(string, string)>)
    ensures PipeCount(PairTokens(ps)) == 0
  {
    if ps != [] {
      NoPipesInPairs(ps[1..]);
      var pair := [LeftAngle, Word(ps[0].0), RightAngle, Word(ps[0].1)];
      NoPipes(pair);
      PipeCountConcat(pair, PairTokens(ps[1..]));
    }
  }

  lemma NoPipesInCommand(c: CommandSyntax)
    ensures PipeCount(CommandTokens(c)) == 0
  {
    NoPipesInWords(c.args);
    NoPipesInPairs(c.pairs);
    NoPipes(TailTokens(c.tail));
    PipeCountConcat(PairTokens(c.pairs), TailTokens(c.tail));
    PipeCountConcat(WordTokens(c.args), RedirectTokens(c.pairs, c.tail));
  }

  lemma {:induction false} PipesInPiped(cs: seq<CommandSyntax>)
    ensures PipeCount(PipedTokens(cs)) == |cs|
  {
    if cs != [] {
      PipesInPiped(cs[1..]);
      NoPipesInCommand(cs[0]);
      PipeCountConcat([Pipe], CommandTokens(cs[0]));
      PipeCountConcat([Pipe] + CommandTokens(cs[0]), PipedTokens(cs[1..]));
    }
  }

  /** The list of an accepted line has one command more than the line has pipes. */
  lemma ListLength(line: string)
    requires Build(line).Some?
    ensures |Build(line).value.commands| == PipeCount(Lex(line)) + 1
  {
    var l := ParseSound(Lex(line));
    NoPipesInCommand(l.commands[0]);
    PipesInPiped(l.commands[1..]);
    PipeCountConcat(PipedTokens(l.commands[1..]), EndTokens(l.background));
    PipeCountConcat(CommandTokens(l.commands[0]), PipedTokens(l.commands[1..]) + EndTokens(l.background));
  }

  /** The number of words parse_args would store from here. */
  function ArgRun(ts: seq<Token>): nat {
    if ts == [] || !ShortWord(ts[0]) then 0 else 1 + ArgRun(ts[1..])
  }

  /** The words of an argument list that starts at token `i`, and the terminator, fit in `command_args`. */
  predicate RunFits(ts: seq<Token>, i: nat)
    requires i <= |ts|
  {
    ArgRun(ts[i..]) < MAX_ARGV_LENGTH
  }

  predicate ArgsFit(ts: seq<Token>) {
    forall i: nat :: i <= |ts| ==> RunFits(ts, i)
  }

  lemma ArgRunStep(t: Token, ts: seq<Token>)
    requires ShortWord(t)
    ensures ArgRun([t] + ts) == 1 + ArgRun(ts)
  {
    assert ([t] + ts)[1..] == ts;
  }

  /** n words need at least 2n - 1 characters. */
  lemma {:induction false} RunNeedsRoom(s: string)
    ensures ArgRun(Lex(s)) > 0 ==> |s| - SpaceSpan(s) >= 2 * ArgRun(Lex(s)) - 1
    decreases |s|
  {
    var rest := s[SpaceSpan(s)..];
    if rest != "" && ShortWord(FirstToken(rest)) {
      var tail := rest[FirstLength(rest)..];
      assert Lex(s) == [FirstToken(rest)] + Lex(tail);
      ArgRunStep(FirstToken(rest), Lex(tail));
      RunNeedsRoom(tail);
      if ArgRun(Lex(tail)) > 0 {
        WordFollowsSpace(tail);
        assert SpaceSpan(tail) > 0;
      }
    }
  }

  lemma LexUnfold(s: string) returns (rest: string)
    requires Lex(s) != []
    ensures |rest| < |s| && Lex(s)[1..] == Lex(rest)
  {
    var trimmed := s[SpaceSpan(s)..];
    rest := trimmed[FirstLength(trimmed)..];
  }

  lemma DropOneMore<T>(ts: seq<T>, us: seq<T>, i: nat)
    requires 0 < i <= |ts| && ts[1..] == us
    ensures ts[i..] == us[i - 1..]
  {}

  /** The tokens that remain after the first `i` are the tokens of a text no longer than the line. */
  lemma {:induction false} LexSuffix(s: string, i: nat) returns (rest: string)
    requires i <= |Lex(s)|
    ensures |rest| <= |s| && Lex(rest) == Lex(s)[i..]
    decreases i
  {
    rest := s;
    if i > 0 {
      var tail := LexUnfold(s);
      rest := LexSuffix(tail, i - 1);
      DropOneMore(Lex(s), Lex(tail), i);
    }
  }

  lemma RunBound(s: string)
    requires |s| <= MAX_LINE_LENGTH
    ensures ArgRun(Lex(s)) < MAX_ARGV_LENGTH
  {
    RunNeedsRoom(s);
    AtMostHalf(ArgRun(Lex(s)), |s|);
  }

  lemma AtMostHalf(run: nat, length: nat)
    requires run > 0 ==> length >= 2 * run - 1
    requires length <= MAX_LINE_LENGTH
    ensures run < MAX_ARGV_LENGTH
  {}

  /** On a line of at most MAX_LINE_LENGTH characters no argument list overflows `command_args`. */
  lemma ArgumentBound(line: string)
    requires |line| <= MAX_LINE_LENGTH
    ensures ArgsFit(Lex(line))
  {
    forall i: nat | i <= |Lex(line)|
      ensures RunFits(Lex(line), i)
    {
      var rest := LexSuffix(line, i);
      RunBound(rest);
    }
  }

  lemma {:induction false} RunIsShort(ts: seq<Token>)
    ensures ArgRun(ts) <= |ts|
  {
    if ts != [] && ShortWord(ts[0]) {
      RunIsShort(ts[1..]);
    }
  }

  lemma {:induction false} RunStops(a: seq<Token>, b: seq<Token>)
    requires b == [] || !b[0].Word?
    ensures ArgRun(a + b) == ArgRun(a)
  {
    if a == [] {
      assert a + b == b;
    } else {
      assert (a + b)[1..] == a[1..] + b;
      RunStops(a[1..], b);
    }
  }

  /** A run of words does not go on into a part that starts with another token. */
  lemma FitsConcat(a: seq<Token>, b: seq<Token>)
    requires ArgsFit(a) && ArgsFit(b) && (b == [] || !b[0].Word?)
    ensures ArgsFit(a + b)
  {
    forall i: nat | i <= |a + b|
      ensures RunFits(a + b, i)
    {
      if i < |a| {
        assert (a + b)[i..] == a[i..] + b;
        RunStops(a[i..], b);
        assert RunFits(a, i);
      } else {
        assert (a + b)[i..] == b[i - |a|..];
        assert RunFits(b, i - |a|);
      }
    }
  }

  lemma ShortFits(ts: seq<Token>)
    requires |ts| < MAX_ARGV_LENGTH
    ensures ArgsFit(ts)
  {
    forall i: nat | i <= |ts|
      ensures RunFits(ts, i)
    {
      RunIsShort(ts[i..]);
    }
  }

  lemma {:induction false} WordTokensLength(ws: seq<string>)
    ensures |WordTokens(ws)| == |ws|
  {
    if ws != [] {
      WordTokensLength(ws[1..]);
    }
  }

  lemma CommandFits(c: Command)
    requires |c.args| < MAX_ARGV_LENGTH
    ensures ArgsFit(CommandTokens(CanonicalCommand(c)))
  {
    var s := CanonicalCommand(c);
    WordTokensLength(c.args);
    ShortFits(WordTokens(c.args));
    assert |PairTokens(s.pairs)| <= 4 by {
      assert s.pairs != [] ==> PairTokens(s.pairs[1..]) == [];
    }
    ShortFits(RedirectTokens(s.pairs, s.tail));
    FitsConcat(WordTokens(c.args), RedirectTokens(s.pairs, s.tail));
  }

  lemma {:induction false} PipedFits(cs: seq<Command>)
    requires forall i :: 0 <= i < |cs| ==> |cs[i].args| < MAX_ARGV_LENGTH
    ensures ArgsFit(PipedTokens(CanonicalCommands(cs)))
    decreases |cs|
  {
    if cs == [] {
      ShortFits([]);
    } else {
      var first, rest := CommandTokens(CanonicalCommand(cs[0])), PipedTokens(CanonicalCommands(cs[1..]));
      CommandFits(cs[0]);
      PipedFits(cs[1..]);
      FitsConcat(first, rest);
      PipeFits(first + rest);
      Concat3([Pipe], first, rest);
      assert CanonicalCommands(cs)[1..] == CanonicalCommands(cs[1..]);
    }
  }

  lemma PipeFits(ts: seq<Token>)
    requires ArgsFit(ts)
    ensures ArgsFit([Pipe] + ts)
  {
    forall i: nat | i <= |[Pipe] + ts|
      ensures RunFits([Pipe] + ts, i)
    {
      if i > 0 {
        assert ([Pipe] + ts)[i..] == ts[i - 1..];
        assert RunFits(ts, i - 1);
      }
    }
  }

  /**
   What is printed from a pipeline of commands with at most MAX_ARGV_LENGTH - 1 arguments has argument lists that fit,
   so that pipeline_build takes it back whatever the length of the line.
   */
  lemma PrintedFits(p: Pipeline, gaps: seq<string>)
    requires WellFormed(p) && LegalGaps(PrintTokens(p), gaps)
    requires forall i :: 0 <= i < |p.commands| ==> |p.commands[i].args| < MAX_ARGV_LENGTH
    ensures ArgsFit(Lex(Layout(PrintTokens(p), gaps)))
  {
    CanonicalIsLegal(p);
    LegalLineTokens(Canonical(p));
    LexOfLayout(PrintTokens(p), gaps);
    var cs := p.commands;
    var first, rest := CommandTokens(CanonicalCommand(cs[0])), PipedTokens(CanonicalCommands(cs[1..]));
    CommandFits(cs[0]);
    PipedFits(cs[1..]);
    ShortFits(EndTokens(p.isBackground));
    FitsConcat(rest, EndTokens(p.isBackground));
    FitsConcat(first, rest + EndTokens(p.isBackground));
    assert CanonicalCommands(cs)[1..] == CanonicalCommands(cs[1..]);
  }

  /** A line of `n` one-letter words with single blanks between them. */
  function OneLetterWords(n: nat): (s: string)
    requires n > 0
    ensures |s| == 2 * n - 1 && s[0] == 'a' && IsLine(s)
  {
    if n == 1 then "a" else "a " + OneLetterWords(n - 1)
  }

  /** The last word of the line, and a word with a blank after it. */
  lemma LexLetter(rest: string)
    requires rest == "" || rest[0] == ' '
    ensures Lex("a" + rest) == [Word("a")] + Lex(rest)
  {
    assert "" + Text(Word("a")) + rest == "a" + rest;
    LexStep("", Word("a"), rest);
  }

  lemma {:induction false} OneLetterRun(n: nat)
    requires n > 0
    ensures ArgRun(Lex(OneLetterWords(n))) == n
  {
    if n == 1 {
      LexLetter("");
      assert "a" + "" == "a";
      ArgRunStep(Word("a"), Lex(""));
    } else {
      OneLetterRun(n - 1);
      LetterBefore(OneLetterWords(n - 1));
    }
  }

  lemma LetterBefore(tail: string)
    requires tail != "" && !IsSpace(tail[0])
    ensures ArgRun(Lex("a " + tail)) == 1 + ArgRun(Lex(tail))
  {
    LexLetter(" " + tail);
    assert "a" + (" " + tail) == "a " + tail;
    SkipBlank(tail);
    ArgRunStep(Word("a"), Lex(tail));
  }

  lemma SkipBlank(s: string)
    requires s != "" && !IsSpace(s[0])
    ensures Lex(" " + s) == Lex(s)
  {
    SpaceSpanOfSplit(" ", s);
    SpaceSpanOfSplit("", s);
    assert "" + s == s;
    assert (" " + s)[1..] == s && s[0..] == s;
  }

  lemma LongRunDoesNotFit(ts: seq<Token>)
    requires ArgRun(ts) >= MAX_ARGV_LENGTH
    ensures !ArgsFit(ts)
  {
    assert ts[0..] == ts;
    assert !RunFits(ts, 0);
  }

  lemma LineOfWords(n: nat) returns (line: string)
    requires n > 0
    ensures |line| == 2 * n - 1 && IsLine(line) && ArgRun(Lex(line)) == n
  {
    line := OneLetterWords(n);
    OneLetterRun(n);
  }

  /** The bound is exact: one character more is room for one word too many. */
  lemma ArgumentBoundIsTight() returns (line: string)
    ensures |line| == MAX_LINE_LENGTH + 1 && IsLine(line)
    ensures !ArgsFit(Lex(line))
  {
    var n: nat :| n == MAX_ARGV_LENGTH;
    line := LineOfWords(n);
    LongRunDoesNotFit(Lex(line));
  }
}
