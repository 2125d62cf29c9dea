/**
 The grammar of shell lines over tokens, and the parse routines of
 parser-for-shell-noodlez102/myshell_parser.c:89-341 as functions from the tokens still ahead of the cursor.

 The syntax trees (`LineSyntax`) are an independent reference: they say which token sequences are lines and what
 they mean, without mentioning how the parser reads them.
 */
module ParserGrammar {
  import opened Wrappers
  import opened ParserTokens

  const MAX_WORD_LENGTH := 32

  datatype Command = Command(args: seq<string>, redirectIn: Option<string>, redirectOut: Option<string>)

  datatype Pipeline = Pipeline(commands: seq<Command>, isBackground: bool)

  // ---------------------------------------------------------------------------------------------
  // The parse routines
  // ---------------------------------------------------------------------------------------------

  predicate ShortWord(t: Token) {
    t.Word? && |t.text| <= MAX_WORD_LENGTH
  }

  /** parse_args: take words until another token; a word that is too long is an error. */
  function ArgsLoop(done: seq<string>, ts: seq<Token>): (r: Option<(seq<string>, seq<Token>)>)
    ensures r.Some? ==> |r.value.1| <= |ts|
    decreases |ts|
  {
    if ts == [] || !ts[0].Word? then Some((done, ts))
    else if !ShortWord(ts[0]) then None
    else ArgsLoop(done + [ts[0].text], ts[1..])
  }

  datatype Redirection = Bad | Absent | Found(path: string, rest: seq<Token>)

  /** parse_redirect_in and parse_redirect_out, which differ in the angle they look for. */
  function Redirect(angle: Token, ts: seq<Token>): Redirection {
    if ts == [] || ts[0] != angle then Absent
    else if |ts| < 2 || !ShortWord(ts[1]) then Bad
    else Found(ts[1].text, ts[2..])
  }

  /** The loop of parse_command: it goes round again only after a `<` followed by a `>`. */
  function RedirectLoop(c: Command, ts: seq<Token>): (r: Option<(Command, seq<Token>)>)
    ensures r.Some? ==> |r.value.1| <= |ts|
    decreases |ts|
  {
    match Redirect(LeftAngle, ts)
    case Bad => None
    case Absent => (
      match Redirect(RightAngle, ts)
      case Bad => None
      case Absent => Some((c, ts))
      case Found(path, rest) => Some((c.(redirectOut := Some(path)), rest))
    )
    case Found(path, rest) => (
      var c' := c.(redirectIn := Some(path));
      match Redirect(RightAngle, rest)
      case Bad => None
      case Absent => Some((c', rest))
      case Found(path', rest') => RedirectLoop(c'.(redirectOut := Some(path')), rest')
    )
  }

  /** parse_command: redirects are read only after at least one argument. */
  function ParseCommand(ts: seq<Token>): (r: Option<(Command, seq<Token>)>)
    ensures r.Some? ==> |r.value.1| <= |ts|
  {
    match ArgsLoop([], ts)
    case None => None
    case Some((args, rest)) =>
      var c := Command(args, None, None);
      if args == [] then Some((c, rest)) else RedirectLoop(c, rest)
  }

  /** The loop of parse_pipes; `done` holds the commands parsed so far. */
  function PipesLoop(done: seq<Command>, ts: seq<Token>): Option<(seq<Command>, seq<Token>)>
    requires done != []
    decreases |ts|
  {
    if ts == [] || ts[0] != Pipe then Some((done, ts))
    else if done[|done| - 1].args == [] then None
    else
      match ParseCommand(ts[1..])
      case None => None
      case Some((c, rest)) => PipesLoop(done + [c], rest)
  }

  /** parse_background and the end check of parse_pipes. */
  function Finish(commands: seq<Command>, ts: seq<Token>): Option<Pipeline> {
    var background := ts != [] && ts[0] == Ampersand;
    if (if background then ts[1..] else ts) == [] then Some(Pipeline(commands, background)) else None
  }

  function ParsePipeline(ts: seq<Token>): Option<Pipeline> {
    match ParseCommand(ts)
    case None => None
    case Some((c, rest)) =>
      match PipesLoop([c], rest)
      case None => None
      case Some((commands, rest')) => Finish(commands, rest')
  }

  /** pipeline_build, from the characters of a line; None is the source's NULL. */
  function Build(line: string): Option<Pipeline> {
    ParsePipeline(Lex(line))
  }

  // ---------------------------------------------------------------------------------------------
  // The grammar
  // ---------------------------------------------------------------------------------------------

  datatype Tail = NoTail | InTail(path: string) | OutTail(path: string)

  /** A command: arguments, then `< in > out` pairs, then at most one further redirect. */
  datatype CommandSyntax = CommandSyntax(args: seq<string>, pairs: seq<(string, string)>, tail: Tail)

  datatype LineSyntax = LineSyntax(commands: seq<CommandSyntax>, background: bool)

  predicate ShortWords(ws: seq<string>) {
    forall i :: 0 <= i < |ws| ==> |ws[i]| <= MAX_WORD_LENGTH
  }

  predicate ShortPairs(ps: seq<(string, string)>) {
    forall i :: 0 <= i < |ps| ==> |ps[i].0| <= MAX_WORD_LENGTH && |ps[i].1| <= MAX_WORD_LENGTH
  }

  predicate LegalCommand(c: CommandSyntax) {
    && ShortWords(c.args)
    && ShortPairs(c.pairs)
    && (c.tail != NoTail ==> |c.tail.path| <= MAX_WORD_LENGTH)
    && (c.args == [] ==> c.pairs == [] && c.tail == NoTail)
  }

  /** Only the last command of a line may be empty. */
  predicate LegalCommands(cs: seq<CommandSyntax>) {
    && (forall i :: 0 <= i < |cs| ==> LegalCommand(cs[i]))
    && (forall i :: 0 <= i < |cs| - 1 ==> cs[i].args != [])
  }

  predicate LegalLine(l: LineSyntax) {
    l.commands != [] && LegalCommands(l.commands)
  }

  function WordTokens(ws: seq<string>): seq<Token> {
    if ws == [] then [] else [Word(ws[0])] + WordTokens(ws[1..])
  }

  function PairTokens(ps: seq<(string, string)>): seq<Token> {
    if ps == [] then []
    else [LeftAngle, Word(ps[0].0), RightAngle, Word(ps[0].1)] + PairTokens(ps[1..])
  }

  function TailTokens(t: Tail): seq<Token> {
    match t
    case NoTail => []
    case InTail(path) => [LeftAngle, Word(path)]
    case OutTail(path) => [RightAngle, Word(path)]
  }

  function RedirectTokens(ps: seq<(string, string)>, t: Tail): seq<Token> {
    PairTokens(ps) + TailTokens(t)
  }

  function CommandTokens(c: CommandSyntax): seq<Token> {
    WordTokens(c.args) + RedirectTokens(c.pairs, c.tail)
  }

  /** Commands, each after a pipe. */
  function PipedTokens(cs: seq<CommandSyntax>): seq<Token> {
    if cs == [] then [] else [Pipe] + CommandTokens(cs[0]) + PipedTokens(cs[1..])
  }

  function EndTokens(background: bool): seq<Token> {
    if background then [Ampersand] else []
  }

  function LineTokens(l: LineSyntax): seq<Token>
    requires l.commands != []
  {
    CommandTokens(l.commands[0]) + (PipedTokens(l.commands[1..]) + EndTokens(l.background))
  }

  /** The last redirect of each kind wins. */
  function CommandMeaning(c: CommandSyntax): Command {
    var n := |c.pairs|;
    Command(
      c.args,
      if c.tail.InTail? then Some(c.tail.path) else if n > 0 then Some(c.pairs[n - 1].0) else None,
      if c.tail.OutTail? then Some(c.tail.path) else if n > 0 then Some(c.pairs[n - 1].1) else None)
  }

  function CommandMeanings(cs: seq<CommandSyntax>): (r: seq<Command>)
    ensures |r| == |cs|
    ensures forall i :: 0 <= i < |cs| ==> r[i] == CommandMeaning(cs[i])
  {
    if cs == [] then [] else [CommandMeaning(cs[0])] + CommandMeanings(cs[1..])
  }

  function Meaning(l: LineSyntax): Pipeline {
    Pipeline(CommandMeanings(l.commands), l.background)
  }

  // ---------------------------------------------------------------------------------------------
  // Completeness: every line of the grammar is parsed to its meaning
  // ---------------------------------------------------------------------------------------------

  lemma Concat3<T>(a: seq<T>, b: seq<T>, c: seq<T>)
    ensures a + b + c == a + (b + c)
  {}

  /** What follows a command: nothing, a pipe or an ampersand. */
  predicate EndsCommand(ts: seq<Token>) {
    ts == [] || ts[0] == Pipe || ts[0] == Ampersand
  }

  lemma {:induction false} ArgsComplete(done: seq<string>, ws: seq<string>, rest: seq<Token>)
    requires ShortWords(ws)
    requires rest == [] || !rest[0].Word?
    ensures ArgsLoop(done, WordTokens(ws) + rest) == Some((done + ws, rest))
    decreases |ws|
  {
    if ws == [] {
      assert WordTokens(ws) + rest == rest && done + ws == done;
    } else {
      ArgsComplete(done + [ws[0]], ws[1..], rest);
      ArgsRead(done, ws[0], WordTokens(ws[1..]) + rest);
      Concat3([Word(ws[0])], WordTokens(ws[1..]), rest);
      Concat3(done, [ws[0]], ws[1..]);
      assert [ws[0]] + ws[1..] == ws;
    }
  }

  lemma ArgsRead(done: seq<string>, w: string, ts: seq<Token>)
    requires |w| <= MAX_WORD_LENGTH
    ensures ArgsLoop(done, [Word(w)] + ts) == ArgsLoop(done + [w], ts)
  {
    assert ([Word(w)] + ts)[1..] == ts;
  }

  /** The command that redirects `ps` and `t` turn `c` into. */
  function Redirected(c: Command, ps: seq<(string, string)>, t: Tail): Command
    decreases |ps|
  {
    if ps == [] then
      match t
      case NoTail => c
      case InTail(path) => c.(redirectIn := Some(path))
      case OutTail(path) => c.(redirectOut := Some(path))
    else Redirected(c.(redirectIn := Some(ps[0].0), redirectOut := Some(ps[0].1)), ps[1..], t)
  }

  lemma {:induction false} RedirectsComplete(c: Command, ps: seq<(string, string)>, t: Tail, rest: seq<Token>)
    requires ShortPairs(ps) && (t != NoTail ==> |t.path| <= MAX_WORD_LENGTH)
    requires EndsCommand(rest)
    ensures RedirectLoop(c, RedirectTokens(ps, t) + rest) == Some((Redirected(c, ps, t), rest))
    decreases |ps|
  {
    var ts := RedirectTokens(ps, t) + rest;
    if ps == [] {
      if t == NoTail {
        assert ts == rest;
      } else {
        TailRead(c, t, rest);
      }
    } else {
      PairStep(ps[0].0, ps[0].1, ps[1..], t, rest);
      assert [(ps[0].0, ps[0].1)] + ps[1..] == ps;
      RedirectsComplete(c.(redirectIn := Some(ps[0].0), redirectOut := Some(ps[0].1)), ps[1..], t, rest);
      PairRead(c, ps[0].0, ps[0].1, RedirectTokens(ps[1..], t) + rest);
    }
  }

  lemma TailStep(t: Tail, rest: seq<Token>)
    requires t != NoTail
    ensures RedirectTokens([], t) + rest == [if t.InTail? then LeftAngle else RightAngle, Word(t.path)] + rest
  {}

  lemma TailRead(c: Command, t: Tail, rest: seq<Token>)
    requires t != NoTail && |t.path| <= MAX_WORD_LENGTH && EndsCommand(rest)
    ensures RedirectLoop(c, RedirectTokens([], t) + rest) == Some((Redirected(c, [], t), rest))
  {
    TailStep(t, rest);
    var ts := [if t.InTail? then LeftAngle else RightAngle, Word(t.path)] + rest;
    assert ts[2..] == rest;
  }

  lemma PairStep(path: string, path': string, ps: seq<(string, string)>, t: Tail, rest: seq<Token>)
    ensures RedirectTokens([(path, path')] + ps, t) + rest ==
            [LeftAngle, Word(path)] + ([RightAngle, Word(path')] + (RedirectTokens(ps, t) + rest))
  {
    assert ([(path, path')] + ps)[1..] == ps;
  }

  lemma PairRead(c: Command, path: string, path': string, rest: seq<Token>)
    requires |path| <= MAX_WORD_LENGTH && |path'| <= MAX_WORD_LENGTH
    ensures RedirectLoop(c, [LeftAngle, Word(path)] + ([RightAngle, Word(path')] + rest)) ==
            RedirectLoop(c.(redirectIn := Some(path), redirectOut := Some(path')), rest)
  {
    var us := [RightAngle, Word(path')] + rest;
    var ts := [LeftAngle, Word(path)] + us;
    assert ts[2..] == us && us[2..] == rest;
    assert Redirect(LeftAngle, ts) == Found(path, us);
    assert Redirect(RightAngle, us) == Found(path', rest);
  }

  lemma {:induction false} RedirectedIsMeaning(c: Command, ps: seq<(string, string)>, t: Tail)
    ensures ps == [] ==>
      && Redirected(c, ps, t).args == c.args
      && Redirected(c, ps, t).redirectIn == (if t.InTail? then Some(t.path) else c.redirectIn)
      && Redirected(c, ps, t).redirectOut == (if t.OutTail? then Some(t.path) else c.redirectOut)
    ensures ps != [] ==> Redirected(c, ps, t) == CommandMeaning(CommandSyntax(c.args, ps, t))
    decreases |ps|
  {
    if ps != [] {
      RedirectedIsMeaning(c.(redirectIn := Some(ps[0].0), redirectOut := Some(ps[0].1)), ps[1..], t);
    }
  }

  lemma RedirectsMean(c: CommandSyntax, rest: seq<Token>)
    requires LegalCommand(c) && c.args != [] && EndsCommand(rest)
    ensures RedirectLoop(Command(c.args, None, None), RedirectTokens(c.pairs, c.tail) + rest)
         == Some((CommandMeaning(c), rest))
  {
    RedirectsComplete(Command(c.args, None, None), c.pairs, c.tail, rest);
    RedirectedIsMeaning(Command(c.args, None, None), c.pairs, c.tail);
  }

  lemma CommandComplete(c: CommandSyntax, rest: seq<Token>)
    requires LegalCommand(c) && EndsCommand(rest)
    ensures ParseCommand(CommandTokens(c) + rest) == Some((CommandMeaning(c), rest))
  {
    var more := RedirectTokens(c.pairs, c.tail) + rest;
    Concat3(WordTokens(c.args), RedirectTokens(c.pairs, c.tail), rest);
    RedirectsStart(c.pairs, c.tail, rest);
    ArgsComplete([], c.args, more);
    assert [] + c.args == c.args;
    if c.args == [] {
      assert more == rest;
    } else {
      RedirectsMean(c, rest);
    }
  }

  lemma RedirectsStart(ps: seq<(string, string)>, t: Tail, rest: seq<Token>)
    requires EndsCommand(rest)
    ensures var more := RedirectTokens(ps, t) + rest; more == [] || !more[0].Word?
  {}

  lemma PipedStep(c: CommandSyntax, cs: seq<CommandSyntax>, rest: seq<Token>)
    ensures var ts := PipedTokens([c] + cs) + rest;
      && ts != [] && ts[0] == Pipe
      && ts[1..] == CommandTokens(c) + (PipedTokens(cs) + rest)
  {
    assert ([c] + cs)[1..] == cs;
    Concat3([Pipe], CommandTokens(c), PipedTokens(cs));
    Concat3([Pipe], CommandTokens(c) + PipedTokens(cs), rest);
    Concat3(CommandTokens(c), PipedTokens(cs), rest);
  }

  lemma {:induction false} PipesComplete(done: seq<Command>, cs: seq<CommandSyntax>, rest: seq<Token>)
    requires done != [] && (cs != [] ==> done[|done| - 1].args != [])
    requires LegalCommands(cs)
    requires rest == [] || rest[0] == Ampersand
    ensures PipesLoop(done, PipedTokens(cs) + rest) == Some((done + CommandMeanings(cs), rest))
    decreases |cs|
  {
    var ts := PipedTokens(cs) + rest;
    if cs == [] {
      assert ts == rest && done + CommandMeanings(cs) == done;
    } else {
      var more := PipedTokens(cs[1..]) + rest;
      PipedStep(cs[0], cs[1..], rest);
      assert [cs[0]] + cs[1..] == cs;
      CommandComplete(cs[0], more);
      var done' := done + [CommandMeaning(cs[0])];
      PipesComplete(done', cs[1..], rest);
      Concat3(done, [CommandMeaning(cs[0])], CommandMeanings(cs[1..]));
    }
  }

  /** Every line of the grammar is accepted, and parsed to what it means. */
  lemma ParseComplete(l: LineSyntax)
    requires LegalLine(l)
    ensures ParsePipeline(LineTokens(l)) == Some(Meaning(l))
  {
    var cs, end := l.commands, EndTokens(l.background);
    var more := PipedTokens(cs[1..]) + end;
    CommandComplete(cs[0], more);
    PipesComplete([CommandMeaning(cs[0])], cs[1..], end);
    assert Finish(CommandMeanings(cs), end) == Some(Meaning(l));
  }

  // ---------------------------------------------------------------------------------------------
  // Soundness: whatever is accepted is a line of the grammar
  // ---------------------------------------------------------------------------------------------

  lemma {:induction false} ArgsSound(done: seq<string>, ts: seq<Token>) returns (ws: seq<string>)
    requires ArgsLoop(done, ts).Some?
    ensures ShortWords(ws)
    ensures var (args, rest) := ArgsLoop(done, ts).value;
      args == done + ws && ts == WordTokens(ws) + rest
    decreases |ts|
  {
    if ts == [] || !ts[0].Word? {
      ws := [];
    } else {
      var ws' := ArgsSound(done + [ts[0].text], ts[1..]);
      ws := [ts[0].text] + ws';
      assert ws[1..] == ws';
      assert ts == [ts[0]] + ts[1..];
      Concat3(done, [ts[0].text], ws');
      Concat3([ts[0]], WordTokens(ws'), ArgsLoop(done, ts).value.1);
    }
  }

  lemma {:induction false} RedirectsSound(c: Command, ts: seq<Token>) returns (ps: seq<(string, string)>, t: Tail)
    requires RedirectLoop(c, ts).Some?
    ensures ShortPairs(ps) && (t != NoTail ==> |t.path| <= MAX_WORD_LENGTH)
    ensures var (c', rest) := RedirectLoop(c, ts).value;
      c' == Redirected(c, ps, t) && ts == RedirectTokens(ps, t) + rest
    decreases |ts|
  {
    ps, t := [], NoTail;
    NoRedirects(ts);
    RedirectRead(LeftAngle, ts);
    match Redirect(LeftAngle, ts)
    case Absent =>
      RedirectRead(RightAngle, ts);
      if Redirect(RightAngle, ts).Found? {
        t := OutTail(Redirect(RightAngle, ts).path);
        TailStep(t, Redirect(RightAngle, ts).rest);
      }
    case Found(path, rest) =>
      RedirectRead(RightAngle, rest);
      match Redirect(RightAngle, rest)
      case Absent =>
        t := InTail(path);
        TailStep(t, rest);
      case Found(path', rest') =>
        var ps', t' := RedirectsSound(c.(redirectIn := Some(path), redirectOut := Some(path')), rest');
        ps, t := [(path, path')] + ps', t';
        PairRedirects(c, path, path', ps', t');
        PairStep(path, path', ps', t', RedirectLoop(c, ts).value.1);
  }

  lemma PairRedirects(c: Command, path: string, path': string, ps: seq<(string, string)>, t: Tail)
    requires |path| <= MAX_WORD_LENGTH && |path'| <= MAX_WORD_LENGTH && ShortPairs(ps)
    ensures ShortPairs([(path, path')] + ps)
    ensures Redirected(c, [(path, path')] + ps, t) ==
            Redirected(c.(redirectIn := Some(path), redirectOut := Some(path')), ps, t)
  {
    assert ([(path, path')] + ps)[1..] == ps;
  }

  lemma NoRedirects(ts: seq<Token>)
    ensures RedirectTokens([], NoTail) + ts == ts
  {}

  lemma RedirectRead(angle: Token, ts: seq<Token>)
    ensures var r := Redirect(angle, ts);
      r.Found? ==> |r.path| <= MAX_WORD_LENGTH && ts == [angle, Word(r.path)] + r.rest && |r.rest| < |ts|
  {}

  lemma CommandJoins(ws: seq<string>, ps: seq<(string, string)>, t: Tail, rest: seq<Token>)
    ensures WordTokens(ws) + (RedirectTokens(ps, t) + rest) == CommandTokens(CommandSyntax(ws, ps, t)) + rest
  {
    Concat3(WordTokens(ws), RedirectTokens(ps, t), rest);
  }

  lemma CommandSound(ts: seq<Token>) returns (c: CommandSyntax)
    requires ParseCommand(ts).Some?
    ensures LegalCommand(c)
    ensures var (m, rest) := ParseCommand(ts).value;
      m == CommandMeaning(c) && ts == CommandTokens(c) + rest
  {
    var ws := ArgsSound([], ts);
    var (args, rest) := ArgsLoop([], ts).value;
    assert args == ws;
    if ws == [] {
      c := CommandSyntax(ws, [], NoTail);
      assert CommandTokens(c) + rest == rest;
    } else {
      var ps, t := RedirectsSound(Command(args, None, None), rest);
      RedirectedIsMeaning(Command(args, None, None), ps, t);
      CommandJoins(ws, ps, t, RedirectLoop(Command(args, None, None), rest).value.1);
      c := CommandSyntax(ws, ps, t);
    }
  }

  lemma EqualByCons(ts: seq<Token>, us: seq<Token>)
    requires ts != [] && us != [] && ts[0] == us[0] && ts[1..] == us[1..]
    ensures ts == us
  {
    assert ts == [ts[0]] + ts[1..] && us == [us[0]] + us[1..];
  }

  lemma LegalCons(c: CommandSyntax, cs: seq<CommandSyntax>)
    requires LegalCommand(c) && LegalCommands(cs) && (cs != [] ==> c.args != [])
    ensures LegalCommands([c] + cs)
  {
    var cs' := [c] + cs;
    forall i | 0 <= i < |cs'| - 1
      ensures cs'[i].args != []
    {
      assert i > 0 ==> cs'[i] == cs[i - 1];
    }
  }

  lemma {:induction false} PipesSound(done: seq<Command>, ts: seq<Token>) returns (cs: seq<CommandSyntax>)
    requires done != [] && PipesLoop(done, ts).Some?
    ensures LegalCommands(cs) && (cs != [] ==> done[|done| - 1].args != [])
    ensures var (commands, rest) := PipesLoop(done, ts).value;
      commands == done + CommandMeanings(cs) && ts == PipedTokens(cs) + rest && (rest == [] || rest[0] != Pipe)
    decreases |ts|
  {
    if ts == [] || ts[0] != Pipe {
      cs := [];
    } else {
      var c := CommandSound(ts[1..]);
      var (m, rest) := ParseCommand(ts[1..]).value;
      var cs' := PipesSound(done + [m], rest);
      cs := [c] + cs';
      LegalCons(c, cs');
      PipedStep(c, cs', PipesLoop(done, ts).value.1);
      EqualByCons(ts, PipedTokens(cs) + PipesLoop(done, ts).value.1);
      assert cs[1..] == cs';
      Concat3(done, [m], CommandMeanings(cs'));
    }
  }

  /** Whatever is accepted is a line of the grammar, with exactly the meaning that was built. */
  lemma ParseSound(ts: seq<Token>) returns (l: LineSyntax)
    requires ParsePipeline(ts).Some?
    ensures LegalLine(l) && LineTokens(l) == ts && Meaning(l) == ParsePipeline(ts).value
  {
    var c := CommandSound(ts);
    var (m, rest) := ParseCommand(ts).value;
    var cs := PipesSound([m], rest);
    var (commands, rest') := PipesLoop([m], rest).value;
    FinishSound(commands, rest');
    l := LineSyntax([c] + cs, rest' != []);
    LegalCons(c, cs);
    assert l.commands[1..] == cs;
  }

  lemma FinishSound(commands: seq<Command>, ts: seq<Token>)
    requires Finish(commands, ts).Some?
    ensures ts == EndTokens(ts != []) && Finish(commands, ts) == Some(Pipeline(commands, ts != []))
  {
    assert ts != [] ==> ts == [ts[0]] + ts[1..];
  }

  /** The accepted language is exactly the grammar. */
  lemma AcceptedLanguage(ts: seq<Token>)
    ensures ParsePipeline(ts).Some? <==> exists l :: LegalLine(l) && LineTokens(l) == ts
  {
    if ParsePipeline(ts).Some? {
      var l := ParseSound(ts);
    }
    forall l | LegalLine(l) && LineTokens(l) == ts
      ensures ParsePipeline(ts).Some?
    {
      ParseComplete(l);
    }
  }
}
