/**
 The shell parser as it runs (parser-for-shell-noodlez102/myshell_parser.c:17-358): a cursor into the line, a fixed
 argument array per command, and a linked list of commands, each routine proved against its function on tokens.
 */
module ParserShell {
  import opened Wrappers
  import opened ParserTokens
  import opened ParserCursor
  import opened ParserGrammar
  import opened ParserRoundTrip

  /** The words of an argument array: everything before the first NULL. */
  function ArgList(a: seq<Option<string>>): seq<string> {
    if a == [] || a[0].None? then [] else [a[0].value] + ArgList(a[1..])
  }

  lemma {:induction false} ArgListIs(a: seq<Option<string>>, ws: seq<string>)
    requires |ws| < |a| && a[|ws|] == None
    requires forall i :: 0 <= i < |ws| ==> a[i] == Some(ws[i])
    ensures ArgList(a) == ws
    decreases |ws|
  {
    if ws != [] {
      ArgListIs(a[1..], ws[1..]);
      assert ws == [ws[0]] + ws[1..];
    }
  }

  /** `struct pipeline_command` */
  class CommandCell {
    const args: array<Option<string>>
    var redirectIn: Option<string>
    var redirectOut: Option<string>
    var next: CommandCell?

    /** pipeline_command_alloc */
    constructor ()
      ensures fresh(args) && args.Length == MAX_ARGV_LENGTH
      ensures Value() == Command([], None, None) && next == null
    {
      args := new Option<string>[MAX_ARGV_LENGTH](_ => None);
      redirectIn, redirectOut, next := None, None, null;
      new;
      ArgListIs(args[..], []);
    }

    ghost function Value(): Command
      reads this`redirectIn, this`redirectOut, args
    {
      Command(ArgList(args[..]), redirectIn, redirectOut)
    }
  }

  /** `struct pipeline`: a linked list of commands and the background flag. */
  class PipelineList {
    var commands: CommandCell?
    var isBackground: bool
    ghost var cells: seq<CommandCell>
    ghost var values: seq<Command>
    ghost var repr: set<object>

    constructor ()
      ensures Valid() && cells == [] && values == [] && repr == {} && !isBackground
    {
      commands, isBackground, cells, values, repr := null, false, [], [], {};
    }

    /** `cells` are the nodes met by following `next` from `commands`, and they hold the commands `values`. */
    ghost predicate Valid()
      reads this`commands, this`cells, this`values, this`repr, repr
    {
      && this !in repr
      && |values| == |cells|
      && commands == (if cells == [] then null else cells[0])
      && (forall i :: 0 <= i < |cells| ==> Holds(i))
    }

    /** Node `i` of the list holds command `i` and points to the next node. */
    ghost predicate Holds(i: nat)
      requires i < |cells| == |values|
      reads this`cells, this`values, this`repr, repr
    {
      && cells[i] in repr && cells[i].args in repr
      && cells[i].Value() == values[i]
      && cells[i].next == (if i + 1 < |cells| then cells[i + 1] else null)
    }

    ghost function Last(): CommandCell?
      reads this
    {
      if cells == [] then null else cells[|cells| - 1]
    }

    ghost function Value(): Pipeline
      reads this
    {
      Pipeline(values, isBackground)
    }

    /** Allocate a command and link it after `current`, the last one. */
    method Link(current: CommandCell?) returns (cell: CommandCell)
      requires Valid() && current == Last()
      modifies this, current
      ensures Valid() && fresh(cell) && fresh(cell.args) && cell.args.Length == MAX_ARGV_LENGTH
      ensures cells == old(cells) + [cell] && values == old(values) + [Command([], None, None)]
      ensures repr == old(repr) + {cell, cell.args}
      ensures isBackground == old(isBackground)
      ensures cell.redirectIn == None && cell.redirectOut == None
    {
      cell := new CommandCell();
      if current == null {
        commands := cell;
      } else {
        assert Holds(|cells| - 1);
        current.next := cell;
      }
      label Linked:
      cells, values, repr := cells + [cell], values + [cell.Value()], repr + {cell, cell.args};
      forall i | 0 <= i < |cells|
        ensures Holds(i)
      {
        if i < |cells| - 1 {
          assert old(Holds(i));
        }
      }
    }
  }

  /** The parser's cursor into one line. */
  class LineParser {
    const line: string
    var token: nat
    /** The tokens at and after each position of the line. */
    ghost const ahead: seq<seq<Token>>

    constructor (line: string)
      ensures this.line == line && Valid()
      ensures Rest() == Lex(line)
    {
      this.line, token := line, 0;
      ahead := seq(|line| + 1, p requires 0 <= p <= |line| => Lex(line[p..]));
      new;
      assert line[0..] == line && Linked(line, ahead, 0);
    }

    ghost predicate Valid()
      reads this
    {
      && token <= |line|
      && LexTable(line, ahead)
    }

    /** The tokens at and after the cursor. */
    ghost function Rest(): seq<Token>
      requires Valid()
      reads this
    {
      ahead[token]
    }

    /** The cursor is on a token of the given type and length; after it come the remaining tokens. */
    ghost predicate At(tokenType: TokenType, length: nat)
      requires Valid()
      reads this
    {
      && token + length <= |line|
      && tokenType == TypeOf(Rest())
      && (tokenType == TT_NONE ==> length == 0)
      && (tokenType != TT_NONE ==>
            && length > 0
            && Text(Rest()[0]) == line[token..token + length]
            && ahead[token + length] == Rest()[1..])
    }

    /** The switch of next_token, at a character that is not whitespace. */
    method Classify() returns (tokenType: TokenType, length: nat)
      requires Valid()
      requires token < |line| ==> !IsSpace(line[token])
      ensures At(tokenType, length)
      ensures tokenType == TT_NONE <==> token == |line|
    {
      if token == |line| {
        TableEnd(line, ahead);
        return TT_NONE, 0;
      }
      match line[token] {
        case '&' => tokenType, length := TT_AMPERSAND, 1;
        case '|' => tokenType, length := TT_PIPE, 1;
        case '<' => tokenType, length := TT_LEFT_ANGLE, 1;
        case '>' => tokenType, length := TT_RIGHT_ANGLE, 1;
        case _ => tokenType, length := TT_WORD, WordSpan(line[token..]);
      }
      TableToken(line, ahead, token, length);
    }

    /** next_token: skip whitespace and report the token under the cursor without consuming it. */
    method NextToken() returns (tokenType: TokenType, length: nat)
      requires Valid()
      modifies this
      ensures Valid() && token >= old(token)
      ensures AllSpace(line[old(token)..token])
      ensures token < |line| ==> !IsSpace(line[token])
      ensures Rest() == old(Rest())
      ensures At(tokenType, length)
      ensures tokenType == TT_NONE <==> token == |line|
    {
      TableSkip(line, ahead, token, token + SpaceSpan(line[token..]));
      token := token + SpaceSpan(line[token..]);
      tokenType, length := Classify();
    }

    /** `*token = *token + token_length` */
    method Advance(tokenType: TokenType, length: nat)
      requires Valid() && At(tokenType, length) && tokenType != TT_NONE
      modifies this
      ensures Valid() && token == old(token) + length && token > old(token)
      ensures Rest() == old(Rest())[1..]
    {
      token := token + length;
    }

    /** The text of the word under the cursor. */
    method WordText(ghost tokenType: TokenType, length: nat) returns (text: string)
      requires Valid() && At(tokenType, length) && tokenType == TT_WORD
      ensures Rest()[0] == Word(text) && |text| == length
    {
      text := line[token..token + length];
    }

    /** parse_args: the number of words stored, or -1 on a word that is too long. */
    method ParseArgs(cell: CommandCell) returns (argCount: int)
      requires Valid() && cell.args.Length == MAX_ARGV_LENGTH
      requires ArgRun(Rest()) < MAX_ARGV_LENGTH
      modifies this, cell.args
      ensures Valid() && token >= old(token)
      ensures argCount == -1 <==> ArgsLoop([], old(Rest())) == None
      ensures argCount != -1 ==>
        argCount == |ArgList(cell.args[..])| && ArgsLoop([], old(Rest())) == Some((ArgList(cell.args[..]), Rest()))
    {
      var tokenType, length: nat := NextToken();
      argCount := 0;
      ghost var done: seq<string> := [];
      tokenType, length := NextToken();
      while tokenType == TT_WORD
        invariant Valid() && token >= old(token) && At(tokenType, length)
        invariant argCount == |done| && argCount + ArgRun(Rest()) < MAX_ARGV_LENGTH
        invariant forall i :: 0 <= i < argCount ==> cell.args[i] == Some(done[i])
        invariant ArgsLoop(done, Rest()) == ArgsLoop([], old(Rest()))
        decreases |line| - token
      {
        var text := WordText(tokenType, length);
        ArgsStep(done, Rest());
        if length > MAX_WORD_LENGTH {
          return -1;
        }
        cell.args[argCount] := Some(text);
        done := done + [text];
        Advance(tokenType, length);
        argCount := argCount + 1;
        tokenType, length := NextToken();
      }
      cell.args[argCount] := None;
      ArgListIs(cell.args[..], done);
    }

    /** parse_redirect_out: 1 if a redirect was read, 0 if there is none, -1 on an error. */
    method ParseRedirectOut(cell: CommandCell) returns (result: int)
      requires Valid()
      modifies this, cell`redirectOut
      ensures Valid() && token >= old(token)
      ensures match Redirect(RightAngle, old(Rest()))
        case Bad => result == -1
        case Absent => result == 0 && Rest() == old(Rest()) && cell.redirectOut == old(cell.redirectOut)
        case Found(path, rest) =>
          result == 1 && Rest() == rest && cell.redirectOut == Some(path) && token > old(token)
    {
      ghost var ts := Rest();
      var tokenType, length: nat := NextToken();
      if tokenType != TT_RIGHT_ANGLE {
        return 0;
      }
      Advance(tokenType, length);
      tokenType, length := NextToken();
      if tokenType != TT_WORD {
        return -1;
      }
      var path := WordText(tokenType, length);
      if length > MAX_WORD_LENGTH {
        return -1;
      }
      cell.redirectOut := Some(path);
      Advance(tokenType, length);
      assert Rest() == ts[2..];
      return 1;
    }

    /** parse_redirect_in: 1 if a redirect was read, 0 if there is none, -1 on an error. */
    method ParseRedirectIn(cell: CommandCell) returns (result: int)
      requires Valid()
      modifies this, cell`redirectIn
      ensures Valid() && token >= old(token)
      ensures match Redirect(LeftAngle, old(Rest()))
        case Bad => result == -1
        case Absent => result == 0 && Rest() == old(Rest()) && cell.redirectIn == old(cell.redirectIn)
        case Found(path, rest) =>
          result == 1 && Rest() == rest && cell.redirectIn == Some(path) && token > old(token)
    {
      ghost var ts := Rest();
      var tokenType, length: nat := NextToken();
      if tokenType != TT_LEFT_ANGLE {
        return 0;
      }
      Advance(tokenType, length);
      tokenType, length := NextToken();
      if tokenType != TT_WORD {
        return -1;
      }
      var path := WordText(tokenType, length);
      if length > MAX_WORD_LENGTH {
        return -1;
      }
      cell.redirectIn := Some(path);
      Advance(tokenType, length);
      assert Rest() == ts[2..];
      return 1;
    }

    /** parse_command: 1 if a command was parsed, 0 if there is none here, -1 on an error. */
    method ParseCommand(cell: CommandCell) returns (result: int)
      requires Valid() && cell.args.Length == MAX_ARGV_LENGTH
      requires cell.redirectIn == None && cell.redirectOut == None
      requires ArgRun(Rest()) < MAX_ARGV_LENGTH
      modifies this, cell`redirectIn, cell`redirectOut, cell.args
      ensures Valid() && token >= old(token)
      ensures result == -1 <==> ParserGrammar.ParseCommand(old(Rest())) == None
      ensures result != -1 ==>
        && ParserGrammar.ParseCommand(old(Rest())) == Some((cell.Value(), Rest()))
        && result == if cell.Value().args == [] then 0 else 1
    {
      var argsParsed := ParseArgs(cell);
      if argsParsed < 1 {
        return argsParsed;
      }
      ghost var args := ArgList(cell.args[..]);
      var redirectIn, redirectOut;
      while true
        invariant Valid() && token >= old(token)
        invariant ArgList(cell.args[..]) == args
        invariant ParserGrammar.ParseCommand(old(Rest())) ==
          RedirectLoop(Command(args, cell.redirectIn, cell.redirectOut), Rest())
        decreases |line| - token
      {
        redirectIn := ParseRedirectIn(cell);
        redirectOut := ParseRedirectOut(cell);
        if !(redirectIn > 0 && redirectOut > 0) {
          break;
        }
      }
      if redirectIn == -1 || redirectOut == -1 {
        return -1;
      }
      return 1;
    }

    /** parse_background: 1 if an ampersand was read, 0 otherwise. */
    method ParseBackground(pipeline: PipelineList) returns (result: int)
      requires Valid()
      modifies this, pipeline`isBackground
      ensures Valid()
      ensures var ts := old(Rest());
        if ts != [] && ts[0] == Ampersand
        then result == 1 && Rest() == ts[1..] && pipeline.isBackground
        else result == 0 && Rest() == ts && pipeline.isBackground == old(pipeline.isBackground)
    {
      var tokenType, length: nat := NextToken();
      if tokenType != TT_AMPERSAND {
        return 0;
      }
      pipeline.isBackground := true;
      Advance(tokenType, length);
      return 1;
    }

    /** Allocate the next command, link it after `current`, and parse into it. */
    method ParseNext(pipeline: PipelineList, current: CommandCell?) returns (cell: CommandCell, result: int)
      requires Valid() && ArgRun(Rest()) < MAX_ARGV_LENGTH
      requires pipeline.Valid() && current == pipeline.Last() && this !in pipeline.repr
      modifies this, pipeline, current
      ensures Valid() && token >= old(token)
      ensures pipeline.Valid() && fresh(cell) && this !in pipeline.repr && fresh(pipeline.repr - old(pipeline.repr))
      ensures pipeline.isBackground == old(pipeline.isBackground)
      ensures pipeline.cells == old(pipeline.cells) + [cell]
      ensures |pipeline.values| == |pipeline.cells|
      ensures result == -1 <==> ParserGrammar.ParseCommand(old(Rest())) == None
      ensures result != -1 ==>
        var n := |old(pipeline.values)|;
        && pipeline.values == old(pipeline.values) + [pipeline.values[n]]
        && ParserGrammar.ParseCommand(old(Rest())) == Some((pipeline.values[n], Rest()))
        && result == if pipeline.values[n].args == [] then 0 else 1
    {
      cell := pipeline.Link(current);
      label Linked:
      result := ParseCommand(cell);
      pipeline.values := pipeline.values[..|pipeline.values| - 1] + [cell.Value()];
      forall i | 0 <= i < |pipeline.cells|
        ensures pipeline.Holds(i)
      {
        assert old@Linked(pipeline.Holds(i));
        if i + 1 < |pipeline.cells| {
          assert old@Linked(pipeline.Holds(i + 1));
        }
      }
    }

    /** The loop of parse_pipes: the number of pipes, or -1 on an error. */
    method ParseMorePipes(pipeline: PipelineList, first: CommandCell, firstParse: int) returns (pipeCount: int)
      requires Valid() && Suffixes(Rest())
      requires pipeline.Valid() && pipeline.cells == [first] && this !in pipeline.repr
      requires firstParse == if pipeline.values[0].args == [] then 0 else 1
      modifies this, pipeline, first
      ensures Valid()
      ensures pipeCount == -1 <==> PipesLoop(old(pipeline.values), old(Rest())) == None
      ensures pipeCount != -1 ==>
        && pipeline.Valid() && this !in pipeline.repr && pipeCount == |pipeline.cells| - 1
        && fresh(pipeline.repr - old(pipeline.repr))
        && pipeline.isBackground == old(pipeline.isBackground)
        && PipesLoop(old(pipeline.values), old(Rest())) == Some((pipeline.values, Rest()))
    {
      pipeCount := 0;
      var current, lastParse := first, firstParse;
      ghost var goal := PipesLoop(pipeline.values, Rest());
      var tokenType, length: nat := NextToken();
      while tokenType == TT_PIPE
        invariant Valid() && At(tokenType, length) && Suffixes(Rest())
        invariant pipeline.Valid() && this !in pipeline.repr && current == pipeline.Last()
        invariant fresh(pipeline.repr - old(pipeline.repr))
        invariant pipeCount == |pipeline.cells| - 1 >= 0
        invariant pipeline.isBackground == old(pipeline.isBackground)
        invariant current == first || fresh(current)
        invariant lastParse == if pipeline.values[pipeCount].args == [] then 0 else 1
        invariant goal == PipesLoop(pipeline.values, Rest())
        decreases |line| - token
      {
        PipesStep(pipeline.values, Rest());
        if lastParse != 1 {
          return -1;
        }
        SuffixesStep(Rest());
        Advance(tokenType, length);
        current, lastParse := ParseNext(pipeline, current);
        if lastParse == -1 {
          return -1;
        }
        pipeCount := pipeCount + 1;
        tokenType, length := NextToken();
      }
    }

    /** The end of parse_pipes: an optional ampersand, then nothing more. */
    method ParseEnd(pipeline: PipelineList) returns (result: int)
      requires Valid() && pipeline.Valid() && !pipeline.isBackground && this !in pipeline.repr
      modifies this, pipeline`isBackground
      ensures Valid() && pipeline.Valid()
      ensures result == -1 <==> Finish(pipeline.values, old(Rest())) == None
      ensures result != -1 ==> Finish(pipeline.values, old(Rest())) == Some(pipeline.Value())
    {
      result := 0;
      var background := ParseBackground(pipeline);
      var tokenType, length: nat := NextToken();
      if tokenType != TT_NONE {
        result := -1;
      }
    }

    /** parse_pipes: the number of pipes, or -1 on an error. */
    method ParsePipes(pipeline: PipelineList) returns (pipeCount: int)
      requires Valid() && ArgsFit(Rest())
      requires pipeline.Valid() && pipeline.cells == [] && this !in pipeline.repr
      modifies this, pipeline
      ensures Valid()
      ensures pipeCount == -1 <==> ParsePipeline(old(Rest())) == None
      ensures pipeCount != -1 ==>
        && pipeline.Valid() && fresh(pipeline.repr - old(pipeline.repr))
        && ParsePipeline(old(Rest())) == Some(pipeline.Value())
        && pipeCount == |pipeline.cells| - 1
    {
      pipeline.isBackground := false;
      SuffixesOf(Rest());
      PipelineSteps(Rest());
      var first, firstParse := ParseNext(pipeline, null);
      if firstParse == -1 {
        return -1;
      }
      assert pipeline.values == [pipeline.values[0]];
      pipeCount := ParseMorePipes(pipeline, first, firstParse);
      if pipeCount == -1 {
        return -1;
      }
      var end := ParseEnd(pipeline);
      if end == -1 {
        return -1;
      }
    }
  }

  /** pipeline_build: the pipeline of a line, or NULL. */
  method PipelineBuild(line: string) returns (pipeline: PipelineList?)
    requires IsLine(line) && ArgsFit(Lex(line))
    ensures pipeline == null <==> Build(line) == None
    ensures pipeline != null ==>
      fresh(pipeline) && fresh(pipeline.repr) && pipeline.Valid() && Build(line) == Some(pipeline.Value())
  {
    var parser := new LineParser(line);
    pipeline := new PipelineList();
    var pipesParsed := parser.ParsePipes(pipeline);
    if pipesParsed == -1 {
      pipeline := null;
    }
  }

  /** Every argument list that starts in the remaining tokens fits, from here and after any command read from here. */
  ghost predicate Suffixes(ts: seq<Token>) {
    exists us :: ArgsFit(us) && Suffix(ts, us)
  }

  lemma SuffixesOf(ts: seq<Token>)
    requires ArgsFit(ts)
    ensures ArgRun(ts) < MAX_ARGV_LENGTH
    ensures ParseCommand(ts).Some? ==> Suffixes(ParseCommand(ts).value.1)
  {
    assert Suffix(ts, ts);
    ArgsFitFrom(ts, ts);
    RestOfCommand(ts, ts);
  }

  lemma SuffixesStep(ts: seq<Token>)
    requires Suffixes(ts) && ts != []
    ensures ArgRun(ts[1..]) < MAX_ARGV_LENGTH
    ensures ParseCommand(ts[1..]).Some? ==> Suffixes(ParseCommand(ts[1..]).value.1)
  {
    var us :| ArgsFit(us) && Suffix(ts, us);
    assert ts == [ts[0]] + ts[1..];
    SuffixOfSum([ts[0]], ts[1..], us);
    ArgsFitFrom(ts[1..], us);
    RestOfCommand(ts[1..], us);
  }

  /** `ts` is a suffix of `us`. */
  ghost predicate Suffix(ts: seq<Token>, us: seq<Token>) {
    |ts| <= |us| && ts == us[|us| - |ts|..]
  }

  lemma ArgsFitFrom(ts: seq<Token>, us: seq<Token>)
    requires ArgsFit(us) && Suffix(ts, us)
    ensures ArgRun(ts) < MAX_ARGV_LENGTH
  {
    assert RunFits(us, |us| - |ts|);
  }

  /** What is left after a command is a suffix of what was there. */
  lemma RestOfCommand(ts: seq<Token>, us: seq<Token>)
    requires Suffix(ts, us)
    ensures ParseCommand(ts).Some? ==> Suffix(ParseCommand(ts).value.1, us)
  {
    if ParseCommand(ts).Some? {
      var c := CommandSound(ts);
      SuffixOfSum(CommandTokens(c), ParseCommand(ts).value.1, us);
    }
  }

  lemma SuffixOfSum(ts: seq<Token>, rest: seq<Token>, us: seq<Token>)
    requires Suffix(ts + rest, us)
    ensures Suffix(rest, us)
  {
    assert rest == (ts + rest)[|ts|..];
  }

  /** The stages of parse_pipes. */
  lemma PipelineSteps(ts: seq<Token>)
    ensures ParseCommand(ts).None? ==> ParsePipeline(ts) == None
    ensures ParseCommand(ts).Some? ==>
      var (c, rest) := ParseCommand(ts).value;
      match PipesLoop([c], rest)
      case None => ParsePipeline(ts) == None
      case Some((commands, end)) => ParsePipeline(ts) == Finish(commands, end)
  {}

  /** One turn of the loop of parse_pipes. */
  lemma PipesStep(done: seq<Command>, ts: seq<Token>)
    requires done != [] && ts != [] && ts[0] == Pipe
    ensures done[|done| - 1].args == [] || ParseCommand(ts[1..]).None? ==> PipesLoop(done, ts) == None
    ensures done[|done| - 1].args != [] && ParseCommand(ts[1..]).Some? ==>
      var (c, rest) := ParseCommand(ts[1..]).value;
      PipesLoop(done, ts) == PipesLoop(done + [c], rest)
  {}

  /** One turn of the loop of parse_args. */
  lemma ArgsStep(done: seq<string>, ts: seq<Token>)
    requires ts != [] && ts[0].Word?
    ensures |ts[0].text| > MAX_WORD_LENGTH ==> ArgsLoop(done, ts) == None
    ensures |ts[0].text| <= MAX_WORD_LENGTH ==>
      ArgsLoop(done, ts) == ArgsLoop(done + [ts[0].text], ts[1..]) && ArgRun(ts) == 1 + ArgRun(ts[1..])
  {}
}
