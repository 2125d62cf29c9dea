/**
 Lexing one token at a time from a position in a line, as next_token does
 (parser-for-shell-noodlez102/myshell_parser.c:30-75), and how that agrees with the tokens of the whole line.
 */
module ParserCursor {
  import opened ParserTokens

  datatype TokenType = TT_NONE | TT_AMPERSAND | TT_PIPE | TT_LEFT_ANGLE | TT_RIGHT_ANGLE | TT_WORD

  function TypeOf(ts: seq<Token>): TokenType {
    if ts == [] then TT_NONE
    else
      match ts[0]
      case Ampersand => TT_AMPERSAND
      case Pipe => TT_PIPE
      case LeftAngle => TT_LEFT_ANGLE
      case RightAngle => TT_RIGHT_ANGLE
      case Word(_) => TT_WORD
  }

  function TypeOfChar(c: char): TokenType {
    if c == '&' then TT_AMPERSAND
    else if c == '|' then TT_PIPE
    else if c == '<' then TT_LEFT_ANGLE
    else if c == '>' then TT_RIGHT_ANGLE
    else TT_WORD
  }

  /** What the lexer sees at the start of `s` when there is no whitespace to skip. */
  lemma Peek(s: string)
    requires s != "" ==> !IsSpace(s[0])
    ensures s == "" ==> Lex(s) == []
    ensures s != "" ==> Lex(s) != [] && Lex(s)[0] == FirstToken(s) && Lex(s)[1..] == Lex(s[FirstLength(s)..])
    ensures s != "" ==> Text(FirstToken(s)) == s[..FirstLength(s)]
  {
    assert s[0..] == s;
  }

  lemma Slices(s: string, i: nat, n: nat)
    requires i + n <= |s|
    ensures s[i..][n..] == s[i + n..] && s[i..][..n] == s[i..i + n]
  {}

  /** The first token of `s`, and the rest of `s`, when there is no whitespace to skip. */
  lemma FirstOf(s: string, length: nat, word: string, rest: string)
    requires s != "" && !IsSpace(s[0])
    requires length == FirstLength(s) && word == s[..length] && rest == s[length..]
    ensures Lex(s) != [] && Text(Lex(s)[0]) == word && Lex(s)[1..] == Lex(rest)
    ensures TypeOf(Lex(s)) == TypeOfChar(s[0])
  {
    Peek(s);
  }

  /** The token at position `i` of a line, and the tokens after it. */
  lemma TokenAt(line: string, i: nat, length: nat)
    requires i < |line| && !IsSpace(line[i])
    requires length == if IsSpecial(line[i]) then 1 else WordSpan(line[i..])
    ensures 0 < length <= |line| - i
    ensures var ts := Lex(line[i..]);
      && ts != []
      && Text(ts[0]) == line[i..i + length]
      && ts[1..] == Lex(line[i + length..])
      && TypeOf(ts) == TypeOfChar(line[i])
  {
    var s := line[i..];
    assert s[0] == line[i] && length == FirstLength(s);
    Slices(line, i, length);
    FirstOf(s, length, line[i..i + length], line[i + length..]);
  }

  /** The whitespace at position `i` of a line. */
  lemma SpaceAt(line: string, i: nat, k: nat)
    requires i <= |line| && k == i + SpaceSpan(line[i..])
    ensures k <= |line| && AllSpace(line[i..k]) && (k < |line| ==> !IsSpace(line[k]))
  {
    var s := line[i..];
    SpaceSpanSkipsSpace(s);
    Slices(line, i, k - i);
    assert forall j :: 0 <= j < |s| ==> s[j] == line[i + j];
  }

  lemma LexOfRest(s: string, n: nat, rest: string)
    requires n == SpaceSpan(s) && rest == s[n..]
    ensures Lex(rest) == Lex(s)
  {
    Peek(rest);
    if rest != "" {
      assert Lex(rest) == [Lex(rest)[0]] + Lex(rest)[1..];
    }
  }

  /** Skipping the whitespace at position `i` of a line leaves the tokens as they were. */
  lemma SkipSpace(line: string, i: nat, k: nat)
    requires i <= |line| && k == i + SpaceSpan(line[i..])
    ensures k <= |line| && Lex(line[k..]) == Lex(line[i..])
  {
    Slices(line, i, k - i);
    LexOfRest(line[i..], k - i, line[k..]);
  }

  /** `ahead[p]` holds the tokens at and after position `p`. */
  ghost predicate LexTable(line: string, ahead: seq<seq<Token>>) {
    |ahead| == |line| + 1 && forall p: nat :: p <= |line| ==> Linked(line, ahead, p)
  }

  ghost predicate Linked(line: string, ahead: seq<seq<Token>>, p: nat)
    requires p <= |line| && |ahead| == |line| + 1
  {
    ahead[p] == Lex(line[p..])
  }

  lemma TableSkip(line: string, ahead: seq<seq<Token>>, i: nat, k: nat)
    requires LexTable(line, ahead)
    requires i <= |line| && k == i + SpaceSpan(line[i..])
    ensures k <= |line| && ahead[k] == ahead[i] && AllSpace(line[i..k])
    ensures k < |line| ==> !IsSpace(line[k])
  {
    SpaceAt(line, i, k);
    SkipSpace(line, i, k);
    TableSame(line, ahead, i, k);
  }

  lemma TableSame(line: string, ahead: seq<seq<Token>>, i: nat, k: nat)
    requires LexTable(line, ahead)
    requires i <= |line| && k <= |line| && Lex(line[i..]) == Lex(line[k..])
    ensures ahead[i] == ahead[k]
  {
    assert Linked(line, ahead, i) && Linked(line, ahead, k);
  }

  lemma TableEnd(line: string, ahead: seq<seq<Token>>)
    requires LexTable(line, ahead)
    ensures ahead[|line|] == []
  {
    assert Linked(line, ahead, |line|);
    Peek(line[|line|..]);
  }

  lemma TableToken(line: string, ahead: seq<seq<Token>>, i: nat, length: nat)
    requires LexTable(line, ahead)
    requires i < |line| && !IsSpace(line[i])
    requires length == if IsSpecial(line[i]) then 1 else WordSpan(line[i..])
    ensures 0 < length <= |line| - i
    ensures ahead[i] != [] && Text(ahead[i][0]) == line[i..i + length]
    ensures ahead[i][1..] == ahead[i + length] && TypeOf(ahead[i]) == TypeOfChar(line[i])
  {
    TokenAt(line, i, length);
    assert Linked(line, ahead, i) && Linked(line, ahead, i + length);
  }
}
