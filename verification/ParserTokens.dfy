/**
 The lexer of the shell parser (parser-for-shell-noodlez102/myshell_parser.c:51-75), as a function from a
 line to its tokens, with the inverse direction: laying tokens out with whitespace between them.

 A line is the contents of a C string: the terminating NUL is the position after the last character, and no character
 of the line is one.
 */
module ParserTokens {

  datatype Token = Ampersand | Pipe | LeftAngle | RightAngle | Word(text: string)

  /** What a C string can hold before its terminator. */
  predicate IsLine(s: string) {
    forall i :: 0 <= i < |s| ==> s[i] != '\0'
  }

  predicate IsSpace(c: char) {
    c == '\n' || c == '\t' || c == ' '
  }

  predicate IsSpecial(c: char) {
    c == '<' || c == '>' || c == '|' || c == '&'
  }

  predicate IsWordChar(c: char) {
    !IsSpace(c) && !IsSpecial(c)
  }

  /** `strspn(s, WHITESPACE_CHARS)`: the length of the longest whitespace prefix. */
  function SpaceSpan(s: string): (n: nat)
    ensures n <= |s|
    ensures n < |s| ==> !IsSpace(s[n])
  {
    if s == "" || !IsSpace(s[0]) then 0 else 1 + SpaceSpan(s[1..])
  }

  /** `strcspn(s, WHITESPACE_CHARS SPECIAL_CHARS)`: the length of the longest prefix of word characters. */
  function WordSpan(s: string): (n: nat)
    ensures n <= |s|
    ensures s != "" && IsWordChar(s[0]) ==> n > 0
    ensures n < |s| ==> !IsWordChar(s[n])
  {
    if s == "" || !IsWordChar(s[0]) then 0 else 1 + WordSpan(s[1..])
  }

  lemma {:induction false} SpaceSpanSkipsSpace(s: string)
    ensures AllSpace(s[..SpaceSpan(s)])
  {
    if s != "" && IsSpace(s[0]) {
      SpaceSpanSkipsSpace(s[1..]);
      var n := SpaceSpan(s[1..]);
      assert s[..n + 1] == [s[0]] + s[1..][..n];
    }
  }

  lemma {:induction false} WordSpanTakesWord(s: string)
    ensures AllWordChars(s[..WordSpan(s)])
  {
    if s != "" && IsWordChar(s[0]) {
      WordSpanTakesWord(s[1..]);
      var n := WordSpan(s[1..]);
      assert s[..n + 1] == [s[0]] + s[1..][..n];
    }
  }

  function SpecialToken(c: char): Token
    requires IsSpecial(c)
  {
    if c == '&' then Ampersand else if c == '|' then Pipe else if c == '<' then LeftAngle else RightAngle
  }

  /** The number of characters of a token at the start of `s`, which holds no leading whitespace. */
  function FirstLength(s: string): (n: nat)
    requires s != "" && !IsSpace(s[0])
    ensures 0 < n <= |s|
  {
    if IsSpecial(s[0]) then 1 else WordSpan(s)
  }

  function FirstToken(s: string): Token
    requires s != "" && !IsSpace(s[0])
  {
    if IsSpecial(s[0]) then SpecialToken(s[0]) else Word(s[..WordSpan(s)])
  }

  /** All tokens of a line. */
  function Lex(s: string): seq<Token>
    decreases |s|
  {
    var rest := s[SpaceSpan(s)..];
    if rest == "" then [] else [FirstToken(rest)] + Lex(rest[FirstLength(rest)..])
  }

  /** The whitespace before each token of a line, and after the last one. */
  function Gaps(s: string): (gaps: seq<string>)
    ensures |gaps| == |Lex(s)| + 1
    decreases |s|
  {
    var n := SpaceSpan(s);
    var rest := s[n..];
    if rest == "" then [s] else [s[..n]] + Gaps(rest[FirstLength(rest)..])
  }

  function Text(t: Token): string {
    match t
    case Ampersand => "&"
    case Pipe => "|"
    case LeftAngle => "<"
    case RightAngle => ">"
    case Word(text) => text
  }

  predicate LegalToken(t: Token) {
    t.Word? ==> t.text != "" && AllWordChars(t.text) && IsLine(t.text)
  }

  predicate LegalTokens(ts: seq<Token>) {
    forall i :: 0 <= i < |ts| ==> LegalToken(ts[i])
  }

  predicate AllSpace(s: string) {
    forall i :: 0 <= i < |s| ==> IsSpace(s[i])
  }

  predicate AllWordChars(s: string) {
    forall i :: 0 <= i < |s| ==> IsWordChar(s[i])
  }

  /** Whitespace strings around the tokens `ts`; two adjacent words need a nonempty one between them. */
  predicate LegalGaps(ts: seq<Token>, gaps: seq<string>) {
    && |gaps| == |ts| + 1
    && (forall i :: 0 <= i < |gaps| ==> AllSpace(gaps[i]))
    && (forall i :: 0 < i < |ts| && ts[i - 1].Word? && ts[i].Word? ==> gaps[i] != "")
  }

  /** The line that writes the tokens `ts` with the whitespace `gaps` around them. */
  function Layout(ts: seq<Token>, gaps: seq<string>): string
    requires |gaps| == |ts| + 1
  {
    if ts == [] then gaps[0] else gaps[0] + Text(ts[0]) + Layout(ts[1..], gaps[1..])
  }

  lemma {:induction false} SpaceSpanOfSplit(gap: string, rest: string)
    requires AllSpace(gap)
    requires rest == "" || !IsSpace(rest[0])
    ensures SpaceSpan(gap + rest) == |gap|
  {
    if gap == "" {
      assert gap + rest == rest;
    } else {
      assert (gap + rest)[1..] == gap[1..] + rest;
      SpaceSpanOfSplit(gap[1..], rest);
    }
  }

  lemma {:induction false} WordSpanOfSplit(word: string, rest: string)
    requires AllWordChars(word)
    requires rest == "" || !IsWordChar(rest[0])
    ensures WordSpan(word + rest) == |word|
  {
    if word == "" {
      assert word + rest == rest;
    } else {
      assert (word + rest)[1..] == word[1..] + rest;
      WordSpanOfSplit(word[1..], rest);
    }
  }

  /** What follows a word in a legal layout does not extend the word. */
  lemma WordEnds(ts: seq<Token>, gaps: seq<string>)
    requires LegalTokens(ts) && LegalGaps(ts, gaps)
    requires |ts| > 1 && ts[0].Word?
    ensures var rest := Layout(ts[1..], gaps[1..]); rest == "" || !IsWordChar(rest[0])
  {
    var rest := Layout(ts[1..], gaps[1..]);
    assert AllSpace(gaps[1]) && LegalToken(ts[1]);
    assert rest == gaps[1] + Text(ts[1]) + Layout(ts[1..][1..], gaps[1..][1..]);
    if gaps[1] != "" {
      assert rest[0] == gaps[1][0];
    } else {
      assert rest[0] == Text(ts[1])[0];
    }
  }

  lemma LexStep(gap: string, t: Token, rest: string)
    requires AllSpace(gap) && LegalToken(t)
    requires t.Word? ==> rest == "" || !IsWordChar(rest[0])
    ensures Lex(gap + Text(t) + rest) == [t] + Lex(rest)
  {
    var s := gap + Text(t) + rest;
    var tail := Text(t) + rest;
    assert s == gap + tail;
    assert tail[0] == Text(t)[0];
    SpaceSpanOfSplit(gap, tail);
    assert s[SpaceSpan(s)..] == tail;
    if t.Word? {
      WordSpanOfSplit(t.text, rest);
      assert tail[..WordSpan(tail)] == t.text;
    }
    assert FirstToken(tail) == t;
    assert tail[FirstLength(tail)..] == rest;
  }

  /** Any legal amount of whitespace around the tokens is skipped: lexing undoes layout. */
  lemma {:induction false} LexOfLayout(ts: seq<Token>, gaps: seq<string>)
    requires LegalTokens(ts) && LegalGaps(ts, gaps)
    ensures Lex(Layout(ts, gaps)) == ts
  {
    assert AllSpace(gaps[0]);
    if ts == [] {
      SpaceSpanOfSplit(gaps[0], "");
      assert gaps[0] + "" == gaps[0];
    } else {
      LexOfLayout(ts[1..], gaps[1..]);
      if ts[0].Word? && |ts| > 1 {
        WordEnds(ts, gaps);
      } else if ts[0].Word? {
        assert AllSpace(gaps[1]) && Layout(ts[1..], gaps[1..]) == gaps[1];
      }
      LexStep(gaps[0], ts[0], Layout(ts[1..], gaps[1..]));
    }
  }

  /** What is laid out is a line. */
  lemma {:induction false} LayoutIsLine(ts: seq<Token>, gaps: seq<string>)
    requires LegalTokens(ts) && LegalGaps(ts, gaps)
    ensures IsLine(Layout(ts, gaps))
    decreases |ts|
  {
    assert AllSpace(gaps[0]);
    if ts != [] {
      assert LegalToken(ts[0]) && IsLine(Text(ts[0]));
      LayoutIsLine(ts[1..], gaps[1..]);
    }
  }

  /** Extending a legal layout by one token at the front. */
  lemma LayoutStep(gap: string, t: Token, ts: seq<Token>, gaps: seq<string>)
    requires AllSpace(gap) && LegalToken(t) && LegalTokens(ts) && LegalGaps(ts, gaps)
    requires t.Word? && ts != [] && ts[0].Word? ==> gaps[0] != ""
    ensures LegalTokens([t] + ts) && LegalGaps([t] + ts, [gap] + gaps)
    ensures Layout([t] + ts, [gap] + gaps) == gap + Text(t) + Layout(ts, gaps)
  {
    var ts', gaps' := [t] + ts, [gap] + gaps;
    assert ts'[1..] == ts && gaps'[1..] == gaps;
    forall i | 0 < i < |ts'| && ts'[i - 1].Word? && ts'[i].Word?
      ensures gaps'[i] != ""
    {
      if i > 1 {
        assert ts[i - 2].Word? && ts[i - 1].Word?;
      }
    }
  }

  /** Lexing loses nothing: the skipped whitespace and the token texts rebuild the line, and words are maximal. */
  lemma {:induction false} LayoutOfLex(s: string)
    requires IsLine(s)
    ensures LegalTokens(Lex(s))
    ensures LegalGaps(Lex(s), Gaps(s))
    ensures Layout(Lex(s), Gaps(s)) == s
    decreases |s|
  {
    var n := SpaceSpan(s);
    var rest := s[n..];
    SpaceSpanSkipsSpace(s);
    if rest == "" {
      assert s[..n] == s;
    } else {
      var t, k := FirstToken(rest), FirstLength(rest);
      var tail := rest[k..];
      LayoutOfLex(tail);
      FirstTokenText(rest);
      if t.Word? && Lex(tail) != [] && Lex(tail)[0].Word? {
        WordFollowsSpace(tail);
      }
      LayoutStep(s[..n], t, Lex(tail), Gaps(tail));
      Reassemble(s, n, Text(t), tail);
    }
  }

  lemma Reassemble(s: string, n: nat, text: string, tail: string)
    requires n <= |s| && s[n..] == text + tail
    ensures s[..n] + text + tail == s
  {
    assert s == s[..n] + s[n..];
  }

  lemma FirstTokenText(s: string)
    requires s != "" && !IsSpace(s[0]) && IsLine(s)
    ensures LegalToken(FirstToken(s))
    ensures Text(FirstToken(s)) + s[FirstLength(s)..] == s
    ensures FirstToken(s).Word? && FirstLength(s) < |s| ==> !IsWordChar(s[FirstLength(s)])
  {
    WordSpanTakesWord(s);
    assert Text(FirstToken(s)) == s[..FirstLength(s)];
  }

  /** If a text that does not start with a word character lexes to a word first, whitespace comes before it. */
  lemma WordFollowsSpace(s: string)
    requires Lex(s) != [] && Lex(s)[0].Word?
    requires s == "" || !IsWordChar(s[0])
    ensures Gaps(s)[0] != ""
  {
    var rest := s[SpaceSpan(s)..];
    assert Lex(s)[0] == FirstToken(rest);
    assert SpaceSpan(s) == 0 ==> rest == s;
  }
}
