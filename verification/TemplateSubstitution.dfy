/**
 Instantiating type templates: every token of a text that is a parameter is replaced, all at once,
 and text inside string literals is copied.
 */
module TemplateSubstitution {

  type Bindings = map<string, string>

  predicate IsTokenChar(c: char) {
    c == '_' || c == '$' || '0' <= c <= '9' || 'a' <= c <= 'z' || 'A' <= c <= 'Z'
  }

  predicate IsToken(s: string) {
    s != [] && forall c :: c in s ==> IsTokenChar(c)
  }

  // ---------------------------------------------------------------- reading text as lexemes

  /** Outside string literals, or inside one, possibly right after a backslash. */
  datatype Mode = Outside | InString(escaped: bool)

  datatype Lexeme = Token(text: string) | Plain(ch: char) | Quoted(ch: char)

  function NextMode(mode: Mode, c: char): Mode {
    match mode
    case Outside => if c == '"' then InString(false) else Outside
    case InString(escaped) =>
      if escaped then InString(false) else if c == '\\' then InString(true) else if c == '"' then Outside else mode
  }

  function EndMode(mode: Mode, text: string): Mode
    decreases |text|
  {
    if text == [] then mode else EndMode(NextMode(mode, text[0]), text[1..])
  }

  function TokenLexeme(token: string): seq<Lexeme> {
    if token == [] then [] else [Token(token)]
  }

  /** The lexemes of `text` when reading starts in `mode` with `token` already read. */
  function Lex(mode: Mode, token: string, text: string): seq<Lexeme>
    decreases |text|
  {
    if text == [] then TokenLexeme(token)
    else
      var c := text[0];
      if mode.InString? then [Quoted(c)] + Lex(NextMode(mode, c), token, text[1..])
      else if c == '"' then TokenLexeme(token) + ([Quoted(c)] + Lex(InString(false), [], text[1..]))
      else if IsTokenChar(c) then Lex(Outside, token + [c], text[1..])
      else TokenLexeme(token) + ([Plain(c)] + Lex(Outside, [], text[1..]))
  }

  function Lexemes(text: string): seq<Lexeme> {
    Lex(Outside, [], text)
  }

  /** Write one lexeme out, replaced if it is a bound token. */
  function Written(l: Lexeme, b: Bindings): string {
    match l
    case Token(t) => if t in b then b[t] else t
    case Plain(c) => [c]
    case Quoted(c) => [c]
  }

  function Render(ls: seq<Lexeme>, b: Bindings): string {
    if ls == [] then [] else Written(ls[0], b) + Render(ls[1..], b)
  }

  function Substituted(text: string, b: Bindings): string {
    Render(Lexemes(text), b)
  }

  // ---------------------------------------------------------------- the loop

  lemma {:induction false} RenderConcat(x: seq<Lexeme>, y: seq<Lexeme>, b: Bindings)
    ensures Render(x + y, b) == Render(x, b) + Render(y, b)
  {
    if x == [] {
      assert x + y == y;
    } else {
      assert (x + y)[1..] == x[1..] + y;
      RenderConcat(x[1..], y, b);
    }
  }

  function Flushed(token: string, b: Bindings): string {
    if token == [] then [] else if token in b then b[token] else token
  }

  lemma FlushRenders(token: string, b: Bindings)
    ensures Render(TokenLexeme(token), b) == Flushed(token, b)
  {
  }

  lemma RenderStep(mode: Mode, token: string, text: string, b: Bindings)
    requires text != [] && (mode.InString? ==> token == [])
    ensures var c, rest := text[0], text[1..];
      Render(Lex(mode, token, text), b) ==
        if mode.InString? then [c] + Render(Lex(NextMode(mode, c), [], rest), b)
        else if c == '"' then Flushed(token, b) + ([c] + Render(Lex(InString(false), [], rest), b))
        else if IsTokenChar(c) then Render(Lex(Outside, token + [c], rest), b)
        else Flushed(token, b) + ([c] + Render(Lex(Outside, [], rest), b))
  {
    var c, rest := text[0], text[1..];
    FlushRenders(token, b);
    if !mode.InString? && c == '"' {
      RenderConcat(TokenLexeme(token), [Quoted(c)] + Lex(InString(false), [], rest), b);
    } else if !mode.InString? && !IsTokenChar(c) {
      RenderConcat(TokenLexeme(token), [Plain(c)] + Lex(Outside, [], rest), b);
    }
  }

  /** What is still to be written when `token` and then `text` have yet to be. */
  function Pending(mode: Mode, token: string, text: string, b: Bindings): string {
    Render(Lex(mode, token, text), b)
  }

  lemma WriteQuoted(out: string, mode: Mode, text: string, b: Bindings)
    requires text != [] && mode.InString?
    ensures out + Pending(mode, [], text, b) == (out + [text[0]]) + Pending(NextMode(mode, text[0]), [], text[1..], b)
  {
    RenderStep(mode, [], text, b);
    Associate(out, [text[0]], Pending(NextMode(mode, text[0]), [], text[1..], b));
  }

  lemma WriteBoundary(out: string, token: string, text: string, b: Bindings)
    requires text != [] && !IsTokenChar(text[0])
    ensures out + Pending(Outside, token, text, b)
         == (out + Flushed(token, b) + [text[0]]) + Pending(NextMode(Outside, text[0]), [], text[1..], b)
  {
    RenderStep(Outside, token, text, b);
    Associate3(out, Flushed(token, b), [text[0]], Pending(NextMode(Outside, text[0]), [], text[1..], b));
  }

  method Substitute(text: string, b: Bindings) returns (out: string)
    ensures out == Substituted(text, b)
  {
    out := "";
    var token, inString, escaped := "", false, false;
    var i := 0;
    assert text[0..] == text;
    while i < |text|
      invariant i <= |text| && (inString ==> token == []) && (escaped ==> inString)
      invariant out + Pending(if inString then InString(escaped) else Outside, token, text[i..], b)
             == Substituted(text, b)
    {
      var ch := text[i];
      assert text[i..][0] == ch && text[i..][1..] == text[i + 1..];
      if inString {
        WriteQuoted(out, InString(escaped), text[i..], b);
        out := out + [ch];
        if escaped {
          escaped := false;
        } else if ch == '\\' {
          escaped := true;
        } else if ch == '"' {
          inString := false;
        }
      } else if IsTokenChar(ch) {
        RenderStep(Outside, token, text[i..], b);
        token := token + [ch];
      } else {
        WriteBoundary(out, token, text[i..], b);
        out := out + Flushed(token, b) + [ch];
        token := "";
        inString := ch == '"';
      }
      i := i + 1;
    }
    assert text[i..] == [];
    FlushRenders(token, b);
    out := out + Flushed(token, b);
  }

  lemma Associate<T>(a: seq<T>, b: seq<T>, c: seq<T>)
    ensures a + (b + c) == (a + b) + c
  {
  }

  lemma Associate3<T>(a: seq<T>, b: seq<T>, c: seq<T>, d: seq<T>)
    ensures a + (b + (c + d)) == ((a + b) + c) + d
  {
  }

  // ---------------------------------------------------------------- reading is faithful

  predicate AllTokenChars(s: string) {
    forall i :: 0 <= i < |s| ==> IsTokenChar(s[i])
  }

  /** Writing the lexemes back gives the text. */
  lemma {:induction false} ReadingLosesNothing(mode: Mode, token: string, text: string)
    requires mode.InString? ==> token == []
    ensures Render(Lex(mode, token, text), map[]) == token + text
    decreases |text|
  {
    if text == [] {
      FlushRenders(token, map[]);
      assert token + text == token;
    } else {
      var c, rest := text[0], text[1..];
      RenderStep(mode, token, text, map[]);
      assert text == [c] + rest;
      if mode.InString? {
        ReadingLosesNothing(NextMode(mode, c), [], rest);
        assert [] + rest == rest && [] + text == text;
      } else if c != '"' && IsTokenChar(c) {
        ReadingLosesNothing(Outside, token + [c], rest);
        Associate(token, [c], rest);
      } else {
        ReadingLosesNothing(NextMode(Outside, c), [], rest);
        assert [] + rest == rest;
      }
    }
  }

  predicate NoTokenFirst(ls: seq<Lexeme>) {
    ls == [] || !ls[0].Token?
  }

  /** Every token is a whole run of token characters: no token follows another directly. */
  predicate WholeTokens(ls: seq<Lexeme>) {
    ls == [] || ((ls[0].Token? ==> IsToken(ls[0].text) && NoTokenFirst(ls[1..])) && WholeTokens(ls[1..]))
  }

  lemma {:induction false} ReadingFindsWholeTokens(mode: Mode, token: string, text: string)
    requires (mode.InString? ==> token == []) && AllTokenChars(token)
    ensures WholeTokens(Lex(mode, token, text))
    decreases |text|
  {
    if text == [] {
      assert token != [] ==> [Token(token)][1..] == [];
    } else {
      var c, rest := text[0], text[1..];
      if mode.InString? {
        ReadingFindsWholeTokens(NextMode(mode, c), [], rest);
      } else if c == '"' {
        ReadingFindsWholeTokens(InString(false), [], rest);
        TokenBeforeOther(token, Quoted(c), Lex(InString(false), [], rest));
      } else if IsTokenChar(c) {
        ReadingFindsWholeTokens(Outside, token + [c], rest);
      } else {
        ReadingFindsWholeTokens(Outside, [], rest);
        TokenBeforeOther(token, Plain(c), Lex(Outside, [], rest));
      }
    }
  }

  lemma TokenBeforeOther(token: string, l: Lexeme, ls: seq<Lexeme>)
    requires AllTokenChars(token) && !l.Token? && WholeTokens(ls)
    ensures WholeTokens(TokenLexeme(token) + ([l] + ls))
  {
    var tail := [l] + ls;
    assert tail[1..] == ls;
    if token == [] {
      assert TokenLexeme(token) + tail == tail;
    } else {
      assert (TokenLexeme(token) + tail)[1..] == tail;
    }
  }

  // ---------------------------------------------------------------- reading text in two parts

  /** Text that closes every string literal it opens. */
  predicate Balanced(text: string) {
    EndMode(Outside, text) == Outside
  }

  /** Reading splits where the first part is back outside literals and no token runs on into the second. */
  lemma {:induction false} LexSplits(mode: Mode, token: string, r: string, s: string)
    requires (mode.InString? ==> token == []) && EndMode(mode, r) == Outside && (s == [] || !IsTokenChar(s[0]))
    ensures Lex(mode, token, r + s) == Lex(mode, token, r) + Lex(Outside, [], s)
    decreases |r|
  {
    if r == [] {
      assert r + s == s;
    } else {
      var c, rest := r[0], r[1..];
      assert (r + s)[0] == c && (r + s)[1..] == rest + s;
      if mode.InString? {
        LexSplits(NextMode(mode, c), [], rest, s);
        Associate([Quoted(c)], Lex(NextMode(mode, c), [], rest), Lex(Outside, [], s));
      } else if c == '"' {
        LexSplits(InString(false), [], rest, s);
        Associate3(TokenLexeme(token), [Quoted(c)], Lex(InString(false), [], rest), Lex(Outside, [], s));
        Associate(TokenLexeme(token), [Quoted(c)], Lex(InString(false), [], rest));
      } else if IsTokenChar(c) {
        LexSplits(Outside, token + [c], rest, s);
      } else {
        LexSplits(Outside, [], rest, s);
        Associate3(TokenLexeme(token), [Plain(c)], Lex(Outside, [], rest), Lex(Outside, [], s));
        Associate(TokenLexeme(token), [Plain(c)], Lex(Outside, [], rest));
      }
    }
  }

  /** If the first part ends inside a literal, the second is read from there. */
  lemma {:induction false} LexSplitsInString(mode: Mode, token: string, r: string, s: string)
    requires (mode.InString? ==> token == []) && EndMode(mode, r).InString?
    ensures Lex(mode, token, r + s) == Lex(mode, token, r) + Lex(EndMode(mode, r), [], s)
    decreases |r|
  {
    if r == [] {
      assert r + s == s;
    } else {
      var c, rest := r[0], r[1..];
      assert (r + s)[0] == c && (r + s)[1..] == rest + s;
      if mode.InString? {
        LexSplitsInString(NextMode(mode, c), [], rest, s);
        Associate([Quoted(c)], Lex(NextMode(mode, c), [], rest), Lex(EndMode(mode, r), [], s));
      } else if c == '"' {
        LexSplitsInString(InString(false), [], rest, s);
        Associate3(TokenLexeme(token), [Quoted(c)], Lex(InString(false), [], rest), Lex(EndMode(mode, r), [], s));
        Associate(TokenLexeme(token), [Quoted(c)], Lex(InString(false), [], rest));
      } else if IsTokenChar(c) {
        LexSplitsInString(Outside, token + [c], rest, s);
      } else {
        LexSplitsInString(Outside, [], rest, s);
        Associate3(TokenLexeme(token), [Plain(c)], Lex(Outside, [], rest), Lex(EndMode(mode, r), [], s));
        Associate(TokenLexeme(token), [Plain(c)], Lex(Outside, [], rest));
      }
    }
  }

  lemma {:induction false} TokenIsBalanced(s: string)
    requires AllTokenChars(s)
    ensures Balanced(s)
  {
    if s != [] {
      assert IsTokenChar(s[0]);
      TokenIsBalanced(s[1..]);
    }
  }

  lemma {:induction false} TokenReadsAsItself(token: string, s: string)
    requires AllTokenChars(s)
    ensures Lex(Outside, token, s) == TokenLexeme(token + s)
    decreases |s|
  {
    if s == [] {
      assert token + s == token;
    } else {
      assert IsTokenChar(s[0]);
      TokenReadsAsItself(token + [s[0]], s[1..]);
      assert token + [s[0]] + s[1..] == token + s;
    }
  }

  // ---------------------------------------------------------------- replacements stay in place

  function Expanded(l: Lexeme, b: Bindings): seq<Lexeme> {
    if l.Token? && l.text in b then Lexemes(b[l.text]) else [l]
  }

  /** Every bound token replaced by the lexemes of its replacement, everything else left alone. */
  function Expand(ls: seq<Lexeme>, b: Bindings): seq<Lexeme> {
    if ls == [] then [] else Expanded(ls[0], b) + Expand(ls[1..], b)
  }

  /** Replacements that can be inserted at all close the literals they open. */
  predicate Closed(b: Bindings) {
    forall t :: t in b && IsToken(t) ==> Balanced(b[t])
  }

  lemma FlushedReads(token: string, b: Bindings)
    requires Closed(b) && AllTokenChars(token)
    ensures Balanced(Flushed(token, b))
    ensures Lexemes(Flushed(token, b)) == Expand(TokenLexeme(token), b)
  {
    if token != [] {
      assert IsToken(token);
      assert Expand([Token(token)], b) == Expanded(Token(token), b);
    }
    if token !in b {
      TokenIsBalanced(token);
      TokenReadsAsItself([], token);
      assert [] + token == token;
    }
  }

  /** What is written for one flushed token and the character after it reads back as its expansion. */
  lemma FlushReadsInPlace(token: string, c: char, l: Lexeme, ls: seq<Lexeme>, next: Mode, b: Bindings)
    requires Closed(b) && AllTokenChars(token) && !IsTokenChar(c)
    requires if c == '"' then l == Quoted(c) && next == InString(false) else l == Plain(c) && next == Outside
    requires Lex(next, [], Render(ls, b)) == Expand(ls, b)
    ensures Lexemes(Flushed(token, b) + ([c] + Render(ls, b))) == Expand(TokenLexeme(token) + ([l] + ls), b)
  {
    var tail := [c] + Render(ls, b);
    assert Lex(Outside, [], tail) == Expand([l] + ls, b) by {
      ReadsBackAfter(c, l, Render(ls, b), ls, next, b);
    }
    FlushedReads(token, b);
    LexSplits(Outside, [], Flushed(token, b), tail);
    ExpandConcat(TokenLexeme(token), [l] + ls, b);
  }

  lemma ReadsBackAfter(c: char, l: Lexeme, written: string, ls: seq<Lexeme>, next: Mode, b: Bindings)
    requires !IsTokenChar(c)
    requires if c == '"' then l == Quoted(c) && next == InString(false) else l == Plain(c) && next == Outside
    requires Lex(next, [], written) == Expand(ls, b)
    ensures Lex(Outside, [], [c] + written) == Expand([l] + ls, b)
  {
    assert ([c] + written)[1..] == written && ([l] + ls)[1..] == ls;
    assert [] + ([l] + Lex(next, [], written)) == [l] + Lex(next, [], written);
  }

  lemma {:induction false} ExpandConcat(x: seq<Lexeme>, y: seq<Lexeme>, b: Bindings)
    ensures Expand(x + y, b) == Expand(x, b) + Expand(y, b)
  {
    if x == [] {
      assert x + y == y;
    } else {
      assert (x + y)[1..] == x[1..] + y;
      ExpandConcat(x[1..], y, b);
    }
  }

  lemma {:induction false} WrittenReadsBack(mode: Mode, token: string, text: string, b: Bindings)
    requires Closed(b) && AllTokenChars(token) && (mode.InString? ==> token == [])
    ensures Lex(mode, [], Render(Lex(mode, token, text), b)) == Expand(Lex(mode, token, text), b)
    decreases |text|
  {
    if text == [] {
      FlushRenders(token, b);
      FlushedReads(token, b);
      if mode.InString? {
        assert Lex(mode, token, text) == [];
      }
    } else {
      var c, rest := text[0], text[1..];
      RenderStep(mode, token, text, b);
      if mode.InString? {
        var next := Lex(NextMode(mode, c), [], rest);
        WrittenReadsBack(NextMode(mode, c), [], rest, b);
        assert ([c] + Render(next, b))[1..] == Render(next, b);
        assert ([Quoted(c)] + next)[1..] == next;
      } else if c == '"' {
        WrittenReadsBack(InString(false), [], rest, b);
        FlushReadsInPlace(token, c, Quoted(c), Lex(InString(false), [], rest), InString(false), b);
      } else if IsTokenChar(c) {
        WrittenReadsBack(Outside, token + [c], rest, b);
      } else {
        WrittenReadsBack(Outside, [], rest, b);
        FlushReadsInPlace(token, c, Plain(c), Lex(Outside, [], rest), Outside, b);
      }
    }
  }

  /**
   The result reads as the original with each bound token replaced by the lexemes of its replacement: no
   replacement joins a neighbouring token, and literals, theirs and those around them, stay as they are.
   */
  lemma ReplacementsStayInPlace(text: string, b: Bindings)
    requires Closed(b)
    ensures Lexemes(Substituted(text, b)) == Expand(Lexemes(text), b)
  {
    WrittenReadsBack(Outside, [], text, b);
  }

  // ---------------------------------------------------------------- identifiers and literals

  /** A character an identifier is made of: a letter, a digit, an underscore or a dollar sign. */
  predicate InIdentifier(c: char) {
    'a' <= c <= 'z' || 'A' <= c <= 'Z' || '0' <= c <= '9' || c == '_' || c == '$'
  }

  predicate IsIdentifier(w: string) {
    w != [] && forall i :: 0 <= i < |w| ==> InIdentifier(w[i])
  }

  /** `a` is closed and does not end inside an identifier, and `b` does not begin inside one. */
  predicate StandsAlone(a: string, b: string) {
    Balanced(a) && (a == [] || !InIdentifier(a[|a| - 1])) && (b == [] || !InIdentifier(b[0]))
  }

  /** Reading after a character that is no token starts afresh. */
  lemma {:induction false} LexSplitsAfter(mode: Mode, token: string, r: string, s: string)
    requires (mode.InString? ==> token == []) && EndMode(mode, r) == Outside
    requires if r == [] then token == [] else !IsTokenChar(r[|r| - 1])
    ensures Lex(mode, token, r + s) == Lex(mode, token, r) + Lex(Outside, [], s)
    decreases |r|
  {
    if r == [] {
      assert r + s == s;
    } else {
      var c, rest := r[0], r[1..];
      assert (r + s)[0] == c && (r + s)[1..] == rest + s;
      assert rest != [] ==> rest[|rest| - 1] == r[|r| - 1];
      if mode.InString? {
        LexSplitsAfter(NextMode(mode, c), [], rest, s);
        Associate([Quoted(c)], Lex(NextMode(mode, c), [], rest), Lex(Outside, [], s));
      } else if c == '"' {
        LexSplitsAfter(InString(false), [], rest, s);
        Associate3(TokenLexeme(token), [Quoted(c)], Lex(InString(false), [], rest), Lex(Outside, [], s));
        Associate(TokenLexeme(token), [Quoted(c)], Lex(InString(false), [], rest));
      } else if IsTokenChar(c) {
        LexSplitsAfter(Outside, token + [c], rest, s);
      } else {
        LexSplitsAfter(Outside, [], rest, s);
        Associate3(TokenLexeme(token), [Plain(c)], Lex(Outside, [], rest), Lex(Outside, [], s));
        Associate(TokenLexeme(token), [Plain(c)], Lex(Outside, [], rest));
      }
    }
  }

  /** An identifier that stands alone is replaced as a whole or left alone, whatever parts of it are bound. */
  lemma IdentifiersAreReplacedWhole(a: string, w: string, b: string, bound: Bindings)
    requires IsIdentifier(w) && StandsAlone(a, b)
    ensures Substituted(a + (w + b), bound)
         == Substituted(a, bound) + ((if w in bound then bound[w] else w) + Substituted(b, bound))
  {
    assert AllTokenChars(w);
    TokenIsBalanced(w);
    LexSplitsAfter(Outside, [], a, w + b);
    LexSplits(Outside, [], w, b);
    TokenReadsAsItself([], w);
    assert [] + w == w;
    RenderConcat(Lexemes(a), Lexemes(w) + Lexemes(b), bound);
    RenderConcat(Lexemes(w), Lexemes(b), bound);
    FlushRenders(w, bound);
  }

  /** The inside of a string literal: a backslash takes the next character with it, and a quote only so. */
  predicate LiteralBody(s: string)
    decreases |s|
  {
    s == [] || (if s[0] == '\\' then |s| > 1 && LiteralBody(s[2..]) else s[0] != '"' && LiteralBody(s[1..]))
  }

  lemma QuotedRenders(c: char, ls: seq<Lexeme>, bound: Bindings)
    ensures Render([Quoted(c)] + ls, bound) == [c] + Render(ls, bound)
  {
    assert ([Quoted(c)] + ls)[1..] == ls;
  }

  lemma QuotedFirst(mode: Mode, c: char, tail: string, bound: Bindings)
    requires mode.InString?
    ensures Render(Lex(mode, [], [c] + tail), bound) == [c] + Render(Lex(NextMode(mode, c), [], tail), bound)
  {
    assert ([c] + tail)[1..] == tail;
    QuotedRenders(c, Lex(NextMode(mode, c), [], tail), bound);
  }

  /** What is written for text that begins inside a literal. */
  function FromLiteral(text: string, bound: Bindings): string {
    Render(Lex(InString(false), [], text), bound)
  }

  lemma LiteralEnds(rest: string, bound: Bindings)
    ensures FromLiteral("\"" + rest, bound) == "\"" + Substituted(rest, bound)
  {
    QuotedFirst(InString(false), '"', rest, bound);
  }

  lemma LiteralGoesOn(c: char, tail: string, bound: Bindings)
    requires c != '"' && c != '\\'
    ensures FromLiteral([c] + tail, bound) == [c] + FromLiteral(tail, bound)
  {
    QuotedFirst(InString(false), c, tail, bound);
  }

  lemma EscapeGoesOn(c: char, tail: string, bound: Bindings)
    ensures FromLiteral(['\\', c] + tail, bound) == ['\\', c] + FromLiteral(tail, bound)
  {
    QuotedFirst(InString(false), '\\', [c] + tail, bound);
    QuotedFirst(InString(true), c, tail, bound);
    assert ['\\', c] + tail == ['\\'] + ([c] + tail);
  }

  lemma {:induction false} BodyIsQuoted(s: string, rest: string, bound: Bindings)
    requires LiteralBody(s)
    ensures FromLiteral(s + ("\"" + rest), bound) == s + ("\"" + Substituted(rest, bound))
    decreases |s|
  {
    var end, written := "\"" + rest, "\"" + Substituted(rest, bound);
    if s == [] {
      LiteralEnds(rest, bound);
      assert s + end == end && s + written == written;
    } else {
      var n := if s[0] == '\\' then 2 else 1;
      BodyIsQuoted(s[n..], rest, bound);
      Associate(s[..n], s[n..], end);
      Associate(s[..n], s[n..], written);
      assert s[..n] + s[n..] == s;
      if n == 2 {
        assert s[..n] == ['\\', s[1]];
        EscapeGoesOn(s[1], s[n..] + end, bound);
      } else {
        assert s[..n] == [s[0]];
        LiteralGoesOn(s[0], s[n..] + end, bound);
      }
    }
  }

  /** A string literal stays as it is, whatever is bound, and what is around it is substituted without regard to it. */
  lemma LiteralsStay(a: string, body: string, b: string, bound: Bindings)
    requires Balanced(a) && LiteralBody(body)
    ensures Substituted(a + ("\"" + (body + ("\"" + b))), bound)
         == Substituted(a, bound) + ("\"" + (body + ("\"" + Substituted(b, bound))))
  {
    var tail := body + ("\"" + b);
    var literal := "\"" + tail;
    assert literal[0] == '"' && literal[1..] == tail;
    LexSplits(Outside, [], a, literal);
    assert Lexemes(literal) == [Quoted('"')] + Lex(InString(false), [], tail);
    BodyIsQuoted(body, b, bound);
    QuotedRenders('"', Lex(InString(false), [], tail), bound);
    RenderConcat(Lexemes(a), Lexemes(literal), bound);
  }

  // ---------------------------------------------------------------- composition

  function Compose(b1: Bindings, b2: Bindings): Bindings {
    map k | k in b1.Keys + b2.Keys :: if k in b1 then Substituted(b1[k], b2) else b2[k]
  }

  lemma {:induction false} RenderExpanded(ls: seq<Lexeme>, b1: Bindings, b2: Bindings)
    ensures Render(Expand(ls, b1), b2) == Render(ls, Compose(b1, b2))
  {
    if ls != [] {
      RenderConcat(Expanded(ls[0], b1), Expand(ls[1..], b1), b2);
      RenderExpanded(ls[1..], b1, b2);
      assert Render([ls[0]], b2) == Written(ls[0], b2) + [] == Written(ls[0], b2);
    }
  }

  ghost predicate ComposesOn(text: string, b1: Bindings, b2: Bindings) {
    Substituted(Substituted(text, b1), b2) == Substituted(text, Compose(b1, b2))
  }

  ghost predicate Composes(b1: Bindings) {
    forall text, b2 :: ComposesOn(text, b1, b2)
  }

  lemma {:induction false} FreshName(keys: set<string>) returns (x: string)
    ensures IsToken(x) && forall k :: k in keys ==> |k| < |x|
    decreases keys
  {
    if keys == {} {
      x := "a";
    } else {
      var k :| k in keys;
      var y := FreshName(keys - {k});
      x := y + seq(|k| + 1, i => 'a');
    }
  }

  lemma {:induction false} QuotedTokenStays(token: string, b: Bindings)
    requires AllTokenChars(token)
    ensures Render(Lex(InString(false), [], token), b) == token
  {
    if token != [] {
      RenderStep(InString(false), [], token, b);
      assert IsTokenChar(token[0]);
      QuotedTokenStays(token[1..], b);
      assert token == [token[0]] + token[1..];
    }
  }

  lemma SpaceThenToken(x: string)
    requires IsToken(x)
    ensures Lex(Outside, [], [' '] + x) == [Plain(' '), Token(x)]
  {
    TokenReadsAsItself([], x);
    assert [] + x == x && ([' '] + x)[1..] == x;
  }

  /** The template `t x` for tokens `t` and `x`. */
  lemma TwoTokens(t: string, x: string, b: Bindings)
    requires IsToken(t) && IsToken(x)
    ensures Substituted(t + ([' '] + x), b) == Flushed(t, b) + ([' '] + Flushed(x, b))
  {
    assert Lexemes(t + ([' '] + x)) == [Token(t)] + [Plain(' '), Token(x)] by {
      TokenReadsAsItself([], t);
      TokenIsBalanced(t);
      assert [] + t == t;
      LexSplits(Outside, [], t, [' '] + x);
      SpaceThenToken(x);
    }
    RenderConcat([Token(t)], [Plain(' '), Token(x)], b);
    FlushRenders(t, b);
    FlushRenders(x, b);
    assert [Plain(' '), Token(x)][1..] == [Token(x)];
  }

  /** After text that ends inside a literal, a token is quoted and stays. */
  lemma TokenAfterOpenLiteral(r: string, x: string, b: Bindings)
    requires !Balanced(r) && IsToken(x)
    ensures Substituted(r + ([' '] + x), b) == Substituted(r, b) + ([' '] + x)
  {
    var mode, tail := EndMode(Outside, r), [' '] + x;
    LexSplitsInString(Outside, [], r, tail);
    RenderConcat(Lexemes(r), Lex(mode, [], tail), b);
    RenderStep(mode, [], tail, b);
    assert tail[1..] == x && NextMode(mode, ' ') == InString(false);
    QuotedTokenStays(x, b);
  }

  /** Composed bindings replace both tokens of the template, by nothing in the second place. */
  lemma ComposedOnTwoTokens(t: string, x: string, b1: Bindings)
    requires t in b1 && IsToken(t) && IsToken(x) && x !in b1
    ensures Substituted(t + ([' '] + x), Compose(b1, map[x := []])) == Substituted(b1[t], map[x := []]) + [' ']
  {
    var b2: Bindings := map[x := []];
    var composed := Compose(b1, b2);
    TwoTokens(t, x, composed);
    assert composed[t] == Substituted(b1[t], b2) && composed[x] == [];
    assert [' '] + [] == [' '];
  }

  /** A replacement that leaves a literal open swallows what follows, so a later substitution misses it. */
  lemma OpenLiteralSwallows(t: string, b1: Bindings)
    requires t in b1 && IsToken(t) && !Balanced(b1[t])
    ensures !Composes(b1)
  {
    var x := FreshName(b1.Keys);
    var b2: Bindings, r := map[x := []], b1[t];
    var text, after := t + ([' '] + x), Substituted(r, b2);
    assert Substituted(text, Compose(b1, b2)) == after + [' '] by {
      ComposedOnTwoTokens(t, x, b1);
    }
    assert Substituted(text, b1) == r + ([' '] + x) by {
      TwoTokens(t, x, b1);
    }
    assert Substituted(Substituted(text, b1), b2) == after + ([' '] + x) by {
      TokenAfterOpenLiteral(r, x, b2);
    }
    assert |after + ([' '] + x)| > |after + [' ']|;
    assert !ComposesOn(text, b1, b2);
  }

  /**
   Substituting twice is substituting once with the composed bindings, exactly when no replacement leaves a
   literal open.
   */
  lemma ComposesExactlyWhenClosed(b1: Bindings)
    ensures Composes(b1) <==> Closed(b1)
  {
    if Closed(b1) {
      forall text, b2 ensures ComposesOn(text, b1, b2) {
        ReplacementsStayInPlace(text, b1);
        RenderExpanded(Lexemes(text), b1, b2);
      }
    } else {
      var t :| t in b1 && IsToken(t) && !Balanced(b1[t]);
      OpenLiteralSwallows(t, b1);
    }
  }

  ghost predicate StaysInPlace(text: string, b: Bindings) {
    Lexemes(Substituted(text, b)) == Expand(Lexemes(text), b)
  }

  /** Replacements stay in place in every text exactly when none leaves a literal open. */
  lemma ReplacementsStayInPlaceExactly(b: Bindings)
    ensures (forall text :: StaysInPlace(text, b)) <==> Closed(b)
  {
    if Closed(b) {
      forall text ensures StaysInPlace(text, b) {
        ReplacementsStayInPlace(text, b);
      }
    }
    if forall text :: StaysInPlace(text, b) {
      forall text, b2 ensures ComposesOn(text, b, b2) {
        assert StaysInPlace(text, b);
        RenderExpanded(Lexemes(text), b, b2);
      }
      ComposesExactlyWhenClosed(b);
    }
  }

  lemma {:induction false} LexSplitsEndMode(mode: Mode, r: string, s: string)
    ensures EndMode(mode, r + s) == EndMode(EndMode(mode, r), s)
    decreases |r|
  {
    if r == [] {
      assert r + s == s;
    } else {
      assert (r + s)[1..] == r[1..] + s;
      LexSplitsEndMode(NextMode(mode, r[0]), r[1..], s);
    }
  }

  lemma {:induction false} WrittenIsBalanced(mode: Mode, token: string, text: string, b: Bindings)
    requires Closed(b) && AllTokenChars(token) && (mode.InString? ==> token == [])
    ensures EndMode(mode, Render(Lex(mode, token, text), b)) == EndMode(mode, text)
    decreases |text|
  {
    FlushedReads(token, b);
    if text == [] {
      FlushRenders(token, b);
    } else {
      var c, rest := text[0], text[1..];
      RenderStep(mode, token, text, b);
      if mode.InString? {
        WrittenIsBalanced(NextMode(mode, c), [], rest, b);
        CharThen(mode, c, Render(Lex(NextMode(mode, c), [], rest), b));
      } else if IsTokenChar(c) {
        WrittenIsBalanced(Outside, token + [c], rest, b);
      } else {
        var next := NextMode(Outside, c);
        WrittenIsBalanced(next, [], rest, b);
        var tail := Render(Lex(next, [], rest), b);
        LexSplitsEndMode(Outside, Flushed(token, b), [c] + tail);
        CharThen(Outside, c, tail);
      }
    }
  }

  lemma CharThen(mode: Mode, c: char, s: string)
    ensures EndMode(mode, [c] + s) == EndMode(NextMode(mode, c), s)
  {
  }

  /** Composing keeps replacements closed, so nested instantiations can be composed in turn. */
  lemma ComposeKeepsClosed(b1: Bindings, b2: Bindings)
    requires Closed(b1) && Closed(b2)
    ensures Closed(Compose(b1, b2))
  {
    forall t | t in Compose(b1, b2) && IsToken(t) ensures Balanced(Compose(b1, b2)[t]) {
      if t in b1 {
        WrittenIsBalanced(Outside, [], b1[t], b2);
      }
    }
  }
}
