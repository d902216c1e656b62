/**
 Crash summaries with addresses and numbers replaced by placeholders, so that reports of the same
 crash compare equal. One pass reaches a normal form.
 */
module SummaryNormalizer {
  import opened Text

  // ---------------------------------------------------------------- one token

  function HexClass(): char -> bool { c => IsHexDigit(c) }

  function DigitClass(): char -> bool { c => IsDigit(c) }

  /** How many leading characters of `s` are in the class. */
  function Lead(s: string, p: char -> bool): (n: nat)
    ensures n <= |s|
  {
    if s != [] && p(s[0]) then 1 + Lead(s[1..], p) else 0
  }

  predicate IsX(c: char) { c == 'x' || c == 'X' }

  predicate StartsHexLiteral(s: string) {
    |s| > 2 && s[0] == '0' && IsX(s[1]) && IsHexDigit(s[2])
  }

  /** What the scanner writes for the head of `s`, and how much of `s` that stands for. */
  function Piece(s: string): (r: (string, nat))
    requires s != []
    ensures 0 < r.1 <= |s|
  {
    if StartsHexLiteral(s) then ("0x<hex>", 2 + Lead(s[2..], HexClass()))
    else if Lead(s, DigitClass()) >= 3 then ("<num>", Lead(s, DigitClass()))
    else if Lead(s, HexClass()) >= 8 then ("<hex>", Lead(s, HexClass()))
    else ([s[0]], 1)
  }

  function Rewrite(s: string): string
    decreases |s|
  {
    if s == [] then [] else Piece(s).0 + Rewrite(s[Piece(s).1..])
  }

  method EndOfRun(chars: string, start: nat, p: char -> bool) returns (j: nat)
    requires start <= |chars|
    ensures start <= j <= |chars| && j == start + Lead(chars[start..], p)
  {
    j := start;
    while j < |chars| && p(chars[j])
      invariant start <= j <= |chars|
      invariant start + Lead(chars[start..], p) == j + Lead(chars[j..], p)
    {
      assert chars[j..][1..] == chars[j + 1..];
      j := j + 1;
    }
  }

  method ReadPiece(chars: string, i: nat) returns (piece: string, j: nat)
    requires i < |chars|
    ensures i < j <= |chars| && (piece, j - i) == Piece(chars[i..])
  {
    var rest := chars[i..];
    if chars[i] == '0' && i + 2 < |chars| && IsX(chars[i + 1]) && IsHexDigit(chars[i + 2]) {
      j := EndOfRun(chars, i + 2, HexClass());
      assert rest[2..] == chars[i + 2..];
      return "0x<hex>", j;
    }
    if IsDigit(chars[i]) {
      j := EndOfRun(chars, i, DigitClass());
      if j - i >= 3 {
        return "<num>", j;
      }
    }
    if IsHexDigit(chars[i]) {
      j := EndOfRun(chars, i, HexClass());
      if j - i >= 8 {
        return "<hex>", j;
      }
    }
    return [chars[i]], i + 1;
  }

  lemma Regrouped(a: string, b: string, c: string)
    ensures a + (b + c) == (a + b) + c
  {
  }

  lemma WriteOn(written: string, s: string, piece: string, rest: string)
    requires s != [] && piece == Piece(s).0 && rest == s[Piece(s).1..]
    ensures written + Rewrite(s) == (written + piece) + Rewrite(rest)
  {
    Regrouped(written, piece, Rewrite(rest));
  }

  lemma RestOfRest(chars: string, i: nat, j: nat)
    requires i <= j <= |chars|
    ensures chars[i..][j - i..] == chars[j..]
  {
  }

  lemma WriteAhead(written: string, chars: string, i: nat, piece: string, j: nat)
    requires i < j <= |chars| && (piece, j - i) == Piece(chars[i..])
    ensures written + Rewrite(chars[i..]) == (written + piece) + Rewrite(chars[j..])
  {
    RestOfRest(chars, i, j);
    WriteOn(written, chars[i..], piece, chars[j..]);
  }

  method NormalizeToken(chars: string) returns (normalized: string)
    ensures normalized == Rewrite(chars)
  {
    normalized := "";
    var i := 0;
    assert chars[0..] == chars;
    while i < |chars|
      invariant i <= |chars|
      invariant Rewrite(chars) == normalized + Rewrite(chars[i..])
    {
      var piece, j := ReadPiece(chars, i);
      WriteAhead(normalized, chars, i, piece, j);
      normalized := normalized + piece;
      i := j;
    }
  }

  // ---------------------------------------------------------------- the normal form

  predicate HexLiteralAt(s: string, i: nat) {
    i + 2 < |s| && s[i] == '0' && IsX(s[i + 1]) && IsHexDigit(s[i + 2])
  }

  predicate NumberAt(s: string, i: nat) {
    i + 2 < |s| && IsDigit(s[i]) && IsDigit(s[i + 1]) && IsDigit(s[i + 2])
  }

  predicate AddressAt(s: string, i: nat) {
    i + 7 < |s| && forall j :: i <= j < i + 8 ==> IsHexDigit(s[j])
  }

  /** No `0x` before a hex digit, no three decimal digits in a row, no eight hex digits in a row. */
  ghost predicate Settled(s: string) {
    forall i: nat :: !HexLiteralAt(s, i) && !NumberAt(s, i) && !AddressAt(s, i)
  }

  /** Nothing starts at the first character that the scanner would replace. */
  predicate QuietHead(s: string) {
    !StartsHexLiteral(s) && Lead(s, DigitClass()) < 3 && Lead(s, HexClass()) < 8
  }

  predicate Quiet(s: string) {
    s == [] || (QuietHead(s) && Quiet(s[1..]))
  }

  lemma {:induction false} LeadCounts(s: string, p: char -> bool, n: nat)
    ensures Lead(s, p) >= n <==> |s| >= n && forall j :: 0 <= j < n ==> p(s[j])
  {
    if s != [] && p(s[0]) && n > 0 {
      LeadCounts(s[1..], p, n - 1);
      assert forall j :: 0 <= j < n - 1 && n <= |s| ==> s[1..][j] == s[j + 1];
      if |s| >= n && forall j :: 0 <= j < n - 1 ==> p(s[1..][j]) {
        forall j | 0 <= j < n ensures p(s[j]) {
          if j > 0 { assert s[1..][j - 1] == s[j]; }
        }
      }
    }
  }

  lemma QuietHeadAt(s: string, i: nat)
    requires i < |s|
    ensures QuietHead(s[i..]) <==> !HexLiteralAt(s, i) && !NumberAt(s, i) && !AddressAt(s, i)
  {
    var t := s[i..];
    LeadCounts(t, DigitClass(), 3);
    LeadCounts(t, HexClass(), 8);
    if NumberAt(s, i) {
      assert forall j :: 0 <= j < 3 ==> DigitClass()(t[j]);
    }
    if Lead(t, DigitClass()) >= 3 {
      assert DigitClass()(t[0]) && DigitClass()(t[1]) && DigitClass()(t[2]);
    }
    if AddressAt(s, i) {
      assert forall j :: 0 <= j < 8 ==> HexClass()(t[j]);
    }
    if Lead(t, HexClass()) >= 8 {
      forall j | i <= j < i + 8 ensures IsHexDigit(s[j]) {
        assert HexClass()(t[j - i]);
      }
    }
  }

  lemma {:induction false} QuietFrom(s: string, i: nat)
    requires i <= |s|
    ensures Quiet(s[i..]) <==> forall j: nat :: i <= j ==> !HexLiteralAt(s, j) && !NumberAt(s, j) && !AddressAt(s, j)
    decreases |s| - i
  {
    if i < |s| {
      QuietHeadAt(s, i);
      QuietFrom(s, i + 1);
      assert s[i..][1..] == s[i + 1..];
    }
  }

  lemma QuietIsSettled(s: string)
    ensures Quiet(s) <==> Settled(s)
  {
    QuietFrom(s, 0);
    assert s[0..] == s;
  }

  // ---------------------------------------------------------------- one pass reaches the normal form

  lemma QuietCons(c: char, r: string)
    requires Quiet(r) && QuietHead([c] + r)
    ensures Quiet([c] + r)
  {
  }

  /** A character that is no hex digit separates; one that is stays alone before a separator. */
  lemma QuietSeparated(c: char, r: string)
    requires Quiet(r)
    requires IsHexDigit(c) ==> r != [] && !IsHexDigit(r[0]) && !(IsX(r[0]) && |r| > 1 && IsHexDigit(r[1]))
    ensures Quiet([c] + r)
  {
  }

  /** A hex digit at `i` is followed by something that ends every match. */
  predicate SpacedAt(p: string, i: nat) {
    i < |p| && IsHexDigit(p[i]) ==>
      i + 1 < |p| && !IsHexDigit(p[i + 1]) && (IsX(p[i + 1]) ==> i + 2 < |p| && !IsHexDigit(p[i + 2]))
  }

  predicate Spaced(p: string) {
    forall i: nat :: i < |p| ==> SpacedAt(p, i)
  }

  /** Such text can be put before settled text. */
  lemma {:induction false} SpacedStaysQuiet(p: string, r: string)
    requires Spaced(p) && Quiet(r)
    ensures Quiet(p + r)
  {
    if p == [] {
      assert p + r == r;
    } else {
      var tail := p[1..];
      forall i: nat | i < |tail| ensures SpacedAt(tail, i) {
        assert SpacedAt(p, i + 1);
      }
      SpacedStaysQuiet(tail, r);
      assert SpacedAt(p, 0);
      assert p + r == [p[0]] + (tail + r);
      QuietSeparated(p[0], tail + r);
    }
  }

  lemma PlaceholdersAreSpaced()
    ensures Spaced("<hex>") && Spaced("0x<hex>") && Spaced("<num>")
  {
    assert "<hex>" == ['<', 'h', 'e', 'x', '>'];
    assert "0x<hex>" == ['0', 'x', '<', 'h', 'e', 'x', '>'];
    assert "<num>" == ['<', 'n', 'u', 'm', '>'];
  }

  /** Rewriting never lengthens the run of digits, or of hex digits, at the head. */
  lemma {:induction false} LeadShrinks(s: string)
    ensures Lead(Rewrite(s), DigitClass()) <= Lead(s, DigitClass())
    ensures Lead(Rewrite(s), HexClass()) <= Lead(s, HexClass())
    decreases |s|
  {
    if s != [] {
      var r := Rewrite(s[Piece(s).1..]);
      if StartsHexLiteral(s) {
        assert ("0x<hex>" + r)[1..][0] == 'x';
      } else if Lead(s, DigitClass()) < 3 && Lead(s, HexClass()) < 8 {
        LeadShrinks(s[1..]);
        assert ([s[0]] + r)[1..] == r;
      }
    }
  }

  /** If the rewritten text looks like the tail of a hex literal, so did the text. */
  lemma HexLiteralWasThere(s: string)
    requires Rewrite(s) != []
    ensures s != []
    ensures IsHexDigit(Rewrite(s)[0]) ==> IsHexDigit(s[0])
    ensures IsX(Rewrite(s)[0]) && |Rewrite(s)| > 1 && IsHexDigit(Rewrite(s)[1])
        ==> IsX(s[0]) && |s| > 1 && IsHexDigit(s[1])
  {
    if IsX(Rewrite(s)[0]) && |Rewrite(s)| > 1 && IsHexDigit(Rewrite(s)[1]) {
      assert Piece(s) == ([s[0]], 1);
      assert Rewrite(s)[1] == Rewrite(s[1..])[0];
      HexLiteralWasThere(s[1..]);
    }
  }

  /** What one pass writes contains nothing that another pass would replace. */
  lemma {:induction false} RewriteSettles(s: string)
    ensures Quiet(Rewrite(s))
    decreases |s|
  {
    if s != [] {
      var tail := s[Piece(s).1..];
      var r := Rewrite(tail);
      RewriteSettles(tail);
      PlaceholdersAreSpaced();
      SpacedStaysQuiet("<hex>", r);
      SpacedStaysQuiet("0x<hex>", r);
      SpacedStaysQuiet("<num>", r);
      if Piece(s) == ([s[0]], 1) {
        LeadShrinks(s);
        assert ([s[0]] + r)[1..] == r;
        if StartsHexLiteral([s[0]] + r) {
          HexLiteralWasThere(tail);
          assert false;
        }
        QuietCons(s[0], r);
      }
    }
  }

  lemma {:induction false} QuietIsFixed(s: string)
    requires Quiet(s)
    ensures Rewrite(s) == s
  {
    if s != [] {
      QuietIsFixed(s[1..]);
    }
  }

  /** A token is left alone exactly when it is in normal form. */
  lemma FixedExactlyWhenSettled(s: string)
    ensures Rewrite(s) == s <==> Settled(s)
    ensures Rewrite(Rewrite(s)) == Rewrite(s)
  {
    RewriteSettles(s);
    QuietIsFixed(Rewrite(s));
    QuietIsSettled(s);
    if Quiet(s) {
      QuietIsFixed(s);
    }
  }

  // ---------------------------------------------------------------- whole summaries

  function TextClass(): char -> bool { c => !IsWhitespace(c) }

  function Words(s: string): seq<string>
    decreases |s|
  {
    if s == [] then []
    else if IsWhitespace(s[0]) then Words(s[1..])
    else [s[..Lead(s, TextClass())]] + Words(s[Lead(s, TextClass())..])
  }

  function Join(words: seq<string>): string {
    if words == [] then [] else if |words| == 1 then words[0] else words[0] + (" " + Join(words[1..]))
  }

  function RewriteAll(words: seq<string>): (r: seq<string>)
    ensures |r| == |words|
  {
    if words == [] then [] else [Rewrite(words[0])] + RewriteAll(words[1..])
  }

  function LowerAll(words: seq<string>): (r: seq<string>)
    ensures |r| == |words|
  {
    if words == [] then [] else [Lower(words[0])] + LowerAll(words[1..])
  }

  function Normalize(summary: string): string {
    Lower(Join(RewriteAll(Words(summary))))
  }

  predicate IsWord(w: string) {
    w != [] && forall c :: c in w ==> !IsWhitespace(c)
  }

  predicate AllWords(words: seq<string>) {
    forall w :: w in words ==> IsWord(w)
  }

  lemma {:induction false} WordsAreWords(s: string)
    ensures AllWords(Words(s))
    decreases |s|
  {
    if s != [] {
      if IsWhitespace(s[0]) {
        WordsAreWords(s[1..]);
      } else {
        var n := Lead(s, TextClass());
        LeadCounts(s, TextClass(), n);
        forall c | c in s[..n] ensures !IsWhitespace(c) {
          var j :| 0 <= j < n && s[j] == c;
          assert TextClass()(s[j]);
        }
        WordsAreWords(s[n..]);
      }
    }
  }

  lemma {:induction false} LeadOfWord(w: string, r: string)
    requires forall c :: c in w ==> !IsWhitespace(c)
    requires r == [] || IsWhitespace(r[0])
    ensures Lead(w + r, TextClass()) == |w|
  {
    if w == [] {
      assert w + r == r;
    } else {
      assert (w + r)[1..] == w[1..] + r;
      LeadOfWord(w[1..], r);
    }
  }

  lemma {:induction false} WordsOfJoin(words: seq<string>)
    requires AllWords(words)
    ensures Words(Join(words)) == words
  {
    if words != [] {
      var w, rest := words[0], words[1..];
      assert words == [w] + rest;
      assert IsWord(w);
      WordsOfJoin(rest);
      var r := if rest == [] then [] else " " + Join(rest);
      assert Join(words) == w + r;
      LeadOfWord(w, r);
      assert (w + r)[..|w|] == w && (w + r)[|w|..] == r;
      if rest != [] {
        assert r[1..] == Join(rest);
      }
    }
  }

  lemma LowerConcat(a: string, b: string)
    ensures Lower(a + b) == Lower(a) + Lower(b)
  {
  }

  lemma {:induction false} LowerOfJoin(words: seq<string>)
    ensures Lower(Join(words)) == Join(LowerAll(words))
  {
    if |words| > 1 {
      var tail := Join(words[1..]);
      LowerOfJoin(words[1..]);
      LowerConcat([' '], tail);
      LowerConcat(words[0], [' '] + tail);
      assert Lower([' ']) == [' '];
      assert " " == [' '];
    }
  }

  lemma {:induction false} RewriteKeepsWord(w: string)
    requires forall c :: c in w ==> !IsWhitespace(c)
    ensures forall c :: c in Rewrite(w) ==> !IsWhitespace(c)
    ensures w != [] ==> Rewrite(w) != []
    decreases |w|
  {
    if w != [] {
      RewriteKeepsWord(w[Piece(w).1..]);
      assert forall c :: c in Piece(w).0 ==> !IsWhitespace(c);
    }
  }

  lemma LowerSettled(s: string)
    ensures Settled(Lower(s)) <==> Settled(s)
  {
    var l := Lower(s);
    forall i: nat ensures HexLiteralAt(l, i) == HexLiteralAt(s, i) && NumberAt(l, i) == NumberAt(s, i) {
    }
    forall i: nat ensures AddressAt(l, i) == AddressAt(s, i) {
      if i + 7 < |s| {
        assert forall j :: i <= j < i + 8 ==> IsHexDigit(l[j]) == IsHexDigit(s[j]);
      }
    }
  }

  predicate Finished(words: seq<string>) {
    forall w :: w in words ==> IsWord(w) && Quiet(w) && Lower(w) == w
  }

  lemma {:induction false} FinishWords(words: seq<string>)
    requires AllWords(words)
    ensures Finished(LowerAll(RewriteAll(words)))
  {
    if words != [] {
      var r := Rewrite(words[0]);
      assert IsWord(words[0]);
      RewriteKeepsWord(words[0]);
      RewriteSettles(words[0]);
      QuietIsSettled(r);
      QuietIsSettled(Lower(r));
      LowerSettled(r);
      assert IsWord(Lower(r)) by {
        forall c | c in Lower(r) ensures !IsWhitespace(c) {
          var j :| 0 <= j < |r| && Lower(r)[j] == c;
          assert r[j] in r;
        }
      }
      assert Lower(Lower(r)) == Lower(r);
      FinishWords(words[1..]);
    }
  }

  lemma {:induction false} FinishedIsFixed(words: seq<string>)
    requires Finished(words)
    ensures RewriteAll(words) == words && LowerAll(words) == words
  {
    if words != [] {
      assert Finished(words[1..]);
      assert words[0] in words;
      QuietIsFixed(words[0]);
      FinishedIsFixed(words[1..]);
      assert words == [words[0]] + words[1..];
    }
  }

  lemma NormalizedWords(summary: string) returns (words: seq<string>)
    ensures Finished(words) && Normalize(summary) == Join(words)
  {
    words := LowerAll(RewriteAll(Words(summary)));
    WordsAreWords(summary);
    FinishWords(Words(summary));
    LowerOfJoin(RewriteAll(Words(summary)));
  }

  /** Normalizing twice is normalizing once. */
  lemma NormalizeIsIdempotent(summary: string)
    ensures Normalize(Normalize(summary)) == Normalize(summary)
  {
    var words := NormalizedWords(summary);
    WordsOfJoin(words);
    FinishedIsFixed(words);
    LowerOfJoin(words);
  }

  lemma {:induction false} QuietConcat(w: string, r: string)
    requires Quiet(w) && Quiet(r) && (r == [] || r[0] == ' ')
    ensures Quiet(w + r)
    ensures Lead(w + r, DigitClass()) == Lead(w, DigitClass()) && Lead(w + r, HexClass()) == Lead(w, HexClass())
  {
    if w == [] {
      assert w + r == r;
    } else {
      QuietConcat(w[1..], r);
      assert (w + r)[1..] == w[1..] + r;
    }
  }

  lemma {:induction false} JoinStaysQuiet(words: seq<string>)
    requires Finished(words)
    ensures Quiet(Join(words))
  {
    if words != [] {
      JoinStaysQuiet(words[1..]);
      if |words| > 1 {
        QuietSeparated(' ', Join(words[1..]));
        QuietConcat(words[0], " " + Join(words[1..]));
      }
    }
  }

  /** Nowhere in a normalized summary, not even across its words, is there anything left to replace. */
  lemma NormalizedIsSettled(summary: string)
    ensures Settled(Normalize(summary))
  {
    var words := NormalizedWords(summary);
    JoinStaysQuiet(words);
    QuietIsSettled(Join(words));
  }

  // ---------------------------------------------------------------- what the placeholders hide

  predicate EndsInHexDigit(a: string) {
    a != [] && IsHexDigit(a[|a| - 1])
  }

  predicate EndsInZeroX(a: string) {
    |a| > 1 && a[|a| - 2] == '0' && IsX(a[|a| - 1])
  }

  /** No match of the scanner can reach over the end of `a`: no run of digits is under way, and no 0x is left open. */
  predicate Detached(a: string) {
    !EndsInHexDigit(a) && !EndsInZeroX(Rewrite(a))
  }

  lemma {:induction false} LeadOfClosed(a: string, r: string, p: char -> bool)
    requires a != [] && !p(a[|a| - 1])
    ensures Lead(a + r, p) == Lead(a, p) < |a|
  {
    if |a| > 1 {
      LeadOfClosed(a[1..], r, p);
      assert (a + r)[1..] == a[1..] + r;
    }
  }

  /** Unless all of it is an open 0x, text that ends in no hex digit starts with the same piece whatever follows. */
  lemma PieceOfClosed(a: string, r: string)
    requires a != [] && !EndsInHexDigit(a) && !(|a| == 2 && EndsInZeroX(a))
    ensures Piece(a + r) == Piece(a)
    ensures !EndsInHexDigit(a[Piece(a).1..])
  {
    LeadOfClosed(a, r, DigitClass());
    LeadOfClosed(a, r, HexClass());
    if |a| > 2 {
      LeadOfClosed(a[2..], r, HexClass());
      assert (a + r)[2..] == a[2..] + r;
    }
  }

  lemma OpenZeroXIsKept(a: string)
    requires |a| == 2 && EndsInZeroX(a)
    ensures Rewrite(a) == a
  {
    assert Piece(a) == ([a[0]], 1) && Piece(a[1..]) == ([a[1]], 1);
    assert a[1..][1..] == [] && Rewrite(a[1..]) == [a[1]] + [];
    assert a == [a[0]] + ([a[1]] + []);
  }

  lemma ZeroXInTail(h: string, r: string)
    ensures EndsInZeroX(r) ==> EndsInZeroX(h + r)
  {
    var w := h + r;
    if |r| > 1 {
      assert w[|w| - 2] == r[|r| - 2] && w[|w| - 1] == r[|r| - 1];
    }
  }

  /** Such text is rewritten independently of what follows. */
  lemma {:induction false} RewriteSplits(a: string, r: string)
    requires Detached(a)
    ensures Rewrite(a + r) == Rewrite(a) + Rewrite(r)
    decreases |a|
  {
    if a == [] {
      assert a + r == r;
    } else {
      if |a| == 2 && EndsInZeroX(a) {
        OpenZeroXIsKept(a);
        assert false;
      }
      PieceOfClosed(a, r);
      var n, head := Piece(a).1, Piece(a).0;
      var rest := a[n..];
      assert (a + r)[n..] == rest + r;
      assert Rewrite(a) == head + Rewrite(rest);
      ZeroXInTail(head, Rewrite(rest));
      RewriteSplits(rest, r);
      Associate(head, Rewrite(rest), Rewrite(r));
    }
  }

  lemma Associate(a: string, b: string, c: string)
    ensures a + (b + c) == (a + b) + c
  {
  }

  lemma {:induction false} LeadOfRun(run: string, r: string, p: char -> bool)
    requires (forall c :: c in run ==> p(c)) && (r == [] || !p(r[0]))
    ensures Lead(run + r, p) == |run|
  {
    if run == [] {
      assert run + r == r;
    } else {
      LeadOfRun(run[1..], r, p);
      assert (run + r)[1..] == run[1..] + r;
    }
  }

  // ---------------------------------------------------------------- numbers

  /** A number of three digits or more, up to a character that is no digit. */
  predicate NumberBefore(n: string, b: string) {
    |n| >= 3 && (forall c :: c in n ==> IsDigit(c)) && (b == [] || !IsDigit(b[0]))
  }

  /** After `a` the number is replaced as a whole, and nothing else is. */
  predicate NumberHidden(a: string, n: string, b: string) {
    Rewrite(a + (n + b)) == Rewrite(a) + ("<num>" + Rewrite(b))
  }

  lemma NumberIsHidden(a: string, n: string, b: string)
    requires Detached(a) && NumberBefore(n, b)
    ensures NumberHidden(a, n, b)
  {
    RewriteSplits(a, n + b);
    LeadOfRun(n, b, DigitClass());
    assert n[1] in n;
    assert Piece(n + b) == ("<num>", |n|);
    assert (n + b)[|n|..] == b;
  }

  /** Reports that differ only in one number become the same. */
  lemma NumbersAreHidden(a: string, n1: string, n2: string, b: string)
    requires Detached(a) && NumberBefore(n1, b) && NumberBefore(n2, b)
    ensures Rewrite(a + (n1 + b)) == Rewrite(a + (n2 + b))
  {
    NumberIsHidden(a, n1, b);
    NumberIsHidden(a, n2, b);
  }

  lemma {:induction false} LeadWithRun(a: string, run: string, p: char -> bool)
    requires forall c :: c in run ==> p(c)
    ensures Lead(a + run, p) == if Lead(a, p) == |a| then |a| + |run| else Lead(a, p)
  {
    if a == [] {
      assert a + run == run && run + [] == run;
      LeadOfRun(run, [], p);
    } else {
      assert (a + run)[1..] == a[1..] + run;
      if p(a[0]) {
        LeadWithRun(a[1..], run, p);
      }
    }
  }

  /** A run of digits after a hex digit: the first piece either reaches the end or is the one there was. */
  lemma PieceBeforeDigits(a: string, n: string)
    requires EndsInHexDigit(a) && |n| == 8 && forall c :: c in n ==> IsDigit(c)
    ensures Piece(a + n).1 == |a| + |n| ==> Piece(a + n).0 in {"0x<hex>", "<num>", "<hex>"}
    ensures Piece(a + n).1 != |a| + |n| ==> Piece(a + n) == Piece(a) && Piece(a).1 < |a|
  {
    LeadWithRun(a, n, DigitClass());
    LeadWithRun(a, n, HexClass());
    if |a| > 1 {
      LeadWithRun(a[2..], n, HexClass());
      assert (a + n)[2..] == a[2..] + n;
    }
    LeadStops(a, DigitClass());
    LeadStops(a, HexClass());
    if |a| > 2 {
      LeadStops(a[2..], HexClass());
    }
    if |a| == 1 {
      assert Lead(a, HexClass()) == 1;
    }
  }

  /** A run that stops inside the text stops at a character of another class. */
  lemma {:induction false} LeadStops(a: string, p: char -> bool)
    ensures Lead(a, p) < |a| ==> !p(a[Lead(a, p)])
  {
    if a != [] && p(a[0]) {
      LeadStops(a[1..], p);
    }
  }

  lemma RewriteIsSomething(a: string)
    requires a != []
    ensures Rewrite(a) != []
  {
  }

  lemma SameAfter(a: string, b: string, c: string)
    requires a + b == a + c
    ensures b == c
  {
    assert b == (a + b)[|a|..] && c == (a + c)[|a|..];
  }

  /** What follows `a` when its first piece is taken from both sides. */
  lemma PeelPiece(a: string, r: string, tail: string)
    requires a != [] && Piece(a + r) == Piece(a)
    ensures var rest := a[Piece(a).1..];
      && Rewrite(a) == Piece(a).0 + Rewrite(rest) && Rewrite(a + r) == Piece(a).0 + Rewrite(rest + r)
      && (Rewrite(a + r) == Rewrite(a) + tail <==> Rewrite(rest + r) == Rewrite(rest) + tail)
  {
    var head, rest := Piece(a).0, a[Piece(a).1..];
    assert (a + r)[Piece(a).1..] == rest + r;
    Associate(head, Rewrite(rest), tail);
    if Rewrite(a + r) == Rewrite(a) + tail {
      SameAfter(head, Rewrite(rest + r), Rewrite(rest) + tail);
    }
  }

  predicate IsPlaceholder(p: string) {
    p == "0x<hex>" || p == "<num>" || p == "<hex>"
  }

  lemma PlaceholderIsNoNumberAfter(p: string, w: string)
    requires IsPlaceholder(p) && w != []
    ensures p != w + "<num>"
  {
    assert |w + "<num>"| > 5 && (w + "<num>")[|w + "<num>"| - 2] == 'm';
    assert "0x<hex>"[5] == 'x';
  }

  /** If `a` ends in a hex digit, a number after it joins what is there. */
  lemma {:induction false} NumberJoinsRun(a: string, n: string)
    requires EndsInHexDigit(a) && |n| == 8 && forall c :: c in n ==> IsDigit(c)
    ensures Rewrite(a + n) != Rewrite(a) + "<num>"
    decreases |a|
  {
    var piece := Piece(a + n);
    PieceBeforeDigits(a, n);
    if piece.1 == |a| + |n| {
      assert (a + n)[piece.1..] == [] && Rewrite(a + n) == piece.0 + [] == piece.0;
      RewriteIsSomething(a);
      PlaceholderIsNoNumberAfter(piece.0, Rewrite(a));
    } else {
      PeelPiece(a, n, "<num>");
      NumberJoinsRun(a[piece.1..], n);
    }
  }

  lemma PlaceholderEnds(p: string)
    requires IsPlaceholder(p)
    ensures |p| >= 5 && p[|p| - 1] == '>'
  {
  }

  lemma PieceIsEither(s: string)
    requires s != []
    ensures IsPlaceholder(Piece(s).0) || Piece(s) == ([s[0]], 1)
  {
  }

  lemma OneCharacterRewritten(s: string)
    requires |Rewrite(s)| == 1
    ensures |s| == 1 && Rewrite(s) == s
  {
    PieceIsEither(s);
    if IsPlaceholder(Piece(s).0) {
      PlaceholderEnds(Piece(s).0);
    }
    if s[1..] != [] {
      RewriteIsSomething(s[1..]);
    }
  }

  lemma ZeroXAcross(h: string, r: string)
    requires EndsInZeroX(h + r) && h != [] && (|h| == 1 || h[|h| - 1] == '>')
    ensures r != [] && (EndsInZeroX(r) || (|h| == 1 && |r| == 1 && h[0] == '0' && IsX(r[0])))
  {
    var w := h + r;
    assert r == [] ==> w == h;
    if |r| == 1 {
      assert w[|w| - 2] == h[|h| - 1] && w[|w| - 1] == r[0];
    } else if |r| > 1 {
      assert w[|w| - 2] == r[|r| - 2] && w[|w| - 1] == r[|r| - 1];
    }
  }

  lemma TwoCharacters(a: string)
    requires a != [] && Piece(a) == ([a[0]], 1) && |Rewrite(a[1..])| == 1
    ensures |a| == 2 && Rewrite(a[1..]) == [a[1]]
  {
    OneCharacterRewritten(a[1..]);
  }

  lemma HeadOfRewrite(a: string)
    requires a != []
    ensures var h := Piece(a).0;
      h != [] && (h[|h| - 1] == '>' || Piece(a) == ([a[0]], 1)) && Rewrite(a) == h + Rewrite(a[Piece(a).1..])
  {
    PieceIsEither(a);
    if IsPlaceholder(Piece(a).0) {
      PlaceholderEnds(Piece(a).0);
    }
  }

  /** What is rewritten to an open 0x at its end still is without its first piece. */
  lemma RestOfOpenZeroX(a: string)
    requires a != [] && EndsInZeroX(Rewrite(a)) && !(|a| == 2 && EndsInZeroX(a))
    ensures a[Piece(a).1..] != [] && EndsInZeroX(Rewrite(a[Piece(a).1..]))
  {
    var rest := a[Piece(a).1..];
    HeadOfRewrite(a);
    ZeroXAcross(Piece(a).0, Rewrite(rest));
    if |Rewrite(rest)| == 1 && !EndsInZeroX(Rewrite(rest)) {
      TwoCharacters(a);
    }
  }

  lemma OpenZeroXTakesNumber(a: string, n: string)
    requires |a| == 2 && EndsInZeroX(a) && n != [] && forall c :: c in n ==> IsDigit(c)
    ensures Rewrite(a + n) == "0x<hex>"
  {
    assert (a + n)[2..] == n && n + [] == n && n[0] in n;
    LeadOfRun(n, [], HexClass());
    assert Piece(a + n) == ("0x<hex>", |a + n|) && (a + n)[|a + n|..] == [];
    assert "0x<hex>" + [] == "0x<hex>";
  }

  lemma EndOfRest(a: string, k: nat)
    requires k < |a|
    ensures EndsInHexDigit(a[k..]) <==> EndsInHexDigit(a)
  {
    assert a[k..][|a| - k - 1] == a[|a| - 1];
  }

  predicate XBeforeLast(s: string) {
    |s| > 1 && s[|s| - 2] == 'x'
  }

  lemma XBeforeLastInTail(h: string, r: string)
    ensures XBeforeLast(r) ==> XBeforeLast(h + r)
  {
    var w := h + r;
    if |r| > 1 {
      assert w[|w| - 2] == r[|r| - 2];
    }
  }

  /** If an 0x is left open, a number after it becomes an address. */
  lemma {:induction false} NumberClosesZeroX(a: string, n: string)
    requires !EndsInHexDigit(a) && EndsInZeroX(Rewrite(a)) && n != [] && forall c :: c in n ==> IsDigit(c)
    ensures XBeforeLast(Rewrite(a + n))
    decreases |a|
  {
    if |a| == 2 && EndsInZeroX(a) {
      OpenZeroXTakesNumber(a, n);
      assert "0x<hex>"[5] == 'x';
    } else {
      PieceOfClosed(a, n);
      PeelPiece(a, n, []);
      RestOfOpenZeroX(a);
      EndOfRest(a, Piece(a).1);
      NumberClosesZeroX(a[Piece(a).1..], n);
      XBeforeLastInTail(Piece(a).0, Rewrite(a[Piece(a).1..] + n));
    }
  }

  lemma NumberShowsOtherwise(a: string)
    requires !Detached(a)
    ensures !NumberHidden(a, "00000000", []) && NumberBefore("00000000", [])
  {
    var n := "00000000";
    assert n + [] == n && "<num>" + Rewrite([]) == "<num>";
    assert forall c :: c in n ==> c == '0';
    if EndsInHexDigit(a) {
      NumberJoinsRun(a, n);
    } else {
      NumberClosesZeroX(a, n);
      assert !XBeforeLast(Rewrite(a) + "<num>") by {
        assert (Rewrite(a) + "<num>")[|Rewrite(a) + "<num>"| - 2] == 'm';
      }
    }
  }

  /** Numbers after `a` are always replaced as a whole, and nothing else with them, exactly when `a` is detached. */
  lemma NumbersAreHiddenExactly(a: string)
    ensures (forall n, b :: NumberBefore(n, b) ==> NumberHidden(a, n, b)) <==> Detached(a)
  {
    if Detached(a) {
      forall n, b | NumberBefore(n, b) ensures NumberHidden(a, n, b) {
        NumberIsHidden(a, n, b);
      }
    } else {
      NumberShowsOtherwise(a);
    }
  }

  lemma NumberAlone(n: string)
    requires NumberBefore(n, [])
    ensures Rewrite(n) == "<num>"
  {
    assert n + [] == n && n[1] in n;
    LeadOfRun(n, [], DigitClass());
    assert Piece(n) == ("<num>", |n|) && n[|n|..] == [] && "<num>" + [] == "<num>";
  }

  predicate SplitsBefore(a: string, r: string) {
    Rewrite(a + r) == Rewrite(a) + Rewrite(r)
  }

  /** Text is rewritten independently of whatever follows exactly when it is detached. */
  lemma RewriteSplitsExactly(a: string)
    ensures (forall r :: SplitsBefore(a, r)) <==> Detached(a)
  {
    if Detached(a) {
      forall r ensures SplitsBefore(a, r) {
        RewriteSplits(a, r);
      }
    } else {
      NumberShowsOtherwise(a);
      NumberAlone("00000000");
      assert "00000000" + [] == "00000000" && "<num>" + Rewrite([]) == "<num>";
      assert !SplitsBefore(a, "00000000");
    }
  }

  // ---------------------------------------------------------------- addresses

  /** The hex digits of an address, up to a character that is none. */
  predicate AddressBefore(h: string, b: string) {
    h != [] && (forall c :: c in h ==> IsHexDigit(c)) && (b == [] || !IsHexDigit(b[0]))
  }

  /** After `a` the address is replaced as a whole, and nothing else is. */
  predicate AddressHidden(a: string, h: string, b: string) {
    Rewrite(a + ("0x" + h + b)) == Rewrite(a) + ("0x<hex>" + Rewrite(b))
  }

  /** A zero after `a` is left alone. */
  predicate KeepsZero(a: string) {
    Rewrite(a + "0") == Rewrite(a) + "0"
  }

  lemma AddressIsOnePiece(h: string, b: string)
    requires AddressBefore(h, b)
    ensures Rewrite("0x" + h + b) == "0x<hex>" + Rewrite(b)
  {
    var s := "0x" + h + b;
    assert s[0] == '0' && s[1] == 'x' && s[2..] == h + b;
    assert s[2] == h[0] && h[0] in h;
    LeadOfRun(h, b, HexClass());
    assert Piece(s) == ("0x<hex>", 2 + |h|) && s[2 + |h|..] == b;
  }

  lemma {:induction false} LeadBeforeZero(s: string, t: string, p: char -> bool)
    requires p('0') && t != [] && t[0] == '0' && (|t| > 1 ==> !p(t[1]))
    ensures Lead(s + t, p) == if Lead(s, p) == |s| then |s| + 1 else Lead(s, p)
  {
    if s == [] {
      assert s + t == t;
    } else {
      assert (s + t)[1..] == s[1..] + t;
      LeadBeforeZero(s[1..], t, p);
    }
  }

  lemma LeadAtZero(s: string, t: string, p: char -> bool)
    requires p('0') && t != [] && t[0] == '0' && (|t| > 1 ==> !p(t[1]))
    ensures Lead(s + t, p) == Lead(s + "0", p)
  {
    LeadBeforeZero(s, t, p);
    LeadBeforeZero(s, "0", p);
  }

  lemma HexLiteralBeforeZero(s: string, t: string)
    requires s != [] && t != [] && t[0] == '0'
    ensures StartsHexLiteral(s + t) <==> StartsHexLiteral(s + "0")
    ensures StartsHexLiteral(s + t) ==> |s| > 1
  {
    var w, z := s + t, s + "0";
    assert w[0] == z[0] && w[1] == z[1];
    if |s| > 1 {
      assert w[2] == z[2];
    } else {
      assert w[1] == t[0];
    }
  }

  /** The piece at the head does not depend on what follows a zero, if that is no hex digit. */
  lemma PieceUpToZero(s: string, t: string)
    requires s != [] && t != [] && t[0] == '0' && (|t| > 1 ==> !IsHexDigit(t[1]))
    ensures Piece(s + t) == Piece(s + "0")
  {
    LeadAtZero(s, t, DigitClass());
    LeadAtZero(s, t, HexClass());
    HexLiteralBeforeZero(s, t);
    if StartsHexLiteral(s + t) {
      LeadAtZero(s[2..], t, HexClass());
      assert (s + t)[2..] == s[2..] + t && (s + "0")[2..] == s[2..] + "0";
    }
  }

  lemma PieceBeforeLastZero(s: string)
    requires s != []
    ensures if Piece(s + "0").1 == |s| + 1 then IsPlaceholder(Piece(s + "0").0) else Piece(s + "0") == Piece(s)
  {
    LeadBeforeZero(s, "0", DigitClass());
    LeadBeforeZero(s, "0", HexClass());
    if |s| > 1 {
      LeadBeforeZero(s[2..], "0", HexClass());
      assert (s + "0")[2..] == s[2..] + "0";
    }
  }

  /** The piece at the head does not depend on what follows a zero, if that is no hex digit. */
  lemma PieceBeforeZero(s: string, t: string)
    requires s != [] && t != [] && t[0] == '0' && (|t| > 1 ==> !IsHexDigit(t[1]))
    ensures Piece(s + t) == Piece(s + "0")
    ensures if Piece(s + t).1 == |s| + 1 then IsPlaceholder(Piece(s + t).0) else Piece(s + t) == Piece(s)
  {
    PieceUpToZero(s, t);
    PieceBeforeLastZero(s);
  }

  lemma PlaceholderIsNoZeroAfter(p: string, w: string)
    requires IsPlaceholder(p)
    ensures p != w + "0"
  {
    PlaceholderEnds(p);
    assert (w + "0")[|w|] == '0' && |w + "0"| == |w| + 1;
  }

  lemma OnePiece(s: string)
    requires s != [] && Piece(s).1 == |s|
    ensures Rewrite(s) == Piece(s).0
  {
    WriteOn([], s, Piece(s).0, []);
  }

  lemma SwallowedZero(a: string)
    requires a != [] && Piece(a + "0").1 == |a| + 1
    ensures IsPlaceholder(Piece(a + "0").0) && Rewrite(a + "0") == Piece(a + "0").0 && !KeepsZero(a)
  {
    PieceBeforeLastZero(a);
    OnePiece(a + "0");
    PlaceholderIsNoZeroAfter(Piece(a + "0").0, Rewrite(a));
  }

  lemma RestKeepsZero(a: string)
    requires a != [] && Piece(a + "0").1 != |a| + 1
    ensures Piece(a + "0") == Piece(a) && (KeepsZero(a) <==> KeepsZero(a[Piece(a).1..]))
  {
    PieceBeforeZero(a, "0");
    PeelPiece(a, "0", "0");
  }

  lemma {:induction false} AddressIsHidden(a: string, h: string, b: string)
    requires KeepsZero(a) && AddressBefore(h, b)
    ensures AddressHidden(a, h, b)
    decreases |a|
  {
    var t := "0x" + h + b;
    AddressIsOnePiece(h, b);
    if a == [] {
      assert a + t == t && [] + ("0x<hex>" + Rewrite(b)) == "0x<hex>" + Rewrite(b);
    } else {
      if Piece(a + "0").1 == |a| + 1 {
        SwallowedZero(a);
        assert false;
      }
      assert t[0] == '0' && t[1] == 'x';
      PieceBeforeZero(a, t);
      RestKeepsZero(a);
      PeelPiece(a, t, "0x<hex>" + Rewrite(b));
      AddressIsHidden(a[Piece(a).1..], h, b);
    }
  }

  /** Reports that differ only in the address after `0x` become the same. */
  lemma AddressesAreHidden(a: string, h1: string, h2: string, b: string)
    requires KeepsZero(a) && AddressBefore(h1, b) && AddressBefore(h2, b)
    ensures Rewrite(a + ("0x" + h1 + b)) == Rewrite(a + ("0x" + h2 + b))
  {
    AddressIsHidden(a, h1, b);
    AddressIsHidden(a, h2, b);
  }

  lemma LooseXStays()
    ensures Rewrite("x1") == "x1"
  {
    assert Piece("x1") == ("x", 1) && "x1"[1..] == "1" && Piece("1") == ("1", 1);
    assert Rewrite("1") == "1" + [] == "1";
    assert Rewrite("x1") == "x" + "1";
  }

  lemma NothingKeepsZero()
    ensures KeepsZero([])
  {
    assert [] + "0" == "0" && Piece("0") == ("0", 1) && "0"[1..] == [] && Rewrite("0") == "0" + [] == "0";
    assert Rewrite([]) + "0" == "0";
  }

  lemma DifferentEnds(u: string, w: string)
    ensures u + "x1" != w + "0x<hex>"
  {
    assert (u + "x1")[|u| + 1] == '1' && (w + "0x<hex>")[|w| + 6] == '>';
    assert |u + "x1"| == |u| + 2 && |w + "0x<hex>"| == |w| + 7;
  }

  lemma SwallowedFirst(a: string, t: string, rest: string)
    requires a != [] && t != [] && t[1..] == rest && Piece(a + t).1 == |a| + 1
    ensures Rewrite(a + t) == Piece(a + t).0 + Rewrite(rest)
  {
    assert (a + t)[|a| + 1..] == rest;
  }

  lemma ShortAddressPiece(a: string)
    requires a != []
    ensures Piece(a + "0x1") == Piece(a + "0")
  {
    PieceUpToZero(a, "0x1");
  }

  lemma ShortAddressAfterSwallowed(a: string)
    requires a != [] && Piece(a + "0").1 == |a| + 1
    ensures Rewrite(a + "0x1") != Rewrite(a) + "0x<hex>"
  {
    ShortAddressPiece(a);
    SwallowedFirst(a, "0x1", "x1");
    LooseXStays();
    DifferentEnds(Piece(a + "0").0, Rewrite(a));
  }

  /** If a zero after `a` is drawn into something before it, so is the zero of an address. */
  lemma {:induction false} AddressLosesZero(a: string)
    requires !KeepsZero(a)
    ensures Rewrite(a + "0x1") != Rewrite(a) + "0x<hex>"
    decreases |a|
  {
    if a == [] {
      NothingKeepsZero();
    } else if Piece(a + "0").1 == |a| + 1 {
      ShortAddressAfterSwallowed(a);
    } else {
      var t := "0x1";
      assert t[0] == '0' && t[1] == 'x';
      PieceBeforeZero(a, t);
      RestKeepsZero(a);
      PeelPiece(a, t, "0x<hex>");
      AddressLosesZero(a[Piece(a).1..]);
    }
  }

  /**
   Addresses after `a` are always replaced as a whole, and nothing else with them, exactly when `a` leaves a
   zero alone.
   */
  lemma AddressesAreHiddenExactly(a: string)
    ensures (forall h, b :: AddressBefore(h, b) ==> AddressHidden(a, h, b)) <==> KeepsZero(a)
  {
    if KeepsZero(a) {
      forall h, b | AddressBefore(h, b) ensures AddressHidden(a, h, b) {
        AddressIsHidden(a, h, b);
      }
    } else {
      AddressLosesZero(a);
      assert "0x" + "1" + [] == "0x1" && "0x<hex>" + Rewrite([]) == "0x<hex>";
      assert AddressBefore("1", []) && !AddressHidden(a, "1", []);
    }
  }
}
