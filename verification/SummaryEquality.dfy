/** Which summaries become the same: capitalization, spacing, numbers and addresses do not matter. */
module SummaryEquality {
  import opened Text
  import opened SummaryNormalizer

  // ---------------------------------------------------------------- capitalization

  lemma LowerIsIdempotent(s: string)
    ensures Lower(Lower(s)) == Lower(s)
  {
  }

  lemma {:induction false} LeadOfLower(s: string, p: char -> bool)
    requires forall c :: p(LowerChar(c)) == p(c)
    ensures Lead(Lower(s), p) == Lead(s, p)
  {
    if s != [] {
      assert Lower(s)[1..] == Lower(s[1..]);
      LeadOfLower(s[1..], p);
    }
  }

  /** The scanner tells no capital from a small letter. */
  lemma PieceOfLower(s: string)
    requires s != []
    ensures Piece(Lower(s)) == (Lower(Piece(s).0), Piece(s).1)
  {
    LeadOfLower(s, DigitClass());
    LeadOfLower(s, HexClass());
    if |s| > 2 {
      assert Lower(s)[2..] == Lower(s[2..]);
      LeadOfLower(s[2..], HexClass());
    }
    LowerOfPiece(s);
  }

  lemma LowerOfPiece(s: string)
    requires s != []
    ensures Lower("0x<hex>") == "0x<hex>" && Lower("<num>") == "<num>" && Lower("<hex>") == "<hex>"
    ensures Lower([s[0]]) == [Lower(s)[0]]
  {
  }

  lemma {:induction false} RewriteOfLower(s: string)
    ensures Rewrite(Lower(s)) == Lower(Rewrite(s))
    decreases |s|
  {
    if s != [] {
      var n := Piece(s).1;
      PieceOfLower(s);
      assert Lower(s)[n..] == Lower(s[n..]);
      RewriteOfLower(s[n..]);
      LowerConcat(Piece(s).0, Rewrite(s[n..]));
    }
  }

  lemma {:induction false} WordsOfLower(s: string)
    ensures Words(Lower(s)) == LowerAll(Words(s))
    decreases |s|
  {
    if s != [] {
      if IsWhitespace(s[0]) {
        assert Lower(s)[1..] == Lower(s[1..]);
        WordsOfLower(s[1..]);
      } else {
        var n := Lead(s, TextClass());
        LeadOfLower(s, TextClass());
        assert Lower(s)[..n] == Lower(s[..n]) && Lower(s)[n..] == Lower(s[n..]);
        WordsOfLower(s[n..]);
        assert LowerAll(Words(s)) == [Lower(s[..n])] + LowerAll(Words(s[n..])) by {
          assert Words(s)[1..] == Words(s[n..]);
        }
      }
    }
  }

  lemma {:induction false} RewriteAllOfLower(words: seq<string>)
    ensures LowerAll(RewriteAll(LowerAll(words))) == LowerAll(RewriteAll(words))
  {
    if words != [] {
      RewriteOfLower(words[0]);
      LowerIsIdempotent(Rewrite(words[0]));
      RewriteAllOfLower(words[1..]);
      assert LowerAll(words)[1..] == LowerAll(words[1..]);
      assert RewriteAll(words)[1..] == RewriteAll(words[1..]);
      assert RewriteAll(LowerAll(words))[1..] == RewriteAll(LowerAll(words[1..]));
    }
  }

  lemma NormalizeOfLower(s: string)
    ensures Normalize(Lower(s)) == Normalize(s)
  {
    WordsOfLower(s);
    RewriteAllOfLower(Words(s));
    LowerOfJoin(RewriteAll(Words(Lower(s))));
    LowerOfJoin(RewriteAll(Words(s)));
  }

  /** Summaries that differ only in capitalization become the same. */
  lemma CapitalsAreIgnored(s: string, t: string)
    requires |s| == |t| && forall i :: 0 <= i < |s| ==> LowerChar(s[i]) == LowerChar(t[i])
    ensures Normalize(s) == Normalize(t)
  {
    assert Lower(s) == Lower(t);
    NormalizeOfLower(s);
    NormalizeOfLower(t);
  }

  // ---------------------------------------------------------------- spacing

  predicate IsGap(s: string) {
    forall c :: c in s ==> IsWhitespace(c)
  }

  /** Words with white space between them, and possibly before and after them. */
  function Spread(words: seq<string>, gaps: seq<string>): string
    requires |gaps| == |words| + 1
  {
    if words == [] then gaps[0] else gaps[0] + (words[0] + Spread(words[1..], gaps[1..]))
  }

  predicate Separates(gaps: seq<string>) {
    (forall i :: 0 <= i < |gaps| ==> IsGap(gaps[i])) && forall i :: 0 < i < |gaps| - 1 ==> gaps[i] != []
  }

  lemma {:induction false} WordsAfterGap(gap: string, s: string)
    requires IsGap(gap)
    ensures Words(gap + s) == Words(s)
  {
    if gap == [] {
      assert gap + s == s;
    } else {
      assert gap[0] in gap && (gap + s)[1..] == gap[1..] + s;
      WordsAfterGap(gap[1..], s);
    }
  }

  lemma FirstWord(w: string, s: string)
    requires IsWord(w) && (s == [] || IsWhitespace(s[0]))
    ensures Words(w + s) == [w] + Words(s)
  {
    LeadOfWord(w, s);
    assert w[0] in w && (w + s)[..|w|] == w && (w + s)[|w|..] == s;
  }

  lemma SpreadBeginsBlank(words: seq<string>, gaps: seq<string>)
    requires |gaps| == |words| + 1 && Separates(gaps) && (words != [] ==> gaps[0] != [])
    ensures Spread(words, gaps) == [] || IsWhitespace(Spread(words, gaps)[0])
  {
    if gaps[0] != [] {
      assert gaps[0][0] in gaps[0];
    }
  }

  lemma {:induction false} WordsOfSpread(words: seq<string>, gaps: seq<string>)
    requires |gaps| == |words| + 1 && AllWords(words) && Separates(gaps)
    ensures Words(Spread(words, gaps)) == words
    decreases |words|
  {
    if words == [] {
      WordsAfterGap(gaps[0], []);
      assert gaps[0] + [] == gaps[0];
    } else {
      var rest := Spread(words[1..], gaps[1..]);
      WordsAfterGap(gaps[0], words[0] + rest);
      assert words[0] in words;
      SpreadBeginsBlank(words[1..], gaps[1..]);
      FirstWord(words[0], rest);
      WordsOfSpread(words[1..], gaps[1..]);
      assert words == [words[0]] + words[1..];
    }
  }

  /** However the words of a summary are spaced, it becomes the rewritten words in small letters, one space apart. */
  lemma SpacingIsIgnored(words: seq<string>, gaps: seq<string>)
    requires |gaps| == |words| + 1 && AllWords(words) && Separates(gaps)
    ensures Normalize(Spread(words, gaps)) == Join(LowerAll(RewriteAll(words)))
  {
    WordsOfSpread(words, gaps);
    LowerOfJoin(RewriteAll(words));
  }

  // ---------------------------------------------------------------- bare addresses

  /** Eight hex digits or more that do not begin with three decimal ones, up to a character that is no hex digit. */
  predicate BareAddress(h: string, b: string) {
    && |h| >= 8 && (forall c :: c in h ==> c in HEX_DIGITS) && (b == [] || b[0] !in HEX_DIGITS)
    && !(h[0] in DECIMAL_DIGITS && h[1] in DECIMAL_DIGITS && h[2] in DECIMAL_DIGITS)
  }

  const DECIMAL_DIGITS: string := "0123456789"
  const HEX_DIGITS: string := "0123456789abcdefABCDEF"

  lemma DigitsAreListed(c: char)
    ensures IsDigit(c) <==> c in DECIMAL_DIGITS
    ensures IsHexDigit(c) <==> c in HEX_DIGITS
  {
    var n := c as int;
    if IsDigit(c) {
      assert DECIMAL_DIGITS[n - 48] == c && HEX_DIGITS[n - 48] == c;
    } else if 'a' <= c <= 'f' {
      assert HEX_DIGITS[n - 97 + 10] == c;
    } else if 'A' <= c <= 'F' {
      assert HEX_DIGITS[n - 65 + 16] == c;
    }
  }

  /** After detached text a bare address is replaced as a whole, and nothing else is. */
  lemma BareAddressesAreHidden(a: string, h: string, b: string)
    requires Detached(a) && BareAddress(h, b)
    ensures Rewrite(a + (h + b)) == Rewrite(a) + ("<hex>" + Rewrite(b))
  {
    var s := h + b;
    forall c ensures (IsDigit(c) <==> c in DECIMAL_DIGITS) && (IsHexDigit(c) <==> c in HEX_DIGITS) {
      DigitsAreListed(c);
    }
    RewriteSplits(a, s);
    LeadOfRun(h, b, HexClass());
    LeadCounts(s, DigitClass(), 3);
    assert h[1] in h && s[1] == h[1];
    assert Piece(s) == ("<hex>", |h|);
    WriteOn([], s, "<hex>", b);
  }
}
