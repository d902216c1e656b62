/** What outcome names, priorities and the order of entries amount to, told from the spelling and the stored numbers. */
module ReproOutcomes {
  import opened MachineInts
  import opened Wrappers
  import opened Ordering
  import opened Text
  import opened ReproEntry

  // ---------------------------------------------------------------- spellings

  predicate Blank(s: string) {
    forall c :: c in s ==> IsWhitespace(c)
  }

  /** The same letters, some of them possibly capitals. */
  predicate SameLetters(s: string, word: string) {
    |s| == |word| && forall i :: 0 <= i < |s| ==>
      s[i] == word[i] || ('A' <= s[i] <= 'Z' && s[i] as int + 32 == word[i] as int)
  }

  ghost predicate SpelledBetween(s: string, word: string, from: nat, to: nat) {
    from <= to <= |s| && Blank(s[..from]) && SameLetters(s[from..to], word) && Blank(s[to..])
  }

  /** The word in any capitalization, with any white space before and after it. */
  ghost predicate Spells(s: string, word: string) {
    exists from: nat, to: nat :: SpelledBetween(s, word, from, to)
  }

  /** A word as it is looked for: without capitals, and without white space at its ends. */
  predicate Plain(word: string) {
    Trimmed(word) && forall i :: 0 <= i < |word| ==> !('A' <= word[i] <= 'Z')
  }

  lemma {:induction false} TrimStartCuts(s: string) returns (from: nat)
    ensures from <= |s| && TrimStart(s) == s[from..] && Blank(s[..from])
  {
    if s != [] && IsWhitespace(s[0]) {
      var rest := TrimStartCuts(s[1..]);
      from := rest + 1;
      assert s[1..][rest..] == s[from..];
      assert s[..from] == [s[0]] + s[1..][..rest];
    } else {
      from := 0;
    }
  }

  lemma {:induction false} TrimEndCuts(s: string) returns (to: nat)
    ensures to <= |s| && TrimEnd(s) == s[..to] && Blank(s[to..])
  {
    if s != [] && IsWhitespace(s[|s| - 1]) {
      to := TrimEndCuts(s[..|s| - 1]);
      assert s[..|s| - 1][..to] == s[..to];
      assert s[to..] == s[..|s| - 1][to..] + [s[|s| - 1]];
    } else {
      to := |s|;
    }
  }

  lemma TrimCuts(s: string) returns (from: nat, to: nat)
    ensures from <= to <= |s| && Trim(s) == s[from..to] && Blank(s[..from]) && Blank(s[to..])
  {
    from := TrimStartCuts(s);
    var k := TrimEndCuts(s[from..]);
    to := from + k;
    assert s[from..][..k] == s[from..to] && s[from..][k..] == s[to..];
  }

  lemma {:induction false} TrimStartSkips(s: string, from: nat)
    requires from <= |s| && Blank(s[..from]) && (from < |s| ==> !IsWhitespace(s[from]))
    ensures TrimStart(s) == s[from..]
  {
    if from > 0 {
      assert s[0] in s[..from];
      assert s[1..][..from - 1] == s[..from][1..];
      TrimStartSkips(s[1..], from - 1);
      assert s[1..][from - 1..] == s[from..];
    }
  }

  lemma {:induction false} TrimEndSkips(s: string, to: nat)
    requires to <= |s| && Blank(s[to..]) && (to > 0 ==> !IsWhitespace(s[to - 1]))
    ensures TrimEnd(s) == s[..to]
  {
    if to < |s| {
      assert s[to..][|s| - to - 1] == s[|s| - 1];
      assert s[..|s| - 1][to..] == s[to..][..|s| - 1 - to];
      TrimEndSkips(s[..|s| - 1], to);
      assert s[..|s| - 1][..to] == s[..to];
    }
  }

  lemma TrimSkips(s: string, from: nat, to: nat)
    requires from <= to <= |s| && Blank(s[..from]) && Blank(s[to..]) && Trimmed(s[from..to])
    ensures Trim(s) == s[from..to]
  {
    if from == to {
      assert s == s[..from] + s[to..];
      TrimStartSkips(s, |s|);
      TrimEndSkips([], 0);
    } else {
      assert s[from..to][0] == s[from] && s[from..to][to - from - 1] == s[to - 1];
      TrimStartSkips(s, from);
      assert s[from..][to - from..] == s[to..] && s[from..][to - from - 1] == s[to - 1];
      TrimEndSkips(s[from..], to - from);
      assert s[from..][..to - from] == s[from..to];
    }
  }

  lemma LowerSpells(s: string, word: string)
    requires forall i :: 0 <= i < |word| ==> !('A' <= word[i] <= 'Z')
    ensures Lower(s) == word <==> SameLetters(s, word)
  {
    if SameLetters(s, word) {
      assert Lower(s) == word;
    }
  }

  lemma SameLettersTrimmed(s: string, word: string)
    requires SameLetters(s, word) && Plain(word)
    ensures Trimmed(s)
  {
    LowerSpells(s, word);
    if s != [] {
      assert LowerChar(s[0]) == word[0] && LowerChar(s[|s| - 1]) == word[|s| - 1];
    }
  }

  lemma SpellsExactly(s: string, word: string)
    requires Plain(word)
    ensures Spells(s, word) <==> Lower(Trim(s)) == word
  {
    if Lower(Trim(s)) == word {
      var from, to := TrimCuts(s);
      LowerSpells(s[from..to], word);
      assert SpelledBetween(s, word, from, to);
    }
    if from: nat, to: nat :| SpelledBetween(s, word, from, to) {
      SameLettersTrimmed(s[from..to], word);
      TrimSkips(s, from, to);
      LowerSpells(s[from..to], word);
    }
  }

  const SUCCESS_WORDS: seq<string> := ["success", "succeeded", "reproduced", "minimized"]
  const TIMEOUT_WORDS: seq<string> := ["timeout", "timed_out", "timed-out", "hanged", "hung"]
  const FAILURE_WORDS: seq<string> := ["", "failure", "failed", "error", "errored"]

  ghost predicate SpellsOne(s: string, words: seq<string>) {
    exists i :: 0 <= i < |words| && Spells(s, words[i])
  }

  predicate IsOne(s: string, words: seq<string>) {
    exists i :: 0 <= i < |words| && s == words[i]
  }

  lemma SpellsOneExactly(s: string, words: seq<string>)
    requires forall i :: 0 <= i < |words| ==> Plain(words[i])
    ensures SpellsOne(s, words) <==> IsOne(Lower(Trim(s)), words)
  {
    forall i | 0 <= i < |words| ensures Spells(s, words[i]) <==> Lower(Trim(s)) == words[i] {
      SpellsExactly(s, words[i]);
    }
  }

  lemma WordsArePlain()
    ensures forall i :: 0 <= i < |SUCCESS_WORDS| ==> Plain(SUCCESS_WORDS[i])
    ensures forall i :: 0 <= i < |TIMEOUT_WORDS| ==> Plain(TIMEOUT_WORDS[i])
    ensures forall i :: 0 <= i < |FAILURE_WORDS| ==> Plain(FAILURE_WORDS[i])
  {
  }

  lemma NamesAreTheWords(name: string)
    ensures NamesSuccess(name) <==> IsOne(name, SUCCESS_WORDS)
    ensures NamesTimeout(name) <==> IsOne(name, TIMEOUT_WORDS)
    ensures NamesFailure(name) <==> IsOne(name, FAILURE_WORDS)
  {
    if NamesSuccess(name) {
      var i := if name == SUCCESS_WORDS[0] then 0 else if name == SUCCESS_WORDS[1] then 1
               else if name == SUCCESS_WORDS[2] then 2 else 3;
      assert name == SUCCESS_WORDS[i];
    }
    if NamesTimeout(name) {
      var i := if name == TIMEOUT_WORDS[0] then 0 else if name == TIMEOUT_WORDS[1] then 1
               else if name == TIMEOUT_WORDS[2] then 2 else if name == TIMEOUT_WORDS[3] then 3 else 4;
      assert name == TIMEOUT_WORDS[i];
    }
    if NamesFailure(name) {
      var i := if name == FAILURE_WORDS[0] then 0 else if name == FAILURE_WORDS[1] then 1
               else if name == FAILURE_WORDS[2] then 2 else if name == FAILURE_WORDS[3] then 3 else 4;
      assert name == FAILURE_WORDS[i];
    }
  }

  /**
   Outcomes are recognized in any capitalization and with any white space around them, a blank one as a failure; any
   other is kept, trimmed and in small letters.
   */
  lemma OutcomesByWord(outcome: string)
    ensures Canonical(outcome) == "succeeded" <==> SpellsOne(outcome, SUCCESS_WORDS)
    ensures Canonical(outcome) == "timed_out" <==> SpellsOne(outcome, TIMEOUT_WORDS)
    ensures Canonical(outcome) == "failed" <==> SpellsOne(outcome, FAILURE_WORDS)
    ensures Canonical(outcome) in {"succeeded", "timed_out", "failed"} || Spells(outcome, Canonical(outcome))
  {
    var name := Lower(Trim(outcome));
    WordsArePlain();
    SpellsOneExactly(outcome, SUCCESS_WORDS);
    SpellsOneExactly(outcome, TIMEOUT_WORDS);
    SpellsOneExactly(outcome, FAILURE_WORDS);
    NamesAreTheWords(name);
    RenamedApart(name);
    TrimTrims(outcome);
    SpellsExactly(outcome, name);
  }

  lemma RenamedApart(name: string)
    ensures Rename(name) == "succeeded" <==> NamesSuccess(name)
    ensures Rename(name) == "timed_out" <==> NamesTimeout(name)
    ensures Rename(name) == "failed" <==> NamesFailure(name)
  {
    assert NamesSuccess("succeeded") && NamesTimeout("timed_out") && NamesFailure("failed");
    assert "succeeded"[0] == 's' && "timed_out"[0] == 't' && "failed"[0] == 'f';
    assert |"succeeded"| > 0 && |"timed_out"| > 0 && |"failed"| > 0;
  }

  // ---------------------------------------------------------------- waiting after an attempt

  /** Seconds to wait per attempt, for outcomes that are no success. */
  ghost function WaitUnit(outcome: string): nat {
    if SpellsOne(outcome, FAILURE_WORDS) then 60 else if SpellsOne(outcome, TIMEOUT_WORDS) then 300 else 120
  }

  /** The wait is one unit for every attempt made, up to ten; a success is not waited for. */
  lemma WaitsByWord(outcome: string, attempts: nat)
    requires attempts > 0
    ensures if SpellsOne(outcome, SUCCESS_WORDS) then BackoffSecs(outcome, attempts).None?
            else BackoffSecs(outcome, attempts)
                 == Some(WaitUnit(outcome) * (if attempts <= 10 then attempts else 10))
  {
    OutcomesByWord(outcome);
  }

  // ---------------------------------------------------------------- priorities

  /** What the presence of a crash, a repro and a log leaves undecided. */
  function MinorScore(c: CatalogEntry): nat {
    1_000 * Bit(c.hasShape) + 500 * Bit(c.hasProfile) + (if c.occurrences < 999 then c.occurrences else 999)
  }

  function PriorityLevels(c: CatalogEntry): (r: seq<int>)
    ensures |r| == 4
  {
    [Bit(c.artifactType == "crash"), Bit(c.hasRepro), Bit(c.hasLog), MinorScore(c)]
  }

  lemma PriorityIsWeighted(c: CatalogEntry)
    ensures var r := PriorityLevels(c);
      ArtifactPriority(c) == 1_000_000 + 1_000_000 * r[0] + 100_000 * r[1] + 10_000 * r[2] + r[3] && 0 <= r[3] < 2_500
  {
  }

  lemma WeightsAreLexicographic(a: seq<int>, b: seq<int>)
    requires |a| == |b| == 4 && 0 <= a[3] < 2_500 && 0 <= b[3] < 2_500
    requires forall i :: 0 <= i < 3 ==> a[i] in {0, 1} && b[i] in {0, 1}
    ensures CompareInt(1_000_000 * a[0] + 100_000 * a[1] + 10_000 * a[2] + a[3],
                       1_000_000 * b[0] + 100_000 * b[1] + 10_000 * b[2] + b[3])
         == CompareInt(a[0], b[0]).Then(CompareInt(a[1], b[1]))
            .Then(CompareInt(a[2], b[2])).Then(CompareInt(a[3], b[3]))
  {
  }

  lemma FourLevels(a: seq<int>, b: seq<int>)
    requires |a| == |b| == 4
    ensures CompareVector(a, b)
         == CompareInt(a[0], b[0]).Then(CompareInt(a[1], b[1]))
            .Then(CompareInt(a[2], b[2])).Then(CompareInt(a[3], b[3]))
  {
    assert a[0..] == a && b[0..] == b && a[4..] == [] && b[4..] == [];
    CompareVectorAt(a, b, 0);
    CompareVectorAt(a, b, 1);
    CompareVectorAt(a, b, 2);
    CompareVectorAt(a, b, 3);
  }

  /** Crashes go before everything else, then entries with a repro, then those with a log; the rest is one score. */
  lemma PriorityIsLexicographic(a: CatalogEntry, b: CatalogEntry)
    ensures CompareInt(ArtifactPriority(a), ArtifactPriority(b)) == CompareVector(PriorityLevels(a), PriorityLevels(b))
  {
    PriorityIsWeighted(a);
    PriorityIsWeighted(b);
    WeightsAreLexicographic(PriorityLevels(a), PriorityLevels(b));
    FourLevels(PriorityLevels(a), PriorityLevels(b));
  }

  // ---------------------------------------------------------------- the order of entries

  /** The numeric levels of an entry, the smallest first. */
  function Levels(e: Entry, now: u64): (r: seq<int>)
    ensures |r| == 11
  {
    var wait: int, last: int := if InBackoff(e, now) then e.notBefore.value else 0, e.lastAttempt.GetOr(0);
    var priority: int, seen: int, occurrences: int := e.priority, e.lastSeen, e.occurrences;
    [Bit(HasActiveLease(e, now)), Bit(InBackoff(e, now)), wait,
     Bit(e.lastOutcome.Some? && Canonical(e.lastOutcome.value) == "succeeded"), Bit(e.attempts > 0),
     OutcomeLevel(e.lastOutcome), -priority, e.attempts, last, -seen, -occurrences]
  }

  /** Nothing yet, then failures and unknown outcomes, then timeouts, then successes. */
  function OutcomeLevel(outcome: Option<string>): int {
    if outcome.None? then 0
    else if Canonical(outcome.value) == "succeeded" then 3
    else if Canonical(outcome.value) == "timed_out" then 2
    else 1
  }

  /**
   Of two entries the one with the smaller first differing level comes first: not leased, not backed off, the sooner
   due, not yet successful, not yet attempted, by outcome, of higher priority, with fewer attempts, attempted longer
   ago, seen more recently, more often, and then by type and signature.
   */
  lemma OrderIsLexicographic(a: Entry, b: Entry, now: u64)
    ensures CompareEntries(a, b, now)
         == CompareVector(Levels(a, now), Levels(b, now))
            .Then(CompareVector(Codes(a.artifactType), Codes(b.artifactType)))
            .Then(CompareVector(Codes(a.signature), Codes(b.signature)))
  {
    ChainIsLexicographic(ViewOf(a, now), ViewOf(b, now));
    LevelsAreRanks(a, now);
    LevelsAreRanks(b, now);
  }

  lemma LevelsAreRanks(e: Entry, now: u64)
    ensures Rank(ViewOf(e, now)) == Levels(e, now)
  {
  }
}
