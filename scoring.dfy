/**
 * Uniqueness scoring of one round (server.js `calculatePoints`). Every category
 * of a player's answers scores 0, 5 or 10: nothing for an empty answer or one
 * that does not start with the round's letter, 10 when the player is the only
 * one holding that answer, 5 otherwise.
 */
module Scoring {
  import opened Wrappers
  import opened Text
  import opened Protocol

  /** `answer.toLowerCase().trim()`, the form answers are compared in. */
  function Normalize(raw: string): string {
    Trim(Lower(raw))
  }

  /** The answer passes the empty check and the letter check of `calculatePoints`. */
  predicate Eligible(raw: string, letter: string) {
    var answer := Normalize(raw);
    answer != "" && [UpperChar(answer[0])] == letter
  }

  /**
   * The filter of `calculatePoints`: this player's value for `category` is
   * truthy, normalises to `answer`, and its raw first character upper-cased is
   * the letter.
   */
  predicate Matches(entry: Answers, category: string, answer: string, letter: string) {
    match Lookup(entry, category)
    case None => false
    case Some(v) => v != "" && Normalize(v) == answer && [UpperChar(v[0])] == letter
  }

  /** How many of the submitted answer objects hold `answer` in `category`. */
  function SameAnswers(all: seq<Answers>, category: string, answer: string, letter: string): (n: nat)
    ensures n <= |all|
  {
    if all == [] then 0
    else (if Matches(all[0], category, answer, letter) then 1 else 0)
         + SameAnswers(all[1..], category, answer, letter)
  }

  /** Points for one category of one player, `allAnswers` being every player's answers. */
  function CategoryPoints(raw: string, category: string, all: seq<Answers>, letter: string): (r: nat)
    ensures r == 0 || r == 5 || r == 10
    ensures r == 0 <==> !Eligible(raw, letter)
  {
    var answer := Normalize(raw);
    if answer == "" then 0
    else if [UpperChar(answer[0])] != letter then 0
    else if SameAnswers(all, category, answer, letter) == 1 then 10
    else 5
  }

  /** `calculatePoints(answers, allAnswers, currentLetter)`: the sum over the entries of `answers`. */
  function CalculatePoints(answers: Answers, all: seq<Answers>, letter: string): (r: nat)
    ensures r <= 10 * |answers|
  {
    if answers == [] then 0
    else
      var rest := CalculatePoints(answers[1..], all, letter);
      assert forall i | 1 <= i < |answers| :: answers[i] == answers[1..][i - 1];
      CategoryPoints(answers[0].1, answers[0].0, all, letter) + rest
  }

  // ---------------------------------------------------------------------------
  // Counting matches

  lemma {:induction false} SameAnswersAppend(a: seq<Answers>, b: seq<Answers>, category: string, answer: string, letter: string)
    ensures SameAnswers(a + b, category, answer, letter)
         == SameAnswers(a, category, answer, letter) + SameAnswers(b, category, answer, letter)
  {
    if a == [] {
      assert a + b == b;
    } else {
      assert (a + b)[1..] == a[1..] + b;
      SameAnswersAppend(a[1..], b, category, answer, letter);
    }
  }

  /** Splits `all` around position `i`. */
  lemma SameAnswersAround(all: seq<Answers>, i: nat, category: string, answer: string, letter: string)
    requires i < |all|
    ensures SameAnswers(all, category, answer, letter)
         == SameAnswers(all[..i], category, answer, letter)
          + (if Matches(all[i], category, answer, letter) then 1 else 0)
          + SameAnswers(all[i + 1..], category, answer, letter)
  {
    assert all == all[..i] + ([all[i]] + all[i + 1..]);
    SameAnswersAppend(all[..i], [all[i]] + all[i + 1..], category, answer, letter);
    SameAnswersAppend([all[i]], all[i + 1..], category, answer, letter);
  }

  /** No position matches: the count is 0. */
  lemma {:induction false} SameAnswersNone(all: seq<Answers>, category: string, answer: string, letter: string)
    requires forall j | 0 <= j < |all| :: !Matches(all[j], category, answer, letter)
    ensures SameAnswers(all, category, answer, letter) == 0
  {
    if all != [] {
      SameAnswersNone(all[1..], category, answer, letter);
    }
  }

  /** The count depends only on the multiset of answer objects, not on their order. */
  lemma {:induction false} SameAnswersPermutation(a: seq<Answers>, b: seq<Answers>, category: string, answer: string, letter: string)
    requires multiset(a) == multiset(b)
    ensures SameAnswers(a, category, answer, letter) == SameAnswers(b, category, answer, letter)
  {
    if a == [] {
      assert |b| == |multiset(b)| == 0;
    } else {
      var x := a[0];
      assert x in multiset(b);
      var i :| 0 <= i < |b| && b[i] == x;
      var b' := b[..i] + b[i + 1..];
      MultisetRemoveHead(a, b, i);
      SameAnswersPermutation(a[1..], b', category, answer, letter);
      SameAnswersAround(b, i, category, answer, letter);
      SameAnswersAppend(b[..i], b[i + 1..], category, answer, letter);
    }
  }

  // ---------------------------------------------------------------------------
  // What the score of a category means

  /**
   * With a real letter, an answer that counts in the tally is also one that passes
   * the empty check and the letter check.
   */
  lemma MatchIsEligible(entry: Answers, category: string, answer: string, letter: char)
    requires IsUpper(letter)
    requires Matches(entry, category, answer, [letter])
    ensures Lookup(entry, category).Some?
    ensures Eligible(Lookup(entry, category).value, [letter])
    ensures Normalize(Lookup(entry, category).value) == answer
  {
    var v := Lookup(entry, category).value;
    NormalizeKeepsFirst(v);
    UpperOfLower(v[0]);
  }

  /** A raw answer not starting with whitespace keeps its first character, lower-cased. */
  lemma NormalizeKeepsFirst(v: string)
    requires v != [] && !IsSpace(v[0])
    ensures Normalize(v) != [] && Normalize(v)[0] == LowerChar(v[0])
  {
    var lowered := Lower(v);
    assert lowered[0] == LowerChar(v[0]);
    assert !IsSpace(lowered[0]);
  }

  /**
   * An answer held by exactly one player (that player's own, with no other
   * answer object holding the same normalised answer) scores 10.
   */
  lemma UniqueAnswerScoresTen(all: seq<Answers>, i: nat, category: string, letter: char)
    requires IsUpper(letter)
    requires i < |all| && Lookup(all[i], category).Some?
    requires Matches(all[i], category, Normalize(Lookup(all[i], category).value), [letter])
    requires forall j | 0 <= j < |all| && j != i ::
      !Matches(all[j], category, Normalize(Lookup(all[i], category).value), [letter])
    ensures CategoryPoints(Lookup(all[i], category).value, category, all, [letter]) == 10
  {
    var v := Lookup(all[i], category).value;
    var answer := Normalize(v);
    MatchIsEligible(all[i], category, answer, letter);
    SameAnswersAround(all, i, category, answer, [letter]);
    SameAnswersNone(all[..i], category, answer, [letter]);
    var tail := all[i + 1..];
    forall j | 0 <= j < |tail|
      ensures !Matches(tail[j], category, answer, [letter])
    {
      assert tail[j] == all[i + 1 + j];
    }
    SameAnswersNone(all[i + 1..], category, answer, [letter]);
  }

  /** Two different positions that both match make the count at least 2. */
  lemma SameAnswersTwo(all: seq<Answers>, i: nat, j: nat, category: string, answer: string, letter: string)
    requires i < j < |all|
    requires Matches(all[i], category, answer, letter) && Matches(all[j], category, answer, letter)
    ensures SameAnswers(all, category, answer, letter) >= 2
  {
    SameAnswersAround(all, i, category, answer, letter);
    var tail := all[i + 1..];
    assert tail[j - i - 1] == all[j];
    SameAnswersAround(tail, j - i - 1, category, answer, letter);
  }

  /** An answer that two different players both hold scores 5 for each of them. */
  lemma SharedAnswerScoresFive(all: seq<Answers>, i: nat, j: nat, category: string, letter: char)
    requires IsUpper(letter)
    requires i < |all| && j < |all| && i != j && Lookup(all[i], category).Some?
    requires Matches(all[i], category, Normalize(Lookup(all[i], category).value), [letter])
    requires Matches(all[j], category, Normalize(Lookup(all[i], category).value), [letter])
    ensures CategoryPoints(Lookup(all[i], category).value, category, all, [letter]) == 5
  {
    var v := Lookup(all[i], category).value;
    var answer := Normalize(v);
    MatchIsEligible(all[i], category, answer, letter);
    if i < j {
      SameAnswersTwo(all, i, j, category, answer, [letter]);
    } else {
      SameAnswersTwo(all, j, i, category, answer, [letter]);
    }
  }

  /**
   * The self-count uses the raw, untrimmed first character: an answer whose raw
   * form starts with whitespace passes the (trimmed) letter check but is not
   * counted among the matches, so when nobody else holds it, it scores 5, not 10.
   */
  lemma LeadingSpaceScoresFive(mine: Answers, category: string, letter: char)
    requires IsUpper(letter)
    requires Lookup(mine, category).Some?
    requires var v := Lookup(mine, category).value; v != "" && IsSpace(v[0]) && Eligible(v, [letter])
    ensures CategoryPoints(Lookup(mine, category).value, category, [mine], [letter]) == 5
  {
    var v := Lookup(mine, category).value;
    assert !Matches(mine, category, Normalize(v), [letter]);
    assert SameAnswers([mine], category, Normalize(v), [letter]) == 0;
  }

  /** The round total depends only on the multiset of submitted answer objects. */
  lemma {:induction false} PointsIgnoreSubmissionOrder(answers: Answers, a: seq<Answers>, b: seq<Answers>, letter: string)
    requires multiset(a) == multiset(b)
    ensures CalculatePoints(answers, a, letter) == CalculatePoints(answers, b, letter)
  {
    if answers != [] {
      PointsIgnoreSubmissionOrder(answers[1..], a, b, letter);
      CategoryPointsIgnoreSubmissionOrder(answers[0].1, answers[0].0, a, b, letter);
    }
  }

  /** One category's points depend only on the multiset of submitted answer objects. */
  lemma CategoryPointsIgnoreSubmissionOrder(raw: string, category: string, a: seq<Answers>, b: seq<Answers>, letter: string)
    requires multiset(a) == multiset(b)
    ensures CategoryPoints(raw, category, a, letter) == CategoryPoints(raw, category, b, letter)
  {
    SameAnswersPermutation(a, b, category, Normalize(raw), letter);
  }

  /** A round total is zero exactly when no category passes the empty and letter checks. */
  lemma {:induction false} PointsZeroIffNothingEligible(answers: Answers, all: seq<Answers>, letter: string)
    ensures CalculatePoints(answers, all, letter) == 0
        <==> forall i | 0 <= i < |answers| :: !Eligible(answers[i].1, letter)
  {
    if answers != [] {
      var rest := answers[1..];
      PointsZeroIffNothingEligible(rest, all, letter);
      assert CalculatePoints(answers, all, letter)
          == CategoryPoints(answers[0].1, answers[0].0, all, letter) + CalculatePoints(rest, all, letter);
      if forall i | 0 <= i < |answers| :: !Eligible(answers[i].1, letter) {
        forall i | 0 <= i < |rest| ensures !Eligible(rest[i].1, letter) {
          assert rest[i] == answers[i + 1];
        }
      }
      if forall i | 0 <= i < |rest| :: !Eligible(rest[i].1, letter) {
        forall i | 1 <= i < |answers| ensures !Eligible(answers[i].1, letter) {
          assert answers[i] == rest[i - 1];
        }
      }
    }
  }
}
