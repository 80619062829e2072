/**
 * Letter selection without repeats (server.js `getRandomLetter`): a letter is
 * drawn uniformly among the letters of the 21-letter alphabet not used yet in
 * this game; once all 21 are used the record of used letters is emptied first.
 */
module Letters {
  import opened Protocol

  /** The alphabet the game draws from (no J, K, W, X, Y). */
  const Alphabet: string := "ABCDEFGHILMNOPQRSTUVZ"

  /**
   * `c` is one of the letters the game draws from, stated as a range test so
   * that proofs about letters need not search the 21-letter literal.
   */
  predicate InAlphabet(c: char) {
    'A' <= c <= 'Z' && c != 'J' && c != 'K' && c != 'W' && c != 'X' && c != 'Y'
  }

  lemma AlphabetMembership()
    ensures forall c :: InAlphabet(c) <==> c in Alphabet
  {
    forall c ensures InAlphabet(c) <==> c in Alphabet {
      if InAlphabet(c) {
        assert c in Alphabet;
      }
    }
  }

  /** The letters of `letters` that do not occur in `used`, in order. */
  function Unused(letters: string, used: seq<char>): string {
    if letters == [] then []
    else (if letters[0] in used then [] else [letters[0]]) + Unused(letters[1..], used)
  }

  /**
   * The filter keeps exactly the letters not in `used`. Kept apart from
   * `Unused` so that proofs about a draw see these facts only on request.
   */
  lemma {:induction false} UnusedMembers(letters: string, used: seq<char>)
    ensures forall c :: c in Unused(letters, used) <==> c in letters && c !in used
    ensures |Unused(letters, used)| <= |letters|
  {
    if letters != [] {
      UnusedMembers(letters[1..], used);
      assert letters == [letters[0]] + letters[1..];
    }
  }

  /** Filtering distributes over concatenation. */
  lemma {:induction false} UnusedAppend(a: string, b: string, used: seq<char>)
    ensures Unused(a + b, used) == Unused(a, used) + Unused(b, used)
  {
    if a == [] {
      assert a + b == b;
    } else {
      assert (a + b)[1..] == a[1..] + b;
      UnusedAppend(a[1..], b, used);
    }
  }

  /** `availableLetters` before the exhaustion check. */
  function Available(used: seq<char>): string {
    Unused(Alphabet, used)
  }

  /** The letters the draw chooses among: the unused ones, or all 21 once none is left. */
  function Candidates(used: seq<char>): (r: string)
    ensures r != []
  {
    if Available(used) == [] then Alphabet else Available(used)
  }

  /**
   * `rand * n` written as `n` additions of `rand`, so that the verifier meets
   * the product only where a proof needs it (`ScaledIsProduct`).
   */
  function Scaled(rand: real, n: nat): real {
    if n == 0 then 0.0 else Scaled(rand, n - 1) + rand
  }

  lemma {:induction false} ScaledIsProduct(rand: real, n: nat)
    ensures Scaled(rand, n) == rand * (n as real)
  {
    if n > 0 {
      ScaledIsProduct(rand, n - 1);
      assert rand * (n as real) == rand * ((n - 1) as real) + rand;
    }
  }

  lemma {:induction false} ScaledBounds(rand: real, n: nat)
    requires 0.0 <= rand < 1.0
    ensures 0.0 <= Scaled(rand, n) <= n as real
    ensures n > 0 ==> Scaled(rand, n) < n as real
  {
    if n > 0 {
      ScaledBounds(rand, n - 1);
    }
  }

  /** `Math.floor(rand * n)` for `rand` in [0, 1): an index below `n`. */
  function PickIndex(rand: real, n: nat): (i: nat)
    requires 0.0 <= rand < 1.0 && n > 0
    ensures i < n
  {
    ScaledBounds(rand, n);
    Scaled(rand, n).Floor
  }

  /** The letter `getRandomLetter` returns when `Math.random()` yields `rand`. */
  function Draw(used: seq<char>, rand: real): char
    requires 0.0 <= rand < 1.0
  {
    var candidates := Candidates(used);
    candidates[PickIndex(rand, |candidates|)]
  }

  /**
   * The draw is a letter of the alphabet, and one not used yet whenever some
   * letter of the alphabet is still unused.
   */
  lemma DrawFromAlphabet(used: seq<char>, rand: real)
    requires 0.0 <= rand < 1.0
    ensures InAlphabet(Draw(used, rand))
    ensures (exists c :: InAlphabet(c) && c !in used) ==> Draw(used, rand) !in used
  {
    AlphabetMembership();
    UnusedMembers(Alphabet, used);
    var candidates := Candidates(used);
    assert candidates[PickIndex(rand, |candidates|)] in candidates;
    assert (exists c :: InAlphabet(c) && c !in used) ==> candidates == Available(used);
  }

  /** `gameState.usedLetters` after that draw. */
  function UsedAfterDraw(used: seq<char>, rand: real): seq<char>
    requires 0.0 <= rand < 1.0
  {
    (if Available(used) == [] then [] else used) + [Draw(used, rand)]
  }

  /** Letters of the alphabet recorded as used. */
  predicate FromAlphabet(used: seq<char>) {
    forall c | c in used :: InAlphabet(c)
  }

  /** Drawing keeps the used letters distinct and within the alphabet. */
  lemma DrawKeepsUsedDistinct(used: seq<char>, rand: real)
    requires 0.0 <= rand < 1.0
    requires NoDup(used) && FromAlphabet(used)
    ensures NoDup(UsedAfterDraw(used, rand)) && FromAlphabet(UsedAfterDraw(used, rand))
  {
    var letter := Draw(used, rand);
    DrawFromAlphabet(used, rand);
    if Available(used) != [] {
      AlphabetMembership();
      UnusedMembers(Alphabet, used);
      assert InAlphabet(Available(used)[0]) && Available(used)[0] !in used;
      assert letter !in used;
    }
  }

  /** A sequence without repeats has as many distinct elements as positions. */
  lemma {:induction false} DistinctCount<T>(s: seq<T>)
    requires NoDup(s)
    ensures |set x | x in s| == |s|
  {
    if s != [] {
      DistinctCount(s[1..]);
      assert (set x | x in s) == {s[0]} + (set x | x in s[1..]);
      assert s[0] !in (set x | x in s[1..]);
    }
  }

  /** Adjacent letters increasing: the whole sequence is strictly increasing. */
  lemma {:induction false} IncreasingFromAdjacent(s: string, i: nat, j: nat)
    requires forall k | 0 <= k < |s| - 1 :: s[k] < s[k + 1]
    requires i < j < |s|
    ensures s[i] < s[j]
  {
    if j > i + 1 {
      IncreasingFromAdjacent(s, i, j - 1);
    }
  }

  lemma AlphabetDistinct()
    ensures NoDup(Alphabet) && |set c | c in Alphabet| == 21
  {
    var s := Alphabet;
    assert |s| == 21;
    assert forall k | 0 <= k < |s| - 1 :: s[k] < s[k + 1];
    forall i, j | 0 <= i < j < |s| ensures s[i] != s[j] {
      IncreasingFromAdjacent(s, i, j);
    }
    DistinctCount(s);
  }

  /** Distinct letters drawn from distinct `letters`: none is left exactly when all were used. */
  lemma NoneLeftIffAllUsed(letters: string, used: seq<char>)
    requires NoDup(letters) && NoDup(used)
    requires forall c | c in used :: c in letters
    ensures Unused(letters, used) == [] <==> |used| == |letters|
  {
    var A := set c | c in letters;
    var U := set c | c in used;
    DistinctCount(letters);
    DistinctCount(used);
    assert U <= A;
    assert A == U + (A - U) && U !! (A - U);
    assert |A| == |U| + |A - U|;
    var rest := Unused(letters, used);
    UnusedMembers(letters, used);
    if rest == [] {
      assert forall c | c in letters :: c in used;
      assert A - U == {};
    } else {
      assert rest[0] in A - U;
    }
  }

  /**
   * The reset branch is taken only after all 21 letters were drawn: with the
   * used letters distinct, none is available exactly when 21 are used.
   */
  lemma ExhaustedOnlyWhenAllUsed(used: seq<char>)
    requires NoDup(used) && FromAlphabet(used)
    ensures Available(used) == [] <==> |used| == |Alphabet|
  {
    AlphabetDistinct();
    AlphabetMembership();
    NoneLeftIffAllUsed(Alphabet, used);
  }

  /** Fewer than 21 distinct used letters: the draw is fresh and simply appended. */
  lemma DrawIsFreshBeforeExhaustion(used: seq<char>, rand: real)
    requires 0.0 <= rand < 1.0
    requires NoDup(used) && FromAlphabet(used) && |used| < |Alphabet|
    ensures Draw(used, rand) !in used
    ensures UsedAfterDraw(used, rand) == used + [Draw(used, rand)]
  {
    ExhaustedOnlyWhenAllUsed(used);
    AlphabetMembership();
    UnusedMembers(Alphabet, used);
    DrawFromAlphabet(used, rand);
    assert InAlphabet(Available(used)[0]) && Available(used)[0] !in used;
  }
}
