/**
 * The browser side (public/js/game.js): the input checks `GameClient` runs
 * before it emits `join-game` and `submit-answers`, and the score bookkeeping
 * of `AdminScoreEditor` behind the `admin-score-update` payload. The DOM is
 * reduced to what these checks read: the current screen, the submit button's
 * disabled flag, and the raw text of the input fields. What the client emits
 * is kept as a log of outbound events.
 */
module Client {
  import opened Wrappers
  import opened Text
  import opened Protocol

  /** `GameClient.currentScreen`. */
  datatype Screen = Login | Lobby | Countdown | Game | Results | Final

  /** A socket event the client emits, with its payload. */
  datatype Emit =
    | JoinGameEvent(name: string)
    | SubmitAnswersEvent(answers: Answers)

  // ---------------------------------------------------------------------------
  // Name check of `joinGame`

  const MinNameLength := 2
  const MaxNameLength := 20

  /** The name `joinGame` sends for the text typed in, or `None` when it refuses it. */
  function JoinName(input: string): Option<string> {
    var name := Trim(input);
    if Utf16Length(name) < MinNameLength then None
    else if Utf16Length(name) > MaxNameLength then None
    else Some(name)
  }

  /**
   * A name is sent exactly when its trimmed form is 2 to 20 UTF-16 code units
   * long (its `.length`); the name sent is already trimmed, so the server
   * stores it as the player typed it minus the surrounding whitespace.
   */
  lemma JoinNameAccepted(input: string)
    ensures JoinName(input).Some? <==> MinNameLength <= Utf16Length(Trim(input)) <= MaxNameLength
    ensures JoinName(input).Some? ==>
      var name := JoinName(input).value;
      && MinNameLength <= Utf16Length(name) <= MaxNameLength
      && Trimmed(name) && Trim(name) == name
  {
    TrimIdempotent(input);
  }

  /**
   * The checks of `joinGame` on the name field: trim, then refuse a name
   * shorter than 2 or longer than 20 code units. What they let through is the
   * name `JoinName` describes, and it is one the log accepts.
   */
  method CheckName(input: string) returns (checked: Option<string>)
    ensures checked == JoinName(input)
    ensures checked.Some? ==> WellFormed(JoinGameEvent(checked.value))
  {
    var name := Trim(input);
    if Utf16Length(name) < MinNameLength {
      return None;
    }
    if Utf16Length(name) > MaxNameLength {
      return None;
    }
    checked := Some(name);
  }

  // ---------------------------------------------------------------------------
  // Validation and sanitisation of `submitAnswers`

  const MaxAnswerLength := 50

  /** The characters `answer.replace(/[<>"'&]/g, '')` removes. */
  predicate Forbidden(c: char) {
    c == '<' || c == '>' || c == '"' || c == '\'' || c == '&'
  }

  /** `answer.replace(/[<>"'&]/g, '')`. */
  function Sanitize(s: string): string {
    if s == [] then []
    else (if Forbidden(s[0]) then [] else [s[0]]) + Sanitize(s[1..])
  }

  /** No forbidden character occurs in `s`. */
  predicate Clean(s: string) {
    forall i | 0 <= i < |s| :: !Forbidden(s[i])
  }

  /**
   * Sanitising leaves no forbidden character, never lengthens the answer (in
   * characters or in UTF-16 code units), keeps every other character, and
   * leaves a clean answer as it is.
   */
  lemma SanitizeRemovesForbidden(s: string)
    ensures Clean(Sanitize(s))
    ensures |Sanitize(s)| <= |s| && Utf16Length(Sanitize(s)) <= Utf16Length(s)
    ensures forall c :: c in Sanitize(s) <==> c in s && !Forbidden(c)
    ensures Clean(s) ==> Sanitize(s) == s
  {
    SanitizeKeepsOthers(s);
    SanitizeShortens(s);
    if Clean(s) {
      SanitizeKeepsClean(s);
    }
  }

  /** The sanitised answer holds exactly the allowed characters of the input, so it is clean. */
  lemma {:induction false} SanitizeKeepsOthers(s: string)
    ensures Clean(Sanitize(s))
    ensures forall c :: c in Sanitize(s) <==> c in s && !Forbidden(c)
  {
    if s != [] {
      SanitizeKeepsOthers(s[1..]);
      assert s == [s[0]] + s[1..];
      var rest := Sanitize(s[1..]);
      var head: string := if Forbidden(s[0]) then [] else [s[0]];
      assert Sanitize(s) == head + rest;
      CleanConcat(head, rest);
    }
  }

  /** Sanitising never lengthens the answer, in characters or in code units. */
  lemma {:induction false} SanitizeShortens(s: string)
    ensures |Sanitize(s)| <= |s| && Utf16Length(Sanitize(s)) <= Utf16Length(s)
  {
    if s != [] {
      SanitizeShortens(s[1..]);
      var rest := Sanitize(s[1..]);
      var head: string := if Forbidden(s[0]) then [] else [s[0]];
      assert Sanitize(s) == head + rest;
      if head == [] {
        assert head + rest == rest;
      } else {
        assert (head + rest)[1..] == rest;
      }
    }
  }

  /** A clean answer is left as it is. */
  lemma {:induction false} SanitizeKeepsClean(s: string)
    requires Clean(s)
    ensures Sanitize(s) == s
  {
    if s != [] {
      assert forall i | 0 <= i < |s[1..]| :: s[1..][i] == s[i + 1];
      SanitizeKeepsClean(s[1..]);
      assert s == [s[0]] + s[1..];
    }
  }

  lemma CleanConcat(a: string, b: string)
    requires Clean(a) && Clean(b)
    ensures Clean(a + b)
  {
    forall i | 0 <= i < |a + b| ensures !Forbidden((a + b)[i]) {
      if i >= |a| {
        assert (a + b)[i] == b[i - |a|];
      }
    }
  }

  /** Sanitising twice is sanitising once. */
  lemma SanitizeIdempotent(s: string)
    ensures Sanitize(Sanitize(s)) == Sanitize(s)
  {
    SanitizeRemovesForbidden(s);
    SanitizeRemovesForbidden(Sanitize(s));
  }

  /** The `answers` object `submitAnswers` builds: the seven categories, in order, each with its trimmed input. */
  function TrimmedAnswers(inputs: seq<string>): (a: Answers)
    requires |inputs| == |Categories|
  {
    seq(|inputs|, i requires 0 <= i < |inputs| => (Categories[i], Trim(inputs[i])))
  }

  /**
   * The validation loop of `submitAnswers` over `Object.entries(answers)`:
   * `ok` is false as soon as an answer is longer than 50 code units; otherwise
   * every answer is sanitised in place.
   */
  method ValidateAnswers(answers: Answers) returns (ok: bool, sanitised: Answers)
    ensures ok <==> forall i | 0 <= i < |answers| :: Utf16Length(answers[i].1) <= MaxAnswerLength
    ensures ok ==> |sanitised| == |answers|
    ensures ok ==> forall i | 0 <= i < |answers| ::
      sanitised[i].0 == answers[i].0 && sanitised[i].1 == Sanitize(answers[i].1)
  {
    sanitised := answers;
    var i := 0;
    while i < |answers|
      invariant 0 <= i <= |answers|
      invariant |sanitised| == |answers|
      invariant forall j | 0 <= j < i :: Utf16Length(answers[j].1) <= MaxAnswerLength
      invariant forall j | 0 <= j < |answers| ::
        sanitised[j] == if j < i then (answers[j].0, Sanitize(answers[j].1)) else answers[j]
    {
      var (category, answer) := answers[i];
      if Utf16Length(answer) > MaxAnswerLength {
        return false, sanitised;
      }
      sanitised := sanitised[i := (category, Sanitize(answer))];
      i := i + 1;
    }
    ok := true;
  }

  /**
   * What `submitAnswers` sends for its `answers` object, or `None` when every
   * answer is empty or one is longer than 50 code units.
   */
  function Payload(answers: Answers): Option<Answers> {
    if forall i | 0 <= i < |answers| :: |answers[i].1| == 0 then None
    else if exists i | 0 <= i < |answers| :: Utf16Length(answers[i].1) > MaxAnswerLength then None
    else Some(seq(|answers|, i requires 0 <= i < |answers| => (answers[i].0, Sanitize(answers[i].1))))
  }

  /** The payload `submitAnswers` sends for the raw text of the seven answer fields. */
  function SubmitPayload(inputs: seq<string>): Option<Answers>
    requires |inputs| == |Categories|
  {
    Payload(TrimmedAnswers(inputs))
  }

  /** Nothing is sent when every trimmed answer is empty or one is longer than 50 code units. */
  lemma SubmitPayloadRefusals(inputs: seq<string>)
    requires |inputs| == |Categories|
    ensures SubmitPayload(inputs).None? <==>
      || (forall i | 0 <= i < |inputs| :: |Trim(inputs[i])| == 0)
      || (exists i | 0 <= i < |inputs| :: Utf16Length(Trim(inputs[i])) > MaxAnswerLength)
  {
    LongAnswerRefused(inputs);
    RefusedForAReason(inputs);
  }

  /** An answer over 50 code units stops the submission. */
  lemma LongAnswerRefused(inputs: seq<string>)
    requires |inputs| == |Categories|
    ensures (exists i | 0 <= i < |inputs| :: Utf16Length(Trim(inputs[i])) > MaxAnswerLength) ==> SubmitPayload(inputs).None?
  {
    var answers := TrimmedAnswers(inputs);
    forall k | 0 <= k < |inputs| && Utf16Length(Trim(inputs[k])) > MaxAnswerLength
      ensures Payload(answers).None?
    {
      assert answers[k].1 == Trim(inputs[k]);
      LongEntryRefused(answers, k);
    }
  }

  /** An answers object with an entry over 50 code units is not sent. */
  lemma LongEntryRefused(answers: Answers, k: nat)
    requires k < |answers| && Utf16Length(answers[k].1) > MaxAnswerLength
    ensures Payload(answers).None?
  {
  }

  /** A refused submission has no non-empty answer or has one over 50 code units. */
  lemma RefusedForAReason(inputs: seq<string>)
    requires |inputs| == |Categories|
    ensures SubmitPayload(inputs).None? ==>
      || (forall i | 0 <= i < |inputs| :: |Trim(inputs[i])| == 0)
      || (exists i | 0 <= i < |inputs| :: Utf16Length(Trim(inputs[i])) > MaxAnswerLength)
  {
    var answers := TrimmedAnswers(inputs);
    if Payload(answers).None? && !(forall i | 0 <= i < |inputs| :: |Trim(inputs[i])| == 0) {
      var k :| 0 <= k < |inputs| && |Trim(inputs[k])| != 0;
      assert |answers[k].1| != 0;
      var j :| 0 <= j < |answers| && Utf16Length(answers[j].1) > MaxAnswerLength;
      assert Utf16Length(Trim(inputs[j])) > MaxAnswerLength;
    }
  }

  /**
   * A payload that is sent has exactly the seven category keys in order, each
   * holding its trimmed input with every forbidden character removed, at most
   * 50 UTF-16 code units long; looking a category up finds its own answer.
   */
  lemma SubmitPayloadShape(inputs: seq<string>)
    requires |inputs| == |Categories|
    requires SubmitPayload(inputs).Some?
    ensures var p := SubmitPayload(inputs).value;
      && |p| == |Categories|
      && (forall i | 0 <= i < |p| ::
            && p[i].0 == Categories[i]
            && p[i].1 == Sanitize(Trim(inputs[i]))
            && Utf16Length(p[i].1) <= MaxAnswerLength && Clean(p[i].1))
  {
    var p := SubmitPayload(inputs).value;
    forall i | 0 <= i < |p|
      ensures Utf16Length(p[i].1) <= MaxAnswerLength && Clean(p[i].1)
    {
      SanitizeRemovesForbidden(Trim(inputs[i]));
    }
  }

  /** The seven category names are distinct. */
  lemma CategoriesDistinct()
    ensures NoDup(Categories)
  {
  }

  /** In a payload keyed by distinct categories, looking a category up finds the answer stored under it. */
  lemma {:induction false} LookupDistinctKeys(p: Answers, i: nat)
    requires i < |p| && forall j, k | 0 <= j < k < |p| :: p[j].0 != p[k].0
    ensures Lookup(p, p[i].0) == Some(p[i].1)
  {
    if i > 0 {
      LookupDistinctKeys(p[1..], i - 1);
    }
  }

  /** The server reads each category of a sent payload as the sanitised answer typed for it. */
  lemma SubmitPayloadLookup(inputs: seq<string>, i: nat)
    requires |inputs| == |Categories| && i < |Categories|
    requires SubmitPayload(inputs).Some?
    ensures Lookup(SubmitPayload(inputs).value, Categories[i]) == Some(Sanitize(Trim(inputs[i])))
  {
    var p := SubmitPayload(inputs).value;
    SubmitPayloadShape(inputs);
    CategoriesDistinct();
    LookupDistinctKeys(p, i);
  }

  /**
   * The checks of `submitAnswers` after its two guards: some trimmed answer is
   * non-empty, then the validation loop. What they let through is exactly the
   * payload `SubmitPayload` describes.
   */
  method CheckAnswers(answers: Answers) returns (payload: Option<Answers>)
    ensures payload == Payload(answers)
  {
    var hasAnswers := exists i | 0 <= i < |answers| :: |answers[i].1| > 0;
    if !hasAnswers {
      return None;
    }
    var ok, sanitised := ValidateAnswers(answers);
    if !ok {
      return None;
    }
    assert !(forall i | 0 <= i < |answers| :: |answers[i].1| == 0);
    assert sanitised == seq(|answers|, i requires 0 <= i < |answers| => (answers[i].0, Sanitize(answers[i].1)));
    payload := Some(sanitised);
  }

  /** What every logged event satisfies: the checks `joinGame` and `submitAnswers` make before emitting. */
  ghost predicate WellFormed(e: Emit) {
    match e
    case JoinGameEvent(name) =>
      MinNameLength <= Utf16Length(name) <= MaxNameLength && Trimmed(name)
    case SubmitAnswersEvent(answers) =>
      && |answers| == |Categories|
      && forall i | 0 <= i < |answers| ::
           answers[i].0 == Categories[i] && Utf16Length(answers[i].1) <= MaxAnswerLength && Clean(answers[i].1)
  }

  class GameClient {
    var currentScreen: Screen
    /** `submit-btn.disabled`. */
    var submitDisabled: bool
    /** Whether the seven answer inputs are disabled. */
    var inputsDisabled: bool
    var playerName: string
    /** The events emitted on the socket, oldest first. */
    var sent: seq<Emit>

    ghost predicate Valid()
      reads this`sent
    {
      forall i | 0 <= i < |sent| :: WellFormed(sent[i])
    }

    constructor ()
      ensures currentScreen == Login && !submitDisabled && !inputsDisabled
      ensures playerName == "" && sent == [] && Valid()
    {
      currentScreen := Login;
      submitDisabled := false;
      inputsDisabled := false;
      playerName := "";
      sent := [];
    }

    /** `socket.emit`: appends a checked event to the log. */
    method Send(e: Emit)
      requires Valid() && WellFormed(e)
      modifies this`sent
      ensures sent == old(sent) + [e] && Valid()
    {
      sent := sent + [e];
    }

    /** `joinGame`, with `input` the text of the name field. */
    method JoinGame(input: string)
      requires Valid()
      modifies this`sent, this`playerName, this`currentScreen
      ensures Valid()
      ensures JoinName(input).None? ==>
        sent == old(sent) && currentScreen == old(currentScreen) && playerName == old(playerName)
      ensures JoinName(input).Some? ==>
        && sent == old(sent) + [JoinGameEvent(JoinName(input).value)]
        && playerName == JoinName(input).value && currentScreen == Lobby
    {
      var checked := CheckName(input);
      if checked.None? {
        return;
      }
      var name := checked.value;
      playerName := name;
      Send(JoinGameEvent(name));
      currentScreen := Lobby;
    }

    /** `submitAnswers`, with `inputs` the raw text of the seven answer fields in category order. */
    method SubmitAnswers(inputs: seq<string>)
      requires Valid() && |inputs| == |Categories|
      modifies this`sent, this`submitDisabled, this`inputsDisabled
      ensures Valid()
      ensures old(submitDisabled) || old(currentScreen) != Game || SubmitPayload(inputs).None? ==>
        sent == old(sent) && submitDisabled == old(submitDisabled) && inputsDisabled == old(inputsDisabled)
      ensures !old(submitDisabled) && old(currentScreen) == Game && SubmitPayload(inputs).Some? ==>
        && sent == old(sent) + [SubmitAnswersEvent(SubmitPayload(inputs).value)]
        && submitDisabled && inputsDisabled
    {
      if submitDisabled {
        return;
      }
      if currentScreen != Game {
        return;
      }
      var payload := CheckAnswers(TrimmedAnswers(inputs));
      if payload.None? {
        return;
      }
      SubmitPayloadShape(inputs);
      Send(SubmitAnswersEvent(payload.value));
      submitDisabled := true;
      inputsDisabled := true;
    }
  }

  // ---------------------------------------------------------------------------
  // `AdminScoreEditor` bookkeeping

  const MaxRoundScore := 70

  /** `Math.max(0, Math.min(70, newScore))`. */
  function Clamp(x: int): (r: int)
    ensures 0 <= r <= MaxRoundScore
  {
    if x < 0 then 0 else if x > MaxRoundScore then MaxRoundScore else x
  }

  /** The clamp keeps scores already in range and sends the others to the nearest bound. */
  lemma ClampNearest(x: int)
    ensures 0 <= x <= MaxRoundScore ==> Clamp(x) == x
    ensures x < 0 ==> Clamp(x) == 0
    ensures x > MaxRoundScore ==> Clamp(x) == MaxRoundScore
    ensures Clamp(Clamp(x)) == Clamp(x)
  {
  }

  /** `scores[id] || 0`. */
  function ScoreOrZero(scores: map<Sid, int>, id: Sid): int {
    if id in scores then scores[id] else 0
  }

  /** The entry `saveChanges` writes for `id`. */
  function ChangeFor(current: map<Sid, int>, original: map<Sid, int>, id: Sid): ScoreChange
    requires id in current
  {
    ScoreChange(ScoreOrZero(original, id), current[id], current[id] - ScoreOrZero(original, id))
  }

  /** The entries of `changes` for the ids of `current` in `ids`: those whose score differs from the original. */
  function ChangesAmong(current: map<Sid, int>, original: map<Sid, int>, ids: set<Sid>): map<Sid, ScoreChange> {
    map id | id in ids && id in current && ScoreOrZero(original, id) != current[id] :: ChangeFor(current, original, id)
  }

  /** The `changes` object `saveChanges` builds. */
  function PendingChanges(current: map<Sid, int>, original: map<Sid, int>): map<Sid, ScoreChange> {
    ChangesAmong(current, original, current.Keys)
  }

  /**
   * `changes` holds exactly the ids whose current score differs from the
   * original (a missing original counting as 0), each with its old score, new
   * score and `difference = newScore - oldScore`; adding the differences to the
   * originals gives back every current score.
   */
  lemma PendingChangesExact(current: map<Sid, int>, original: map<Sid, int>)
    ensures var changes := PendingChanges(current, original);
      && (forall id :: id in changes <==> id in current && ScoreOrZero(original, id) != current[id])
      && (forall id | id in changes ::
            && changes[id].oldScore == ScoreOrZero(original, id) && changes[id].newScore == current[id]
            && changes[id].difference == changes[id].newScore - changes[id].oldScore
            && changes[id].difference != 0)
      && (forall id | id in current ::
            ScoreOrZero(original, id) + (if id in changes then changes[id].difference else 0) == current[id])
  {
  }

  /** Right after `show`, with current equal to original, there is nothing to save. */
  lemma NothingPendingAfterShow(scores: map<Sid, int>)
    ensures PendingChanges(scores, scores) == map[]
  {
  }

  /** Processing one more id adds its entry when its score changed. */
  lemma ChangesAmongStep(current: map<Sid, int>, original: map<Sid, int>, done: set<Sid>, id: Sid,
                         before: map<Sid, ScoreChange>, after: map<Sid, ScoreChange>)
    requires id in current && before == ChangesAmong(current, original, done)
    requires after == if ScoreOrZero(original, id) != current[id] then before[id := ChangeFor(current, original, id)] else before
    ensures after == ChangesAmong(current, original, done + {id})
  {
    var expected := ChangesAmong(current, original, done + {id});
    forall k ensures k in after <==> k in expected {
    }
    forall k | k in after ensures after[k] == expected[k] {
    }
  }

  /**
   * The loop of `saveChanges` over `Object.keys(currentRoundScores)`, taken in
   * any order: the `changes` object and the `hasChanges` flag.
   */
  method CollectChanges(current: map<Sid, int>, original: map<Sid, int>)
    returns (changes: map<Sid, ScoreChange>, hasChanges: bool)
    ensures changes == PendingChanges(current, original)
    ensures hasChanges <==> changes != map[]
  {
    changes := map[];
    hasChanges := false;
    var remaining := current.Keys;
    ghost var done: set<Sid> := {};
    while remaining != {}
      invariant remaining <= current.Keys && done == current.Keys - remaining
      invariant changes == ChangesAmong(current, original, done)
      invariant hasChanges <==> changes != map[]
      decreases remaining
    {
      var id :| id in remaining;
      ghost var before := changes;
      remaining := remaining - {id};
      var originalScore := ScoreOrZero(original, id);
      var newScore := current[id];
      if originalScore != newScore {
        changes := changes[id := ScoreChange(originalScore, newScore, newScore - originalScore)];
        hasChanges := true;
      }
      ChangesAmongStep(current, original, done, id, before, changes);
      done := done + {id};
    }
  }

  class AdminScoreEditor {
    var currentRoundScores: map<Sid, int>
    var originalScores: map<Sid, int>
    var totalScores: map<Sid, int>
    /** The `admin-score-update` payloads emitted, oldest first. */
    var sent: seq<map<Sid, ScoreChange>>

    constructor ()
      ensures currentRoundScores == map[] && originalScores == map[] && totalScores == map[] && sent == []
    {
      currentRoundScores := map[];
      originalScores := map[];
      totalScores := map[];
      sent := [];
    }

    /** `show`: both copies of the round's scores start out equal. */
    method Show(roundScores: map<Sid, int>, totals: map<Sid, int>)
      modifies this`currentRoundScores, this`originalScores, this`totalScores
      ensures currentRoundScores == roundScores && originalScores == roundScores && totalScores == totals
    {
      currentRoundScores := roundScores;
      originalScores := roundScores;
      totalScores := totals;
    }

    /** `setScore`: the stored score is the requested one clamped to [0, 70]. */
    method SetScore(id: Sid, newScore: int)
      modifies this`currentRoundScores
      ensures currentRoundScores == old(currentRoundScores)[id := Clamp(newScore)]
      ensures 0 <= currentRoundScores[id] <= MaxRoundScore
    {
      currentRoundScores := currentRoundScores[id := Clamp(newScore)];
    }

    /** `adjustScore`: `setScore` with the current score (or 0) plus the adjustment. */
    method AdjustScore(id: Sid, adjustment: int)
      modifies this`currentRoundScores
      ensures currentRoundScores == old(currentRoundScores)[id := Clamp(ScoreOrZero(old(currentRoundScores), id) + adjustment)]
      ensures 0 <= currentRoundScores[id] <= MaxRoundScore
    {
      var currentScore := ScoreOrZero(currentRoundScores, id);
      SetScore(id, currentScore + adjustment);
    }

    /** `saveChanges`: emits `changes` only when some score differs from the original. */
    method SaveChanges()
      modifies this`sent
      ensures PendingChanges(currentRoundScores, originalScores) == map[] ==> sent == old(sent)
      ensures PendingChanges(currentRoundScores, originalScores) != map[] ==>
        sent == old(sent) + [PendingChanges(currentRoundScores, originalScores)]
    {
      var changes, hasChanges := CollectChanges(currentRoundScores, originalScores);
      if hasChanges {
        sent := sent + [changes];
      }
    }
  }
}
