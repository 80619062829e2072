# Nomi Cose Città — session engine and client checks in Dafny

This project models the core of a multiplayer party word game ("Nomi, Cose,
Città"). Players join a single shared session. They mark themselves ready. Each
round draws a letter. Every player then writes one word per category that
starts with that letter. A word nobody else wrote scores 10 points, a shared
word scores 5 and a wrong or empty word scores 0. After the last round the
highest total wins, with ties allowed. An administrator can correct the round's
scores from the browser.

The model has two halves.

- **Server** (`server.js`). The one mutable `gameState` record becomes the
  class `Server.Session`. Each field of the record is a field of the class.
  Every socket handler and timer callback is a method that updates those fields
  in place.
  - Each method is proved to end in the state that a transition function of
    `GameState` computes from the old state (`Model() == GS.X(old(Model()))`).
  - Each method also keeps the session invariant `GameState.Inv`:
    - `players` and `scores` have the same keys;
    - no total is negative;
    - the player count is at most `maxPlayers`;
    - the used letters are distinct letters of the alphabet;
    - the round timer is armed exactly while `gameStarted` holds.
  - What each handler guarantees is proved as lemmas over the transition
    functions in `SessionProperties`.
  - Letter drawing is in `Letters` and uniqueness scoring in `Scoring`. Both
    are pure functions with their own lemmas.
  - The loops of the source (the letter filter, the per-player loops of
    `startNewRound` and `endRound`, the admin update loop, the winner scan) are
    methods with invariants, proved against those functions.
- **Client** (`public/js/game.js`).
  - `Client.GameClient` holds the checks that `joinGame` and `submitAnswers`
    run before they emit. It keeps a log of the events it emits, and every
    logged event passes those checks.
  - `Client.AdminScoreEditor` holds the score bookkeeping behind the
    `admin-score-update` payload.

Randomness is a parameter. `Math.random()` is the value `rand` in [0, 1), and
the draw picks index `floor(rand * n)`. The socket library, the DOM and real
time are not modelled. Timers are explicit events:
- `RoundTimerExpires` is the round timer held in `roundTimer`;
- `StrayTimerExpires` is a round-timer callback that `endGame` left scheduled
  when it replaced the record;
- `EndGame` is the delayed `endGame` call that `endRound` schedules after the
  last round.

JavaScript objects are maps. The insertion order of the `players`/`scores` keys
is kept in `keyOrder`, because `findPlayerIdByName` returns the first match in
that order.

## Model

| member | source | states |
|---|---|---|
| Text.Lower | server.js:76 | lower-casing keeps the length and maps each ASCII capital to its small letter, position by position |
| Text.Trim | public/js/game.js:151 | the trimmed string is no longer than the input, neither starts nor ends with whitespace, and keeps a non-space first character; which infix it is, is stated by `Text.TrimRemovesOnlySurroundingSpace` |
| Text.TrimRemovesOnlySurroundingSpace | public/js/game.js:151 | the trimmed string is an infix of the input with nothing but whitespace before and after it; with the row above, it runs from the first to the last character that is not whitespace |
| Text.TrimIdempotent | public/js/game.js:151 | trimming an already trimmed name changes nothing, so the name the client sends is exactly what the server stores |
| Text.Utf16Length | public/js/game.js:153-160 | `.length` counts each character as one or two UTF-16 code units, so it lies between the number of characters and twice that |
| Text.Utf16LengthCountsChars | public/js/game.js:153-160 | `.length` equals the number of characters exactly when no character lies outside the Basic Multilingual Plane |
| Protocol.Lookup | server.js:89-91 | reading a category of an answers object finds a value exactly when some entry has that key, and the value found is stored under it |
| Letters.AlphabetMembership | server.js:52 | the range test used in proofs holds for exactly the 21 letters of `ABCDEFGHILMNOPQRSTUVZ` |
| Letters.AlphabetDistinct | server.js:52 | the alphabet has 21 distinct letters |
| Letters.Unused | server.js:53-55 | the filter of the alphabet by the used letters; what it keeps is stated by `Letters.UnusedMembers` |
| Letters.UnusedMembers | server.js:53-55 | the filtered list holds exactly the letters not yet used, and is no longer than the alphabet |
| Letters.Candidates | server.js:58-62 | the letters drawn from are never empty: the unused ones, or all 21 after the reset |
| Letters.PickIndex | server.js:64 | `floor(rand * n)` with `rand` in [0, 1) is a valid index below `n` |
| Letters.Draw | server.js:51-69 | the letter `getRandomLetter` returns for a given `Math.random()` value; its guarantees are `Letters.DrawFromAlphabet` and `Letters.DrawIsFreshBeforeExhaustion` |
| Letters.UsedAfterDraw | server.js:57-65 | the used letters after the draw, reset first when all 21 were used; its guarantees are `Letters.DrawKeepsUsedDistinct` and `Letters.DrawIsFreshBeforeExhaustion` |
| Letters.DrawFromAlphabet | server.js:51-69 | the drawn letter is in the alphabet, and is unused whenever some letter is still unused |
| Letters.DrawKeepsUsedDistinct | server.js:57-65 | after the draw (and the reset, if taken) the used letters are still distinct and from the alphabet |
| Letters.NoneLeftIffAllUsed | server.js:53-58 | with distinct used letters from distinct letters, nothing is left exactly when every letter was used |
| Letters.ExhaustedOnlyWhenAllUsed | server.js:57-62 | the reset branch runs exactly when all 21 letters were used |
| Letters.DrawIsFreshBeforeExhaustion | server.js:51-69 | with fewer than 21 letters used, the letter is fresh and is simply appended to the used letters |
| Scoring.Normalize | server.js:76 | `toLowerCase().trim()`, the form answers are compared in; `Scoring.NormalizeKeepsFirst` states what it keeps |
| Scoring.Eligible | server.js:76-85 | the empty check and the letter check on the normalised answer; `Scoring.PointsZeroIffNothingEligible` ties it to the points |
| Scoring.Matches | server.js:88-91 | the filter test on one answer object: the category is present and truthy, normalises to the answer, and its raw first character is the letter; `Scoring.MatchIsEligible` states what a match implies |
| Scoring.SameAnswers | server.js:88-92 | the number of matching answer objects is at most the number of objects |
| Scoring.CategoryPoints | server.js:76-99 | a category scores 0, 5 or 10, and 0 exactly when the normalised answer is empty or starts with another letter |
| Scoring.CalculatePoints | server.js:72-103 | a round total is between 0 and 10 times the number of categories answered |
| Scoring.SameAnswersPermutation | server.js:88-92 | the match count depends only on the multiset of answer objects |
| Scoring.MatchIsEligible | server.js:88-92 | an answer counted in the tally passes the empty check and the letter check, and normalises to the answer compared |
| Scoring.NormalizeKeepsFirst | server.js:76 | an answer not starting with whitespace keeps its first character, lower-cased, after normalising |
| Scoring.UniqueAnswerScoresTen | server.js:88-96 | an answer that no other answer object holds scores 10 |
| Scoring.SharedAnswerScoresFive | server.js:88-98 | an answer that two different answer objects hold scores 5 |
| Scoring.LeadingSpaceScoresFive | server.js:81-98 | an answer with a leading space passes the letter check but matches no entry, since the raw first character is compared, so alone it scores 5 and not 10 |
| Scoring.PointsIgnoreSubmissionOrder | server.js:72-103 | the round total does not depend on the order of the answer objects, only on their multiset |
| Scoring.CategoryPointsIgnoreSubmissionOrder | server.js:88-99 | one category's points do not depend on the order of the answer objects |
| Scoring.PointsZeroIffNothingEligible | server.js:75-86 | a round total is 0 exactly when no category passes the empty and letter checks |
| GameState.RemoveKey | server.js:272-273 | deleting a key removes exactly that key from the key order and keeps it free of repeats |
| GameState.AllAnswers | server.js:336-342 | the answer objects collected number at most the keys |
| GameState.FindPlayerIdByNameFinds | server.js:106-113 | the id found belongs to a player with that name; nothing is found exactly when no player has it |
| GameState.FindPlayerIdByName | server.js:106-113 | the scan of the keys in insertion order for a player with the name; its guarantees are `GameState.FindPlayerIdByNameFinds` and `GameState.FindPlayerIdByNameFirst` |
| GameState.FindPlayerIdByNameFirst | server.js:106-113 | the id found comes no later in key order than any player holding the name, so with duplicate names the earliest join wins |
| GameState.Join | server.js:119-155 | the `join-game` transition; its guarantees are the `SessionProperties.Join…` lemmas |
| GameState.StartRound | server.js:281-317 | the `startNewRound` transition; its guarantees are `SessionProperties.StartRoundClearsPlayers` and `StartRoundKeepsInvariant` |
| GameState.MarkReady | server.js:159-160 | `ready = true` for the sender; its guarantee is `SessionProperties.MarkReadyKeepsInvariant` |
| GameState.SetReady | server.js:158-186 | the `set-ready` transition; its guarantee is `SessionProperties.SetReadyStartsOnlyOnQuorum` |
| GameState.PlayerReady | server.js:189-214 | the `player-ready` transition; its guarantee is `SessionProperties.PlayerReadyStartsOnlyOnQuorum` |
| GameState.RoundTotals | server.js:344-355 | each total plus the round's points, a missing total read as 0; `SessionProperties.EndRoundAddsPoints` and `Server.AddRoundPoints` state it |
| GameState.EndRound | server.js:319-381 | the `endRound` transition; its guarantees are `SessionProperties.EndRoundClosesOnce`, `EndRoundAddsPoints` and `EndRoundKeepsInvariant` |
| GameState.SubmitAnswers | server.js:217-236 | the `submit-answers` transition; its guarantees are `SessionProperties.SubmitKeepsInvariant`, `SubmitClosesWhenAllSubmitted` and `LastSubmissionBeatsTimer` |
| GameState.RoundTimerFires | server.js:311-316 | the armed round timer's callback; `SessionProperties.RoundTimerClosesRound` states it |
| GameState.StrayTimerFires | server.js:311-316 | a round-timer callback left behind by `endGame`; `SessionProperties.StrayTimerKeepsInvariant` states it |
| GameState.EndGame | server.js:383-424 | the `endGame` reset; its guarantees are `SessionProperties.EndGameKeepsInvariant` and `EndGameResetsSession` |
| GameState.AdminScoreUpdate | server.js:239-267 | the `admin-score-update` transition; its guarantees are the `SessionProperties.Admin…` lemmas |
| GameState.AdminTotals | server.js:243-254 | the totals after the admin loop; `SessionProperties.AdminTotalsClamped` and `Server.ApplyScoreChanges` state them |
| GameState.Disconnect | server.js:270-278 | the `disconnect` transition; its guarantees are `SessionProperties.DisconnectRemovesOnlyThePlayer` and `DisconnectKeepsInvariant` |
| SessionProperties.JoinRespectsCapacity | server.js:121-129 | a join when full changes nothing, so the player count stays at most `maxPlayers` |
| SessionProperties.JoinAddsPlayer | server.js:131-138 | a join adds the socket id to both `players` and `scores`, with a fresh record and a total of 0 |
| SessionProperties.JoinKeepsOthers | server.js:131-138 | a join leaves every other player's record and total, the round and the used letters unchanged |
| SessionProperties.JoinKeepsInvariant | server.js:119-155 | a join keeps the session invariant |
| SessionProperties.JoinKeepsKeysAgree | server.js:131-138 | a join that is not refused keeps the key sets equal and the key order free of repeats |
| SessionProperties.DisconnectRemovesOnlyThePlayer | server.js:270-278 | a disconnect removes the key from both objects, keeps the invariant and changes nothing else |
| SessionProperties.DisconnectKeepsInvariant | server.js:270-278 | a disconnect keeps the session invariant |
| SessionProperties.StartRoundClearsPlayers | server.js:281-317 | a new round advances the round by one, arms the timer, clears every ready flag, answer and submission, and draws an alphabet letter that is fresh while fewer than 21 are used |
| SessionProperties.StartRoundKeepsInvariant | server.js:281-317 | starting a round keeps the session invariant |
| SessionProperties.PlayerRecordsKeepInvariant | server.js:159-160 | rewriting player records without adding or removing keys keeps the invariant |
| SessionProperties.TotalsKeepInvariant | server.js:243-254 | replacing the totals by non-negative ones for the same keys keeps the invariant |
| SessionProperties.MarkReadyKeepsInvariant | server.js:159-169 | marking a player ready keeps the invariant; then all are ready exactly when every other player already was |
| SessionProperties.SetReadyStartsOnlyOnQuorum | server.js:158-186 | `set-ready` starts a round exactly when the sender is a player, no round is running, there are at least 2 players and all others are ready |
| SessionProperties.PlayerReadyStartsOnlyOnQuorum | server.js:189-214 | `player-ready` starts a round exactly when the sender is a player, fewer than `maxRounds` were played, there are at least 2 players and all others are ready; never past the last round |
| SessionProperties.EndRoundClosesOnce | server.js:319-334 | closing a round keeps the invariant and disarms the timer; a second close, or a close with no round running, changes nothing |
| SessionProperties.EndRoundAddsPoints | server.js:344-381 | closing a round adds each player's round points to their total, clears every ready flag, and schedules `endGame` exactly after the last round |
| SessionProperties.EndRoundKeepsInvariant | server.js:319-381 | closing a round keeps the session invariant |
| SessionProperties.SubmitKeepsInvariant | server.js:217-236 | a submission from an unknown socket or outside a round is ignored; any submission keeps the invariant |
| SessionProperties.SubmitClosesWhenAllSubmitted | server.js:217-236 | a submission stores the answers as sent, marks the player, and closes the round exactly when every other player had already submitted |
| SessionProperties.LastSubmissionBeatsTimer | server.js:225-235 | once the last submission closes the round, the timer is disarmed and a later close or orphaned timer callback changes nothing but its own count |
| SessionProperties.RoundTimerClosesRound | server.js:311-316 | the armed round timer's expiry is exactly a round close |
| SessionProperties.StrayTimerKeepsInvariant | server.js:311-316 | an orphaned round-timer callback keeps the invariant and the ids of the totals |
| SessionProperties.FindUniqueName | server.js:106-113 | a name held by one player only leads to that player's id |
| SessionProperties.AdminUpdateChangesOnlyScores | server.js:239-254 | the admin update changes only the totals, keeps their ids and keeps the invariant |
| SessionProperties.AdminKeepsInvariant | server.js:239-254 | the admin update keeps the session invariant |
| SessionProperties.AdminTotalsClamped | server.js:246-250 | the admin update keeps the ids of the totals and never makes a total negative |
| SessionProperties.AdminUpdateClampsAtZero | server.js:243-254 | no total goes below 0, a total of 0 is left alone, and only players whose name is a key of the payload can move |
| SessionProperties.AdminUpdateAppliesDifference | server.js:243-254 | a player whose name is in the payload and resolves to that player, with a positive total, gets `max(0, total + difference)` |
| SessionProperties.AdminShadowedNameKeepsTotal | server.js:106-113 | of two players sharing a name, the one who joined later keeps its total whatever the payload says |
| SessionProperties.AdminIgnoresUnknownNames | server.js:243-247 | a payload none of whose keys is a player's name, such as one keyed by socket ids, changes nothing |
| SessionProperties.EndGameKeepsInvariant | server.js:410-423 | the record `endGame` installs satisfies the invariant |
| SessionProperties.EndGameResetsSession | server.js:410-423 | `endGame` leaves no players, no totals, round 0 and no used letters; a round timer still armed becomes orphaned |
| SessionProperties.AllAnswersPermutation | server.js:337-342 | two key orders listing the same keys collect the same multiset of answer objects |
| SessionProperties.RoundPointsIgnoreKeyOrder | server.js:344-347 | a player's round points do not depend on the order in which the players joined |
| Server.FilterUnused | server.js:53-55 | the filter loop yields exactly `Unused(alphabet, usedLetters)` |
| Server.CollectAnswers | server.js:337-342 | the collecting loop yields the answer objects in key order |
| Server.ClearPlayersForRound | server.js:293-298 | the loop clears ready, answers and submission of every player and nothing else |
| Server.ClearReadyFlags | server.js:360-363 | the loop clears every ready flag and nothing else |
| Server.AddRoundPoints | server.js:344-355 | the scoring loop yields each player's total plus round points, and the round's points per player |
| Server.AdminStep | server.js:243-253 | one pass of the admin loop moves exactly the player that the name resolves to, if that player's total is non-zero |
| Server.ApplyScoreChanges | server.js:243-254 | the admin loop, over the names in any order, yields the totals of `GameState.AdminTotals` |
| Server.SelectWinners | server.js:384-395 | the winner scan finds a maximum no total exceeds, held by some id unless it is -1, and lists exactly the ids holding it, each once; with no totals it is -1 with no winners |
| Server.Session.constructor | server.js:33-45 | the session starts as the initial record |
| Server.Session.GetRandomLetter | server.js:51-69 | the letter returned and the used letters afterwards are those of the draw for `rand` |
| Server.Session.StartNewRound | server.js:281-317 | the fields end as `GameState.StartRound` of the old record |
| Server.Session.EndRound | server.js:319-381 | the fields end as `GameState.EndRound` of the old record, the invariant holds, and the returned round scores are each player's points (empty when no round was running) |
| Server.Session.Join | server.js:119-155 | the fields end as `GameState.Join`, the invariant holds, and the result says whether the join was accepted (not full) |
| Server.Session.SetReady | server.js:158-186 | the fields end as `GameState.SetReady` and the invariant holds |
| Server.Session.PlayerReady | server.js:189-214 | the fields end as `GameState.PlayerReady` and the invariant holds |
| Server.Session.SubmitAnswers | server.js:217-236 | the fields end as `GameState.SubmitAnswers` and the invariant holds |
| Server.Session.RoundTimerExpires | server.js:311-316 | the fields end as `GameState.RoundTimerFires` and the invariant holds |
| Server.Session.StrayTimerExpires | server.js:311-316 | an orphaned callback ends as `GameState.StrayTimerFires` and keeps the invariant |
| Server.Session.EndGame | server.js:383-424 | the top total is one some id holds (or -1 with no totals) and no total exceeds it; the winners are exactly the ids holding it, each once, with their player records; there is a tie iff more than one wins; then the record is reset |
| Server.Session.ResetRecord | server.js:410-423 | the record becomes the initial one, with the pending timers carried over, and the invariant holds |
| Server.Session.Assign | server.js:410-423 | assigning a whole record sets every field to it |
| Server.Session.AdminScoreUpdate | server.js:239-267 | the fields end as `GameState.AdminScoreUpdate` and the invariant holds |
| Server.Session.Disconnect | server.js:270-278 | the fields end as `GameState.Disconnect` and the invariant holds |
| Client.JoinName | public/js/game.js:149-160 | the trimmed name, or nothing when its `.length` is under 2 or over 20; `Client.JoinNameAccepted` states it |
| Client.JoinNameAccepted | public/js/game.js:149-166 | a name is sent exactly when its trimmed form is 2 to 20 UTF-16 code units long, and the name sent is already trimmed |
| Client.CheckName | public/js/game.js:149-160 | the trim and the two length checks of `joinGame` let through exactly the name `Client.JoinName` describes, and a name they let through is one every logged `join-game` event satisfies |
| Client.Sanitize | public/js/game.js:250 | the regular-expression replace; `Client.SanitizeRemovesForbidden` states what it does |
| Client.SanitizeRemovesForbidden | public/js/game.js:250 | sanitising removes every `<`, `>`, `"`, `'`, `&`, keeps every other character, never lengthens (in characters or code units), and leaves a clean answer unchanged |
| Client.SanitizeKeepsOthers | public/js/game.js:250 | the sanitised answer holds exactly the characters of the input that are not forbidden, so it is clean |
| Client.SanitizeShortens | public/js/game.js:250 | sanitising never lengthens the answer, in characters or in UTF-16 code units |
| Client.SanitizeKeepsClean | public/js/game.js:250 | an answer with no forbidden character is left as it is |
| Client.SanitizeIdempotent | public/js/game.js:250 | sanitising twice is sanitising once |
| Client.ValidateAnswers | public/js/game.js:243-251 | the validation loop succeeds exactly when no answer is over 50 UTF-16 code units, and then each answer is sanitised under its own key |
| Client.Payload | public/js/game.js:236-251 | what `submitAnswers` sends for its answers object: nothing when every answer is empty or one is over 50 code units; `Client.CheckAnswers` is proved against it |
| Client.SubmitPayload | public/js/game.js:225-251 | the payload for the raw text of the seven fields; `Client.SubmitPayloadRefusals` and `Client.SubmitPayloadShape` state it |
| Client.CheckAnswers | public/js/game.js:236-251 | the checks after the guards let through exactly the payload `Client.Payload` describes |
| Client.SubmitPayloadRefusals | public/js/game.js:236-247 | nothing is sent exactly when every trimmed answer is empty or one is over 50 code units |
| Client.LongAnswerRefused | public/js/game.js:243-247 | an answer over 50 code units stops the submission |
| Client.LongEntryRefused | public/js/game.js:243-247 | an answers object with an entry over 50 code units is not sent |
| Client.RefusedForAReason | public/js/game.js:236-247 | a refused submission has no non-empty answer or has one over 50 code units |
| Client.SubmitPayloadShape | public/js/game.js:225-254 | a payload sent has exactly the seven category keys in order, each with its trimmed, sanitised input of at most 50 code units and no forbidden character |
| Client.CategoriesDistinct | public/js/game.js:225-233 | the seven category keys are distinct |
| Client.SubmitPayloadLookup | public/js/game.js:225-254 | reading a category of a sent payload gives the sanitised trimmed input typed for it |
| Client.GameClient.constructor | public/js/game.js:3-11 | the client starts on the login screen with nothing sent |
| Client.GameClient.Send | public/js/game.js:254 | emitting appends the event to the log, and the log stays well formed |
| Client.GameClient.JoinGame | public/js/game.js:149-166 | a valid name is emitted and stored, and the screen switches to the lobby; otherwise nothing changes; every logged event stays well formed |
| Client.GameClient.SubmitAnswers | public/js/game.js:212-264 | with the button disabled, off the game screen, or with a refused payload, nothing is sent; otherwise the payload is emitted and the button and inputs are disabled |
| Client.Clamp | public/js/game.js:947 | a stored round score is always within [0, 70] |
| Client.ClampNearest | public/js/game.js:947 | in-range scores are stored unchanged, others go to the nearest bound, and clamping twice is clamping once |
| Client.ChangesAmong | public/js/game.js:985-995 | the entries the save loop adds for a set of ids; `Client.ChangesAmongStep` states one pass |
| Client.PendingChanges | public/js/game.js:985-996 | the `changes` object `saveChanges` builds; `Client.PendingChangesExact` states it |
| Client.PendingChangesExact | public/js/game.js:985-996 | the changes hold exactly the ids whose score differs from the original (missing counts as 0), each with old score, new score and `difference = new - old`; original plus difference gives back every current score |
| Client.NothingPendingAfterShow | public/js/game.js:798-802 | right after `show` there is nothing to save |
| Client.ChangesAmongStep | public/js/game.js:985-995 | one pass of the save loop adds the id's entry exactly when its score changed |
| Client.CollectChanges | public/js/game.js:985-996 | the save loop, over the ids in any order, builds exactly the pending changes, and `hasChanges` says whether there is any |
| Client.AdminScoreEditor.constructor | public/js/game.js:757-766 | the editor starts with no scores and nothing sent |
| Client.AdminScoreEditor.Show | public/js/game.js:798-802 | the current and original round scores are both the given ones |
| Client.AdminScoreEditor.SetScore | public/js/game.js:945-947 | the id's round score becomes the clamped value, within [0, 70], and no other score changes |
| Client.AdminScoreEditor.AdjustScore | public/js/game.js:958-961 | the id's round score becomes the clamped (current or 0) plus the adjustment, so it never leaves [0, 70] |
| Client.AdminScoreEditor.SaveChanges | public/js/game.js:982-1010 | the pending changes are emitted exactly when there is at least one |

## Left out

- Express setup, static files, `/health` and `server.listen` (server.js:1-30, 426-439) are I/O plumbing. They are not part of this model.
- Socket.IO delivery is not modelled.
  - The contents of `game-state`, `player-joined`, `players-ready-status`, `round-started`, `round-ended`, `scores-updated` and `game-ended` are not modelled, except for the round scores `endRound` returns and the winners, top total and tie flag of `endGame`.
  - The server's outbound events are not logged. The client keeps a log of its `join-game` and `submit-answers` events and of its `admin-score-update` payloads.
- `uuidv4` is a parameter. `Date.now`, `roundStartTime` and `roundDuration` are never read by the logic and are left out, as are console logging and real timer durations. The effect of `clearTimeout` is modelled: `roundTimer` is the flag `timerArmed`, which `startNewRound` and `endRound` clear (server.js:283-286, 329-332); only the timer handle itself is left out. The timers are the explicit events described above.
- `toLowerCase`, `toUpperCase` and `trim` are restricted to ASCII letters and a fixed set of whitespace characters (space, tab, line feed, vertical tab, form feed, carriage return). The model has no full Unicode case mapping or whitespace set. Lengths compared against a limit are `.length` in UTF-16 code units (`Text.Utf16Length`); the emptiness tests use the character count, which is 0 exactly when `.length` is.
- Non-string answer values, `NaN` scores and a non-numeric `newScore` from a score input are not modelled. Scores are integers, and `|| 0` and the truthiness test on totals are read as "missing or 0".
- Events from the set-ready button, `location.reload` and every other DOM action are left out. This covers screen switching and rendering, timers on the page, notifications, `closeModal`, `updateTotalDisplay` and `getPlayerNameById`. The disabled state of the submit button and of the inputs are booleans, and the seven answer inputs are a sequence of strings.
- `AdminScoreEditor.playersInfo` and the `totalScores` display copy are not used by the bookkeeping. `Show` stores `totalScores` but nothing reads it.
- Client.GameClient.SubmitAnswers: takes exactly seven raw input strings, one per category, because the page always has those seven fields.
- Server.Session.StartNewRound: states only the new record; it does not restate the invariant, because its callers establish the invariant through `SessionProperties.StartRoundKeepsInvariant`, as `startNewRound` is only ever called from `set-ready` and `player-ready`.
- The two sides key the admin payload differently. The client keys it by socket id (`roundScores` keys), and the server looks each key up as a player name. Each side is modelled as written. `SessionProperties.AdminIgnoresUnknownNames` states what happens when no key is a name.
- Notes on what `server.js` does, which the model follows:
  - the server does no sanitisation of names or answers (server.js:131-138, 217-236);
  - a resubmission overwrites the earlier answers (server.js:218-220);
  - there is no `update-answers` handler among the socket handlers (server.js:119-278);
  - a disconnect does not end or reset the game (server.js:270-278);
  - a round closed by the timer does not force the pending submissions (server.js:311-316).
