/**
 * The server's single game-session record (server.js `gameState`) as a value,
 * and the effect of every event handler on it as a function. The class
 * `Server.Session` performs the same steps in place and is proved to end in
 * the state these functions describe; the lemmas here state what each step
 * guarantees and that every step keeps the session invariant.
 */
module GameState {
  import opened Wrappers
  import opened Protocol
  import opened Scoring
  import opened Letters

  /** One entry of `gameState.players`; `submitted` is false where the source leaves it undefined. */
  datatype Player = Player(id: string, name: string, answers: Answers, ready: bool, submitted: bool)

  /**
   * `gameState`, plus the key insertion order shared by its `players` and
   * `scores` objects and the three kinds of pending timer callback:
   * `timerArmed` is the round timer held in `roundTimer`; `strayTimers` counts
   * round-timer callbacks still scheduled although the record that held them
   * was replaced by `endGame`; `pendingEndGames` counts scheduled `endGame` calls.
   */
  datatype State = State(
    players: map<Sid, Player>,
    keyOrder: seq<Sid>,
    scores: map<Sid, int>,
    currentRound: nat,
    maxRounds: nat,
    maxPlayers: nat,
    gameStarted: bool,
    currentLetter: string,
    usedLetters: seq<char>,
    timerArmed: bool,
    strayTimers: nat,
    pendingEndGames: nat)

  /** The initial record (process start and `endGame`'s reset); timers outlive it. */
  function Reset(strayTimers: nat, pendingEndGames: nat): State {
    State(map[], [], map[], 0, 10, 10, false, "", [], false, strayTimers, pendingEndGames)
  }

  // ---------------------------------------------------------------------------
  // Invariant

  /** `players` and `scores` have the same keys, and `keyOrder` lists each exactly once. */
  ghost predicate KeysAgree(g: State) {
    && g.players.Keys == g.scores.Keys
    && NoDup(g.keyOrder)
    && (forall s :: s in g.keyOrder <==> s in g.players)
  }

  /** No total is negative. */
  ghost predicate ScoresNonNegative(scores: map<Sid, int>) {
    forall s | s in scores :: scores[s] >= 0
  }

  /** The used letters are distinct letters of the alphabet; the current letter is empty or one of them. */
  ghost predicate LettersWellFormed(usedLetters: seq<char>, currentLetter: string) {
    && NoDup(usedLetters) && FromAlphabet(usedLetters)
    && (currentLetter == [] || (|currentLetter| == 1 && InAlphabet(currentLetter[0])))
  }

  /** Everything the session keeps except the timer coupling. */
  ghost predicate DataInv(g: State) {
    && KeysAgree(g)
    && ScoresNonNegative(g.scores)
    && |g.players| <= g.maxPlayers
    && LettersWellFormed(g.usedLetters, g.currentLetter)
  }

  /** The session invariant: the round timer is armed exactly while a round is in progress. */
  ghost predicate Inv(g: State) {
    && DataInv(g)
    && g.timerArmed == g.gameStarted
    && (g.gameStarted ==> g.currentRound >= 1)
  }

  // ---------------------------------------------------------------------------
  // Helpers over the players object

  predicate AllReady(players: map<Sid, Player>) {
    forall s | s in players :: players[s].ready
  }

  predicate AllSubmitted(players: map<Sid, Player>) {
    forall s | s in players :: players[s].submitted
  }

  /** What `startNewRound` does to each player. */
  function ClearForRound(p: Player): Player {
    p.(ready := false, answers := [], submitted := false)
  }

  /** The players object after `startNewRound`'s loop. */
  function ClearedForRound(players: map<Sid, Player>): map<Sid, Player> {
    map s | s in players :: ClearForRound(players[s])
  }

  /** The players object after `endRound`'s last loop: every ready flag cleared. */
  function ReadyCleared(players: map<Sid, Player>): map<Sid, Player> {
    map s | s in players :: players[s].(ready := false)
  }

  /** `order` with `sid` deleted (JavaScript `delete` on an object key). */
  function RemoveKey(order: seq<Sid>, sid: Sid): (r: seq<Sid>)
    ensures forall s :: s in r <==> s in order && s != sid
    ensures NoDup(order) ==> NoDup(r)
  {
    if order == [] then []
    else
      var rest := RemoveKey(order[1..], sid);
      assert NoDup(order) ==> NoDup(order[1..]) && order[0] !in order[1..];
      if order[0] == sid then rest else [order[0]] + rest
  }

  /** `Object.values(allAnswers)`: the players' answer objects in key order. */
  function AllAnswers(order: seq<Sid>, players: map<Sid, Player>): (r: seq<Answers>)
    ensures |r| <= |order|
  {
    if order == [] then []
    else (if order[0] in players then [players[order[0]].answers] else []) + AllAnswers(order[1..], players)
  }

  /** The points `endRound` awards player `sid` for the round. */
  function RoundPoints(g: State, sid: Sid): nat
    requires sid in g.players
  {
    CalculatePoints(g.players[sid].answers, AllAnswers(g.keyOrder, g.players), g.currentLetter)
  }

  /** `roundScores` as `endRound` broadcasts it. */
  function RoundScores(g: State): map<Sid, nat> {
    map s | s in g.players :: RoundPoints(g, s)
  }

  /** `findPlayerIdByName`: the first key, in key order, whose player has that name. */
  function FindPlayerIdByName(order: seq<Sid>, players: map<Sid, Player>, name: string): Option<Sid> {
    if order == [] then None
    else if order[0] in players && players[order[0]].name == name then Some(order[0])
    else FindPlayerIdByName(order[1..], players, name)
  }

  /** The id found has a player of that name; nothing is found exactly when no player has it. */
  lemma {:induction false} FindPlayerIdByNameFinds(order: seq<Sid>, players: map<Sid, Player>, name: string)
    ensures var r := FindPlayerIdByName(order, players, name);
      && (r.Some? ==> r.value in order && r.value in players && players[r.value].name == name)
      && (r.None? <==> forall s | s in order && s in players :: players[s].name != name)
  {
    if order != [] {
      FindPlayerIdByNameFinds(order[1..], players, name);
      assert forall s :: s in order <==> s == order[0] || s in order[1..];
    }
  }

  /** The id found comes no later in key order than any player holding the name. */
  lemma {:induction false} FindPlayerIdByNameFirst(order: seq<Sid>, players: map<Sid, Player>, name: string, i: nat)
    requires i < |order| && order[i] in players && players[order[i]].name == name
    ensures exists k | 0 <= k <= i :: FindPlayerIdByName(order, players, name) == Some(order[k])
  {
    if !(order[0] in players && players[order[0]].name == name) {
      FindPlayerIdByNameFirst(order[1..], players, name, i - 1);
      var k :| 0 <= k <= i - 1 && FindPlayerIdByName(order[1..], players, name) == Some(order[1..][k]);
      assert order[1..][k] == order[k + 1];
    }
  }

  function Max(a: int, b: int): int {
    if a >= b then a else b
  }

  /** Whether the admin update touches `sid`: its name is a key of `changes`, the name resolves to it, and its total is truthy. */
  predicate AdminTargets(g: State, changes: map<string, ScoreChange>, sid: Sid)
    requires sid in g.scores
  {
    && sid in g.players
    && g.players[sid].name in changes
    && FindPlayerIdByName(g.keyOrder, g.players, g.players[sid].name) == Some(sid)
    && g.scores[sid] != 0
  }

  // ---------------------------------------------------------------------------
  // Transitions, one per handler or timer callback

  /** `join-game`: refused when full; otherwise a fresh player record and a zero total. */
  function Join(g: State, sid: Sid, uuid: string, name: string): State {
    if |g.players| >= g.maxPlayers then g
    else g.(players := g.players[sid := Player(uuid, name, [], false, false)],
            keyOrder := if sid in g.keyOrder then g.keyOrder else g.keyOrder + [sid],
            scores := g.scores[sid := 0])
  }

  /** `startNewRound`, with `rand` the value `Math.random()` yields for the letter draw. */
  function StartRound(g: State, rand: real): State
    requires 0.0 <= rand < 1.0
  {
    g.(currentRound := g.currentRound + 1,
       currentLetter := [Draw(g.usedLetters, rand)],
       usedLetters := UsedAfterDraw(g.usedLetters, rand),
       gameStarted := true,
       players := ClearedForRound(g.players),
       timerArmed := true)
  }

  function MarkReady(g: State, sid: Sid): State
    requires sid in g.players
  {
    g.(players := g.players[sid := g.players[sid].(ready := true)])
  }

  /** `set-ready` (lobby). */
  function SetReady(g: State, sid: Sid, rand: real): State
    requires 0.0 <= rand < 1.0
  {
    if sid !in g.players then g
    else
      var h := MarkReady(g, sid);
      if AllReady(h.players) && |h.players| >= 2 && !h.gameStarted
      then StartRound(h.(gameStarted := true), rand)
      else h
  }

  /** `player-ready` (results screen); it does not look at `gameStarted`. */
  function PlayerReady(g: State, sid: Sid, rand: real): State
    requires 0.0 <= rand < 1.0
  {
    if sid !in g.players then g
    else
      var h := MarkReady(g, sid);
      if h.currentRound >= h.maxRounds then h
      else if AllReady(h.players) && |h.players| >= 2 then StartRound(h, rand)
      else h
  }

  /** The totals after `endRound` adds the round's points (a missing total counts as 0). */
  function RoundTotals(g: State): map<Sid, int> {
    map s | s in g.scores.Keys + g.players.Keys ::
      if s in g.players then (if s in g.scores then g.scores[s] else 0) + RoundPoints(g, s)
      else g.scores[s]
  }

  /** `endRound`: a no-op unless a round is in progress. */
  function EndRound(g: State): State {
    if !g.gameStarted then g
    else
      g.(timerArmed := false,
         gameStarted := false,
         scores := RoundTotals(g),
         players := ReadyCleared(g.players),
         pendingEndGames := if g.currentRound >= g.maxRounds then g.pendingEndGames + 1 else g.pendingEndGames)
  }

  /** `submit-answers`: overwrites any earlier submission; closes the round once everyone submitted. */
  function SubmitAnswers(g: State, sid: Sid, answers: Answers): State {
    if sid in g.players && g.gameStarted then
      var h := g.(players := g.players[sid := g.players[sid].(answers := answers, submitted := true)]);
      if AllSubmitted(h.players) then EndRound(h) else h
    else g
  }

  /** The round timer held in `roundTimer` fires. */
  function RoundTimerFires(g: State): State
    requires g.timerArmed
  {
    if g.currentRound > 0 && g.gameStarted then EndRound(g) else g.(timerArmed := false)
  }

  /** A round-timer callback orphaned by an earlier `endGame` fires; it reads the current record. */
  function StrayTimerFires(g: State): State
    requires g.strayTimers > 0
  {
    var h := g.(strayTimers := g.strayTimers - 1);
    if h.currentRound > 0 && h.gameStarted then EndRound(h) else h
  }

  /** `endGame`: replaces the record by the initial one without cancelling the round timer. */
  function EndGame(g: State): State
    requires g.pendingEndGames > 0
  {
    Reset(g.strayTimers + (if g.timerArmed then 1 else 0), g.pendingEndGames - 1)
  }

  /** `admin-score-update`, keyed by player name. */
  function AdminScoreUpdate(g: State, changes: map<string, ScoreChange>): State {
    g.(scores := AdminTotals(g, changes))
  }

  /** The totals after the admin update: targeted players move by the difference, clamped at 0. */
  function AdminTotals(g: State, changes: map<string, ScoreChange>): map<Sid, int> {
    AdminTotalsExcept(g, changes, {})
  }

  /**
   * The totals once every name of `changes` outside `pending` is processed:
   * a targeted player whose name is done holds `max(0, total + difference)`.
   */
  function AdminTotalsExcept(g: State, changes: map<string, ScoreChange>, pending: set<string>): map<Sid, int> {
    map s | s in g.scores ::
      if AdminTargets(g, changes, s) && g.players[s].name !in pending
      then Max(0, g.scores[s] + changes[g.players[s].name].difference)
      else g.scores[s]
  }

  /** `disconnect`: the key leaves both objects; nothing else changes. */
  function Disconnect(g: State, sid: Sid): State {
    g.(players := g.players - {sid}, scores := g.scores - {sid}, keyOrder := RemoveKey(g.keyOrder, sid))
  }
}
