/**
 * The server's session object (server.js `gameState` and the functions and
 * socket handlers that update it). Each field of the record is a field of
 * `Session`; each handler and timer callback is a method that updates them in
 * place. Every method keeps the session invariant and is proved to end in the
 * state the matching `GameState` transition describes, so the properties
 * proved in `SessionProperties` hold of the running session.
 */
module Server {
  import opened Wrappers
  import opened Protocol
  import opened Scoring
  import opened Letters
  import GS = GameState
  import SP = SessionProperties

  /** `letters.split('').filter(l => !used.includes(l))`: the letters not in `used`, in order. */
  method FilterUnused(letters: string, used: seq<char>) returns (available: string)
    ensures available == Unused(letters, used)
  {
    available := [];
    var i := 0;
    while i < |letters|
      invariant 0 <= i <= |letters|
      invariant available == Unused(letters[..i], used)
    {
      var letter := letters[i];
      assert letters[..i + 1] == letters[..i] + [letter];
      UnusedAppend(letters[..i], [letter], used);
      if letter !in used {
        available := available + [letter];
      }
      i := i + 1;
    }
    assert letters[..i] == letters;
  }

  /** The `allAnswers` object `endRound` builds, as the list `Object.values` yields. */
  method CollectAnswers(order: seq<Sid>, players: map<Sid, GS.Player>) returns (all: seq<Answers>)
    ensures all == GS.AllAnswers(order, players)
  {
    all := [];
    var i := 0;
    while i < |order|
      invariant 0 <= i <= |order|
      invariant all == GS.AllAnswers(order[..i], players)
    {
      var s := order[i];
      assert order[..i + 1] == order[..i] + [s];
      SP.AllAnswersAppend(order[..i], [s], players);
      if s in players {
        all := all + [players[s].answers];
      }
      i := i + 1;
    }
    assert order[..i] == order;
  }

  /** The per-player loop of `startNewRound`: ready, answers and submission cleared. */
  method ClearPlayersForRound(order: seq<Sid>, players: map<Sid, GS.Player>) returns (cleared: map<Sid, GS.Player>)
    requires forall s | s in players :: s in order
    ensures cleared == GS.ClearedForRound(players)
  {
    cleared := players;
    var i := 0;
    while i < |order|
      invariant 0 <= i <= |order|
      invariant cleared.Keys == players.Keys
      invariant forall s | s in cleared ::
        cleared[s] == if s in order[..i] then GS.ClearForRound(players[s]) else players[s]
    {
      var s := order[i];
      assert order[..i + 1] == order[..i] + [s];
      if s in cleared {
        cleared := cleared[s := GS.ClearForRound(cleared[s])];
      }
      i := i + 1;
    }
    assert order[..i] == order;
  }

  /** The last loop of `endRound`: every ready flag cleared. */
  method ClearReadyFlags(order: seq<Sid>, players: map<Sid, GS.Player>) returns (cleared: map<Sid, GS.Player>)
    requires forall s | s in players :: s in order
    ensures cleared == GS.ReadyCleared(players)
  {
    cleared := players;
    var i := 0;
    while i < |order|
      invariant 0 <= i <= |order|
      invariant cleared.Keys == players.Keys
      invariant forall s | s in cleared ::
        cleared[s] == if s in order[..i] then players[s].(ready := false) else players[s]
    {
      var s := order[i];
      assert order[..i + 1] == order[..i] + [s];
      if s in cleared {
        cleared := cleared[s := cleared[s].(ready := false)];
      }
      i := i + 1;
    }
    assert order[..i] == order;
  }

  /**
   * The scoring loop of `endRound`: each player's points against everyone's
   * answers, added to their total (a missing total counting as 0).
   */
  method AddRoundPoints(g: GS.State) returns (totals: map<Sid, int>, roundScores: map<Sid, nat>)
    requires GS.KeysAgree(g)
    ensures totals == GS.RoundTotals(g)
    ensures roundScores == GS.RoundScores(g)
  {
    var order := g.keyOrder;
    var all := CollectAnswers(order, g.players);
    totals := g.scores;
    roundScores := map[];
    var i := 0;
    while i < |order|
      invariant 0 <= i <= |order|
      invariant PartlyScored(g, totals, roundScores)
      invariant forall j | 0 <= j < i :: order[j] in roundScores
      invariant forall j | i <= j < |order| :: order[j] !in roundScores
    {
      var s := order[i];
      var points := CalculatePoints(g.players[s].answers, all, g.currentLetter);
      var previous := if s in totals then totals[s] else 0;
      ScoreOnePlayer(g, totals, roundScores, s, previous, points);
      totals := totals[s := previous + points];
      roundScores := roundScores[s := points];
      i := i + 1;
    }
    assert roundScores.Keys == g.players.Keys;
    RoundTotalsByEntry(g, totals);
    RoundScoresByEntry(g, roundScores);
  }

  /**
   * What the scoring loop of `endRound` has built once the players in
   * `roundScores` are done: their points, and their totals moved by them.
   */
  ghost predicate PartlyScored(g: GS.State, totals: map<Sid, int>, roundScores: map<Sid, nat>) {
    && totals.Keys == g.scores.Keys
    && roundScores.Keys <= g.players.Keys
    && (forall s | s in roundScores :: roundScores[s] == GS.RoundPoints(g, s))
    && (forall s | s in totals ::
          totals[s] == if s in roundScores then g.scores[s] + GS.RoundPoints(g, s) else g.scores[s])
  }

  /** One pass of the scoring loop adds one more player to what is done. */
  lemma ScoreOnePlayer(g: GS.State, totals: map<Sid, int>, roundScores: map<Sid, nat>, s: Sid, previous: int, points: nat)
    requires g.players.Keys == g.scores.Keys && s in g.players && s !in roundScores
    requires PartlyScored(g, totals, roundScores)
    requires previous == (if s in totals then totals[s] else 0)
    requires points == CalculatePoints(g.players[s].answers, GS.AllAnswers(g.keyOrder, g.players), g.currentLetter)
    ensures PartlyScored(g, totals[s := previous + points], roundScores[s := points])
  {
  }

  /** A map with the keys of `scores` holding every total plus the round's points is `RoundTotals`. */
  lemma RoundTotalsByEntry(g: GS.State, totals: map<Sid, int>)
    requires g.players.Keys == g.scores.Keys && totals.Keys == g.scores.Keys
    requires forall s | s in totals :: totals[s] == g.scores[s] + GS.RoundPoints(g, s)
    ensures totals == GS.RoundTotals(g)
  {
    var expected := GS.RoundTotals(g);
    assert expected.Keys == totals.Keys;
    forall s | s in totals
      ensures totals[s] == expected[s]
    {
    }
  }

  /** A map with the players' keys holding each one's points is `RoundScores`. */
  lemma RoundScoresByEntry(g: GS.State, roundScores: map<Sid, nat>)
    requires forall s :: s in roundScores <==> s in g.players
    requires forall s | s in roundScores :: roundScores[s] == GS.RoundPoints(g, s)
    ensures roundScores == GS.RoundScores(g)
  {
  }

  /** One name of `changes` processed as the loop body of `admin-score-update` does it. */
  lemma AdminStep(g: GS.State, changes: map<string, ScoreChange>, pending: set<string>, name: string,
                  before: map<Sid, int>, after: map<Sid, int>)
    requires name in pending && pending <= changes.Keys
    requires before == GS.AdminTotalsExcept(g, changes, pending)
    requires var playerId := GS.FindPlayerIdByName(g.keyOrder, g.players, name);
      if playerId.Some? && playerId.value in before && before[playerId.value] != 0
      then after == before[playerId.value := GS.Max(0, before[playerId.value] + changes[name].difference)]
      else after == before
    ensures after == GS.AdminTotalsExcept(g, changes, pending - {name})
  {
    var playerId := GS.FindPlayerIdByName(g.keyOrder, g.players, name);
    GS.FindPlayerIdByNameFinds(g.keyOrder, g.players, name);
    var expected := GS.AdminTotalsExcept(g, changes, pending - {name});
    assert after.Keys == expected.Keys;
    forall s | s in after
      ensures after[s] == expected[s]
    {
      if s in g.players && g.players[s].name == name {
        assert before[s] == g.scores[s];
        assert GS.AdminTargets(g, changes, s) <==> playerId == Some(s) && g.scores[s] != 0;
      } else {
        assert after[s] == before[s];
      }
    }
  }

  /** Before any name is processed, every total is the old one. */
  lemma AdminNoneDone(g: GS.State, changes: map<string, ScoreChange>)
    ensures GS.AdminTotalsExcept(g, changes, changes.Keys) == g.scores
  {
    var expected := GS.AdminTotalsExcept(g, changes, changes.Keys);
    assert expected.Keys == g.scores.Keys;
    forall s | s in expected
      ensures expected[s] == g.scores[s]
    {
    }
  }

  /**
   * The loop of `admin-score-update` over the names in `changes`, taken in any
   * order: the result is the same whatever the order.
   */
  method ApplyScoreChanges(g: GS.State, changes: map<string, ScoreChange>) returns (totals: map<Sid, int>)
    ensures totals == GS.AdminTotals(g, changes)
  {
    totals := g.scores;
    var remaining := changes.Keys;
    AdminNoneDone(g, changes);
    while remaining != {}
      invariant remaining <= changes.Keys
      invariant totals == GS.AdminTotalsExcept(g, changes, remaining)
      decreases remaining
    {
      var name :| name in remaining;
      ghost var before, pending := totals, remaining;
      remaining := remaining - {name};
      var change := changes[name];
      var playerId := GS.FindPlayerIdByName(g.keyOrder, g.players, name);
      if playerId.Some? && playerId.value in totals && totals[playerId.value] != 0 {
        var oldTotal := totals[playerId.value];
        var newTotal := oldTotal + change.difference;
        totals := totals[playerId.value := GS.Max(0, newTotal)];
      }
      AdminStep(g, changes, pending, name, before, totals);
    }
  }

  /**
   * The winner scan of `endGame` over `Object.keys(scores)`: the highest
   * total, starting from -1, and every id holding it.
   */
  method SelectWinners(order: seq<Sid>, scores: map<Sid, int>) returns (maxScore: int, winners: seq<Sid>)
    requires NoDup(order) && forall s | s in order :: s in scores
    ensures maxScore >= -1
    ensures forall s | s in order :: scores[s] <= maxScore
    ensures maxScore == -1 || exists s :: s in order && scores[s] == maxScore
    ensures forall s :: s in winners <==> s in order && scores[s] == maxScore
    ensures NoDup(winners)
    ensures order == [] ==> maxScore == -1 && winners == []
  {
    maxScore := -1;
    winners := [];
    var i := 0;
    while i < |order|
      invariant 0 <= i <= |order|
      invariant maxScore >= -1
      invariant forall s | s in order[..i] :: scores[s] <= maxScore
      invariant maxScore == -1 || exists s :: s in order[..i] && scores[s] == maxScore
      invariant forall s :: s in winners <==> s in order[..i] && scores[s] == maxScore
      invariant NoDup(winners) && |winners| <= i
    {
      var s := order[i];
      assert order[..i + 1] == order[..i] + [s];
      assert s !in order[..i];
      if scores[s] > maxScore {
        maxScore := scores[s];
        winners := [s];
      } else if scores[s] == maxScore {
        winners := winners + [s];
      }
      i := i + 1;
    }
    assert order[..i] == order;
  }

  class Session {
    var players: map<Sid, GS.Player>
    var keyOrder: seq<Sid>
    var scores: map<Sid, int>
    var currentRound: nat
    var maxRounds: nat
    var maxPlayers: nat
    var gameStarted: bool
    var currentLetter: string
    var usedLetters: seq<char>
    var timerArmed: bool
    var strayTimers: nat
    var pendingEndGames: nat

    /** The record the fields hold. */
    function Model(): GS.State
      reads this
    {
      GS.State(players, keyOrder, scores, currentRound, maxRounds, maxPlayers, gameStarted,
               currentLetter, usedLetters, timerArmed, strayTimers, pendingEndGames)
    }

    ghost predicate Valid()
      reads this
    {
      GS.Inv(Model())
    }

    /** The record at process start. */
    constructor ()
      ensures Model() == GS.Reset(0, 0) && Valid()
    {
      players := map[];
      keyOrder := [];
      scores := map[];
      currentRound := 0;
      maxRounds := 10;
      maxPlayers := 10;
      gameStarted := false;
      currentLetter := "";
      usedLetters := [];
      timerArmed := false;
      strayTimers := 0;
      pendingEndGames := 0;
    }

    /** `getRandomLetter`, with `rand` the value `Math.random()` yields. */
    method GetRandomLetter(rand: real) returns (letter: char)
      requires 0.0 <= rand < 1.0
      modifies this`usedLetters
      ensures letter == Draw(old(usedLetters), rand)
      ensures usedLetters == UsedAfterDraw(old(usedLetters), rand)
    {
      var available := FilterUnused(Alphabet, usedLetters);
      if |available| == 0 {
        usedLetters := [];
        available := Alphabet;
      }
      letter := available[PickIndex(rand, |available|)];
      usedLetters := usedLetters + [letter];
    }

    /**
     * `startNewRound`. Its callers establish the session invariant for the
     * state it produces (`SessionProperties.StartRoundKeepsInvariant`).
     */
    method StartNewRound(rand: real)
      requires 0.0 <= rand < 1.0 && forall s | s in players :: s in keyOrder
      modifies this`timerArmed, this`currentRound, this`usedLetters, this`currentLetter, this`gameStarted, this`players
      ensures Model() == GS.StartRound(old(Model()), rand)
    {
      var order, before := keyOrder, players;
      timerArmed := false;
      currentRound := currentRound + 1;
      var letter := GetRandomLetter(rand);
      currentLetter := [letter];
      gameStarted := true;
      players := ClearPlayersForRound(order, before);
      timerArmed := true;
    }

    /** `endRound`; returns the round's points per player (`roundScores`), empty when it does nothing. */
    method EndRound() returns (roundScores: map<Sid, nat>)
      requires Valid()
      modifies this
      ensures Valid()
      ensures Model() == GS.EndRound(old(Model()))
      ensures old(gameStarted) ==> roundScores == GS.RoundScores(old(Model()))
      ensures !old(gameStarted) ==> roundScores == map[]
    {
      ghost var g := Model();
      SP.EndRoundKeepsInvariant(g);
      roundScores := map[];
      if !gameStarted {
        return;
      }
      var before := Model();
      timerArmed := false;
      gameStarted := false;
      var totals;
      totals, roundScores := AddRoundPoints(before);
      scores := totals;
      players := ClearReadyFlags(keyOrder, players);
      if currentRound >= maxRounds {
        pendingEndGames := pendingEndGames + 1;
      }
      assert Model() == GS.EndRound(g);
    }

    /** The `join-game` handler; `joined` is false when the `game-full` reply is sent instead. */
    method Join(sid: Sid, uuid: string, name: string) returns (joined: bool)
      requires Valid()
      modifies this
      ensures Valid()
      ensures Model() == GS.Join(old(Model()), sid, uuid, name)
      ensures joined <==> |old(players)| < old(maxPlayers)
    {
      SP.JoinKeepsInvariant(Model(), sid, uuid, name);
      if |players| >= maxPlayers {
        return false;
      }
      players := players[sid := GS.Player(uuid, name, [], false, false)];
      if sid !in keyOrder {
        keyOrder := keyOrder + [sid];
      }
      scores := scores[sid := 0];
      joined := true;
    }

    /** The `set-ready` handler (lobby). */
    method SetReady(sid: Sid, rand: real)
      requires Valid() && 0.0 <= rand < 1.0
      modifies this
      ensures Valid()
      ensures Model() == GS.SetReady(old(Model()), sid, rand)
    {
      ghost var g := Model();
      if sid in players {
        players := players[sid := players[sid].(ready := true)];
        SP.PlayerRecordsKeepInvariant(g, Model());
        var allReady := GS.AllReady(players);
        var playerCount := |players|;
        if allReady && playerCount >= 2 && !gameStarted {
          gameStarted := true;
          SP.StartRoundKeepsInvariant(Model(), rand);
          StartNewRound(rand);
        }
      }
    }

    /** The `player-ready` handler (results screen). */
    method PlayerReady(sid: Sid, rand: real)
      requires Valid() && 0.0 <= rand < 1.0
      modifies this
      ensures Valid()
      ensures Model() == GS.PlayerReady(old(Model()), sid, rand)
    {
      ghost var g := Model();
      if sid in players {
        players := players[sid := players[sid].(ready := true)];
        SP.PlayerRecordsKeepInvariant(g, Model());
        if currentRound >= maxRounds {
          return;
        }
        var allReady := GS.AllReady(players);
        if allReady && |players| >= 2 {
          SP.StartRoundKeepsInvariant(Model(), rand);
          StartNewRound(rand);
        }
      }
    }

    /** The `submit-answers` handler. */
    method SubmitAnswers(sid: Sid, answers: Answers)
      requires Valid()
      modifies this
      ensures Valid()
      ensures Model() == GS.SubmitAnswers(old(Model()), sid, answers)
    {
      ghost var g := Model();
      if sid in players && gameStarted {
        players := players[sid := players[sid].(answers := answers, submitted := true)];
        SP.PlayerRecordsKeepInvariant(g, Model());
        var allSubmitted := GS.AllSubmitted(players);
        if allSubmitted {
          var roundScores := EndRound();
        }
      }
    }

    /**
     * The callback of the round timer held in `roundTimer`. Under the
     * invariant an armed timer always finds a round in progress, so its guard
     * holds and it ends the round.
     */
    method RoundTimerExpires()
      requires Valid() && timerArmed
      modifies this
      ensures Valid()
      ensures Model() == GS.RoundTimerFires(old(Model()))
    {
      if currentRound > 0 && gameStarted {
        var roundScores := EndRound();
      }
    }

    /** The callback of a round timer orphaned by an earlier `endGame`. */
    method StrayTimerExpires()
      requires Valid() && strayTimers > 0
      modifies this
      ensures Valid()
      ensures Model() == GS.StrayTimerFires(old(Model()))
    {
      strayTimers := strayTimers - 1;
      if currentRound > 0 && gameStarted {
        var roundScores := EndRound();
      }
    }

    /**
     * `endGame`, run by the timer `endRound` schedules after the last round:
     * the winners (every id holding the top total, and their player records),
     * the top total and the tie flag of the `game-ended` broadcast; then the
     * initial record. A round timer still armed is not cancelled.
     */
    method EndGame() returns (winnerIds: seq<Sid>, winners: seq<GS.Player>, maxScore: int, isTie: bool)
      requires Valid() && pendingEndGames > 0
      modifies this
      ensures Valid()
      ensures Model() == GS.EndGame(old(Model()))
      ensures maxScore >= -1 && forall s | s in old(scores) :: old(scores)[s] <= maxScore
      ensures maxScore == -1 || exists s :: s in old(scores) && old(scores)[s] == maxScore
      ensures old(scores) == map[] ==> maxScore == -1 && winnerIds == []
      ensures forall s :: s in winnerIds <==> s in old(scores) && old(scores)[s] == maxScore
      ensures NoDup(winnerIds)
      ensures isTie <==> |winnerIds| > 1
      ensures |winners| == |winnerIds|
      ensures forall i | 0 <= i < |winnerIds| :: winnerIds[i] in old(players) && winners[i] == old(players)[winnerIds[i]]
    {
      maxScore, winnerIds := SelectWinners(keyOrder, scores);
      if winnerIds != [] {
        assert winnerIds[0] in winnerIds;
      }
      var before := players;
      winners := seq(|winnerIds|, i requires 0 <= i < |winnerIds| => before[winnerIds[i]]);
      isTie := |winnerIds| > 1;
      ResetRecord();
    }

    /** The reassignment that ends `endGame`; the timers scheduled earlier stay pending. */
    method ResetRecord()
      requires pendingEndGames > 0
      modifies this
      ensures Valid()
      ensures Model() == GS.EndGame(old(Model()))
    {
      SP.EndGameKeepsInvariant(Model());
      Assign(GS.Reset(strayTimers + (if timerArmed then 1 else 0), pendingEndGames - 1));
    }

    /** Replaces the whole record (`gameState = { ... }`). */
    method Assign(r: GS.State)
      modifies this
      ensures Model() == r
    {
      AssignPlayers(r);
      AssignRound(r);
    }

    /** The player part of `Assign`. */
    method AssignPlayers(r: GS.State)
      modifies this`players, this`keyOrder, this`scores, this`maxPlayers
      ensures players == r.players && keyOrder == r.keyOrder && scores == r.scores && maxPlayers == r.maxPlayers
    {
      players := r.players;
      keyOrder := r.keyOrder;
      scores := r.scores;
      maxPlayers := r.maxPlayers;
    }

    /** The round and timer part of `Assign`. */
    method AssignRound(r: GS.State)
      modifies this`currentRound, this`maxRounds, this`gameStarted, this`currentLetter, this`usedLetters
      modifies this`timerArmed, this`strayTimers, this`pendingEndGames
      ensures currentRound == r.currentRound && maxRounds == r.maxRounds && gameStarted == r.gameStarted
      ensures currentLetter == r.currentLetter && usedLetters == r.usedLetters
      ensures timerArmed == r.timerArmed && strayTimers == r.strayTimers && pendingEndGames == r.pendingEndGames
    {
      currentRound := r.currentRound;
      maxRounds := r.maxRounds;
      gameStarted := r.gameStarted;
      currentLetter := r.currentLetter;
      usedLetters := r.usedLetters;
      timerArmed := r.timerArmed;
      strayTimers := r.strayTimers;
      pendingEndGames := r.pendingEndGames;
    }

    /** The `admin-score-update` handler. */
    method AdminScoreUpdate(changes: map<string, ScoreChange>)
      requires Valid()
      modifies this
      ensures Valid()
      ensures Model() == GS.AdminScoreUpdate(old(Model()), changes)
    {
      SP.AdminKeepsInvariant(Model(), changes);
      scores := ApplyScoreChanges(Model(), changes);
    }

    /** The `disconnect` handler. */
    method Disconnect(sid: Sid)
      requires Valid()
      modifies this
      ensures Valid()
      ensures Model() == GS.Disconnect(old(Model()), sid)
    {
      SP.DisconnectKeepsInvariant(Model(), sid);
      players := players - {sid};
      scores := scores - {sid};
      keyOrder := GS.RemoveKey(keyOrder, sid);
    }
  }
}
