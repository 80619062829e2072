/**
 * What the session's handlers guarantee, stated over the transition functions
 * of `GameState`: each keeps the session invariant (non-negative totals, equal
 * key sets, capacity, no repeated letter, timer armed exactly while a round is
 * in progress) and does what its comment promises.
 */
module SessionProperties {
  import opened Wrappers
  import opened Protocol
  import opened Scoring
  import opened Letters
  import opened GameState

  // ---------------------------------------------------------------------------
  // Joining and leaving

  /** `join-game` when full changes nothing, so the player count never exceeds `maxPlayers`. */
  lemma JoinRespectsCapacity(g: State, sid: Sid, uuid: string, name: string)
    requires Inv(g)
    ensures |g.players| >= g.maxPlayers ==> Join(g, sid, uuid, name) == g
    ensures |Join(g, sid, uuid, name).players| <= Join(g, sid, uuid, name).maxPlayers
  {
    JoinKeepsInvariant(g, sid, uuid, name);
  }

  /**
   * Otherwise it adds the key to both objects, with a fresh record and a zero
   * total (replacing those of a socket that joins twice) ...
   */
  lemma JoinAddsPlayer(g: State, sid: Sid, uuid: string, name: string)
    requires |g.players| < g.maxPlayers
    ensures var r := Join(g, sid, uuid, name);
      && (forall s :: s in r.players <==> s in g.players || s == sid)
      && (forall s :: s in r.scores <==> s in g.scores || s == sid)
      && r.scores[sid] == 0 && r.players[sid] == Player(uuid, name, [], false, false)
  {
  }

  /** ... and leaves the other players, their totals and the round untouched. */
  lemma JoinKeepsOthers(g: State, sid: Sid, uuid: string, name: string)
    ensures var r := Join(g, sid, uuid, name);
      && (forall s | s in g.players && s != sid :: s in r.players && r.players[s] == g.players[s])
      && (forall s | s in g.scores && s != sid :: s in r.scores && r.scores[s] == g.scores[s])
      && r.gameStarted == g.gameStarted && r.currentRound == g.currentRound && r.usedLetters == g.usedLetters
  {
  }

  lemma JoinKeepsInvariant(g: State, sid: Sid, uuid: string, name: string)
    requires Inv(g)
    ensures Inv(Join(g, sid, uuid, name))
  {
    if |g.players| < g.maxPlayers {
      JoinKeepsKeysAgree(g, sid, uuid, name);
    }
  }

  lemma JoinKeepsKeysAgree(g: State, sid: Sid, uuid: string, name: string)
    requires KeysAgree(g) && |g.players| < g.maxPlayers
    ensures KeysAgree(Join(g, sid, uuid, name))
  {
    if sid !in g.players {
      assert sid !in g.keyOrder;
    }
  }

  /** `disconnect` removes the key from both objects and changes nothing else. */
  lemma DisconnectRemovesOnlyThePlayer(g: State, sid: Sid)
    requires Inv(g)
    ensures var r := Disconnect(g, sid);
      && Inv(r)
      && r.players.Keys == g.players.Keys - {sid}
      && (forall s | s in r.players :: r.players[s] == g.players[s] && r.scores[s] == g.scores[s])
      && r.(players := g.players, scores := g.scores, keyOrder := g.keyOrder) == g
  {
    DisconnectKeepsInvariant(g, sid);
  }

  lemma DisconnectKeepsInvariant(g: State, sid: Sid)
    requires Inv(g)
    ensures Inv(Disconnect(g, sid))
  {
    var r := Disconnect(g, sid);
    assert r.players.Keys == g.players.Keys - {sid};
    assert r.players.Keys <= g.players.Keys;
    assert |r.players.Keys| <= |g.players.Keys|;
  }

  // ---------------------------------------------------------------------------
  // Starting a round

  /**
   * `startNewRound` advances the round by one, draws a letter, arms the timer
   * and clears every player's ready flag, answers and submission; with fewer
   * than 21 letters used the letter is a fresh one.
   */
  lemma StartRoundClearsPlayers(g: State, rand: real)
    requires DataInv(g) && 0.0 <= rand < 1.0
    ensures var r := StartRound(g, rand);
      && Inv(r)
      && r.currentRound == g.currentRound + 1 && r.gameStarted && r.timerArmed
      && r.players.Keys == g.players.Keys && r.scores == g.scores
      && (forall s | s in r.players ::
            && !r.players[s].ready && r.players[s].answers == [] && !r.players[s].submitted
            && r.players[s].name == g.players[s].name)
      && |r.currentLetter| == 1 && InAlphabet(r.currentLetter[0])
      && (|g.usedLetters| < |Alphabet| ==>
            r.currentLetter[0] !in g.usedLetters && r.usedLetters == g.usedLetters + r.currentLetter)
  {
    StartRoundKeepsInvariant(g, rand);
    if |g.usedLetters| < |Alphabet| {
      DrawIsFreshBeforeExhaustion(g.usedLetters, rand);
    }
  }

  /** Replacing player records without adding or removing keys keeps the invariant. */
  lemma PlayerRecordsKeepInvariant(g: State, h: State)
    requires Inv(g)
    requires h.players.Keys == g.players.Keys && h == g.(players := h.players)
    ensures Inv(h)
  {
    assert |h.players| == |h.players.Keys| == |g.players.Keys| == |g.players|;
  }

  /** Replacing the totals by non-negative ones for the same keys keeps the invariant. */
  lemma TotalsKeepInvariant(g: State, totals: map<Sid, int>)
    requires Inv(g) && totals.Keys == g.scores.Keys && ScoresNonNegative(totals)
    ensures Inv(g.(scores := totals))
  {
  }

  lemma StartRoundKeepsInvariant(g: State, rand: real)
    requires DataInv(g) && 0.0 <= rand < 1.0
    ensures Inv(StartRound(g, rand))
  {
    var r := StartRound(g, rand);
    DrawKeepsUsedDistinct(g.usedLetters, rand);
    assert r.players.Keys == g.players.Keys;
    assert |r.players| == |r.players.Keys| == |g.players.Keys| == |g.players|;
  }

  lemma MarkReadyKeepsInvariant(g: State, sid: Sid)
    requires Inv(g) && sid in g.players
    ensures Inv(MarkReady(g, sid))
    ensures AllReady(MarkReady(g, sid).players) <==> forall s | s in g.players && s != sid :: g.players[s].ready
  {
    PlayerRecordsKeepInvariant(g, MarkReady(g, sid));
  }

  /**
   * `set-ready` starts a round exactly when the sender is a player, no round is
   * in progress, there are at least two players and every other one is ready.
   */
  lemma SetReadyStartsOnlyOnQuorum(g: State, sid: Sid, rand: real)
    requires Inv(g) && 0.0 <= rand < 1.0
    ensures Inv(SetReady(g, sid, rand))
    ensures var r := SetReady(g, sid, rand);
      && (r.currentRound != g.currentRound <==>
            && sid in g.players && !g.gameStarted && |g.players| >= 2
            && forall s | s in g.players && s != sid :: g.players[s].ready)
      && (r.currentRound != g.currentRound ==> r.currentRound == g.currentRound + 1 && r.gameStarted)
      && (r.currentRound == g.currentRound ==> r.gameStarted == g.gameStarted && r.scores == g.scores)
  {
    if sid in g.players {
      MarkReadyKeepsInvariant(g, sid);
      var h := MarkReady(g, sid);
      if AllReady(h.players) && |h.players| >= 2 && !h.gameStarted {
        StartRoundClearsPlayers(h.(gameStarted := true), rand);
      }
    }
  }

  /**
   * `player-ready` starts a round exactly when the sender is a player, fewer
   * than `maxRounds` rounds were played, there are at least two players and
   * every other one is ready; it never starts one past the last round.
   */
  lemma PlayerReadyStartsOnlyOnQuorum(g: State, sid: Sid, rand: real)
    requires Inv(g) && 0.0 <= rand < 1.0
    ensures Inv(PlayerReady(g, sid, rand))
    ensures var r := PlayerReady(g, sid, rand);
      && (r.currentRound != g.currentRound <==>
            && sid in g.players && g.currentRound < g.maxRounds && |g.players| >= 2
            && forall s | s in g.players && s != sid :: g.players[s].ready)
      && (g.currentRound >= g.maxRounds ==> r.currentRound == g.currentRound)
      && (r.currentRound != g.currentRound ==> r.currentRound == g.currentRound + 1 && r.gameStarted)
  {
    if sid in g.players {
      MarkReadyKeepsInvariant(g, sid);
      var h := MarkReady(g, sid);
      if h.currentRound < h.maxRounds && AllReady(h.players) && |h.players| >= 2 {
        StartRoundClearsPlayers(h, rand);
      }
    }
  }

  // ---------------------------------------------------------------------------
  // Closing a round

  /**
   * `endRound` closes an open round: the timer is disarmed, each player's total
   * grows by the round's non-negative points, ready flags are cleared and the
   * final round schedules `endGame`. Run again, it changes nothing.
   */
  lemma EndRoundClosesOnce(g: State)
    requires Inv(g)
    ensures var r := EndRound(g);
      && Inv(r) && !r.gameStarted && !r.timerArmed
      && EndRound(r) == r
    ensures !g.gameStarted ==> EndRound(g) == g
  {
    EndRoundKeepsInvariant(g);
  }

  /**
   * A round in progress closes by adding each player's round points to their
   * total and clearing every ready flag; an `endGame` is scheduled exactly
   * after the last round.
   */
  lemma EndRoundAddsPoints(g: State)
    requires g.gameStarted && g.players.Keys == g.scores.Keys
    ensures var r := EndRound(g);
      && r.players.Keys == g.players.Keys && r.currentRound == g.currentRound
      && (forall s | s in g.players ::
            && s in r.scores && r.scores[s] == g.scores[s] + RoundPoints(g, s) >= g.scores[s]
            && s in r.players && r.players[s] == g.players[s].(ready := false))
      && (r.pendingEndGames == g.pendingEndGames + 1 <==> g.currentRound >= g.maxRounds)
  {
  }

  lemma EndRoundKeepsInvariant(g: State)
    requires Inv(g)
    ensures Inv(EndRound(g))
  {
    var r := EndRound(g);
    if g.gameStarted {
      assert r.players.Keys == g.players.Keys;
      assert r.scores.Keys == g.scores.Keys;
      assert |r.players| == |g.players|;
    }
  }

  /**
   * `submit-answers` is ignored from an unknown socket or outside a round and
   * keeps the invariant. Otherwise (next lemma) it stores the answers as sent,
   * marks the player submitted, and closes the round exactly when every other
   * player had already submitted.
   */
  lemma SubmitKeepsInvariant(g: State, sid: Sid, answers: Answers)
    requires Inv(g)
    ensures Inv(SubmitAnswers(g, sid, answers))
    ensures sid !in g.players || !g.gameStarted ==> SubmitAnswers(g, sid, answers) == g
  {
    if sid in g.players && g.gameStarted {
      var h := g.(players := g.players[sid := g.players[sid].(answers := answers, submitted := true)]);
      PlayerRecordsKeepInvariant(g, h);
      EndRoundClosesOnce(h);
    }
  }

  lemma SubmitClosesWhenAllSubmitted(g: State, sid: Sid, answers: Answers)
    requires Inv(g) && sid in g.players && g.gameStarted
    ensures var r := SubmitAnswers(g, sid, answers);
      && r.players[sid].answers == answers && r.players[sid].submitted
      && (!r.gameStarted <==> forall s | s in g.players && s != sid :: g.players[s].submitted)
  {
    var h := g.(players := g.players[sid := g.players[sid].(answers := answers, submitted := true)]);
    if forall s | s in g.players && s != sid :: g.players[s].submitted {
      forall s | s in h.players ensures h.players[s].submitted {
        if s != sid { assert h.players[s] == g.players[s]; }
      }
    }
    if AllSubmitted(h.players) {
      forall s | s in g.players && s != sid ensures g.players[s].submitted {
        assert h.players[s] == g.players[s];
      }
    }
    if AllSubmitted(h.players) {
      PlayerRecordsKeepInvariant(g, h);
      EndRoundClosesOnce(h);
    }
  }

  /**
   * The race between the last submission and the timer: once a submission
   * closed the round, the round timer is disarmed and neither another
   * `endRound` nor an orphaned timer callback changes anything but its own count.
   */
  lemma LastSubmissionBeatsTimer(g: State, sid: Sid, answers: Answers)
    requires Inv(g) && g.gameStarted
    requires !SubmitAnswers(g, sid, answers).gameStarted
    ensures var r := SubmitAnswers(g, sid, answers);
      && !r.timerArmed
      && EndRound(r) == r
      && (r.strayTimers > 0 ==> StrayTimerFires(r) == r.(strayTimers := r.strayTimers - 1))
  {
    SubmitClosesWhenAllSubmitted(g, sid, answers);
  }

  /** Expiry of the armed round timer closes the round. */
  lemma RoundTimerClosesRound(g: State)
    requires Inv(g) && g.timerArmed
    ensures RoundTimerFires(g) == EndRound(g)
    ensures Inv(RoundTimerFires(g)) && !RoundTimerFires(g).gameStarted
  {
    EndRoundClosesOnce(g);
  }

  /** An orphaned timer callback keeps the invariant (it may close a round of the current game). */
  lemma StrayTimerKeepsInvariant(g: State)
    requires Inv(g) && g.strayTimers > 0
    ensures Inv(StrayTimerFires(g))
    ensures StrayTimerFires(g).scores.Keys == g.scores.Keys
  {
    EndRoundClosesOnce(g.(strayTimers := g.strayTimers - 1));
  }

  // ---------------------------------------------------------------------------
  // Admin override and end of game

  /** With a name held by one player only, `findPlayerIdByName` finds that player. */
  lemma FindUniqueName(order: seq<Sid>, players: map<Sid, Player>, sid: Sid)
    requires sid in order && sid in players
    requires forall t | t in players && t != sid :: players[t].name != players[sid].name
    ensures FindPlayerIdByName(order, players, players[sid].name) == Some(sid)
  {
    FindPlayerIdByNameFinds(order, players, players[sid].name);
  }

  /** `admin-score-update` changes only totals and keeps the invariant. */
  lemma AdminUpdateChangesOnlyScores(g: State, changes: map<string, ScoreChange>)
    requires Inv(g)
    ensures Inv(AdminScoreUpdate(g, changes))
    ensures AdminScoreUpdate(g, changes) == g.(scores := AdminScoreUpdate(g, changes).scores)
    ensures AdminScoreUpdate(g, changes).scores.Keys == g.scores.Keys
  {
    AdminKeepsInvariant(g, changes);
  }

  lemma AdminKeepsInvariant(g: State, changes: map<string, ScoreChange>)
    requires Inv(g)
    ensures Inv(AdminScoreUpdate(g, changes))
  {
    AdminTotalsClamped(g, changes);
    TotalsKeepInvariant(g, AdminTotals(g, changes));
  }

  /** The admin update keeps the ids of the totals, and non-negative totals stay non-negative. */
  lemma AdminTotalsClamped(g: State, changes: map<string, ScoreChange>)
    requires ScoresNonNegative(g.scores)
    ensures AdminTotals(g, changes).Keys == g.scores.Keys
    ensures ScoresNonNegative(AdminTotals(g, changes))
  {
  }

  /**
   * No total drops below 0; a total of 0 is left alone (the truthiness test);
   * only players whose name is a key of `changes` can move.
   */
  lemma AdminUpdateClampsAtZero(g: State, changes: map<string, ScoreChange>, s: Sid)
    requires ScoresNonNegative(g.scores) && g.players.Keys == g.scores.Keys && s in g.scores
    ensures var r := AdminScoreUpdate(g, changes);
      && r.scores[s] >= 0
      && (g.scores[s] == 0 ==> r.scores[s] == 0)
      && (r.scores[s] != g.scores[s] ==> g.players[s].name in changes)
  {
  }

  /**
   * A player whose name is a key of `changes`, resolves to that player, and
   * whose total is positive gets `max(0, total + difference)`. A name held by
   * one player always resolves to it (`FindUniqueName`).
   */
  lemma AdminUpdateAppliesDifference(g: State, changes: map<string, ScoreChange>, s: Sid)
    requires Inv(g) && s in g.players && g.players[s].name in changes && g.scores[s] > 0
    requires FindPlayerIdByName(g.keyOrder, g.players, g.players[s].name) == Some(s)
    ensures AdminScoreUpdate(g, changes).scores[s] == Max(0, g.scores[s] + changes[g.players[s].name].difference)
  {
  }

  /**
   * Names need not be unique. Of two players with the same name, the one who
   * joined later is shadowed: the name resolves to the earlier one, and the
   * later one keeps its total whatever the payload says.
   */
  lemma AdminShadowedNameKeepsTotal(g: State, changes: map<string, ScoreChange>, i: nat, j: nat)
    requires Inv(g) && i < j < |g.keyOrder|
    requires g.players[g.keyOrder[i]].name == g.players[g.keyOrder[j]].name
    ensures AdminScoreUpdate(g, changes).scores[g.keyOrder[j]] == g.scores[g.keyOrder[j]]
  {
    var name := g.players[g.keyOrder[i]].name;
    FindPlayerIdByNameFirst(g.keyOrder, g.players, name, i);
    var k :| 0 <= k <= i && FindPlayerIdByName(g.keyOrder, g.players, name) == Some(g.keyOrder[k]);
    assert g.keyOrder[k] != g.keyOrder[j];
  }

  /**
   * A payload none of whose keys is a player's name (such as one keyed by
   * socket ids) changes nothing.
   */
  lemma AdminIgnoresUnknownNames(g: State, changes: map<string, ScoreChange>)
    requires forall s | s in g.players :: g.players[s].name !in changes
    ensures AdminScoreUpdate(g, changes) == g
  {
    var totals := AdminTotals(g, changes);
    assert totals.Keys == g.scores.Keys;
    forall s | s in totals
      ensures totals[s] == g.scores[s]
    {
    }
  }

  lemma EndGameKeepsInvariant(g: State)
    requires g.pendingEndGames > 0
    ensures Inv(EndGame(g))
  {
  }

  /** `endGame` returns the session to the initial record; a round timer still armed becomes orphaned. */
  lemma EndGameResetsSession(g: State)
    requires Inv(g) && g.pendingEndGames > 0
    ensures var r := EndGame(g);
      && Inv(r)
      && r.players == map[] && r.scores == map[] && r.keyOrder == []
      && r.currentRound == 0 && r.usedLetters == [] && !r.gameStarted && !r.timerArmed
      && r.strayTimers == g.strayTimers + (if g.gameStarted then 1 else 0)
      && r.pendingEndGames == g.pendingEndGames - 1
  {
  }

  // ---------------------------------------------------------------------------
  // Order independence of the round's points

  lemma {:induction false} AllAnswersAppend(a: seq<Sid>, b: seq<Sid>, players: map<Sid, Player>)
    ensures AllAnswers(a + b, players) == AllAnswers(a, players) + AllAnswers(b, players)
  {
    if a == [] {
      assert a + b == b;
    } else {
      assert (a + b)[1..] == a[1..] + b;
      AllAnswersAppend(a[1..], b, players);
    }
  }

  lemma RemoveAtKeepsDistinct(s: seq<Sid>, i: nat)
    requires NoDup(s) && i < |s|
    ensures NoDup(s[..i] + s[i + 1..])
    ensures forall x :: x in s[..i] + s[i + 1..] <==> x in s && x != s[i]
  {
    var t := s[..i] + s[i + 1..];
    forall p, q | 0 <= p < q < |t| ensures t[p] != t[q] {
      var p' := if p < i then p else p + 1;
      var q' := if q < i then q else q + 1;
      assert t[p] == s[p'] && t[q] == s[q'] && p' < q';
    }
    forall x ensures x in t <==> x in s && x != s[i] {
      if x in s && x != s[i] {
        var k :| 0 <= k < |s| && s[k] == x;
        assert k != i;
        if k < i { assert t[k] == x; } else { assert t[k - 1] == x; }
      }
    }
  }

  lemma HeadIsMember<T>(s: seq<T>)
    ensures |s| > 0 ==> s[0] in s
  {
  }

  lemma SplitAt<T>(s: seq<T>, i: nat)
    requires i < |s|
    ensures s == s[..i] + ([s[i]] + s[i + 1..])
  {
  }

  /** Two key orders listing the same keys give the same multiset of answer objects. */
  lemma {:induction false} AllAnswersPermutation(o1: seq<Sid>, o2: seq<Sid>, players: map<Sid, Player>)
    requires NoDup(o1) && NoDup(o2)
    requires forall s :: s in o1 <==> s in o2
    ensures multiset(AllAnswers(o1, players)) == multiset(AllAnswers(o2, players))
  {
    if o1 == [] {
      HeadIsMember(o2);
    } else {
      var x := o1[0];
      assert x in o2;
      var i :| 0 <= i < |o2| && o2[i] == x;
      var rest2 := o2[..i] + o2[i + 1..];
      RemoveAtKeepsDistinct(o2, i);
      RemoveAtKeepsDistinct(o1, 0);
      assert o1[..0] + o1[1..] == o1[1..];
      forall s ensures s in o1[1..] <==> s in rest2 {
        assert s in o1[1..] <==> s in o1 && s != x;
        assert s in rest2 <==> s in o2 && s != x;
      }
      AllAnswersPermutation(o1[1..], rest2, players);
      SplitAt(o2, i);
      AllAnswersAppend(o2[..i], [x] + o2[i + 1..], players);
      AllAnswersAppend([x], o2[i + 1..], players);
      AllAnswersAppend(o2[..i], o2[i + 1..], players);
      SplitAt(o1, 0);
      AllAnswersAppend([x], o1[1..], players);
      MultisetMoveFront(AllAnswers(o2[..i], players), AllAnswers([x], players),
                        AllAnswers(o2[i + 1..], players), AllAnswers(o1[1..], players));
    }
  }

  lemma MultisetMoveFront<T>(a: seq<T>, m: seq<T>, b: seq<T>, r: seq<T>)
    requires multiset(r) == multiset(a + b)
    ensures multiset(m + r) == multiset(a + (m + b))
  {
  }

  /**
   * A player's round points do not depend on the order in which the players'
   * keys were inserted (the iteration order of `Object.values(allAnswers)`).
   */
  lemma RoundPointsIgnoreKeyOrder(g: State, order: seq<Sid>, sid: Sid)
    requires KeysAgree(g) && sid in g.players
    requires NoDup(order) && forall s :: s in order <==> s in g.players
    ensures RoundPoints(g.(keyOrder := order), sid) == RoundPoints(g, sid)
  {
    AllAnswersPermutation(order, g.keyOrder, g.players);
    PointsIgnoreSubmissionOrder(g.players[sid].answers, AllAnswers(order, g.players),
                                AllAnswers(g.keyOrder, g.players), g.currentLetter);
  }
}
