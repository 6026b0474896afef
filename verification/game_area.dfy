/**
 * The decisions the game area makes from the game state: which screen it
 * renders, the plural of a count, the wrong-guess feedback, and the winner,
 * tie and leaderboard of the game-over screen.  Everything is computed from
 * the props and the two pieces of component state (`sortedPlayers`,
 * `showWrongGuess`).
 */
module GameArea {
  import opened Wrappers
  import opened Players

  /** The screens the component can render. */
  datatype Screen = Lobby | GameStartCountdown | Round | RoundResults | GameOver | Spinner

  /**
   * The chain of early returns: `status` is `gameState.status`,
   * `countdownType` is `countdown?.type` (`None` when there is no countdown),
   * `hasRoundResult` and `gameOver` are the truthiness of those props.
   */
  function SelectScreen(status: string, countdownType: Option<string>, hasRoundResult: bool, gameOver: bool): (screen: Screen)
    ensures screen == Lobby <==> status == "waiting"
    ensures screen == GameStartCountdown <==> status == "starting" && countdownType == Some("gameStart")
    ensures screen == Round <==> status == "playing"
    ensures screen == RoundResults <==> status == "intermission" && hasRoundResult
    ensures screen == GameOver <==>
      && status != "waiting" && status != "playing"
      && !(status == "starting" && countdownType == Some("gameStart"))
      && !(status == "intermission" && hasRoundResult)
      && (status == "finished" || gameOver)
  {
    if status == "waiting" then Lobby
    else if status == "starting" && countdownType == Some("gameStart") then GameStartCountdown
    else if status == "playing" then Round
    else if status == "intermission" && hasRoundResult then RoundResults
    else if status == "finished" || gameOver then GameOver
    else Spinner
  }

  /** The spinner shows exactly when no other screen applies; and the game-over
      flag never hides the lobby or a running round. */
  lemma SpinnerIsTheFallback(status: string, countdownType: Option<string>, hasRoundResult: bool, gameOver: bool)
    ensures SelectScreen(status, countdownType, hasRoundResult, gameOver) == Spinner <==>
      && status !in {"waiting", "playing", "finished"}
      && !(status == "starting" && countdownType == Some("gameStart"))
      && !(status == "intermission" && hasRoundResult)
      && !gameOver
    ensures status == "waiting" ==> SelectScreen(status, countdownType, hasRoundResult, true) == Lobby
    ensures status == "playing" ==> SelectScreen(status, countdownType, hasRoundResult, true) == Round
  {
  }

  /** `count !== 1 ? "s" : ""` after "player". */
  function PlayerNoun(count: int): (noun: string)
    ensures noun == "players" <==> count != 1
    ensures noun == "player" <==> count == 1
  {
    "player" + if count != 1 then "s" else ""
  }

  // ---------------------------------------------------------------------
  // Guess feedback

  /** `guessResult`: `correct` is `None` when the field is missing. */
  datatype GuessResult = GuessResult(correct: Option<bool>, score: int)

  /** `guessResult && guessResult.correct === false`. */
  predicate IsWrong(result: Option<GuessResult>)
  {
    result.Some? && result.value.correct == Some(false)
  }

  /** `guessResult?.correct` is truthy. */
  predicate IsCorrect(result: Option<GuessResult>)
  {
    result.Some? && result.value.correct == Some(true)
  }

  /** `showWrongGuess && !guessResult?.correct`. */
  predicate ShowsWrongBanner(showWrongGuess: bool, result: Option<GuessResult>)
  {
    showWrongGuess && !IsCorrect(result)
  }

  /** `disabled={guessResult?.correct}` on the input and the send button. */
  predicate InputDisabled(result: Option<GuessResult>)
  {
    IsCorrect(result)
  }

  /** The state the wrong-guess effect works on: the current `guessResult`,
      `showWrongGuess`, whether the effect's 1.5 s hide timer is pending,
      and the guess input. */
  datatype Feedback = Feedback(result: Option<GuessResult>, show: bool, timerPending: bool, input: string)

  /** What can happen to it: the parent passes a new `guessResult`, or the
      pending timer fires. */
  datatype FeedbackEvent = NewResult(result: Option<GuessResult>) | TimerFires

  const InitialFeedback := Feedback(None, false, false, "")

  /**
   * The effect as written.  A new result first runs the previous run's
   * cleanup, which only cancels the pending timer; then, on a wrong result,
   * the banner is shown, the input cleared and a new timer started.  Any
   * other result leaves `showWrongGuess` as it was.
   */
  function Step(f: Feedback, e: FeedbackEvent): (g: Feedback)
    ensures TimerOwned(f) ==> TimerOwned(g)
    ensures e.NewResult? ==> g.result == e.result && (IsWrong(g.result) <==> g.timerPending)
  {
    match e
    case NewResult(r) =>
      if IsWrong(r) then Feedback(r, true, true, "") else Feedback(r, f.show, false, f.input)
    case TimerFires =>
      if f.timerPending then f.(show := false, timerPending := false) else f
  }

  function Run(f: Feedback, events: seq<FeedbackEvent>): Feedback
    decreases |events|
  {
    if |events| == 0 then f else Run(Step(f, events[0]), events[1..])
  }

  /** A pending timer belongs to a wrong result that shows the banner. */
  ghost predicate TimerOwned(f: Feedback)
  {
    f.timerPending ==> f.show && IsWrong(f.result)
  }

  /** A wrong result shows the wrong-guess banner and empties the input, and
      the timer then hides it; a correct result never shows it, so it never
      shows together with "Correct!"; any other result keeps the banner flag
      and the input.  Whenever the banner is up the input is enabled.  Every
      step keeps a pending timer owned by a wrong result. */
  lemma WrongGuessFeedback(f: Feedback, r: Option<GuessResult>)
    ensures IsWrong(r) ==>
      && Step(f, NewResult(r)).input == ""
      && ShowsWrongBanner(Step(f, NewResult(r)).show, r)
      && !ShowsWrongBanner(Step(Step(f, NewResult(r)), TimerFires).show, r)
    ensures IsCorrect(r) ==> !ShowsWrongBanner(Step(f, NewResult(r)).show, r)
    ensures !IsWrong(r) ==>
      Step(f, NewResult(r)).show == f.show && Step(f, NewResult(r)).input == f.input
    ensures ShowsWrongBanner(f.show, f.result) ==> !InputDisabled(f.result)
    ensures TimerOwned(f) ==> TimerOwned(Step(f, NewResult(r))) && TimerOwned(Step(f, TimerFires))
  {
  }

  /**
   * As written, the banner can outlive its wrong guess: a wrong guess, then
   * a correct one before the timer fires, then the next round's reset of the
   * result to `null` leaves "Wrong guess, try again!" on screen with no
   * wrong guess in effect and no timer left to hide it.
   */
  lemma {:induction false} StaleWrongBanner()
    ensures var wrong, right := Some(GuessResult(Some(false), 0)), Some(GuessResult(Some(true), 100));
      var f := Run(InitialFeedback, [NewResult(wrong), NewResult(right), NewResult(None)]);
      && f.result == None && !IsWrong(f.result)
      && ShowsWrongBanner(f.show, f.result)
      && ShowsWrongBanner(Step(f, TimerFires).show, f.result)
  {
    var wrong, right := Some(GuessResult(Some(false), 0)), Some(GuessResult(Some(true), 100));
    var f1 := Step(InitialFeedback, NewResult(wrong));
    var f2 := Step(f1, NewResult(right));
    var f3 := Step(f2, NewResult(None));
    assert f3 == Feedback(None, true, false, "");
    assert Run(f3, []) == f3;
    assert Run(f2, [NewResult(None)]) == f3;
    assert Run(f1, [NewResult(right), NewResult(None)]) == f3;
  }

  /** The effect with a cleanup that also hides the banner
      (`clearTimeout(timeout); setShowWrongGuess(false)`). */
  function StepHiding(f: Feedback, e: FeedbackEvent): (g: Feedback)
    ensures BannerOwned(f) ==> BannerOwned(g)
    ensures e.NewResult? ==> g.result == e.result && (IsWrong(g.result) <==> g.show)
  {
    match e
    case NewResult(r) =>
      if IsWrong(r) then Feedback(r, true, true, "") else Feedback(r, false, false, f.input)
    case TimerFires =>
      if f.timerPending then f.(show := false, timerPending := false) else f
  }

  function RunHiding(f: Feedback, events: seq<FeedbackEvent>): Feedback
    decreases |events|
  {
    if |events| == 0 then f else RunHiding(StepHiding(f, events[0]), events[1..])
  }

  /** The banner is up only for the wrong result in effect, and a pending
      timer will hide it. */
  ghost predicate BannerOwned(f: Feedback)
  {
    f.show ==> f.timerPending && IsWrong(f.result)
  }

  /** With the hiding cleanup, from the initial state and after any sequence
      of results and timer firings, the wrong-guess banner shows only while
      the current result is a wrong guess, with its timer pending. */
  lemma {:induction false} BannerOnlyForWrongResult(f: Feedback, events: seq<FeedbackEvent>)
    requires BannerOwned(f)
    ensures BannerOwned(RunHiding(f, events))
    ensures ShowsWrongBanner(RunHiding(f, events).show, RunHiding(f, events).result) ==>
      IsWrong(RunHiding(f, events).result) && RunHiding(f, events).timerPending
    decreases |events|
  {
    if |events| > 0 {
      BannerOnlyForWrongResult(StepHiding(f, events[0]), events[1..]);
    }
  }

  lemma InitialBannerOwned()
    ensures BannerOwned(InitialFeedback) && TimerOwned(InitialFeedback)
    ensures !ShowsWrongBanner(InitialFeedback.show, InitialFeedback.result)
  {
  }

  // ---------------------------------------------------------------------
  // Game over

  /** `sortedPlayers[0]?.score`. */
  function TopScore(sorted: seq<Player>): Option<int>
  {
    if |sorted| == 0 then None else Some(sorted[0].score)
  }

  /** `sorted.filter(p => p.score === top)`. */
  function FilterScore(sorted: seq<Player>, top: Option<int>): seq<Player>
  {
    if top.None? then [] else WithScore(sorted, top.value)
  }

  function TopScorers(sorted: seq<Player>): seq<Player>
  {
    FilterScore(sorted, TopScore(sorted))
  }

  /** `topScorers.some(p => p.username === username)`. */
  predicate IsWinner(topScorers: seq<Player>, username: string)
  {
    exists i :: 0 <= i < |topScorers| && topScorers[i].username == username
  }

  /** `names.join(", ")`. */
  function Join(names: seq<string>, sep: string): string
  {
    if |names| == 0 then ""
    else if |names| == 1 then names[0]
    else names[0] + sep + Join(names[1..], sep)
  }

  function Usernames(ps: seq<Player>): (names: seq<string>)
    ensures |names| == |ps| && forall i :: 0 <= i < |ps| ==> names[i] == ps[i].username
  {
    seq(|ps|, i requires 0 <= i < |ps| => ps[i].username)
  }

  /** The banner of the game-over screen. */
  datatype Banner = YouWin | Wins(name: string) | Tie(names: string)

  function GameOverBanner(sorted: seq<Player>, username: string): (banner: Banner)
    ensures !banner.Tie? <==> |TopScorers(sorted)| == 1
    ensures banner.YouWin? <==> |TopScorers(sorted)| == 1 && IsWinner(TopScorers(sorted), username)
    ensures banner.Wins? ==> banner.name == TopScorers(sorted)[0].username && banner.name != username
  {
    var scorers := TopScorers(sorted);
    if |scorers| == 1 then
      if IsWinner(scorers, username) then YouWin else Wins(scorers[0].username)
    else Tie(Join(Usernames(scorers), ", "))
  }

  /** The highest score among `players`. */
  ghost predicate IsMaxScore(players: seq<Player>, m: int)
  {
    (exists i :: 0 <= i < |players| && players[i].score == m)
    && forall i :: 0 <= i < |players| ==> players[i].score <= m
  }

  lemma WithScoreMembers(s: seq<Player>, k: int, p: Player)
    ensures p in WithScore(s, k) <==> p in s && p.score == k
  {
  }

  /** On the sorted list, the top score is the highest score of the players. */
  lemma TopScoreIsMaximum(players: seq<Player>)
    requires |players| > 0
    ensures TopScore(SortByScore(players)).Some?
    ensures IsMaxScore(players, TopScore(SortByScore(players)).value)
  {
    var sorted := SortByScore(players);
    SortPermutes(players);
    SortOrders(players);
    assert sorted[0] in multiset(players);
    forall i | 0 <= i < |players|
      ensures players[i].score <= sorted[0].score
    {
      assert players[i] in multiset(sorted);
      var j :| 0 <= j < |sorted| && sorted[j] == players[i];
    }
  }

  /** The top scorers are exactly the players with the highest score, in
      their input order, and there is at least one when there are players. */
  lemma TopScorersAreTheLeaders(players: seq<Player>)
    requires |players| > 0
    ensures var m := TopScore(SortByScore(players)).value;
      && TopScorers(SortByScore(players)) == WithScore(players, m)
      && |TopScorers(SortByScore(players))| >= 1
  {
    TopScoreIsMaximum(players);
    var sorted := SortByScore(players);
    var m := TopScore(sorted).value;
    SortIsStable(players, m);
    SortPermutes(players);
    assert sorted[0] in multiset(sorted);
    WithScoreMembers(sorted, m, sorted[0]);
  }

  /** A single winner is announced exactly when one player has the highest
      score; that winner is "You" exactly when it is the current user;
      otherwise the tie names every player with the highest score, in input
      order.  With no players the tie branch is taken with an empty list. */
  lemma WinnerOrTie(players: seq<Player>, username: string)
    ensures |players| == 0 ==> GameOverBanner(SortByScore(players), username) == Tie("")
    ensures |players| > 0 ==>
      var m := TopScore(SortByScore(players)).value;
      var leaders := WithScore(players, m);
      && IsMaxScore(players, m)
      && (GameOverBanner(SortByScore(players), username).Tie? <==> |leaders| != 1)
      && (|leaders| == 1 ==>
            GameOverBanner(SortByScore(players), username) ==
            (if leaders[0].username == username then YouWin else Wins(leaders[0].username)))
      && (|leaders| != 1 ==>
            GameOverBanner(SortByScore(players), username) == Tie(Join(Usernames(leaders), ", ")))
  {
    if |players| > 0 {
      TopScorersAreTheLeaders(players);
      TopScoreIsMaximum(players);
    }
  }

  /** `isWinner` holds exactly when some player with the highest score has
      the current user's name. */
  lemma WinnerIsALeader(players: seq<Player>, username: string)
    requires |players| > 0
    ensures var m := TopScore(SortByScore(players)).value;
      IsWinner(TopScorers(SortByScore(players)), username) <==>
        exists i :: 0 <= i < |players| && players[i].score == m && players[i].username == username
  {
    TopScorersAreTheLeaders(players);
    var m := TopScore(SortByScore(players)).value;
    var leaders := WithScore(players, m);
    if IsWinner(leaders, username) {
      var i :| 0 <= i < |leaders| && leaders[i].username == username;
      WithScoreMembers(players, m, leaders[i]);
      var j :| 0 <= j < |players| && players[j] == leaders[i];
    }
    if exists i :: 0 <= i < |players| && players[i].score == m && players[i].username == username {
      var i :| 0 <= i < |players| && players[i].score == m && players[i].username == username;
      WithScoreMembers(players, m, players[i]);
      var j :| 0 <= j < |leaders| && leaders[j] == players[i];
    }
  }

  // ---------------------------------------------------------------------
  // Leaderboard

  datatype LeaderRow = LeaderRow(rank: int, username: string, you: bool, score: int)

  /** `players.map((player, index) => ...)` in the leaderboard table. */
  function LeaderboardRows(players: seq<Player>, username: string): (rows: seq<LeaderRow>)
    ensures |rows| == |players|
    ensures forall i :: 0 <= i < |rows| ==>
      && rows[i].rank == i + 1
      && rows[i].username == players[i].username && rows[i].score == players[i].score
      && (rows[i].you <==> players[i].username == username)
  {
    seq(|players|, i requires 0 <= i < |players| =>
      LeaderRow(i + 1, players[i].username, players[i].username == username, players[i].score))
  }

  /** Row i shows rank i + 1 and player i, marked "(You)" exactly when it is
      the current user; on the sorted list, a better rank never has a lower
      score, and every player has a row. */
  lemma LeaderboardRanks(players: seq<Player>, username: string)
    ensures var rows := LeaderboardRows(SortByScore(players), username);
      && |rows| == |players|
      && (forall i :: 0 <= i < |rows| ==> rows[i].rank == i + 1)
      && (forall i :: 0 <= i < |rows| ==> (rows[i].you <==> rows[i].username == username))
      && (forall i, j :: 0 <= i < j < |rows| ==> rows[i].rank < rows[j].rank && rows[i].score >= rows[j].score)
      && (forall p :: p in players ==>
            exists i :: 0 <= i < |rows| && rows[i].username == p.username && rows[i].score == p.score)
  {
    var sorted := SortByScore(players);
    SortPermutes(players);
    SortOrders(players);
    var rows := LeaderboardRows(sorted, username);
    forall p | p in players
      ensures exists i :: 0 <= i < |rows| && rows[i].username == p.username && rows[i].score == p.score
    {
      assert p in multiset(sorted);
      var i :| 0 <= i < |sorted| && sorted[i] == p;
      assert rows[i].username == p.username && rows[i].score == p.score;
    }
  }
}
