/** A game session as a sequence of events: clicks on tiles, the hide
    timer firing, and restarts. Every reachable state keeps the board
    invariant, the score-and-error balance, and a paired deck. */
module Session {
  import opened Cards
  import opened Shuffle
  import opened Game

  /** An input to the game: a click on a tile, the hide timer firing, or a
      restart with the draws its shuffle makes. */
  datatype Event = ClickAt(pos: nat) | TimerFires | RestartWith(swaps: seq<nat>)

  /** Whether event e can occur in state s: clicks come from board tiles,
      the timer fires only while it is pending, and restart is offered
      only while input is unlocked (the restart button is disabled
      otherwise, and the game-over message appears only in play). */
  predicate Enabled(s: GameState, e: Event)
  {
    match e
    case ClickAt(p) => p < |s.deck|
    case TimerFires => HidePending(s)
    case RestartWith(js) => s.ready && ValidSwaps(js, |s.deck|)
  }

  /** The effect of one event. Between restarts the score never rises and
      the error count and the matched pairs never fall. */
  function Step(s: GameState, e: Event): (t: GameState)
    requires WellFormed(s) && Enabled(s, e)
    ensures WellFormed(t) && |t.deck| == |s.deck|
    ensures !e.RestartWith? ==> t.score <= s.score && t.errorCount >= s.errorCount
    ensures !e.RestartWith? ==> t.matchedPairs >= s.matchedPairs
  {
    match e
    case ClickAt(p) => Click(s, p).state
    case TimerFires => Hide(s)
    case RestartWith(js) => Restart(s, js)
  }

  /** The state after the events es, or None if one of them could not occur. */
  function Run(s: GameState, es: seq<Event>): (r: Option<GameState>)
    requires WellFormed(s)
    ensures r.Some? ==> WellFormed(r.value) && |r.value.deck| == |s.deck|
    decreases |es|
  {
    if |es| == 0 then Some(s)
    else if !Enabled(s, es[0]) then None
    else Run(Step(s, es[0]), es[1..])
  }

  /** The board invariant, and a deck that is a rearrangement of the
      set-up deck of the catalog. */
  ghost predicate SessionInv(names: seq<string>, s: GameState)
  {
    Inv(s) && multiset(s.deck) == multiset(SetupCards(names))
  }

  /** The states some run of a game with the catalog names can reach. */
  ghost predicate Reachable(names: seq<string>, t: GameState)
  {
    exists js, es :: ValidSwaps(js, 2 * |names|) && Run(NewGame(names, js), es) == Some(t)
  }

  /** A new game satisfies the session invariant. */
  lemma NewGameSessionInv(names: seq<string>, js: seq<nat>)
    requires ValidSwaps(js, 2 * |names|)
    ensures SessionInv(names, NewGame(names, js))
  {
    NewGameInv(names, js);
  }

  /** Every event that can occur keeps the session invariant. */
  lemma StepInv(names: seq<string>, s: GameState, e: Event)
    requires SessionInv(names, s) && Enabled(s, e)
    ensures SessionInv(names, Step(s, e))
  {
    match e
    case ClickAt(p) => ClickInv(s, p);
    case TimerFires => HideInv(s);
    case RestartWith(js) => RestartInv(s, js);
  }

  /** Every run keeps the session invariant. */
  lemma {:induction false} RunInv(names: seq<string>, s: GameState, es: seq<Event>)
    requires SessionInv(names, s)
    ensures Run(s, es).Some? ==> SessionInv(names, Run(s, es).value)
    decreases |es|
  {
    if |es| > 0 && Enabled(s, es[0]) {
      StepInv(names, s, es[0]);
      RunInv(names, Step(s, es[0]), es[1..]);
    }
  }

  /** What holds in every reachable state: score and error count always sum
      to the initial score with no negative error count; the deck is a
      rearrangement of the set-up deck, so every card is on the board
      exactly twice; at most half the board is matched; while input is
      unlocked the face-up tiles are the matched pairs plus the current
      selections; and two selected tiles hold different cards. */
  lemma ReachableProperties(names: seq<string>, t: GameState)
    requires Reachable(names, t)
    ensures t.score + t.errorCount == InitialScore && t.errorCount >= 0
    ensures |t.deck| == 2 * |names| && multiset(t.deck) == multiset(SetupCards(names))
    ensures Paired(t.deck)
    ensures 0 <= t.matchedPairs <= |t.deck| / 2
    ensures t.ready ==> CountUp(t.shown) == 2 * t.matchedPairs + NumSelected(t)
    ensures t.second.Some? ==>
              && t.first.Some?
              && t.deck[t.first.value].face != t.deck[t.second.value].face
  {
    var js, es :| ValidSwaps(js, 2 * |names|) && Run(NewGame(names, js), es) == Some(t);
    NewGameSessionInv(names, js);
    RunInv(names, NewGame(names, js), es);
    MatchedBound(t);
    SetupPaired(names);
    PairedPermutation(SetupCards(names), t.deck);
  }

  /** While input is unlocked, a face-up tile outside the current turn (a
      tile of a matched pair) stays face up under every event but restart. */
  lemma MatchedStayUp(s: GameState, e: Event)
    requires Inv(s) && s.ready && Enabled(s, e) && !e.RestartWith?
    ensures forall i ::
              (0 <= i < |s.deck| && s.shown[i] != Back && s.first != Some(i) && s.second != Some(i))
              ==> Step(s, e).shown[i] != Back
  {
  }

  /** In every reachable state, a second pick matches the first exactly
      when the two tiles hold the same card, the same catalog entry. */
  lemma ReachableMatchIsSameCard(names: seq<string>, t: GameState, p: nat)
    requires Reachable(names, t) && p < |t.deck| && Accepts(t, p) && t.first.Some?
    ensures MatchesFirst(t, p) <==> t.deck[t.first.value] == t.deck[p]
  {
    var js, es :| ValidSwaps(js, 2 * |names|) && Run(NewGame(names, js), es) == Some(t);
    NewGameSessionInv(names, js);
    RunInv(names, NewGame(names, js), es);
    MatchIsSameFace(t, p);
    DeckFaces(names, t.deck, t.first.value, p);
  }

  /** The game together with the two pieces of window state that decide
      which events can occur: whether the one-shot hide timer is running,
      and whether the restart button is enabled. */
  datatype Window = Window(game: GameState, timerRunning: bool, restartEnabled: bool)

  /** A new window: the timer started, the restart button disabled. */
  function NewWindow(names: seq<string>, js: seq<nat>): (w: Window)
    requires ValidSwaps(js, 2 * |names|)
    ensures w.game == NewGame(names, js)
    ensures w.timerRunning && !w.restartEnabled
  {
    Window(NewGame(names, js), true, false)
  }

  /** Which events the window delivers: clicks on its tiles, the timer
      while it runs, and restart while the button is enabled. */
  predicate WindowEnabled(w: Window, e: Event)
  {
    match e
    case ClickAt(p) => p < |w.game.deck|
    case TimerFires => w.timerRunning
    case RestartWith(js) => w.restartEnabled && ValidSwaps(js, |w.game.deck|)
  }

  /** One event with its effect on the timer and the button: a mismatch
      starts the timer (starting a running timer changes nothing), firing
      stops it and, unless it hid a mismatch, enables the button; restart
      disables the button and starts the timer. */
  function WindowStep(w: Window, e: Event): (v: Window)
    requires WellFormed(w.game) && WindowEnabled(w, e)
    ensures WellFormed(v.game)
  {
    var s := w.game;
    match e
    case ClickAt(p) =>
      var mismatch := Accepts(s, p) && s.first.Some? && !MatchesFirst(s, p);
      Window(Click(s, p).state, w.timerRunning || mismatch, w.restartEnabled)
    case TimerFires =>
      var unlocks := !(s.ready && s.first.Some? && s.second.Some?);
      Window(Hide(s), false, w.restartEnabled || unlocks)
    case RestartWith(js) =>
      Window(Restart(s, js), true, false)
  }

  /** The window's timer runs exactly while the hide timer is pending, and
      its button is enabled exactly while input is unlocked. */
  predicate Synced(w: Window)
  {
    w.timerRunning == HidePending(w.game) && w.restartEnabled == w.game.ready
  }

  /** A new window is in step with its game. */
  lemma NewWindowSynced(names: seq<string>, js: seq<nat>)
    requires ValidSwaps(js, 2 * |names|)
    ensures Synced(NewWindow(names, js))
  {
  }

  /** In a window in step with its game, the window delivers exactly the
      events Enabled allows, each has the effect Step gives it, and the
      window stays in step. */
  lemma WindowStepSynced(w: Window, e: Event)
    requires Inv(w.game) && Synced(w)
    ensures WindowEnabled(w, e) <==> Enabled(w.game, e)
    ensures WindowEnabled(w, e) ==>
              WindowStep(w, e).game == Step(w.game, e) && Synced(WindowStep(w, e))
  {
  }

  /** The window after the events es, or None if one of them could not occur. */
  function WindowRun(w: Window, es: seq<Event>): (r: Option<Window>)
    requires WellFormed(w.game)
    ensures r.Some? ==> WellFormed(r.value.game)
    decreases |es|
  {
    if |es| == 0 then Some(w)
    else if !WindowEnabled(w, es[0]) then None
    else WindowRun(WindowStep(w, es[0]), es[1..])
  }

  /** Runs of the window and runs of the game agree event for event: the
      same event sequences can occur, with the same resulting game. */
  lemma {:induction false} WindowRunAgrees(names: seq<string>, w: Window, es: seq<Event>)
    requires SessionInv(names, w.game) && Synced(w)
    ensures WindowRun(w, es).Some? <==> Run(w.game, es).Some?
    ensures WindowRun(w, es).Some? ==> WindowRun(w, es).value.game == Run(w.game, es).value
    decreases |es|
  {
    if |es| > 0 {
      WindowStepSynced(w, es[0]);
      if Enabled(w.game, es[0]) {
        StepInv(names, w.game, es[0]);
        WindowRunAgrees(names, WindowStep(w, es[0]), es[1..]);
      }
    }
  }
}
