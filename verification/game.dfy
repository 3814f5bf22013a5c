/** The board state machine of the memory game: the tiles and what they
    show, the two selections of the current turn, the counters, and the
    three transitions — a click on a tile, the hide timer firing, and a
    restart. */
module Game {
  import opened Cards
  import opened Shuffle

  datatype Option<+T> = None | Some(value: T)

  /** What a tile shows: the card back, or a card face. A tile is face
      down exactly when it shows the back. */
  datatype Icon = Back | Face(face: nat)

  /** The state of one game. Tile i holds deck[i] and shows shown[i];
      first and second are the tiles selected in the current turn, by
      board position. */
  datatype GameState = GameState(
    deck: seq<Card>,
    shown: seq<Icon>,
    first: Option<nat>,
    second: Option<nat>,
    errorCount: int,
    matchedPairs: int,
    score: int,
    ready: bool)

  /** The state after a click, and whether the click completed the game
      (the moment the game-over message is shown). */
  datatype ClickResult = ClickResult(state: GameState, completed: bool)

  /** The score a game starts with. */
  const InitialScore: int := 100

  /** One shown icon per tile, and both selections on the board. */
  predicate WellFormed(s: GameState)
  {
    && |s.shown| == |s.deck|
    && (s.first.Some? ==> s.first.value < |s.deck|)
    && (s.second.Some? ==> s.second.value < |s.deck|)
  }

  /** Every tile showing its own card. */
  function FacesOf(deck: seq<Card>): (shown: seq<Icon>)
    ensures |shown| == |deck|
    ensures forall i :: 0 <= i < |deck| ==> shown[i] == Face(deck[i].face)
  {
    seq(|deck|, i requires 0 <= i < |deck| => Face(deck[i].face))
  }

  /** Every tile showing the back. */
  function AllBack(n: nat): (shown: seq<Icon>)
    ensures |shown| == n
    ensures forall i :: 0 <= i < n ==> shown[i] == Back
  {
    seq(n, _ => Back)
  }

  function Up(icon: Icon): nat
  {
    if icon != Back then 1 else 0
  }

  /** The number of face-up tiles. */
  function CountUp(shown: seq<Icon>): (n: nat)
    ensures n <= |shown|
  {
    if |shown| == 0 then 0 else Up(shown[0]) + CountUp(shown[1..])
  }

  /** The number of tiles selected in the current turn. */
  function NumSelected(s: GameState): nat
  {
    (if s.first.Some? then 1 else 0) + (if s.second.Some? then 1 else 0)
  }

  /** A new game: the set-up deck, shuffled with the draws js, every tile
      showing its card, input locked until the hide timer first fires. */
  function NewGame(names: seq<string>, js: seq<nat>): (s: GameState)
    requires ValidSwaps(js, 2 * |names|)
    ensures WellFormed(s) && |s.deck| == 2 * |names|
    ensures multiset(s.deck) == multiset(SetupCards(names))
    ensures forall i :: 0 <= i < |s.deck| ==> s.shown[i] == Face(s.deck[i].face)
    ensures !s.ready && s.first == None && s.second == None
    ensures s.errorCount == 0 && s.matchedPairs == 0 && s.score == InitialScore
  {
    var deck := ShuffleCards(SetupCards(names), js);
    GameState(deck, FacesOf(deck), None, None, 0, 0, InitialScore, false)
  }

  /** A click on tile p takes effect only when input is unlocked, the tile
      is face down, and the turn does not already hold two tiles. */
  predicate Accepts(s: GameState, p: nat)
    requires WellFormed(s) && p < |s.deck|
  {
    s.ready && s.shown[p] == Back && (s.first.None? || s.second.None?)
  }

  /** Whether the second selection p matches the first: after p is turned
      up, the two selected tiles show the same icon. */
  predicate MatchesFirst(s: GameState, p: nat)
    requires WellFormed(s) && p < |s.deck| && s.first.Some?
  {
    s.shown[p := Face(s.deck[p].face)][s.first.value] == Face(s.deck[p].face)
  }

  /** A click on tile p. */
  function Click(s: GameState, p: nat): (r: ClickResult)
    requires WellFormed(s) && p < |s.deck|
    ensures WellFormed(r.state)
    ensures r.state.deck == s.deck && r.state.ready == s.ready
    // A click that is not accepted changes nothing.
    ensures !Accepts(s, p) ==> r == ClickResult(s, false)
    // An accepted click turns tile p up, showing its card, and no other tile changes.
    ensures Accepts(s, p) ==> r.state.shown == s.shown[p := Face(s.deck[p].face)]
    // The first selection of a turn: counters unchanged.
    ensures Accepts(s, p) && s.first.None? ==>
              && r.state.first == Some(p) && r.state.second == s.second
              && r.state.errorCount == s.errorCount && r.state.score == s.score
              && r.state.matchedPairs == s.matchedPairs && !r.completed
    // A second selection that matches: the turn is cleared, one more pair.
    ensures Accepts(s, p) && s.first.Some? && MatchesFirst(s, p) ==>
              && r.state.first == None && r.state.second == None
              && r.state.matchedPairs == s.matchedPairs + 1
              && r.state.errorCount == s.errorCount && r.state.score == s.score
              && (r.completed <==> r.state.matchedPairs == |s.deck| / 2)
    // A second selection that does not match: one more error, one point less,
    // both tiles stay selected until the hide timer fires.
    ensures Accepts(s, p) && s.first.Some? && !MatchesFirst(s, p) ==>
              && r.state.first == s.first && r.state.second == Some(p)
              && r.state.errorCount == s.errorCount + 1 && r.state.score == s.score - 1
              && r.state.matchedPairs == s.matchedPairs && !r.completed
  {
    if !s.ready || s.shown[p] != Back then ClickResult(s, false)
    else if s.first.None? then
      ClickResult(s.(shown := s.shown[p := Face(s.deck[p].face)], first := Some(p)), false)
    else if s.second.None? then
      var shown := s.shown[p := Face(s.deck[p].face)];
      if shown[s.first.value] != shown[p] then
        ClickResult(s.(shown := shown, second := Some(p),
                       errorCount := s.errorCount + 1, score := s.score - 1), false)
      else
        var pairs := s.matchedPairs + 1;
        ClickResult(s.(shown := shown, first := None, second := None, matchedPairs := pairs),
                    pairs == |s.deck| / 2)
    else ClickResult(s, false)
  }

  /** The hide timer firing. */
  function Hide(s: GameState): (t: GameState)
    requires WellFormed(s)
    ensures WellFormed(t)
    ensures t.deck == s.deck
    ensures t.errorCount == s.errorCount && t.score == s.score && t.matchedPairs == s.matchedPairs
    // A pending mismatch: exactly its two tiles turn face down and the turn is cleared.
    ensures s.ready && s.first.Some? && s.second.Some? ==>
              && t.ready && t.first == None && t.second == None
              && forall i :: 0 <= i < |t.shown| ==>
                   t.shown[i] == (if i == s.first.value || i == s.second.value then Back else s.shown[i])
    // Otherwise every tile turns face down and input is unlocked.
    ensures !(s.ready && s.first.Some? && s.second.Some?) ==>
              && t.ready && t.first == s.first && t.second == s.second
              && forall i :: 0 <= i < |t.shown| ==> t.shown[i] == Back
  {
    if s.ready && s.first.Some? && s.second.Some? then
      s.(shown := s.shown[s.first.value := Back][s.second.value := Back],
         first := None, second := None)
    else
      s.(shown := AllBack(|s.shown|), ready := true)
  }

  /** Restart: reshuffle the deck with the draws js, reset the turn and
      the counters, show every tile's card and lock input until the hide
      timer fires. */
  function Restart(s: GameState, js: seq<nat>): (t: GameState)
    requires ValidSwaps(js, |s.deck|)
    ensures WellFormed(t)
    ensures !t.ready && t.first == None && t.second == None
    ensures t.matchedPairs == 0 && t.errorCount == 0 && t.score == InitialScore
    ensures |t.deck| == |s.deck| && multiset(t.deck) == multiset(s.deck)
    ensures forall i :: 0 <= i < |t.deck| ==> t.shown[i] == Face(t.deck[i].face)
  {
    var deck := ShuffleCards(s.deck, js);
    s.(ready := false, first := None, second := None, matchedPairs := 0,
       deck := deck, errorCount := 0, score := InitialScore, shown := FacesOf(deck))
  }

  /** Whether the hide timer is pending. It is started when a game begins
      or restarts (input locked) and on a mismatch (two tiles selected),
      and firing stops it; so it is pending exactly in these states. */
  predicate HidePending(s: GameState)
  {
    !s.ready || (s.first.Some? && s.second.Some?)
  }

  /** The invariant of every reachable state. */
  ghost predicate Inv(s: GameState)
  {
    && WellFormed(s)
    && |s.deck| % 2 == 0
    // Every tile shows the back or its own card.
    && (forall i :: 0 <= i < |s.shown| ==> s.shown[i] == Back || s.shown[i] == Face(s.deck[i].face))
    && s.score + s.errorCount == InitialScore && s.errorCount >= 0
    && s.matchedPairs >= 0
    && (s.second.Some? ==> s.first.Some?)
    // While input is locked no turn is in progress and nothing is matched.
    && (!s.ready ==> s.first.None? && s.matchedPairs == 0)
    && (s.ready ==>
          // The face-up tiles are the matched pairs and the current selections.
          && CountUp(s.shown) == 2 * s.matchedPairs + NumSelected(s)
          && (s.first.Some? ==> s.shown[s.first.value] != Back)
          && (s.second.Some? ==>
                && s.shown[s.second.value] != Back
                && s.second.value != s.first.value
                && s.deck[s.first.value].face != s.deck[s.second.value].face))
  }

  /** Turning one tile changes the face-up count by the change at that tile. */
  lemma {:induction false} CountUpdate(shown: seq<Icon>, p: nat, v: Icon)
    requires p < |shown|
    ensures CountUp(shown[p := v]) == CountUp(shown) - Up(shown[p]) + Up(v)
  {
    if p == 0 {
      assert shown[p := v][1..] == shown[1..];
    } else {
      CountUpdate(shown[1..], p - 1, v);
      assert shown[p := v][1..] == shown[1..][p - 1 := v];
    }
  }

  /** All tiles are face up exactly when the face-up count is the board size. */
  lemma {:induction false} CountFull(shown: seq<Icon>)
    ensures CountUp(shown) == |shown| <==> forall i :: 0 <= i < |shown| ==> shown[i] != Back
  {
    if |shown| > 0 {
      CountFull(shown[1..]);
      if CountUp(shown) == |shown| {
        forall i | 0 <= i < |shown|
          ensures shown[i] != Back
        {
          if i > 0 {
            assert shown[i] == shown[1..][i - 1];
          }
        }
      }
      if forall i :: 0 <= i < |shown| ==> shown[i] != Back {
        forall i | 0 <= i < |shown| - 1
          ensures shown[1..][i] != Back
        {
          assert shown[1..][i] == shown[i + 1];
        }
      }
    }
  }

  /** No tile is face up when all show the back. */
  lemma {:induction false} CountAllBack(n: nat)
    ensures CountUp(AllBack(n)) == 0
  {
    if n > 0 {
      CountAllBack(n - 1);
      assert AllBack(n)[1..] == AllBack(n - 1);
    }
  }

  /** In a state of the invariant, a second selection matches the first
      exactly when the two tiles hold cards with the same face. */
  lemma MatchIsSameFace(s: GameState, p: nat)
    requires Inv(s) && p < |s.deck| && Accepts(s, p) && s.first.Some?
    ensures MatchesFirst(s, p) <==> s.deck[s.first.value].face == s.deck[p].face
    ensures s.first.value != p
  {
  }

  /** Matched pairs never exceed half the board. */
  lemma MatchedBound(s: GameState)
    requires Inv(s)
    ensures 0 <= s.matchedPairs <= |s.deck| / 2
  {
  }

  /** A new game satisfies the invariant. */
  lemma NewGameInv(names: seq<string>, js: seq<nat>)
    requires ValidSwaps(js, 2 * |names|)
    ensures Inv(NewGame(names, js))
  {
  }

  /** A restart establishes the invariant from any state with an even deck. */
  lemma RestartInv(s: GameState, js: seq<nat>)
    requires ValidSwaps(js, |s.deck|) && |s.deck| % 2 == 0
    ensures Inv(Restart(s, js))
  {
  }

  /** Every click keeps the invariant. */
  lemma ClickInv(s: GameState, p: nat)
    requires Inv(s) && p < |s.deck|
    ensures Inv(Click(s, p).state)
  {
    if Accepts(s, p) {
      var t := Click(s, p).state;
      CountUpdate(s.shown, p, Face(s.deck[p].face));
      if s.first.Some? {
        MatchIsSameFace(s, p);
      }
    }
  }

  /** The hide timer firing when it is pending keeps the invariant. */
  lemma HideInv(s: GameState)
    requires Inv(s) && HidePending(s)
    ensures Inv(Hide(s))
  {
    var t := Hide(s);
    if s.ready {
      var a, b := s.first.value, s.second.value;
      CountUpdate(s.shown, a, Back);
      CountUpdate(s.shown[a := Back], b, Back);
    } else {
      CountAllBack(|s.shown|);
    }
  }

  /** The click that completes the game leaves every tile face up and no
      turn in progress, so the hide timer is not pending and every later
      click is ignored: the game-over message is shown once per game. */
  lemma CompletionIsFinal(s: GameState, p: nat, q: nat)
    requires Inv(s) && p < |s.deck| && q < |s.deck|
    requires Click(s, p).completed
    ensures forall i :: 0 <= i < |s.deck| ==> Click(s, p).state.shown[i] != Back
    ensures !HidePending(Click(s, p).state)
    ensures Click(Click(s, p).state, q) == ClickResult(Click(s, p).state, false)
  {
    var t := Click(s, p).state;
    ClickInv(s, p);
    MatchedBound(s);
    assert CountUp(t.shown) == |t.shown|;
    CountFull(t.shown);
  }

  /** While input is unlocked, no turn is in progress and the game is not
      complete, some tile is face down, so the game can go on. */
  lemma CanContinue(s: GameState)
    requires Inv(s) && s.ready && s.first.None? && s.matchedPairs < |s.deck| / 2
    ensures exists p :: 0 <= p < |s.deck| && Accepts(s, p)
  {
    CountFull(s.shown);
    var p :| 0 <= p < |s.shown| && s.shown[p] == Back;
    assert Accepts(s, p);
  }
}
