# Memory game board: a Dafny model

This project models the game logic of a tile-matching memory game (the
`MatchCards` class). The deck is built from a fixed catalog of ten card
names, and every name occurs twice. The deck is shuffled onto a 4 × 5 board
of tiles. The player turns up two tiles per turn. A matching pair stays face
up. A mismatch costs one point, adds one error, and is turned face down again
when the hide timer fires. The game is complete when all pairs are matched.
A restart reshuffles the deck and resets the counters.

Modules, one per component:

- `Cards` (`cards.dfy`): the card record, the catalog, and the set-up deck. The set-up deck is the catalog's cards followed by the same list appended once more. It is paired: every card occurs exactly twice.
- `Shuffle` (`shuffle.dfy`): the swap shuffle. Position `i` is swapped with a drawn index `j` from the whole deck. The draws are a parameter. The shuffle keeps the multiset. Its possible results are exactly the rearrangements of the deck.
- `Game` (`game.dfy`): the state and the three transitions. The state holds the deck, what each tile shows, the two selections, the counters and the ready flag. The transitions are a click on a tile, the hide timer firing, and restart. This module also defines the board invariant and proves that the transitions keep it.
- `Session` (`session.dfy`): events and runs of events, and the properties of every reachable state. It also has a model of the window's timer flag and restart-button flag, with proofs that this model delivers exactly the events the session allows.

How the source's objects map onto plain data:

- A tile is its board position.
- What a tile shows is an `Icon`: either `Back` or `Face(n)`. "Face down" means the tile shows `Back`.
- The two copies of a catalog entry are one shared card with one image. A card's face is therefore identified by its catalog index. The match test compares the icons the two selected tiles show, as the source does.
- The hide timer firing is an explicit event. The timer is started when a game begins, on a restart and on a mismatch. It does not repeat. Starting it while it is already pending does nothing. So it is pending exactly when input is locked or two tiles are selected (`Game.HidePending`), and the model lets it fire only then.
- The game-over popup is the `completed` flag of a click.

## Behaviour worth noting

- The deck is the catalog followed by the catalog again, not pairs side by side.
- An empty catalog is not rejected.
- After a restart, every tile shows its card until the timer fires.
- Matched tiles are simply face-up tiles; there is no separate "matched" face state.
- A restart does not cancel a pending timer. That timer then fires against the new board with input locked, which hides every tile and unlocks input.
- The score has no floor.

## Model

| member | source | states |
|---|---|---|
| `Cards.CatalogCards` | MatchCards.java:136-146 | one card per catalog name, in catalog order; card `i` carries name `i` and a face of its own |
| `Cards.SetupCards` | MatchCards.java:136-147 | the deck has twice the catalog's length; positions `i` and `i + n` hold the same card, the one for catalog entry `i` |
| `Cards.SetupNames` | MatchCards.java:136-147 | read name by name, the deck is the catalog followed by the catalog |
| `Cards.CatalogCount` | MatchCards.java:138-146 | a card occurs once among the catalog's cards if it belongs to a catalog entry, and not at all otherwise |
| `Cards.SetupCount` | MatchCards.java:144-147 | every catalog entry's card occurs in the deck exactly twice, and no other card occurs |
| `Cards.SetupPaired` | MatchCards.java:147 | every card of the set-up deck occurs in it exactly twice |
| `Cards.PairedPermutation` | MatchCards.java:157-165 | any rearrangement of a paired deck is paired |
| `Cards.SetupFaces` | MatchCards.java:144-147 | two positions show the same face iff they hold the same card iff they are the same position or partners (`i` and `i + n`) |
| `Cards.DeckFaces` | MatchCards.java:144-147 | in any rearrangement of the set-up deck, two positions show the same face iff they hold the same card, and every card belongs to a catalog entry |
| `Cards.CardListDistinct` | MatchCards.java:21-24 | the ten catalog names are pairwise distinct |
| `Cards.CardListDeck` | MatchCards.java:21-28 | the game's deck of 20 cards fills the 4 × 5 grid; two of its cards have the same face iff they have the same name |
| `Shuffle.Swap` | MatchCards.java:160-163 | the two positions exchange their elements, every other position is unchanged, and the multiset is kept |
| `Shuffle.ShuffleFrom` | MatchCards.java:158-164 | the loop from any position on keeps the length and the multiset of the deck |
| `Shuffle.ShuffleCards` | MatchCards.java:157-165 | for any draws in `[0, n)`, the shuffled deck is a permutation of the deck |
| `Shuffle.ReachFrom` | MatchCards.java:157-165 | any rearrangement of the unshuffled rest is reached by some draws, each drawn at or after its own position |
| `Shuffle.ShuffleImage` | MatchCards.java:157-165 | `t` is a possible shuffle of `s` iff `t` is a rearrangement of `s` |
| `Game.NewGame` | MatchCards.java:63-89 | a new game: the deck is a rearrangement of the set-up deck; every tile shows its card; input is locked; no selection; errors 0, matched pairs 0, score 100 |
| `Game.Accepts` | MatchCards.java:171-179 | the click gate: a click takes effect only with input unlocked, the tile face down and at most one tile already selected |
| `Game.Click` | MatchCards.java:171-203 | the click is ignored when input is locked, the tile is face up, or two tiles are selected; otherwise tile `p` turns up and no other tile changes; a first pick selects `p`; a matching second pick clears both selections and adds one pair, with errors and score unchanged, and it completes the game iff the pairs reach half the deck; a mismatching second pick adds one error, takes one point, keeps both tiles selected, and leaves the pair count alone |
| `Game.Hide` | MatchCards.java:284-297 | with input unlocked and two tiles selected, exactly those two tiles turn face down and the selections clear; otherwise every tile turns face down and input unlocks, and the selections are untouched; the counters never change |
| `Game.Restart` | MatchCards.java:302-318 | input locked; both selections cleared; pairs 0, errors 0, score 100; the deck becomes a rearrangement of the previous deck; every tile shows its new card |
| `Game.HidePending` | MatchCards.java:123-130 | the one-shot hide timer is pending exactly while input is locked or two tiles are selected; `Session.WindowStepSynced` proves this agrees with the timer's own running flag |
| `Game.MatchIsSameFace` | MatchCards.java:186 | in an invariant state, the icon comparison of a second pick is true iff the two tiles' cards have the same face; the second pick is never the first tile |
| `Game.MatchedBound` | MatchCards.java:195-198 | matched pairs never exceed half the board |
| `Game.NewGameInv` | MatchCards.java:49-57 | the initial state satisfies the board invariant |
| `Game.RestartInv` | MatchCards.java:302-318 | restart establishes the board invariant from any state with an even deck |
| `Game.ClickInv` | MatchCards.java:171-203 | every click keeps the invariant. While input is unlocked, the face-up count is twice the pairs plus the selections; selected tiles are face up; a second selection implies a first with a different face; score plus errors is 100 |
| `Game.HideInv` | MatchCards.java:284-297 | the timer firing while it is pending keeps the invariant |
| `Game.CompletionIsFinal` | MatchCards.java:195-200 | after the completing click, every tile is face up, no timer is pending and every further click is ignored, so the game-over message is shown once per game |
| `Game.CanContinue` | MatchCards.java:171-179 | with input unlocked, no turn in progress and pairs left to find, some tile accepts a click |
| `Session.Enabled` | MatchCards.java:284-304 | the events that can occur: a click on a board tile, the timer firing while it is pending, and a restart while the restart button is enabled, which is exactly while input is unlocked |
| `Session.Run` | MatchCards.java:93-128 | the game after a sequence of events, or none if one of them cannot occur; the board stays well formed |
| `Session.Step` | MatchCards.java:93-128 | an event (click, timer, restart) keeps the board well formed; apart from restart, the score never rises and neither the error count nor the matched pairs ever fall |
| `Session.NewGameSessionInv` | MatchCards.java:63-65 | a new game's deck is a rearrangement of the set-up deck, and the invariant holds |
| `Session.StepInv` | MatchCards.java:93-128 | every event that can occur keeps the session invariant |
| `Session.RunInv` | MatchCards.java:93-128 | every run of events keeps the session invariant |
| `Session.ReachableProperties` | MatchCards.java:187-188 | in every reachable state: score plus errors is 100 and errors are non-negative (also set at lines 49-52 and 309-310); every card is on the board exactly twice; pairs are at most half the board; while input is unlocked, the face-up count is twice the pairs plus the selections; two selected tiles differ in face |
| `Session.MatchedStayUp` | MatchCards.java:191-196 | while input is unlocked, any event but restart leaves every face-up tile outside the current turn (a tile of a matched pair) face up |
| `Session.ReachableMatchIsSameCard` | MatchCards.java:186 | in every reachable state, the icon comparison of a second pick is true iff the two tiles hold the same card, that is, the same catalog entry |
| `Session.NewWindow` | MatchCards.java:109-130 | a new window has its hide timer started and its restart button disabled |
| `Session.WindowStep` | MatchCards.java:123-130 | each event's effect on the flags: a mismatch starts the timer (starting a running timer does nothing); firing stops it and enables the button unless it hid a mismatch; restart disables the button and starts the timer |
| `Session.NewWindowSynced` | MatchCards.java:109-130 | in a new window, the timer runs iff the hide timer is pending, and the button is enabled iff input is unlocked |
| `Session.WindowStepSynced` | MatchCards.java:284-317 | in a state that satisfies the invariant, the window delivers exactly the events `Enabled` allows, with the effect `Step` gives them, and its flags keep tracking `HidePending` and the ready flag |
| `Session.WindowRunAgrees` | MatchCards.java:93-130 | the same event sequences can occur in the window and in the session, and they end with the same game |

## Left out

- Window, panels, buttons, labels and the game-over dialog (MatchCards.java:67-120 and 205-277) are user-interface code. The model keeps only the popup's trigger, the `completed` flag of `Game.Click`. What the popup's Restart button does is the `Restart` event.
- Image loading and scaling (MatchCards.java:140-141, 150-151) are resource handling. A card's image is represented by its catalog index, and the card back by `Back`. `Card.java` is folded into `Cards.Card`.
- The error label text (MatchCards.java:77, 189, 311) is display only.
- Of the restart button, only its enabled flag is modelled (`Session.Window`, MatchCards.java:109, 295, 304). Its text, font and size are left out.
- Real time is not modelled: the 1000 ms delay and the Swing timer queue. Of the timer, only its running flag is modelled (`Session.Window`). Firing is the `TimerFires` event, allowed exactly while the timer runs.
- `Math.random` (MatchCards.java:159) is replaced by the draws parameter, each in `[0, n)`. No probability distribution is modelled, so the shuffle's bias is not stated.
- Java's 32-bit `int` wrap-around of `errorCount`, `score` and `matchedPairs` is not modelled. It would take more than two billion mismatches.
- Clicks outside the board are excluded by `Game.Click`'s precondition. In the source, every click comes from one of the board's own buttons.
- `GameTester.java`, `MemoryTest.java`, `IntroGUI.java` and `App.java` are test drivers and entry screens. The assertion at GameTester.java:96 expects all tiles face down right after a restart. The code shows every card face up at that point (MatchCards.java:313-315), and the model follows the code.
