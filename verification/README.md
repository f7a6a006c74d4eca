# Card-effect resolution core of an Exploding-Kittens-style game, in Dafny

This project models how the game resolves a played card. Each card effect
offers two operations over one context: `canExecute`, a legality predicate,
and `execute`, the action. The context bundles the game, an input source and an
output sink.

Three concrete effects are modelled:

- draw-from-bottom;
- exploding-kitten resolution (explode, or defuse and reinsert);
- shuffle.

There is also the NOPE wrapper. Before the wrapped effect runs, it offers every
eligible opponent the chance to cancel it. Players are asked in ascending
index order and the first "yes" cancels. The wrapper is itself an effect, so
wrappers nest.

Everything is a pure function. `CardEffect.Execute(e, ctx, pass)` maps a
context to the context after the action. It returns `None` only when the input
script leaves a prompt unanswered.

## Modules

- `Wrappers`: `Option`.
- `Cards`: `CardType` (`ExplodingKitten`, `Defuse`, `Nope`, `Other(name)`) and
  `Card`.
- `GameState`: an abstract game record with turn, dead flags, hands and deck.
  - Hands are multisets of cards. The deck is a sequence listed from the top,
    so its last element is the bottom card.
  - It has the six mutators the effects call.
  - `AllCards` counts the deck together with all hands. Each mutator's contract
    says exactly how it changes that count.
- `Boundary`: the input and output boundaries.
  - The input is a script of answers plus a transcript of the prompts put to
    it. Each prompt is a question together with its bounds.
  - The output is a list of tagged events: `Exploded`, `Defused`, `Shuffled`,
    `Drew`, `NopePlayed` and `Cancelled`.
- `EffectContext`: the immutable triple `Context(game, input, output)`.
- `DrawFromBottomEffect`, `ExplodingKittenEffect` and `ShuffleEffect`: one
  module per concrete effect.
- `NopeInterceptor`: the veto round.
  - `Negotiate` follows the source loop.
  - `EligibleFrom` is the reference list of eligible players.
  - `Outcome` ties the two together.
- `CardEffect`: the `Effect` datatype `DrawFromBottom | ExplodingKitten |
  Shuffle | Nope(inner)`, the dispatch functions `CanExecute` and `Execute`,
  the wrapper's action `ExecuteNope`, and the lemmas about nesting.

## Model

| member | source | states |
|---|---|---|
| CardEffect.Execute | src/main/java/domain/game/CardEffect.java:3-6 | Every effect's action, on any context where the game operations it actually reaches are defined (a wrapped draw whose round is cancelled needs no card in the deck), leaves a well-formed game with the same turn and player count. It only moves the input forward, one answer per prompt added to the transcript. It only appends to the output, always at least one report. |
| CardEffect.CanExecute | src/main/java/domain/game/CardEffect.java:4 | The legality predicate holds for every effect of the model, wrapped or not, at any nesting depth. |
| DrawFromBottomEffect.CanExecute | src/main/java/domain/game/DrawFromBottomEffect.java:4-6 | Drawing from the bottom is always legal, whatever the context, even with an empty deck. |
| ExplodingKittenEffect.CanExecute | src/main/java/domain/game/ExplodingKittenEffect.java:4-6 | Resolving an exploding kitten is always legal, whatever the context. |
| ShuffleEffect.CanExecute | src/main/java/domain/game/ShuffleEffect.java:6-8 | Shuffling is always legal, whatever the context. |
| CardEffect.CanExecuteDelegates | src/main/java/domain/game/NopeInterceptor.java:10-12 | A NOPE wrapper is legal exactly when the effect it wraps is, at any nesting depth. |
| CardEffect.ExecuteNope | src/main/java/domain/game/NopeInterceptor.java:14-44 | The wrapped effect's own needs apply only when nobody cancels. A round the script leaves unanswered gives no result. When a player cancels, exactly one NOPE leaves that player's hand and no other part of the game changes. The cards in play shrink by that one NOPE, the wrapped effect does not run, and the reports are "player c played NOPE" then "cancelled". The input is what the round left. |
| CardEffect.NotCancelledRunsInner | src/main/java/domain/game/NopeInterceptor.java:40-41 | If nobody cancelled, the wrapped effect runs once, on the unchanged game and output, with the input the round left. |
| CardEffect.DeclinedRoundDelegates | src/main/java/domain/game/NopeInterceptor.java:40-41 | When every eligible opponent says no, the wrapper's result is exactly the wrapped effect's result after one prompt per eligible opponent. |
| CardEffect.NestedDeclinedRunsInnermostOnce | src/main/java/domain/game/NopeInterceptor.java:3-44 | For wrappers nested to any depth, when all opponents decline every round, the wrappers run the innermost effect exactly once. It runs on the original game and output, after one round of prompts per wrapper. The whole stack can run whenever that innermost run can. |
| CardEffect.DeclinedRoundsRepeat | src/main/java/domain/game/NopeInterceptor.java:21-41 | The script for the nested case is one identical all-"no" round per wrapper, then the remaining answers. |
| CardEffect.OfferedRoundsRepeat | src/main/java/domain/game/NopeInterceptor.java:21-31 | The prompts for the nested case are one identical round of NOPE offers per wrapper, after the earlier transcript. |
| CardEffect.NoEligibleOpponentRunsEffect | src/main/java/domain/game/NopeInterceptor.java:21-41 | With no eligible opponent, nobody is asked and the wrapper behaves exactly like the wrapped effect on the same context. |
| CardEffect.ThreePlayerRound | src/main/java/domain/game/NopeInterceptor.java:21-38 | Scenario round: player 0 acts and players 1 and 2 hold NOPE. Player 1 declines and player 2 accepts, so exactly players 1 then 2 are asked and player 2 is the canceller. |
| CardEffect.CancelledDrawNeedsNoDeck | src/main/java/domain/game/NopeInterceptor.java:31-43 | Scenario: a wrapped draw on an empty deck is accepted when the only opponent cancels. A bare draw would need a card, but here only the NOPE leaves the hand, one prompt goes out, and the reports are "1 played NOPE" then "cancelled". |
| CardEffect.SecondOpponentCancels | src/main/java/domain/game/NopeInterceptor.java:21-44 | In that scenario exactly two prompts go out, to 1 then 2. Only player 2's NOPE is spent, the wrapped draw never happens, and the reports are "2 played NOPE" then "cancelled". |
| NopeInterceptor.EligibleFrom | src/main/java/domain/game/NopeInterceptor.java:21-30 | The reference list of players who can be asked: strictly ascending, each one neither the acting player nor dead and holding a NOPE, and containing every such player. |
| NopeInterceptor.EligibleFromCount | src/main/java/domain/game/NopeInterceptor.java:21-24 | The acting player is never eligible, so at most numberOfPlayers - 1 players are. |
| NopeInterceptor.NobodyEligible | src/main/java/domain/game/NopeInterceptor.java:21-30 | When no player meets the three conditions, the eligible list is empty. |
| NopeInterceptor.Negotiate | src/main/java/domain/game/NopeInterceptor.java:18-38 | The round asks exactly a prefix of the eligible list, in order, and records one NOPE-offer prompt and one answer per player asked. Every answer is "no" except a final "yes" from the canceller. Without a "yes", the whole eligible list was asked. The round is defined whenever the script holds a yes/no answer for each eligible player. |
| NopeInterceptor.SkipStep | src/main/java/domain/game/NopeInterceptor.java:22-30 | The acting player, dead players and players without a NOPE are passed over without consuming input. |
| NopeInterceptor.AcceptStep | src/main/java/domain/game/NopeInterceptor.java:32-37 | An eligible player's "yes" ends the round at once, with that player as the canceller. |
| NopeInterceptor.DeclineStep | src/main/java/domain/game/NopeInterceptor.java:31-38 | An eligible player's "no" is recorded and the round continues with the next index. |
| NopeInterceptor.OnlyEligibleAsked | src/main/java/domain/game/NopeInterceptor.java:22-31 | No prompt goes to the acting player, to a dead player, or to a player without a NOPE. |
| NopeInterceptor.AskedInOrder | src/main/java/domain/game/NopeInterceptor.java:21-31 | Prompts go out in strictly ascending player index, and there are at most numberOfPlayers - 1 of them. Each prompt is a NOPE offer and consumes one answer. |
| NopeInterceptor.FirstYesStops | src/main/java/domain/game/NopeInterceptor.java:31-37 | On a cancel, the canceller is the last player asked and the only one who said yes. Every eligible player with a lower index was asked first. No player with a higher index is asked, even one holding a NOPE. |
| NopeInterceptor.AllDeclined | src/main/java/domain/game/NopeInterceptor.java:31-41 | Without a cancel, every eligible player was asked and every one said no. |
| NopeInterceptor.RoundAllDeclined | src/main/java/domain/game/NopeInterceptor.java:21-41 | With a script of "no" answers, one per eligible player, the round asks them all in order, cancels nothing and uses exactly those answers. |
| ExplodingKittenEffect.Execute | src/main/java/domain/game/ExplodingKittenEffect.java:8-24 | The affected player is the one whose turn it is. Without a DEFUSE, that player becomes dead, no input is read, nothing else changes, and "exploded" is reported. With a DEFUSE, exactly one integer prompt goes out, bounded by [0, deck size] as it was before any change. The kitten is inserted at the chosen index, one DEFUSE leaves the hand, the dead flags stay as they were, "defused" is reported, and the cards in play change by exactly that swap. |
| ExplodingKittenEffect.ExactlyOneBranch | src/main/java/domain/game/ExplodingKittenEffect.java:11-23 | Exactly one of the two branches runs. The single new report is "exploded" when the player lacked a DEFUSE and "defused" when the player had one. An exploding player keeps hand and deck. A defusing player's dead flags do not change. |
| ShuffleEffect.Execute | src/main/java/domain/game/ShuffleEffect.java:4-15 | The prompt always asks for a count in [1, 100], whatever the game state. The deck is shuffled exactly the number of times read, and that same number is reported. Hands, dead flags and turn are untouched. When the random source only permutes, the deck keeps its cards. |
| DrawFromBottomEffect.Execute | src/main/java/domain/game/DrawFromBottomEffect.java:8-14 | The card that enters the current player's hand is exactly the card removed from the bottom of the deck. The deck shrinks by one and that hand grows by one. Other hands, dead flags, turn and input are unchanged. The reported type is the drawn card's type, and the cards in play are conserved. |
| EffectContext.GettersReturnConstructorArguments | src/main/java/domain/game/EffectContext.java:8-24 | Each getter returns what the constructor was given, and the three getters rebuild the same context. |
| GameState.DrawFromBottom | src/main/java/domain/game/DrawFromBottomEffect.java:10 | The card returned is the bottom card: the remaining deck plus that card is the old deck. Nothing else changes. |
| GameState.AddCardToHand | src/main/java/domain/game/DrawFromBottomEffect.java:11 | The card joins the current player's hand and no other hand. The cards in play grow by exactly that card. |
| GameState.RemoveCardFromHand | src/main/java/domain/game/NopeInterceptor.java:33 | Exactly one card of the given type leaves the given player's hand. No other hand changes. |
| GameState.PlayExplodingKitten | src/main/java/domain/game/ExplodingKittenEffect.java:12 | The given player becomes dead. No other dead flag, hand or deck card changes. |
| GameState.PlayDefuse | src/main/java/domain/game/ExplodingKittenEffect.java:22 | The kitten lands at the chosen index, with the cards above and below it unchanged. One DEFUSE leaves the player's hand. The cards in play change by DEFUSE out, kitten in. |
| GameState.PlayShuffle | src/main/java/domain/game/ShuffleEffect.java:13 | Only the deck order changes. With a permuting random source, the deck's cards are preserved. |
| GameState.ReshuffledKeepsCards | src/main/java/domain/game/ShuffleEffect.java:13 | Any number of passes of a permuting random source keeps the multiset of deck cards. |
| Boundary.ReadInteger | src/main/java/ui/ConsoleInput.java:15-27 | The value returned lies in [min, max] and is the script's next answer. The prompt and its bounds are recorded. |
| Boundary.ReadYesNo | src/main/java/ui/ConsoleInput.java:29-40 | The value returned is the script's next yes/no answer, and the prompt is recorded. |

## Left out

- Boundary.ReadInteger: the console's re-prompt loop is not modelled. An
  answer outside `[min, max]` is not skipped. The read yields `None` instead,
  because the input is a script of answers that already meet the boundary's
  contract.
- Boundary.ReadYesNo: the same applies. The parsing of "y"/"yes"/"1" and
  "n"/"no"/"2" (trimmed and case-insensitive) is not modelled; a script answer
  is already a boolean.
- Message text and string building are not modelled. Each `display` call
  becomes one tagged event, and each prompt message becomes a tagged `Prompt`.
- The `Game` class is not part of this model. Its operations are abstract
  mutators on a record, and their failure cases are preconditions:
  - a draw needs a non-empty deck when it actually runs (`CardEffect.Ready`).
    A NOPE wrapper passes that need on only when its round is answered and
    nobody cancels; the wrapped effect is then judged on the input the round
    left;
  - a removal needs the card;
  - a defuse needs a DEFUSE and an index in `[0, deckSize]`.
- The deck orientation (index 0 is the top) is an assumption, since the deck
  storage is not visible. It is the one under which inserting at `deckSize`
  places the kitten at the very bottom.
- The shuffle algorithm and its randomness are not modelled. The random
  source is the parameter `pass`. The fact that it only reorders cards is the
  hypothesis `Permutes(pass)` of the conservation lemmas, not a property
  proved of any particular algorithm.
- Turn advancement, win detection and the game loop that picks and guards
  effects are outside the core.
- `DrawFromBottomEffect.canExecute` returns true even on an empty deck. The
  model keeps that, and the empty-deck fault stays a precondition of `Execute`
  for a draw that is reached.
- `InputProvider`, `OutputProvider`, `Card` and `CardType` are not part of
  this model beyond what the effects use. Card types other than
  EXPLODING_KITTEN, DEFUSE and NOPE are carried as `Other(name)`.
- Player indices and counts are `nat`. Java's 32-bit `int` cannot overflow for
  any game size or deck size these operations see, so no wrap-around is
  modelled.
- Effects run sequentially with no concurrency, so concurrency is not
  modelled.
