/**
 The card-effect capability: every effect offers a legality predicate and an
 action over the same context. `Effect` is the closed set of variants; `Nope`
 wraps another effect with a veto round and is itself an effect, so wrappers
 nest.
 */
module CardEffect {
  import opened Wrappers
  import Cards
  import opened GameState
  import opened Boundary
  import opened EffectContext
  import DrawFromBottomEffect
  import ExplodingKittenEffect
  import ShuffleEffect
  import NopeInterceptor

  datatype Effect = DrawFromBottom | ExplodingKitten | Shuffle | Nope(inner: Effect)

  /** Whether the effect may run now. A pure function of the context: it changes and reports nothing. */
  function CanExecute(e: Effect, ctx: Context): (r: bool)
    ensures r
  {
    match e
    case DrawFromBottom => DrawFromBottomEffect.CanExecute(ctx)
    case ExplodingKitten => ExplodingKittenEffect.CanExecute(ctx)
    case Shuffle => ShuffleEffect.CanExecute(ctx)
    case Nope(inner) => CanExecute(inner, ctx)
  }

  /** The effect inside all the `Nope` wrappers. */
  function Innermost(e: Effect): (r: Effect)
    ensures !r.Nope?
    ensures e.Nope? || r == e
  {
    match e
    case Nope(inner) => Innermost(inner)
    case _ => e
  }

  /** A wrapper is legal exactly when what it wraps is, however deep the nesting. */
  lemma {:induction false} CanExecuteDelegates(e: Effect, ctx: Context)
    ensures CanExecute(e, ctx) == CanExecute(Innermost(e), ctx)
  {
    match e
    case Nope(inner) => CanExecuteDelegates(inner, ctx);
    case _ =>
  }

  /**
   What the game needs for the effect's mutators to be defined when it runs
   with input `inp`: a draw from the bottom needs a card in the deck. A
   wrapper needs what its effect needs only if its veto round lets the effect
   run, that is when the round is answered and nobody cancels; the effect then
   starts from the input the round left.
   */
  predicate Ready(e: Effect, g: Game, inp: Input)
    requires g.Valid()
  {
    match e
    case DrawFromBottom => |g.deck| > 0
    case ExplodingKitten => true
    case Shuffle => true
    case Nope(inner) =>
      var round := NopeInterceptor.Negotiate(g, inp, 0);
      round.Some? && round.value.canceller.None? ==> Ready(inner, g, round.value.input)
  }

  /**
   The shape every action has: the game stays well formed with the same turn
   and players, the input only moves forward (one answer per prompt), and the
   output only grows, by at least one report.
   */
  predicate Step(before: Context, after: Context)
  {
    && after.game.Valid()
    && after.game.turn == before.game.turn
    && after.game.NumberOfPlayers() == before.game.NumberOfPlayers()
    && Advances(before.input, after.input)
    && before.output < after.output
  }

  /**
   Runs the effect. `pass` stands for the game's random source in shuffles.
   `None` only when the input script leaves a prompt unanswered.
   */
  function Execute(e: Effect, ctx: Context, pass: Shuffler): (r: Option<Context>)
    requires ctx.game.Valid() && Ready(e, ctx.game, ctx.input)
    ensures r.Some? ==> Step(ctx, r.value)
    decreases e, 0
  {
    match e
    case DrawFromBottom => Some(DrawFromBottomEffect.Execute(ctx))
    case ExplodingKitten => ExplodingKittenEffect.Execute(ctx)
    case Shuffle => ShuffleEffect.Execute(ctx, pass)
    case Nope(inner) => ExecuteNope(inner, ctx, pass)
  }

  /**
   The wrapper's action: a veto round, then either the canceller spends one
   NOPE and the cancellation is reported, or `inner` runs once on the same
   game and output with the input the round left.
   */
  function ExecuteNope(inner: Effect, ctx: Context, pass: Shuffler): (r: Option<Context>)
    requires ctx.game.Valid() && Ready(Nope(inner), ctx.game, ctx.input)
    ensures r.Some? ==> Step(ctx, r.value)
    ensures NopeInterceptor.Negotiate(ctx.game, ctx.input, 0).None? ==> r.None?
    // cancelled: one NOPE leaves the canceller's hand, nothing else in the game changes
    ensures var round := NopeInterceptor.Negotiate(ctx.game, ctx.input, 0);
      round.Some? && round.value.canceller.Some? ==>
        var c := round.value.canceller.value;
        && c < ctx.game.NumberOfPlayers()
        && r.Some?
        && r.value.game == ctx.game.(hands := r.value.game.hands)
        && |r.value.game.hands| == |ctx.game.hands|
        && r.value.game.hands[c] + multiset{Cards.Card(Cards.Nope)} == ctx.game.hands[c]
        && (forall q :: 0 <= q < |ctx.game.hands| && q != c ==> r.value.game.hands[q] == ctx.game.hands[q])
        && AllCards(r.value.game) + multiset{Cards.Card(Cards.Nope)} == AllCards(ctx.game)
        && r.value.input == round.value.input
        && r.value.output == ctx.output + [NopePlayed(c), Cancelled]
    decreases inner, 1
  {
    var game := ctx.game;
    match NopeInterceptor.Negotiate(game, ctx.input, 0)
    case None => None
    case Some(round) =>
      AdvancedByRound(game, ctx.input, round);
      match round.canceller
      case Some(c) =>
        Some(Context(RemoveCardFromHand(game, c, Cards.Nope), round.input, ctx.output + [NopePlayed(c), Cancelled]))
      case None =>
        var r := Execute(inner, Context(game, round.input, ctx.output), pass);
        if r.Some? then AdvancesTransitive(ctx.input, round.input, r.value.input); r else r
  }

  /**
   When nobody cancels, the wrapped effect runs exactly once, on the unchanged
   game and output, with the input the veto round left.
   */
  lemma NotCancelledRunsInner(inner: Effect, ctx: Context, pass: Shuffler)
    requires ctx.game.Valid()
    requires NopeInterceptor.Negotiate(ctx.game, ctx.input, 0).Some?
    requires NopeInterceptor.Negotiate(ctx.game, ctx.input, 0).value.canceller.None?
    requires Ready(inner, ctx.game, NopeInterceptor.Negotiate(ctx.game, ctx.input, 0).value.input)
    ensures var round := NopeInterceptor.Negotiate(ctx.game, ctx.input, 0).value;
      Execute(Nope(inner), ctx, pass) == Execute(inner, Context(ctx.game, round.input, ctx.output), pass)
  {
    assert Execute(Nope(inner), ctx, pass) == ExecuteNope(inner, ctx, pass);
  }

  /** A veto round moves the input forward by one answer per player asked. */
  lemma AdvancedByRound(g: Game, inp: Input, round: NopeInterceptor.Veto)
    requires g.Valid() && NopeInterceptor.Outcome(NopeInterceptor.EligibleFrom(g, 0), inp, round)
    ensures Advances(inp, round.input)
    ensures round.canceller.Some? ==> round.canceller.value < g.NumberOfPlayers() && NopeInterceptor.Eligible(g, round.canceller.value)
  {
    if round.canceller.Some? {
      var m := |round.asked|;
      assert round.asked[m - 1] == NopeInterceptor.EligibleFrom(g, 0)[m - 1];
    }
  }

  /** How many `Nope` wrappers surround the innermost effect. */
  function Depth(e: Effect): nat
  {
    match e
    case Nope(inner) => 1 + Depth(inner)
    case _ => 0
  }

  /** `s` written out `k` times. */
  function Repeat<T>(s: seq<T>, k: nat): seq<T>
  {
    if k == 0 then [] else s + Repeat(s, k - 1)
  }

  /** A "no" from every eligible opponent of `g`: the answers of one declined veto round. */
  function RoundDeclined(g: Game): seq<Answer>
    requires g.Valid()
  {
    NopeInterceptor.Declines(|NopeInterceptor.EligibleFrom(g, 0)|)
  }

  /** The NOPE offers of one full veto round over `g`, in player order. */
  function RoundOffers(g: Game): seq<Prompt>
    requires g.Valid()
  {
    NopeInterceptor.Offers(NopeInterceptor.EligibleFrom(g, 0))
  }

  /** One veto round that everybody declines hands the same game and output to the wrapped effect. */
  lemma DeclinedRoundDelegates(inner: Effect, ctx: Context, pass: Shuffler, later: seq<Answer>)
    requires ctx.game.Valid() && Ready(inner, ctx.game, Input(later, ctx.input.transcript + RoundOffers(ctx.game)))
    requires ctx.input.answers == RoundDeclined(ctx.game) + later
    ensures Ready(Nope(inner), ctx.game, ctx.input)
    ensures Execute(Nope(inner), ctx, pass)
      == Execute(inner, Context(ctx.game, Input(later, ctx.input.transcript + RoundOffers(ctx.game)), ctx.output), pass)
  {
    NopeInterceptor.RoundAllDeclined(ctx.game, ctx.input, later);
    NotCancelledRunsInner(inner, ctx, pass);
  }

  /** One round of answers `round` per wrapper around `e`, outermost first, then `rest`. */
  function DeclinedRounds(e: Effect, round: seq<Answer>, rest: seq<Answer>): seq<Answer>
  {
    match e
    case Nope(inner) => round + DeclinedRounds(inner, round, rest)
    case _ => rest
  }

  /** The transcript `before` followed by one round of prompts `round` per wrapper around `e`. */
  function OfferedRounds(e: Effect, round: seq<Prompt>, before: seq<Prompt>): seq<Prompt>
  {
    match e
    case Nope(inner) => OfferedRounds(inner, round, before + round)
    case _ => before
  }

  /** The answers are `Depth(e)` copies of the same round, then `rest`. */
  lemma {:induction false} DeclinedRoundsRepeat(e: Effect, answers: seq<Answer>, rest: seq<Answer>)
    ensures DeclinedRounds(e, answers, rest) == Repeat(answers, Depth(e)) + rest
  {
    match e
    case Nope(inner) =>
      DeclinedRoundsRepeat(inner, answers, rest);
      assert Repeat(answers, Depth(e)) + rest == answers + (Repeat(answers, Depth(inner)) + rest);
    case _ =>
  }

  /** The transcript grows by `Depth(e)` copies of the same round of prompts. */
  lemma {:induction false} OfferedRoundsRepeat(e: Effect, prompts: seq<Prompt>, before: seq<Prompt>)
    ensures OfferedRounds(e, prompts, before) == before + Repeat(prompts, Depth(e))
  {
    match e
    case Nope(inner) =>
      OfferedRoundsRepeat(inner, prompts, before + prompts);
      assert (before + prompts) + Repeat(prompts, Depth(inner)) == before + Repeat(prompts, Depth(e));
    case _ =>
      assert before + [] == before;
  }

  /**
   With every veto round answered "no" by all eligible players, the wrappers
   around an effect run the innermost effect exactly once, on the unchanged
   game and output, after one identical round of prompts per wrapper.
   */
  lemma {:induction false} NestedDeclinedRunsInnermostOnce(e: Effect, ctx: Context, pass: Shuffler, rest: seq<Answer>)
    requires ctx.game.Valid()
    requires Ready(Innermost(e), ctx.game, Input(rest, OfferedRounds(e, RoundOffers(ctx.game), ctx.input.transcript)))
    requires ctx.input.answers == DeclinedRounds(e, RoundDeclined(ctx.game), rest)
    ensures Ready(e, ctx.game, ctx.input)
    ensures Execute(e, ctx, pass)
      == Execute(Innermost(e), Context(ctx.game, Input(rest, OfferedRounds(e, RoundOffers(ctx.game), ctx.input.transcript)), ctx.output), pass)
  {
    match e
    case Nope(inner) =>
      NestedDeclinedRunsInnermostOnce(inner, Context(ctx.game, Input(DeclinedRounds(inner, RoundDeclined(ctx.game), rest), ctx.input.transcript + RoundOffers(ctx.game)), ctx.output), pass, rest);
      DeclinedRoundDelegates(inner, ctx, pass, DeclinedRounds(inner, RoundDeclined(ctx.game), rest));
    case _ =>
  }

  /** With no eligible opponent nobody is asked and the wrapped effect always runs on the same context. */
  lemma NoEligibleOpponentRunsEffect(e: Effect, ctx: Context, pass: Shuffler)
    requires ctx.game.Valid() && Ready(e, ctx.game, ctx.input)
    requires forall p: nat :: !NopeInterceptor.Eligible(ctx.game, p)
    ensures Ready(Nope(e), ctx.game, ctx.input)
    ensures Execute(Nope(e), ctx, pass) == Execute(e, ctx, pass)
  {
    NopeInterceptor.NobodyEligible(ctx.game, 0);
    assert ctx.input.answers == RoundDeclined(ctx.game) + ctx.input.answers;
    assert ctx.input.transcript + RoundOffers(ctx.game) == ctx.input.transcript;
    DeclinedRoundDelegates(e, ctx, pass, ctx.input.answers);
  }

  /**
   Three players, player 0 acting, players 1 and 2 holding a NOPE, and one
   ordinary card in the deck.
   */
  function ThreePlayerGame(): (g: Game)
    ensures g.Valid()
  {
    var nope := Cards.Card(Cards.Nope);
    Game(0, [false, false, false], [multiset{}, multiset{nope}, multiset{nope}], [Cards.Card(Cards.Other("Taco Cat"))])
  }

  /** In that game, player 2 is asked next and cancels with a "yes". */
  lemma ThreePlayerSecondOffer()
    ensures NopeInterceptor.Negotiate(ThreePlayerGame(), Input([Reply(true)], [YesNo(NopeOffer(1))]), 2)
      == Some(NopeInterceptor.Veto(Some(2), [2], Input([], [YesNo(NopeOffer(1)), YesNo(NopeOffer(2))])))
  {
    var between := Input([Reply(true)], [YesNo(NopeOffer(1))]);
    var after := Input([], [YesNo(NopeOffer(1)), YesNo(NopeOffer(2))]);
    assert ThreePlayerGame().HasCard(2, Cards.Nope);
    assert ReadYesNo(between, NopeOffer(2)) == Some((true, after)) by {
      assert between.transcript + [YesNo(NopeOffer(2))] == after.transcript;
    }
  }

  /** In that game, player 1 is asked first, declines, and the round goes on to player 2. */
  lemma ThreePlayerFirstOffer()
    ensures NopeInterceptor.Negotiate(ThreePlayerGame(), Input([Reply(false), Reply(true)], []), 1)
      == Some(NopeInterceptor.Veto(Some(2), [1, 2], Input([], [YesNo(NopeOffer(1)), YesNo(NopeOffer(2))])))
  {
    var inp := Input([Reply(false), Reply(true)], []);
    var between := Input([Reply(true)], [YesNo(NopeOffer(1))]);
    assert ThreePlayerGame().HasCard(1, Cards.Nope);
    assert ReadYesNo(inp, NopeOffer(1)) == Some((false, between)) by {
      assert inp.answers[1..] == [Reply(true)];
      assert inp.transcript + [YesNo(NopeOffer(1))] == between.transcript;
    }
    ThreePlayerSecondOffer();
    assert [1] + [2] == [1, 2];
  }

  /** In that game, player 1 declines and player 2 accepts: both are asked, 1 first, and 2 cancels. */
  lemma ThreePlayerRound()
    ensures NopeInterceptor.Negotiate(ThreePlayerGame(), Input([Reply(false), Reply(true)], []), 0)
      == Some(NopeInterceptor.Veto(Some(2), [1, 2], Input([], [YesNo(NopeOffer(1)), YesNo(NopeOffer(2))])))
  {
    var g := ThreePlayerGame();
    var inp := Input([Reply(false), Reply(true)], []);
    ThreePlayerFirstOffer();
    assert NopeInterceptor.Negotiate(g, inp, 0) == NopeInterceptor.Negotiate(g, inp, 1);
  }

  /** In that game, spending player 2's NOPE empties that hand and leaves the others. */
  lemma ThreePlayerSpend()
    ensures var nope := Cards.Card(Cards.Nope);
      RemoveCardFromHand(ThreePlayerGame(), 2, Cards.Nope)
      == ThreePlayerGame().(hands := [multiset{}, multiset{nope}, multiset{}])
  {
    var nope := Cards.Card(Cards.Nope);
    var g := ThreePlayerGame();
    assert multiset{nope} - multiset{nope} == multiset{};
    assert g.hands[2 := multiset{}] == [multiset{}, multiset{nope}, multiset{}];
  }

  /**
   Scenario: in that game, player 1 declines and player 2 accepts. Both are
   asked, 1 before 2; only player 2's NOPE is spent; the wrapped draw never
   happens; the report names player 2 and the cancellation.
   */
  lemma SecondOpponentCancels(pass: Shuffler)
    ensures var nope := Cards.Card(Cards.Nope);
      var g := ThreePlayerGame();
      var ctx := Context(g, Input([Reply(false), Reply(true)], []), []);
      Execute(Nope(DrawFromBottom), ctx, pass)
      == Some(Context(g.(hands := [multiset{}, multiset{nope}, multiset{}]),
                      Input([], [YesNo(NopeOffer(1)), YesNo(NopeOffer(2))]),
                      [NopePlayed(2), Cancelled]))
  {
    ThreePlayerRound();
    ThreePlayerSpend();
    assert [] + [NopePlayed(2), Cancelled] == [NopePlayed(2), Cancelled];
  }

  /**
   Two players, player 0 acting with an empty hand, player 1 holding a NOPE,
   and an empty deck.
   */
  function EmptyDeckGame(): (g: Game)
    ensures g.Valid() && |g.deck| == 0
  {
    Game(0, [false, false], [multiset{}, multiset{Cards.Card(Cards.Nope)}], [])
  }

  /** In that game, player 1 is the only one asked and cancels. */
  lemma EmptyDeckRound()
    ensures NopeInterceptor.Negotiate(EmptyDeckGame(), Input([Reply(true)], []), 0)
      == Some(NopeInterceptor.Veto(Some(1), [1], Input([], [YesNo(NopeOffer(1))])))
  {
    var g := EmptyDeckGame();
    var inp := Input([Reply(true)], []);
    var after := Input([], [YesNo(NopeOffer(1))]);
    assert g.HasCard(1, Cards.Nope);
    assert ReadYesNo(inp, NopeOffer(1)) == Some((true, after)) by {
      assert inp.transcript + [YesNo(NopeOffer(1))] == after.transcript;
    }
    assert NopeInterceptor.Negotiate(g, inp, 1) == Some(NopeInterceptor.Veto(Some(1), [1], after));
    assert NopeInterceptor.Negotiate(g, inp, 0) == NopeInterceptor.Negotiate(g, inp, 1);
  }

  /**
   Scenario: a wrapped draw from the bottom of an empty deck can be played,
   because the wrapped draw only has to be possible if nobody cancels. Player 1
   cancels, so only the NOPE is spent and the draw never happens.
   */
  lemma CancelledDrawNeedsNoDeck(pass: Shuffler)
    ensures var g := EmptyDeckGame();
      var ctx := Context(g, Input([Reply(true)], []), []);
      && !Ready(DrawFromBottom, g, ctx.input)
      && Ready(Nope(DrawFromBottom), g, ctx.input)
      && Execute(Nope(DrawFromBottom), ctx, pass)
         == Some(Context(g.(hands := [multiset{}, multiset{}]),
                         Input([], [YesNo(NopeOffer(1))]),
                         [NopePlayed(1), Cancelled]))
  {
    var nope := Cards.Card(Cards.Nope);
    var g := EmptyDeckGame();
    EmptyDeckRound();
    assert multiset{nope} - multiset{nope} == multiset{};
    assert g.hands[1 := multiset{}] == [multiset{}, multiset{}];
    assert [] + [NopePlayed(1), Cancelled] == [NopePlayed(1), Cancelled];
  }
}
