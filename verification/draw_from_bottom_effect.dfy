/** Draw from the bottom: the current player takes the deck's bottom card. */
module DrawFromBottomEffect {
  import opened Cards
  import opened GameState
  import opened Boundary
  import opened EffectContext

  /** Always legal. */
  function CanExecute(ctx: Context): (r: bool)
    ensures r
  {
    true
  }

  /**
   The bottom card leaves the deck and enters the current player's hand, and
   its type is reported. Nothing is asked of the input. The deck must not be
   empty: drawing from an empty deck is the game's own fault case.
   */
  function Execute(ctx: Context): (r: Context)
    requires ctx.game.Valid() && |ctx.game.deck| > 0
    ensures r.game.Valid() && r.game.turn == ctx.game.turn && r.game.dead == ctx.game.dead
    ensures |r.game.deck| == |ctx.game.deck| - 1
    ensures r.game.deck + [Bottom(ctx.game)] == ctx.game.deck
    ensures r.game.hands[ctx.game.turn] == ctx.game.hands[ctx.game.turn] + multiset{Bottom(ctx.game)}
    ensures |r.game.hands[ctx.game.turn]| == |ctx.game.hands[ctx.game.turn]| + 1
    ensures |r.game.hands| == |ctx.game.hands|
    ensures forall p :: 0 <= p < |ctx.game.hands| && p != ctx.game.turn ==> r.game.hands[p] == ctx.game.hands[p]
    ensures r.output == ctx.output + [Drew(Bottom(ctx.game).cardType)]
    ensures r.input == ctx.input
    ensures AllCards(r.game) == AllCards(ctx.game)
  {
    var (card, drawn) := DrawFromBottom(ctx.game);
    var game := AddCardToHand(drawn, card);
    Context(game, ctx.input, ctx.output + [Drew(card.cardType)])
  }

  /** The card at the bottom of a non-empty deck. */
  function Bottom(g: Game): Card
    requires |g.deck| > 0
  {
    g.deck[|g.deck| - 1]
  }
}
