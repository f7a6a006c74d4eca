/**
 Exploding Kitten resolution for the player whose turn it is: without a Defuse
 the player is eliminated; with one, the player chooses where the kitten goes
 back into the deck.
 */
module ExplodingKittenEffect {
  import opened Wrappers
  import opened Cards
  import opened GameState
  import opened Boundary
  import opened EffectContext

  /** Always legal. */
  function CanExecute(ctx: Context): (r: bool)
    ensures r
  {
    true
  }

  /** The answer the position prompt takes, when the script supplies one. */
  predicate AnswersPosition(inp: Input, deckSize: nat)
  {
    |inp.answers| > 0 && inp.answers[0].Number? && 0 <= inp.answers[0].value <= deckSize
  }

  /**
   Resolves the kitten for the current player. `None` only when that player
   holds a Defuse and the script does not answer the position prompt.
   */
  function Execute(ctx: Context): (r: Option<Context>)
    requires ctx.game.Valid()
    // no Defuse: eliminated, nothing asked, only the dead flag changes
    ensures !ctx.game.HasCard(ctx.game.turn, Defuse) ==>
      && r.Some?
      && r.value.game == ctx.game.(dead := r.value.game.dead)
      && r.value.game.Valid() && r.value.game.IsDead(ctx.game.turn)
      && (forall q :: 0 <= q < |ctx.game.dead| && q != ctx.game.turn ==> r.value.game.dead[q] == ctx.game.dead[q])
      && r.value.input == ctx.input
      && r.value.output == ctx.output + [Exploded(ctx.game.turn)]
    // Defuse: exactly one prompt, bounded by the deck size before any change
    ensures ctx.game.HasCard(ctx.game.turn, Defuse) ==>
      (r.Some? <==> AnswersPosition(ctx.input, |ctx.game.deck|))
    ensures ctx.game.HasCard(ctx.game.turn, Defuse) && r.Some? ==>
      var index := ctx.input.answers[0].value;
      && 0 <= index <= |ctx.game.deck|
      && r.value.input.transcript == ctx.input.transcript + [Integer(InsertPosition, 0, |ctx.game.deck|)]
      && r.value.input.answers == ctx.input.answers[1..]
      && r.value.game.deck == ctx.game.deck[..index] + [Card(ExplodingKitten)] + ctx.game.deck[index..]
      && r.value.game.Valid() && |r.value.game.hands| == |ctx.game.hands|
      && r.value.game.hands[ctx.game.turn] + multiset{Card(Defuse)} == ctx.game.hands[ctx.game.turn]
      && (forall q :: 0 <= q < |ctx.game.hands| && q != ctx.game.turn ==> r.value.game.hands[q] == ctx.game.hands[q])
      && r.value.game.dead == ctx.game.dead && r.value.game.turn == ctx.game.turn
      && r.value.output == ctx.output + [Defused(ctx.game.turn)]
      && AllCards(r.value.game) + multiset{Card(Defuse)} == AllCards(ctx.game) + multiset{Card(ExplodingKitten)}
  {
    var game := ctx.game;
    var player := game.turn;
    if !game.HasCard(player, Defuse) then
      Some(Context(PlayExplodingKitten(game, player), ctx.input, ctx.output + [Exploded(player)]))
    else
      var deckSize := |game.deck|;
      match ReadInteger(ctx.input, InsertPosition, 0, deckSize)
      case None => None
      case Some((index, input)) =>
        var defused := PlayDefuse(game, index, player);
        assert defused.deck == game.deck[..index] + [Card(ExplodingKitten)] + game.deck[index..];
        Some(Context(defused, input, ctx.output + [Defused(player)]))
  }

  /**
   Exactly one of the two branches runs: the last report is either the
   explosion or the defuse of the current player, never both, and an exploded
   player keeps hand and deck while a defusing player stays as alive as before.
   */
  lemma ExactlyOneBranch(ctx: Context)
    requires ctx.game.Valid()
    requires Execute(ctx).Some?
    ensures var r := Execute(ctx).value;
      var p := ctx.game.turn;
      && |r.output| == |ctx.output| + 1
      && (r.output[|ctx.output|] == Exploded(p) <==> !ctx.game.HasCard(p, Defuse))
      && (r.output[|ctx.output|] == Defused(p) <==> ctx.game.HasCard(p, Defuse))
      && (r.output[|ctx.output|] == Exploded(p) ==> r.game.hands == ctx.game.hands && r.game.deck == ctx.game.deck)
      && (r.output[|ctx.output|] == Defused(p) ==> r.game.dead == ctx.game.dead)
  {
  }
}
