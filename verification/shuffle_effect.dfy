/** Shuffle: the deck is shuffled as many times as the player asks, up to a fixed cap. */
module ShuffleEffect {
  import opened Wrappers
  import opened GameState
  import opened Boundary
  import opened EffectContext

  /** Upper bound on the repetitions a player may ask for. */
  const MAX_SHUFFLES: int := 100

  /** Always legal. */
  function CanExecute(ctx: Context): (r: bool)
    ensures r
  {
    true
  }

  /**
   Asks for a count in `[1, MAX_SHUFFLES]`, shuffles that many times with the
   random passes `pass`, and reports the count. `None` only when the script
   does not answer the prompt.
   */
  function Execute(ctx: Context, pass: Shuffler): (r: Option<Context>)
    ensures r.Some? <==>
      |ctx.input.answers| > 0 && ctx.input.answers[0].Number? && 1 <= ctx.input.answers[0].value <= MAX_SHUFFLES
    ensures r.Some? ==>
      var times := ctx.input.answers[0].value;
      && r.value.input.transcript == ctx.input.transcript + [Integer(ShuffleCount, 1, 100)]
      && r.value.input.answers == ctx.input.answers[1..]
      && r.value.game == ctx.game.(deck := Reshuffled(ctx.game.deck, times, pass))
      && r.value.output == ctx.output + [Shuffled(times)]
    ensures r.Some? && Permutes(pass) ==>
      multiset(r.value.game.deck) == multiset(ctx.game.deck) && AllCards(r.value.game) == AllCards(ctx.game)
  {
    match ReadInteger(ctx.input, ShuffleCount, 1, MAX_SHUFFLES)
    case None => None
    case Some((times, input)) =>
      Some(Context(PlayShuffle(ctx.game, times, pass), input, ctx.output + [Shuffled(times)]))
  }
}
