/** The bundle handed to both operations of every effect. */
module EffectContext {
  import opened GameState
  import opened Boundary

  /** Game, input and output of one resolution; a value, so it never changes once built. */
  datatype Context = Context(game: Game, input: Input, output: Output)

  /** Each getter gives back what the constructor was given, and the getters rebuild the context. */
  lemma GettersReturnConstructorArguments(g: Game, i: Input, o: Output, ctx: Context)
    ensures Context(g, i, o).game == g && Context(g, i, o).input == i && Context(g, i, o).output == o
    ensures Context(ctx.game, ctx.input, ctx.output) == ctx
  {
  }
}
