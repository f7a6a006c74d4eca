/**
 The input and output boundaries an effect talks to. Input is a script of
 answers, each one already meeting the boundary's contract, together with the
 transcript of prompts put to it so far; output is a list of tagged events.
 */
module Boundary {
  import opened Wrappers
  import opened Cards

  /** One answer of the script: a number for `readInteger`, a yes/no for `readYesNo`. */
  datatype Answer = Number(value: int) | Reply(yes: bool)

  /** What a prompt asks about. */
  datatype Question = NopeOffer(player: nat) | InsertPosition | ShuffleCount

  /** A prompt as the input boundary receives it, integer prompts with their inclusive bounds. */
  datatype Prompt = YesNo(question: Question) | Integer(question: Question, min: int, max: int)

  datatype Input = Input(answers: seq<Answer>, transcript: seq<Prompt>)

  /** The reports an effect displays. */
  datatype Event =
    | Exploded(player: nat)
    | Defused(player: nat)
    | Shuffled(times: int)
    | Drew(cardType: CardType)
    | NopePlayed(player: nat)
    | Cancelled

  type Output = seq<Event>

  /**
   `after` is `before` once some prompts were answered: the answers used come
   off the front of the script, one per prompt added to the transcript.
   */
  predicate Advances(before: Input, after: Input)
  {
    && |after.answers| <= |before.answers|
    && after.answers == before.answers[|before.answers| - |after.answers|..]
    && before.transcript <= after.transcript
    && |after.transcript| - |before.transcript| == |before.answers| - |after.answers|
  }

  lemma AdvancesTransitive(a: Input, b: Input, c: Input)
    requires Advances(a, b) && Advances(b, c)
    ensures Advances(a, c)
  {
    var k := |a.answers| - |b.answers|;
    assert c.answers == a.answers[k..][|b.answers| - |c.answers|..];
  }

  /**
   Asks for an integer in `[min, max]`. The script's next answer is the value
   returned; `None` when the script holds no such answer, where the console
   would keep asking.
   */
  function ReadInteger(inp: Input, q: Question, min: int, max: int): (r: Option<(int, Input)>)
    ensures r.Some? <==> |inp.answers| > 0 && inp.answers[0].Number? && min <= inp.answers[0].value <= max
    ensures r.Some? ==> min <= r.value.0 <= max && inp.answers[0] == Number(r.value.0)
    ensures r.Some? ==> r.value.1.transcript == inp.transcript + [Integer(q, min, max)]
    ensures r.Some? ==> r.value.1.answers == inp.answers[1..] && Advances(inp, r.value.1)
  {
    if |inp.answers| > 0 && inp.answers[0].Number? && min <= inp.answers[0].value <= max then
      Some((inp.answers[0].value, Input(inp.answers[1..], inp.transcript + [Integer(q, min, max)])))
    else
      None
  }

  /** Asks a yes/no question; `None` when the script's next answer is not a yes/no. */
  function ReadYesNo(inp: Input, q: Question): (r: Option<(bool, Input)>)
    ensures r.Some? <==> |inp.answers| > 0 && inp.answers[0].Reply?
    ensures r.Some? ==> inp.answers[0] == Reply(r.value.0)
    ensures r.Some? ==> r.value.1.transcript == inp.transcript + [YesNo(q)]
    ensures r.Some? ==> r.value.1.answers == inp.answers[1..] && Advances(inp, r.value.1)
  {
    if |inp.answers| > 0 && inp.answers[0].Reply? then
      Some((inp.answers[0].yes, Input(inp.answers[1..], inp.transcript + [YesNo(q)])))
    else
      None
  }
}
