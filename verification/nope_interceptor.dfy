/**
 The veto round that runs before a cancellable effect: opponents are offered
 the chance to play a NOPE in ascending player order, and the first one who
 accepts cancels the effect. The round itself changes no hand; what happens
 after it (removing the NOPE, or delegating to the wrapped effect) is in
 `CardEffect.ExecuteNope`.
 */
module NopeInterceptor {
  import opened Wrappers
  import opened Cards
  import opened GameState
  import opened Boundary

  /** A player who gets asked: not the acting player, still alive, holding a NOPE. */
  predicate Eligible(g: Game, p: nat)
    requires g.Valid()
  {
    p < g.NumberOfPlayers() && p != g.turn && !g.IsDead(p) && g.HasCard(p, Nope)
  }

  /** The eligible players from index `i` on, in ascending order. */
  function EligibleFrom(g: Game, i: nat): (ps: seq<nat>)
    requires g.Valid() && i <= g.NumberOfPlayers()
    ensures forall k :: 0 <= k < |ps| ==> i <= ps[k] && Eligible(g, ps[k])
    ensures forall k, l :: 0 <= k < l < |ps| ==> ps[k] < ps[l]
    ensures forall p :: i <= p && Eligible(g, p) ==> p in ps
    decreases g.NumberOfPlayers() - i
  {
    if i == g.NumberOfPlayers() then []
    else if Eligible(g, i) then [i] + EligibleFrom(g, i + 1)
    else EligibleFrom(g, i + 1)
  }

  /** The acting player is never among them, so at most `n - 1` of the `n` players are. */
  lemma {:induction false} EligibleFromCount(g: Game, i: nat)
    requires g.Valid() && i <= g.NumberOfPlayers()
    ensures |EligibleFrom(g, i)| <= g.NumberOfPlayers() - i - (if i <= g.turn then 1 else 0)
    decreases g.NumberOfPlayers() - i
  {
    if i < g.NumberOfPlayers() {
      EligibleFromCount(g, i + 1);
    }
  }

  /** With nobody eligible at all, nobody is found from any index on. */
  lemma {:induction false} NobodyEligible(g: Game, i: nat)
    requires g.Valid() && i <= g.NumberOfPlayers()
    requires forall p: nat :: !Eligible(g, p)
    ensures EligibleFrom(g, i) == []
    decreases g.NumberOfPlayers() - i
  {
    if i < g.NumberOfPlayers() {
      NobodyEligible(g, i + 1);
    }
  }

  /** The yes/no prompts offering a NOPE to each of `ps`, in order. */
  function Offers(ps: seq<nat>): (r: seq<Prompt>)
    ensures |r| == |ps|
    ensures forall k :: 0 <= k < |ps| ==> r[k] == YesNo(NopeOffer(ps[k]))
  {
    seq(|ps|, k requires 0 <= k < |ps| => YesNo(NopeOffer(ps[k])))
  }

  /** The outcome of a veto round: who cancelled (if anyone), who was asked, and the input afterwards. */
  datatype Veto = Veto(canceller: Option<nat>, asked: seq<nat>, input: Input)

  /** The script holds a yes/no answer for each of the first `count` prompts. */
  predicate RepliesFor(answers: seq<Answer>, count: nat)
  {
    count <= |answers| && forall j :: 0 <= j < count ==> answers[j].Reply?
  }

  /**
   `v` is a correct record of a veto round over the players `eligible`, in
   that order: the players asked are a prefix of them, up to and including the
   one who said yes; each was offered a NOPE and used up one answer; every
   answer was "no" except a final "yes" from the canceller; and when nobody
   cancelled, every one of them was asked.
   */
  predicate Outcome(eligible: seq<nat>, inp: Input, v: Veto)
  {
    var m := |v.asked|;
    && m <= |eligible| && v.asked == eligible[..m]
    && m <= |inp.answers|
    && v.input == Input(inp.answers[m..], inp.transcript + Offers(v.asked))
    && (forall k :: 0 <= k < m ==> inp.answers[k] == Reply(v.canceller.Some? && k == m - 1))
    && (v.canceller.Some? ==> m > 0 && v.canceller.value == v.asked[m - 1])
    && (v.canceller.None? ==> m == |eligible|)
  }

  /**
   The veto round over players `i` up to the last one. Players are skipped when
   they are the acting player, dead, or without a NOPE; every other player is
   asked, and the first "yes" ends the round. `None` only when the script does
   not answer a prompt.
   */
  function Negotiate(g: Game, inp: Input, i: nat): (r: Option<Veto>)
    requires g.Valid() && i <= g.NumberOfPlayers()
    decreases g.NumberOfPlayers() - i
    ensures r.Some? ==> Outcome(EligibleFrom(g, i), inp, r.value)
    ensures RepliesFor(inp.answers, |EligibleFrom(g, i)|) ==> r.Some?
  {
    if i == g.NumberOfPlayers() then
      Some(Veto(None, [], inp))
    else if i == g.turn || g.IsDead(i) || !g.HasCard(i, Nope) then
      var r := Negotiate(g, inp, i + 1);
      if r.Some? then SkipStep(g, inp, i, r.value); r else r
    else
      match ReadYesNo(inp, NopeOffer(i))
      case None => None
      case Some((playNope, rest)) =>
        if playNope then
          AcceptStep(g, inp, i);
          Some(Veto(Some(i), [i], rest))
        else
          assert RepliesFor(inp.answers, |EligibleFrom(g, i)|) ==> RepliesFor(rest.answers, |EligibleFrom(g, i + 1)|);
          match Negotiate(g, rest, i + 1)
          case None => None
          case Some(v) =>
            DeclineStep(g, inp, i, v);
            Some(v.(asked := [i] + v.asked))
  }

  /** A player who is not eligible is passed over without touching the input. */
  lemma SkipStep(g: Game, inp: Input, i: nat, v: Veto)
    requires g.Valid() && i < g.NumberOfPlayers() && !Eligible(g, i)
    requires Outcome(EligibleFrom(g, i + 1), inp, v)
    ensures Outcome(EligibleFrom(g, i), inp, v)
  {
    assert EligibleFrom(g, i) == EligibleFrom(g, i + 1);
  }

  /** An eligible player who says yes ends the round as its canceller. */
  lemma AcceptStep(g: Game, inp: Input, i: nat)
    requires g.Valid() && i < g.NumberOfPlayers() && Eligible(g, i)
    requires |inp.answers| > 0 && inp.answers[0] == Reply(true)
    ensures Outcome(EligibleFrom(g, i), inp, Veto(Some(i), [i], Input(inp.answers[1..], inp.transcript + [YesNo(NopeOffer(i))])))
  {
    assert EligibleFrom(g, i) == [i] + EligibleFrom(g, i + 1);
    assert Offers([i]) == [YesNo(NopeOffer(i))];
  }

  /** An eligible player who says no is asked first, then the round goes on. */
  lemma DeclineStep(g: Game, inp: Input, i: nat, v: Veto)
    requires g.Valid() && i < g.NumberOfPlayers() && Eligible(g, i)
    requires |inp.answers| > 0 && inp.answers[0] == Reply(false)
    requires Outcome(EligibleFrom(g, i + 1), Input(inp.answers[1..], inp.transcript + [YesNo(NopeOffer(i))]), v)
    ensures Outcome(EligibleFrom(g, i), inp, v.(asked := [i] + v.asked))
  {
    assert EligibleFrom(g, i) == [i] + EligibleFrom(g, i + 1);
    DeclinedOutcome(EligibleFrom(g, i + 1), inp, i, v);
  }

  /** A leading "no" from player `i` in front of a round over `later` is a round over `[i] + later`. */
  lemma DeclinedOutcome(later: seq<nat>, inp: Input, i: nat, v: Veto)
    requires |inp.answers| > 0 && inp.answers[0] == Reply(false)
    requires Outcome(later, Input(inp.answers[1..], inp.transcript + [YesNo(NopeOffer(i))]), v)
    ensures Outcome([i] + later, inp, v.(asked := [i] + v.asked))
  {
    var asked := [i] + v.asked;
    assert asked == ([i] + later)[..|asked|];
    DeclinedReplies(inp.answers, v.canceller.Some?, |v.asked|);
    DeclinedInput(inp, i, v.asked, v.input);
  }

  /** The input after a leading "no" and the rest of the round is the input after the whole round. */
  lemma DeclinedInput(inp: Input, i: nat, asked: seq<nat>, after: Input)
    requires |asked| + 1 <= |inp.answers|
    requires after == Input(inp.answers[1..][|asked|..], inp.transcript + [YesNo(NopeOffer(i))] + Offers(asked))
    ensures after == Input(inp.answers[|asked| + 1..], inp.transcript + Offers([i] + asked))
  {
    assert inp.answers[1..][|asked|..] == inp.answers[|asked| + 1..];
    OffersAppend([i], asked);
    assert Offers([i]) == [YesNo(NopeOffer(i))];
  }

  /** A leading "no" in front of a well-formed answer record gives a longer well-formed record. */
  lemma DeclinedReplies(answers: seq<Answer>, cancelled: bool, n: nat)
    requires n + 1 <= |answers| && answers[0] == Reply(false) && (cancelled ==> n > 0)
    requires forall k :: 0 <= k < n ==> answers[1..][k] == Reply(cancelled && k == n - 1)
    ensures forall k :: 0 <= k < n + 1 ==> answers[k] == Reply(cancelled && k == n)
  {
    forall k | 0 <= k < n + 1
      ensures answers[k] == Reply(cancelled && k == n)
    {
      if k > 0 {
        assert answers[k] == answers[1..][k - 1];
      }
    }
  }

  lemma OffersAppend(a: seq<nat>, b: seq<nat>)
    ensures Offers(a + b) == Offers(a) + Offers(b)
  {
  }

  /**
   Only eligible players are asked: never the acting player, never a dead
   player, never a player without a NOPE.
   */
  lemma OnlyEligibleAsked(g: Game, inp: Input)
    requires g.Valid()
    ensures var r := Negotiate(g, inp, 0);
      r.Some? ==>
        forall k :: 0 <= k < |r.value.asked| ==>
          && r.value.asked[k] < g.NumberOfPlayers()
          && r.value.asked[k] != g.turn
          && !g.IsDead(r.value.asked[k])
          && g.HasCard(r.value.asked[k], Nope)
  {
  }

  /**
   Prompts go out in strictly ascending player order, one per player asked,
   and there are at most `numberOfPlayers - 1` of them.
   */
  lemma AskedInOrder(g: Game, inp: Input)
    requires g.Valid()
    ensures var r := Negotiate(g, inp, 0);
      r.Some? ==>
        && (forall k, l :: 0 <= k < l < |r.value.asked| ==> r.value.asked[k] < r.value.asked[l])
        && |r.value.asked| <= g.NumberOfPlayers() - 1
        && r.value.input.transcript == inp.transcript + Offers(r.value.asked)
        && r.value.input.answers == inp.answers[|r.value.asked|..]
  {
    EligibleFromCount(g, 0);
  }

  /**
   The first "yes" ends the round: the canceller is the last player asked and
   the only one who said yes, every eligible player before the canceller was
   asked, and no player after the canceller is asked even when eligible.
   */
  lemma FirstYesStops(g: Game, inp: Input)
    requires g.Valid()
    ensures var r := Negotiate(g, inp, 0);
      r.Some? && r.value.canceller.Some? ==>
        var v := r.value;
        var c := v.canceller.value;
        && 0 < |v.asked|
        && c == v.asked[|v.asked| - 1]
        && inp.answers[|v.asked| - 1] == Reply(true)
        && (forall k :: 0 <= k < |v.asked| - 1 ==> inp.answers[k] == Reply(false))
        && (forall p: nat :: Eligible(g, p) && p < c ==> p in v.asked)
        && (forall p :: p in v.asked ==> p <= c)
  {
    var r := Negotiate(g, inp, 0);
    if r.Some? && r.value.canceller.Some? {
      CancelledRound(g, inp, r.value);
    }
  }

  /** The reading of a cancelled round, for any record of it over the eligible players of `g`. */
  lemma CancelledRound(g: Game, inp: Input, v: Veto)
    requires g.Valid()
    requires Outcome(EligibleFrom(g, 0), inp, v) && v.canceller.Some?
    ensures 0 < |v.asked| && v.canceller.value == v.asked[|v.asked| - 1]
    ensures inp.answers[|v.asked| - 1] == Reply(true)
    ensures forall k :: 0 <= k < |v.asked| - 1 ==> inp.answers[k] == Reply(false)
    ensures forall p: nat :: Eligible(g, p) && p < v.canceller.value ==> p in v.asked
    ensures forall p :: p in v.asked ==> p <= v.canceller.value
  {
    var eligible := EligibleFrom(g, 0);
    PrefixBelowLast(eligible, |v.asked|);
    forall p: nat | Eligible(g, p) && p < v.canceller.value
      ensures p in v.asked
    {
      assert p in eligible;
    }
  }

  /** Without a "yes", every eligible player was asked and every one said no. */
  lemma AllDeclined(g: Game, inp: Input)
    requires g.Valid()
    ensures var r := Negotiate(g, inp, 0);
      r.Some? && r.value.canceller.None? ==>
        && (forall k :: 0 <= k < |r.value.asked| ==> inp.answers[k] == Reply(false))
        && (forall p: nat :: Eligible(g, p) ==> p in r.value.asked)
  {
  }

  /**
   In a strictly ascending list, the first `m` entries are exactly the entries
   up to the `m`-th one.
   */
  lemma PrefixBelowLast(ps: seq<nat>, m: nat)
    requires 0 < m <= |ps|
    requires forall k, l :: 0 <= k < l < |ps| ==> ps[k] < ps[l]
    ensures forall p :: p in ps && p < ps[m - 1] ==> p in ps[..m]
    ensures forall p :: p in ps[..m] ==> p <= ps[m - 1]
  {
    forall p | p in ps && p < ps[m - 1]
      ensures p in ps[..m]
    {
      var j :| 0 <= j < |ps| && ps[j] == p;
      assert ps[..m][j] == p;
    }
  }

  /** `m` "no" answers. */
  function Declines(m: nat): (r: seq<Answer>)
    ensures |r| == m && forall k :: 0 <= k < m ==> r[k] == Reply(false)
  {
    seq(m, _ => Reply(false))
  }

  /**
   When every eligible player answers no, the round asks all of them in order,
   cancels nothing and uses exactly their answers.
   */
  lemma RoundAllDeclined(g: Game, inp: Input, rest: seq<Answer>)
    requires g.Valid()
    requires inp.answers == Declines(|EligibleFrom(g, 0)|) + rest
    ensures Negotiate(g, inp, 0)
      == Some(Veto(None, EligibleFrom(g, 0), Input(rest, inp.transcript + Offers(EligibleFrom(g, 0)))))
  {
    var eligible := EligibleFrom(g, 0);
    assert RepliesFor(inp.answers, |eligible|);
    var v := Negotiate(g, inp, 0).value;
    var m := |v.asked|;
    if m > 0 {
      assert inp.answers[m - 1] == Reply(false);
    }
    assert v.asked == eligible;
    assert inp.answers[|eligible|..] == rest;
  }
}
