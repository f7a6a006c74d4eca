/**
 The game state the effects read and change. Only the narrow operations the
 effects call are modelled: turn, players, dead flags, hands and deck, and the
 six mutators draw-from-bottom, add-to-hand, remove-from-hand, explode,
 defuse-and-insert and shuffle. The deck is listed from the top: `deck[0]` is
 the top card and the last element is the bottom card.
 */
module GameState {
  import opened Cards

  datatype Game = Game(turn: nat, dead: seq<bool>, hands: seq<multiset<Card>>, deck: seq<Card>)
  {
    function NumberOfPlayers(): nat {
      |hands|
    }

    /** One dead flag and one hand per player, and the turn names a player. */
    predicate Valid() {
      |dead| == |hands| && turn < |hands|
    }

    predicate IsDead(p: nat)
      requires Valid() && p < NumberOfPlayers()
    {
      dead[p]
    }

    predicate HasCard(p: nat, t: CardType)
      requires Valid() && p < NumberOfPlayers()
    {
      Card(t) in hands[p]
    }
  }

  /** Every card held by some player, counted with multiplicity. */
  function HandsTotal(hands: seq<multiset<Card>>): multiset<Card>
  {
    if |hands| == 0 then multiset{} else HandsTotal(hands[..|hands| - 1]) + hands[|hands| - 1]
  }

  /** Every card in play: the deck together with all hands. */
  function AllCards(g: Game): multiset<Card>
  {
    multiset(g.deck) + HandsTotal(g.hands)
  }

  /** Adding cards to one hand adds exactly those cards to the total. */
  lemma {:induction false} HandsTotalAdd(hands: seq<multiset<Card>>, p: nat, m: multiset<Card>)
    requires p < |hands|
    ensures HandsTotal(hands[p := hands[p] + m]) == HandsTotal(hands) + m
  {
    var n := |hands|;
    var updated := hands[p := hands[p] + m];
    var rest := HandsTotal(hands[..n - 1]);
    if p < n - 1 {
      assert updated[..n - 1] == hands[..n - 1][p := hands[..n - 1][p] + m];
      HandsTotalAdd(hands[..n - 1], p, m);
      calc {
        HandsTotal(updated);
        HandsTotal(updated[..n - 1]) + hands[n - 1];
        rest + m + hands[n - 1];
        rest + hands[n - 1] + m;
      }
    } else {
      assert updated[..n - 1] == hands[..n - 1];
      calc {
        HandsTotal(updated);
        rest + (hands[n - 1] + m);
        rest + hands[n - 1] + m;
      }
    }
  }

  /** Taking cards out of one hand takes exactly those cards out of the total. */
  lemma HandsTotalRemove(hands: seq<multiset<Card>>, p: nat, m: multiset<Card>)
    requires p < |hands| && m <= hands[p]
    ensures HandsTotal(hands[p := hands[p] - m]) + m == HandsTotal(hands)
  {
    var smaller := hands[p := hands[p] - m];
    assert hands[p] - m + m == hands[p];
    assert smaller[p := smaller[p] + m] == hands;
    HandsTotalAdd(smaller, p, m);
  }

  /** Takes the bottom card off the deck. */
  function DrawFromBottom(g: Game): (r: (Card, Game))
    requires |g.deck| > 0
    ensures r.1.deck + [r.0] == g.deck
    ensures r.1 == g.(deck := r.1.deck)
  {
    (g.deck[|g.deck| - 1], g.(deck := g.deck[..|g.deck| - 1]))
  }

  /** Puts a card into the hand of the player whose turn it is. */
  function AddCardToHand(g: Game, c: Card): (r: Game)
    requires g.Valid()
    ensures r.Valid() && |r.hands| == |g.hands|
    ensures r.hands[g.turn] == g.hands[g.turn] + multiset{c}
    ensures forall p :: 0 <= p < |g.hands| && p != g.turn ==> r.hands[p] == g.hands[p]
    ensures r == g.(hands := r.hands)
    ensures AllCards(r) == AllCards(g) + multiset{c}
  {
    HandsTotalAdd(g.hands, g.turn, multiset{c});
    g.(hands := g.hands[g.turn := g.hands[g.turn] + multiset{c}])
  }

  /** Takes one card of type `t` out of player `p`'s hand; the player must hold one. */
  function RemoveCardFromHand(g: Game, p: nat, t: CardType): (r: Game)
    requires g.Valid() && p < g.NumberOfPlayers() && g.HasCard(p, t)
    ensures r.Valid() && |r.hands| == |g.hands|
    ensures r.hands[p] + multiset{Card(t)} == g.hands[p]
    ensures forall q :: 0 <= q < |g.hands| && q != p ==> r.hands[q] == g.hands[q]
    ensures r == g.(hands := r.hands)
    ensures AllCards(r) + multiset{Card(t)} == AllCards(g)
  {
    HandsTotalRemove(g.hands, p, multiset{Card(t)});
    g.(hands := g.hands[p := g.hands[p] - multiset{Card(t)}])
  }

  /** Eliminates player `p`. */
  function PlayExplodingKitten(g: Game, p: nat): (r: Game)
    requires g.Valid() && p < g.NumberOfPlayers()
    ensures r.Valid() && |r.dead| == |g.dead| && r.IsDead(p)
    ensures forall q :: 0 <= q < |g.dead| && q != p ==> r.dead[q] == g.dead[q]
    ensures r == g.(dead := r.dead)
  {
    g.(dead := g.dead[p := true])
  }

  /**
   Player `p` spends one Defuse and the Exploding Kitten goes back into the
   deck so that `index` cards lie above it; `index` ranges over `[0, |deck|]`.
   */
  function PlayDefuse(g: Game, index: int, p: nat): (r: Game)
    requires g.Valid() && p < g.NumberOfPlayers() && g.HasCard(p, Defuse)
    requires 0 <= index <= |g.deck|
    ensures r.Valid() && |r.hands| == |g.hands|
    ensures |r.deck| == |g.deck| + 1 && r.deck[index] == Card(ExplodingKitten)
    ensures r.deck[..index] == g.deck[..index] && r.deck[index + 1..] == g.deck[index..]
    ensures r.hands[p] + multiset{Card(Defuse)} == g.hands[p]
    ensures forall q :: 0 <= q < |g.hands| && q != p ==> r.hands[q] == g.hands[q]
    ensures r == g.(deck := r.deck, hands := r.hands)
    ensures AllCards(r) + multiset{Card(Defuse)} == AllCards(g) + multiset{Card(ExplodingKitten)}
  {
    var without := RemoveCardFromHand(g, p, Defuse);
    var deck := g.deck[..index] + [Card(ExplodingKitten)] + g.deck[index..];
    assert g.deck == g.deck[..index] + g.deck[index..];
    assert deck[index + 1..] == g.deck[index..];
    without.(deck := deck)
  }

  /** One shuffle pass per call: `pass(k, d)` is the deck after pass number `k` over `d`. */
  type Shuffler = (nat, seq<Card>) -> seq<Card>

  /** A shuffler that only ever rearranges the cards it is given. */
  ghost predicate Permutes(pass: Shuffler)
  {
    forall k, d :: multiset(pass(k, d)) == multiset(d)
  }

  /** The deck after `times` passes, pass 0 first. */
  function Reshuffled(deck: seq<Card>, times: nat, pass: Shuffler): seq<Card>
    decreases times
  {
    if times == 0 then deck else pass(times - 1, Reshuffled(deck, times - 1, pass))
  }

  lemma {:induction false} ReshuffledKeepsCards(deck: seq<Card>, times: nat, pass: Shuffler)
    ensures Permutes(pass) ==> multiset(Reshuffled(deck, times, pass)) == multiset(deck)
  {
    if times > 0 {
      ReshuffledKeepsCards(deck, times - 1, pass);
    }
  }

  /** Shuffles the deck `times` times; nothing but the deck order changes. */
  function PlayShuffle(g: Game, times: nat, pass: Shuffler): (r: Game)
    ensures r == g.(deck := r.deck)
    ensures Permutes(pass) ==> multiset(r.deck) == multiset(g.deck) && AllCards(r) == AllCards(g)
  {
    ReshuffledKeepsCards(g.deck, times, pass);
    g.(deck := Reshuffled(g.deck, times, pass))
  }
}
