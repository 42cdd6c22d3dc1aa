/** SRA mental poker: a player holds a commuting key pair (key_c, key_d),
    inverse modulo mod-1, encrypts a deck card by card and shuffles it, and
    strips its own layer from any deck handed to it. */
module Poker {
  import opened NumberTheory
  import opened Sequences
  import opened Random

  /** A std::deque<int64_t> of cards, shared by reference between the driver
      and the players. */
  class Deck {
    var cards: seq<int>

    constructor (cards: seq<int>)
      ensures this.cards == cards
    {
      this.cards := cards;
    }
  }

  /** Every card raised to the power e modulo m, each at its own position. */
  function ExpAll(cards: seq<int>, e: nat, m: int): (r: seq<int>)
    requires m > 0
    ensures |r| == |cards|
    ensures forall i :: 0 <= i < |cards| ==> r[i] == PowMod(cards[i], e, m)
  {
    seq(|cards|, i requires 0 <= i < |cards| => PowMod(cards[i], e, m))
  }

  /** The card after the exponentiation layers `keys` were applied one after the other. */
  function Layers(c: int, keys: seq<nat>, m: int): int
    requires m > 0
    decreases |keys|
  {
    if |keys| == 0 then c else Layers(PowMod(c, keys[0], m), keys[1..], m)
  }

  /** Every card of a deck after the layers `keys`, each at its own position. */
  function LayersAll(cards: seq<int>, keys: seq<nat>, m: int): (r: seq<int>)
    requires m > 0
    ensures |r| == |cards|
    ensures forall i :: 0 <= i < |cards| ==> r[i] == Layers(cards[i], keys, m)
  {
    seq(|cards|, i requires 0 <= i < |cards| => Layers(cards[i], keys, m))
  }

  /** [e0, d0, e1, d1, ...]: each encryption layer immediately undone by its partner. */
  function Interleave(es: seq<nat>, ds: seq<nat>): (r: seq<nat>)
    requires |es| == |ds|
    decreases |es|
  {
    if |es| == 0 then [] else [es[0], ds[0]] + Interleave(es[1..], ds[1..])
  }

  lemma {:induction false} LayersAppend(c: int, ks1: seq<nat>, ks2: seq<nat>, m: int)
    requires m > 0
    ensures Layers(c, ks1 + ks2, m) == Layers(Layers(c, ks1, m), ks2, m)
    decreases |ks1|
  {
    if |ks1| > 0 {
      assert (ks1 + ks2)[0] == ks1[0];
      assert (ks1 + ks2)[1..] == ks1[1..] + ks2;
      LayersAppend(PowMod(c, ks1[0], m), ks1[1..], ks2, m);
    } else {
      assert ks1 + ks2 == ks2;
    }
  }

  /** Several layers amount to one exponentiation by the product of the keys. */
  lemma {:induction false} LayersAsOnePower(c: int, keys: seq<nat>, m: int)
    requires m >= 2 && |keys| >= 1
    ensures Layers(c, keys, m) == PowMod(c, Product(keys), m)
    decreases |keys|
  {
    if |keys| == 1 {
      assert keys[1..] == [];
    } else {
      LayersAsOnePower(PowMod(c, keys[0], m), keys[1..], m);
      PowModCompose(c, keys[0], Product(keys[1..]), m);
    }
  }

  /** Order-independence of decryption: applying the same keys in any order
      gives the same card. */
  lemma DecryptionOrderIrrelevant(c: int, ks1: seq<nat>, ks2: seq<nat>, m: int)
    requires m >= 2 && |ks1| >= 1
    requires multiset(ks1) == multiset(ks2)
    ensures Layers(c, ks1, m) == Layers(c, ks2, m)
  {
    assert |ks2| == |multiset(ks2)| == |multiset(ks1)| == |ks1|;
    LayersAsOnePower(c, ks1, m);
    LayersAsOnePower(c, ks2, m);
    ProductPermutation(ks1, ks2);
  }

  lemma {:induction false} InterleaveMultiset(es: seq<nat>, ds: seq<nat>)
    requires |es| == |ds|
    ensures multiset(Interleave(es, ds)) == multiset(es) + multiset(ds)
    decreases |es|
  {
    if |es| > 0 {
      var e, d := es[0], ds[0];
      var tail := Interleave(es[1..], ds[1..]);
      InterleaveMultiset(es[1..], ds[1..]);
      calc {
        multiset(Interleave(es, ds));
        multiset([e, d] + tail);
        multiset([e, d]) + multiset(tail);
        { assert [e, d] == [e] + [d]; }
        multiset([e]) + multiset([d]) + multiset(es[1..]) + multiset(ds[1..]);
        { ConsMultiset(es); ConsMultiset(ds); }
        multiset(es) + multiset(ds);
      }
    }
  }

  lemma {:induction false} InterleavedPairsCancel(c: int, es: seq<nat>, ds: seq<nat>, m: int)
    requires |es| == |ds| && 0 <= c < m
    requires forall i :: 0 <= i < |es| ==> ExponentsInvert(es[i], ds[i], m)
    ensures Layers(c, Interleave(es, ds), m) == c
    decreases |es|
  {
    if |es| > 0 {
      assert ExponentsInvert(es[0], ds[0], m);
      var il := Interleave(es, ds);
      assert il[1..][1..] == Interleave(es[1..], ds[1..]);
      InterleavedPairsCancel(c, es[1..], ds[1..], m);
    }
  }

  /** The SRA round trip: a card encrypted by every player in turn and then
      decrypted by every player, in any order, is the original card. */
  lemma SraRoundTrip(c: int, encKeys: seq<nat>, decKeys: seq<nat>, order: seq<nat>, m: int)
    requires m >= 2 && 0 <= c < m
    requires |encKeys| == |decKeys| >= 1
    requires forall i :: 0 <= i < |encKeys| ==> ExponentsInvert(encKeys[i], decKeys[i], m)
    requires multiset(order) == multiset(decKeys)
    ensures Layers(Layers(c, encKeys, m), order, m) == c
  {
    LayersAppend(c, encKeys, order, m);
    InterleaveMultiset(encKeys, decKeys);
    assert multiset(encKeys + order) == multiset(encKeys + decKeys);
    DecryptionOrderIrrelevant(c, encKeys + order, Interleave(encKeys, decKeys), m);
    InterleavedPairsCancel(c, encKeys, decKeys, m);
  }

  /** One more layer on every card of a layered deck is the longer list of layers. */
  lemma ExpAllExtendsLayers(cards: seq<int>, keys: seq<nat>, e: nat, m: int)
    requires m > 0
    ensures ExpAll(LayersAll(cards, keys, m), e, m) == LayersAll(cards, keys + [e], m)
  {
    forall i | 0 <= i < |cards|
      ensures PowMod(Layers(cards[i], keys, m), e, m) == Layers(cards[i], keys + [e], m)
    {
      LayersAppend(cards[i], keys, [e], m);
      assert [e][1..] == [];
    }
  }

  /** Layering a rearranged deck gives a rearrangement of the layered deck. */
  lemma {:induction false} LayersAllPermutation(a: seq<int>, b: seq<int>, keys: seq<nat>, m: int)
    requires m > 0 && multiset(a) == multiset(b)
    ensures multiset(LayersAll(a, keys, m)) == multiset(LayersAll(b, keys, m))
    decreases |a|
  {
    if |a| == 0 {
      assert |b| == |multiset(b)| == 0;
      assert LayersAll(a, keys, m) == [] == LayersAll(b, keys, m);
    } else {
      assert a[0] in multiset(b);
      var j :| 0 <= j < |b| && b[j] == a[0];
      MultisetRemove(a, b, j);
      LayersAllPermutation(a[1..], b[..j] + b[j + 1..], keys, m);
      LayersAllPermutationStep(a, b, j, keys, m);
    }
  }

  /** The inductive step: the first card of a matched with card j of b. */
  lemma LayersAllPermutationStep(a: seq<int>, b: seq<int>, j: nat, keys: seq<nat>, m: int)
    requires m > 0 && |a| > 0 && j < |b| && b[j] == a[0]
    requires multiset(LayersAll(a[1..], keys, m)) == multiset(LayersAll(b[..j] + b[j + 1..], keys, m))
    ensures multiset(LayersAll(a, keys, m)) == multiset(LayersAll(b, keys, m))
  {
    LayersAllFirst(a, keys, m);
    LayersAllRemove(b, j, keys, m);
  }

  /** The layered deck is the layered first card and the layered rest. */
  lemma LayersAllFirst(a: seq<int>, keys: seq<nat>, m: int)
    requires m > 0 && |a| > 0
    ensures multiset(LayersAll(a, keys, m)) == multiset(LayersAll(a[1..], keys, m)) + multiset{Layers(a[0], keys, m)}
  {
    assert LayersAll(a, keys, m) == [Layers(a[0], keys, m)] + LayersAll(a[1..], keys, m);
  }

  /** Taking one card out of a deck takes its layered value out of the
      layered deck. */
  lemma LayersAllRemove(b: seq<int>, j: nat, keys: seq<nat>, m: int)
    requires m > 0 && j < |b|
    ensures multiset(LayersAll(b, keys, m))
         == multiset(LayersAll(b[..j] + b[j + 1..], keys, m)) + multiset{Layers(b[j], keys, m)}
  {
    var l1, l2 := LayersAll(b[..j], keys, m), LayersAll(b[j + 1..], keys, m);
    assert LayersAll(b, keys, m) == l1 + [Layers(b[j], keys, m)] + l2;
    assert LayersAll(b[..j] + b[j + 1..], keys, m) == l1 + l2;
  }

  /** The key candidate drawn from raw value `raw` is coprime to mod-1. */
  predicate KeyAccepted(mod: int, raw: nat)
    requires mod >= 4
  {
    ExtendedGcd(Uniform(2, mod - 2, raw), mod - 1).0 == 1
  }

  class Player {
    const keyC: nat
    const keyD: nat
    /** The player's own hand (its `cards` member); get_cards hands out this object. */
    const hand: Deck
    /** The modulus the keys were generated for. */
    ghost const modulus: int

    ghost predicate Valid() {
      && modulus >= 4
      && 2 <= keyC <= modulus - 2
      && ExtendedGcd(keyC, modulus - 1).0 == 1
      && keyD <= modulus - 1
      && (keyC * keyD) % (modulus - 1) == 1
    }

    /** Key generation: draws key_c uniformly from [2, mod-2] until
        gcd(key_c, mod-1) == 1, then takes the Bezout coefficient of key_c as
        key_d, shifted by mod-1 when negative. The raw draws are the
        successive outputs of the engine, at least one of which is accepted. */
    constructor (mod: int, draws: seq<nat>)
      requires mod >= 4
      requires exists i :: 0 <= i < |draws| && KeyAccepted(mod, draws[i])
      ensures Valid() && modulus == mod
      ensures exists i :: 0 <= i < |draws| && keyC == Uniform(2, mod - 2, draws[i])
                && KeyAccepted(mod, draws[i])
                && forall j :: 0 <= j < i ==> !KeyAccepted(mod, draws[j])
      ensures fresh(hand) && hand.cards == []
    {
      var i := 0;
      var kc := Uniform(2, mod - 2, draws[0]);
      var gcdResult := ExtendedGcd(kc, mod - 1);
      while gcdResult.0 != 1
        invariant 0 <= i < |draws| && kc == Uniform(2, mod - 2, draws[i])
        invariant gcdResult == ExtendedGcd(kc, mod - 1)
        invariant forall j :: 0 <= j < i ==> !KeyAccepted(mod, draws[j])
        invariant exists j :: i <= j < |draws| && KeyAccepted(mod, draws[j])
        decreases |draws| - i
      {
        i := i + 1;
        kc := Uniform(2, mod - 2, draws[i]);
        gcdResult := ExtendedGcd(kc, mod - 1);
      }
      var kd := gcdResult.2;
      BackCoefficientIsInverse(kc, mod - 1);
      if kd < 0 {
        kd := kd + (mod - 1);
      }
      keyC := kc;
      keyD := kd;
      modulus := mod;
      hand := new Deck([]);
    }

    /** operator=(const deque&): the hand becomes a copy of the given cards. */
    method AssignCopy(other: seq<int>)
      modifies hand
      ensures hand.cards == other
    {
      hand.cards := other;
    }

    /** operator=(deque&&): the hand takes over the given deque's cards; what
        is left in the moved-from deque is unspecified. */
    method AssignMove(other: Deck)
      requires other != hand
      modifies hand, other
      ensures hand.cards == old(other.cards)
    {
      hand.cards := other.cards;
      other.cards := [];
    }

    /** get_cards: a reference to the player's own hand, not a copy. */
    method GetCards() returns (cards: Deck)
      ensures cards == hand
    {
      cards := hand;
    }

    /** std::shuffle: Fisher-Yates from the back to the front, swapping
        position i with a position drawn uniformly from [0, i]. */
    static method Shuffle(deck: Deck, draws: seq<nat>)
      requires |draws| == |deck.cards|
      modifies deck
      ensures |deck.cards| == |old(deck.cards)|
      ensures multiset(deck.cards) == multiset(old(deck.cards))
    {
      var i := |deck.cards|;
      while i > 1
        invariant 0 <= i <= |deck.cards| == |draws|
        invariant multiset(deck.cards) == multiset(old(deck.cards))
        decreases i
      {
        var j := Uniform(0, i - 1, draws[i - 1]);
        deck.cards := deck.cards[i - 1 := deck.cards[j]][j := deck.cards[i - 1]];
        i := i - 1;
      }
    }

    /** deck_encryption: every card raised to key_c in place, then the deck
        shuffled. The player's keys are constants and only the deck changes. */
    method DeckEncryption(deck: Deck, mod: int, shuffleDraws: seq<nat>)
      requires Valid() && mod > 0
      requires |shuffleDraws| == |deck.cards|
      modifies deck
      ensures |deck.cards| == |old(deck.cards)|
      ensures multiset(deck.cards) == multiset(ExpAll(old(deck.cards), keyC, mod))
    {
      var i := 0;
      while i < |deck.cards|
        invariant 0 <= i <= |deck.cards| == |old(deck.cards)|
        invariant deck.cards[..i] == ExpAll(old(deck.cards), keyC, mod)[..i]
        invariant deck.cards[i..] == old(deck.cards)[i..]
        decreases |deck.cards| - i
      {
        var card := ComputePowMod(deck.cards[i], keyC, mod);
        deck.cards := deck.cards[i := card];
        i := i + 1;
      }
      assert deck.cards == ExpAll(old(deck.cards), keyC, mod);
      Shuffle(deck, shuffleDraws);
    }

    /** deck_decryption: every card raised to key_d at its own position. */
    method DeckDecryption(deck: Deck, mod: int)
      requires Valid() && mod > 0
      modifies deck
      ensures deck.cards == ExpAll(old(deck.cards), keyD, mod)
    {
      var i := 0;
      while i < |deck.cards|
        invariant 0 <= i <= |deck.cards| == |old(deck.cards)|
        invariant deck.cards[..i] == ExpAll(old(deck.cards), keyD, mod)[..i]
        invariant deck.cards[i..] == old(deck.cards)[i..]
        decreases |deck.cards| - i
      {
        var card := ComputePowMod(deck.cards[i], keyD, mod);
        deck.cards := deck.cards[i := card];
        i := i + 1;
      }
    }
  }
}
