/** The poker example driver: N players share a 52-card deck, each encrypts
    and shuffles it in turn, two-card hands are dealt from the front, every
    hand is decrypted by the other players and then by its owner, and a
    five-card board is decrypted by everybody. */
module PokerExample {
  import opened Wrappers
  import opened NumberTheory
  import opened Fermat
  import opened Poker

  const PLAYER_HAND_SIZE: nat := 2
  const DECK_SIZE: nat := 52
  const MAX_PLAYERS: nat := 10
  const BOARD_SIZE: nat := 5

  /** The cards 2, 3, ..., 53 in order. */
  function StandardDeck(): (r: seq<int>)
    ensures |r| == DECK_SIZE
  {
    seq(DECK_SIZE, i => i + 2)
  }

  /** What the players see at the end: the revealed hands and the board. */
  datatype Table = Table(hands: seq<seq<int>>, board: seq<int>)

  /** Raw key draws a player constructor can consume for this modulus. */
  predicate KeyDrawsFit(draws: seq<nat>, mod: int)
    requires mod >= 4
  {
    exists i :: 0 <= i < |draws| && KeyAccepted(mod, draws[i])
  }

  /** The decryption keys of the players before j other than player i, in index order. */
  function OthersKeys(ds: seq<nat>, i: nat, j: nat): seq<nat>
    requires i < |ds| && j <= |ds|
  {
    if j <= i then ds[..j] else ds[..i] + ds[i + 1..j]
  }

  /** The order in which hand i is decrypted: everybody else, then its owner. */
  function RevealOrder(ds: seq<nat>, i: nat): seq<nat>
    requires i < |ds|
  {
    OthersKeys(ds, i, |ds|) + [ds[i]]
  }

  /** The next player's key, unless it is the owner's, joins the others' keys. */
  lemma OthersKeysStep(ds: seq<nat>, i: nat, j: nat)
    requires i < |ds| && j < |ds|
    ensures j != i ==> OthersKeys(ds, i, j + 1) == OthersKeys(ds, i, j) + [ds[j]]
    ensures j == i ==> OthersKeys(ds, i, j + 1) == OthersKeys(ds, i, j)
  {
    if j < i {
      assert ds[..j + 1] == ds[..j] + [ds[j]];
    } else if j > i {
      assert ds[i + 1..j + 1] == ds[i + 1..j] + [ds[j]];
    } else {
      assert ds[i + 1..j + 1] == [];
    }
  }

  /** Every player's key is used exactly once on each hand. */
  lemma RevealOrderUsesEveryKey(ds: seq<nat>, i: nat)
    requires i < |ds|
    ensures multiset(RevealOrder(ds, i)) == multiset(ds)
  {
    assert ds == ds[..i] + [ds[i]] + ds[i + 1..];
    assert RevealOrder(ds, i) == ds[..i] + ds[i + 1..] + [ds[i]];
  }

  predicate Dealt(players: seq<Player>, deck: Deck)
    reads players
  {
    && (forall a, b :: 0 <= a < b < |players| ==> players[a].hand != players[b].hand)
    && (forall k :: 0 <= k < |players| ==> players[k].hand != deck)
  }

  /** The deck loop: the cards 2..53 pushed to the back one by one. */
  method NewDeck() returns (deck: Deck)
    ensures fresh(deck) && deck.cards == StandardDeck()
  {
    deck := new Deck([]);
    var i := 2;
    while i < DECK_SIZE + 2
      invariant 2 <= i <= DECK_SIZE + 2
      invariant deck.cards == StandardDeck()[..i - 2]
    {
      deck.cards := deck.cards + [i];
      i := i + 1;
    }
  }

  /** Players are created in order, each encrypting and shuffling the shared
      deck right after its keys are made. */
  method CreatePlayers(n: nat, mod: int, deck: Deck, keyDraws: seq<seq<nat>>, shuffleDraws: seq<seq<nat>>)
    returns (players: seq<Player>, ghost cs: seq<nat>, ghost ds: seq<nat>)
    requires mod >= 4 && n <= |keyDraws| && n <= |shuffleDraws|
    requires forall k :: 0 <= k < n ==> KeyDrawsFit(keyDraws[k], mod)
    requires forall k :: 0 <= k < n ==> |shuffleDraws[k]| == |deck.cards|
    modifies deck
    ensures |players| == |cs| == |ds| == n
    ensures forall k :: 0 <= k < n ==> players[k].Valid() && players[k].modulus == mod
    ensures forall k :: 0 <= k < n ==> cs[k] == players[k].keyC && ds[k] == players[k].keyD
    ensures forall k :: 0 <= k < n ==> fresh(players[k].hand)
    ensures Dealt(players, deck)
    ensures |deck.cards| == |old(deck.cards)|
    ensures multiset(deck.cards) == multiset(LayersAll(old(deck.cards), cs, mod))
  {
    players, cs, ds := [], [], [];
    ghost var start := deck.cards;
    assert LayersAll(start, [], mod) == start;
    while |players| < n
      invariant |players| == |cs| == |ds| <= n
      invariant forall k :: 0 <= k < |players| ==> players[k].Valid() && players[k].modulus == mod
      invariant forall k :: 0 <= k < |players| ==> cs[k] == players[k].keyC && ds[k] == players[k].keyD
      invariant forall k :: 0 <= k < |players| ==> fresh(players[k].hand)
      invariant Dealt(players, deck)
      invariant |deck.cards| == |start|
      invariant multiset(deck.cards) == multiset(LayersAll(start, cs, mod))
      decreases n - |players|
    {
      var k := |players|;
      var player := new Player(mod, keyDraws[k]);
      ghost var before := deck.cards;
      player.DeckEncryption(deck, mod, shuffleDraws[k]);
      EncryptionAddsLayer(before, start, cs, player.keyC, mod);
      players, cs, ds := players + [player], cs + [player.keyC], ds + [player.keyD];
    }
  }

  /** Encrypting a rearrangement of the layered deck with one more key gives
      a rearrangement of the deck with that layer added. */
  lemma EncryptionAddsLayer(before: seq<int>, start: seq<int>, cs: seq<nat>, e: nat, m: int)
    requires m > 0 && multiset(before) == multiset(LayersAll(start, cs, m))
    ensures multiset(ExpAll(before, e, m)) == multiset(LayersAll(start, cs + [e], m))
  {
    LayersAllPermutation(before, LayersAll(start, cs, m), [e], m);
    ExpAllAsOneLayer(before, e, m);
    ExpAllAsOneLayer(LayersAll(start, cs, m), e, m);
    ExpAllExtendsLayers(start, cs, e, m);
  }

  lemma ExpAllAsOneLayer(cards: seq<int>, e: nat, m: int)
    requires m > 0
    ensures ExpAll(cards, e, m) == LayersAll(cards, [e], m)
  {
    forall k | 0 <= k < |cards|
      ensures ExpAll(cards, e, m)[k] == Layers(cards[k], [e], m)
    {
      assert [e][1..] == [];
    }
  }

  /** Dealing: each player in turn move-assigns a fresh deque holding the
      deck's two front cards, which are then erased from the deck. */
  method Deal(players: seq<Player>, deck: Deck)
    requires Dealt(players, deck)
    requires PLAYER_HAND_SIZE * |players| <= |deck.cards|
    modifies deck, set k | 0 <= k < |players| :: players[k].hand
    ensures deck.cards == old(deck.cards)[PLAYER_HAND_SIZE * |players|..]
    ensures forall k :: 0 <= k < |players| ==>
      players[k].hand.cards == old(deck.cards)[PLAYER_HAND_SIZE * k..PLAYER_HAND_SIZE * (k + 1)]
  {
    ghost var start := deck.cards;
    var k := 0;
    while k < |players|
      invariant 0 <= k <= |players|
      invariant deck.cards == start[PLAYER_HAND_SIZE * k..]
      invariant forall j :: 0 <= j < k ==>
        players[j].hand.cards == start[PLAYER_HAND_SIZE * j..PLAYER_HAND_SIZE * (j + 1)]
    {
      var front := new Deck(deck.cards[..PLAYER_HAND_SIZE]);
      players[k].AssignMove(front);
      deck.cards := deck.cards[PLAYER_HAND_SIZE..];
      k := k + 1;
    }
  }

  /** Hand i is decrypted by every other player in index order, then by its owner. */
  method RevealHand(players: seq<Player>, i: nat, mod: int, ghost ds: seq<nat>)
    requires i < |players| == |ds| && mod > 0
    requires forall k :: 0 <= k < |players| ==> players[k].Valid() && ds[k] == players[k].keyD
    modifies players[i].hand
    ensures players[i].hand.cards == LayersAll(old(players[i].hand.cards), RevealOrder(ds, i), mod)
  {
    var hand := players[i].GetCards();
    ghost var start := hand.cards;
    assert LayersAll(start, [], mod) == start;
    var j := 0;
    while j < |players|
      invariant 0 <= j <= |players|
      invariant hand.cards == LayersAll(start, OthersKeys(ds, i, j), mod)
    {
      OthersKeysStep(ds, i, j);
      if i != j {
        players[j].DeckDecryption(hand, mod);
        ExpAllExtendsLayers(start, OthersKeys(ds, i, j), ds[j], mod);
      }
      j := j + 1;
    }
    players[i].DeckDecryption(hand, mod);
    ExpAllExtendsLayers(start, OthersKeys(ds, i, j), ds[i], mod);
  }

  /** Every hand is revealed in turn; hands[k] is what player k holds before. */
  method RevealHands(players: seq<Player>, mod: int, ghost ds: seq<nat>, ghost hands: seq<seq<int>>)
    requires |players| == |ds| == |hands| && mod > 0
    requires forall k :: 0 <= k < |players| ==> players[k].Valid() && ds[k] == players[k].keyD
    requires forall k :: 0 <= k < |players| ==> players[k].hand.cards == hands[k]
    requires forall a, b :: 0 <= a < b < |players| ==> players[a].hand != players[b].hand
    modifies set k | 0 <= k < |players| :: players[k].hand
    ensures forall k :: 0 <= k < |players| ==>
      players[k].hand.cards == LayersAll(hands[k], RevealOrder(ds, k), mod)
  {
    var i := 0;
    while i < |players|
      invariant 0 <= i <= |players|
      invariant forall k :: 0 <= k < i ==>
        players[k].hand.cards == LayersAll(hands[k], RevealOrder(ds, k), mod)
      invariant forall k :: i <= k < |players| ==> players[k].hand.cards == hands[k]
    {
      RevealHand(players, i, mod, ds);
      i := i + 1;
    }
  }

  /** The board is a copy of the next five cards, decrypted once by every player. */
  method RevealBoard(players: seq<Player>, deck: Deck, mod: int, ghost ds: seq<nat>) returns (board: Deck)
    requires |players| == |ds| && mod > 0 && BOARD_SIZE <= |deck.cards|
    requires forall k :: 0 <= k < |players| ==> players[k].Valid() && ds[k] == players[k].keyD
    ensures fresh(board)
    ensures board.cards == LayersAll(deck.cards[..BOARD_SIZE], ds, mod)
  {
    board := new Deck(deck.cards[..BOARD_SIZE]);
    ghost var start := board.cards;
    assert LayersAll(start, [], mod) == start;
    var k := 0;
    while k < |players|
      invariant 0 <= k <= |players|
      invariant board.cards == LayersAll(start, ds[..k], mod)
    {
      players[k].DeckDecryption(board, mod);
      ExpAllExtendsLayers(start, ds[..k], ds[k], mod);
      assert ds[..k + 1] == ds[..k] + [ds[k]];
      k := k + 1;
    }
    assert ds[..k] == ds;
  }

  /** Every hand's decryption order holds each player's key once, so the
      revealed hand is the hand with all keys removed in index order. */
  lemma HandRevealsLayersRemoved(h: seq<int>, order: seq<nat>, ds: seq<nat>, m: int)
    requires m >= 2 && |ds| >= 1 && multiset(order) == multiset(ds)
    ensures LayersAll(h, order, m) == LayersAll(h, ds, m)
  {
    assert |order| == |multiset(order)| == |ds|;
    forall k | 0 <= k < |h|
      ensures Layers(h[k], order, m) == Layers(h[k], ds, m)
    {
      DecryptionOrderIrrelevant(h[k], order, ds, m);
    }
  }

  /** With a prime modulus above every card, removing all keys from the fully
      encrypted deck gives back a rearrangement of the standard deck. */
  lemma DecryptedDeckIsStandard(e: seq<int>, cs: seq<nat>, ds: seq<nat>, m: int)
    requires IsPrime(m) && m > DECK_SIZE + 1
    requires |cs| == |ds| >= 1
    requires forall k :: 0 <= k < |cs| ==> (cs[k] * ds[k]) % (m - 1) == 1
    requires multiset(e) == multiset(LayersAll(StandardDeck(), cs, m))
    ensures multiset(LayersAll(e, ds, m)) == multiset(StandardDeck())
  {
    var sd := StandardDeck();
    forall k | 0 <= k < |cs|
      ensures ExponentsInvert(cs[k], ds[k], m)
    {
      PrimeExponentsInvert(m, cs[k], ds[k]);
    }
    LayersAllPermutation(e, LayersAll(sd, cs, m), ds, m);
    forall k | 0 <= k < |sd|
      ensures LayersAll(LayersAll(sd, cs, m), ds, m)[k] == sd[k]
    {
      SraRoundTrip(sd[k], cs, ds, ds, m);
    }
    assert LayersAll(LayersAll(sd, cs, m), ds, m) == sd;
  }

  /** The players' hands, in player order. */
  method CollectHands(players: seq<Player>) returns (hands: seq<seq<int>>)
    ensures |hands| == |players|
    ensures forall i :: 0 <= i < |players| ==> hands[i] == players[i].hand.cards
  {
    hands := [];
    while |hands| < |players|
      invariant |hands| <= |players|
      invariant forall i :: 0 <= i < |hands| ==> hands[i] == players[i].hand.cards
    {
      hands := hands + [players[|hands|].hand.cards];
    }
  }

  /** The revealed hands and board are consecutive slices of the deck with
      every key removed, and that deck is a rearrangement of 2..53. */
  lemma TableComesFromDeck(encrypted: seq<int>, cs: seq<nat>, ds: seq<nat>, m: int,
                           hands: seq<seq<int>>, board: seq<int>)
    requires IsPrime(m) && m > DECK_SIZE + 1
    requires |cs| == |ds| == |hands| >= 1
    requires |encrypted| == DECK_SIZE && PLAYER_HAND_SIZE * |hands| + BOARD_SIZE <= DECK_SIZE
    requires forall k :: 0 <= k < |cs| ==> (cs[k] * ds[k]) % (m - 1) == 1
    requires multiset(encrypted) == multiset(LayersAll(StandardDeck(), cs, m))
    requires forall i :: 0 <= i < |hands| ==>
      hands[i] == LayersAll(encrypted[PLAYER_HAND_SIZE * i..PLAYER_HAND_SIZE * (i + 1)], RevealOrder(ds, i), m)
    requires board == LayersAll(encrypted[PLAYER_HAND_SIZE * |hands|..][..BOARD_SIZE], ds, m)
    ensures RevealsShuffledDeck(Table(hands, board))
  {
    DecryptedDeckIsStandard(encrypted, cs, ds, m);
    var o := LayersAll(encrypted, ds, m);
    assert |o| == |multiset(o)| == DECK_SIZE;
    forall i | 0 <= i < |hands|
      ensures hands[i] == o[PLAYER_HAND_SIZE * i..PLAYER_HAND_SIZE * (i + 1)]
    {
      RevealOrderUsesEveryKey(ds, i);
      HandRevealsLayersRemoved(encrypted[PLAYER_HAND_SIZE * i..PLAYER_HAND_SIZE * (i + 1)],
                               RevealOrder(ds, i), ds, m);
    }
    assert board == o[PLAYER_HAND_SIZE * |hands|..PLAYER_HAND_SIZE * |hands| + BOARD_SIZE];
    assert |Table(hands, board).hands| == |hands|;
  }

  /** The table shows a rearrangement of 2..53 dealt out in order: hand i
      is its slice [2i, 2i+2) and the board the five cards after the hands. */
  ghost predicate RevealsShuffledDeck(table: Table)
    requires PLAYER_HAND_SIZE * |table.hands| + BOARD_SIZE <= DECK_SIZE
  {
    exists o: seq<int> ::
      && multiset(o) == multiset(StandardDeck())
      && |o| == DECK_SIZE
      && (forall i :: 0 <= i < |table.hands| ==>
            table.hands[i] == o[PLAYER_HAND_SIZE * i..PLAYER_HAND_SIZE * (i + 1)])
      && table.board == o[PLAYER_HAND_SIZE * |table.hands|..PLAYER_HAND_SIZE * |table.hands| + BOARD_SIZE]
  }

  /** Decrypting the dealt hands and the board. */
  method Reveal(players: seq<Player>, deck: Deck, mod: int, ghost ds: seq<nat>, ghost encrypted: seq<int>)
    returns (table: Table)
    requires |players| == |ds| && mod > 0
    requires |encrypted| == DECK_SIZE && PLAYER_HAND_SIZE * |players| + BOARD_SIZE <= DECK_SIZE
    requires forall k :: 0 <= k < |players| ==> players[k].Valid() && ds[k] == players[k].keyD
    requires Dealt(players, deck)
    requires deck.cards == encrypted[PLAYER_HAND_SIZE * |players|..]
    requires forall k :: 0 <= k < |players| ==>
      players[k].hand.cards == encrypted[PLAYER_HAND_SIZE * k..PLAYER_HAND_SIZE * (k + 1)]
    modifies set k | 0 <= k < |players| :: players[k].hand
    ensures |table.hands| == |players|
    ensures forall i :: 0 <= i < |players| ==>
      table.hands[i] == LayersAll(encrypted[PLAYER_HAND_SIZE * i..PLAYER_HAND_SIZE * (i + 1)], RevealOrder(ds, i), mod)
    ensures table.board == LayersAll(encrypted[PLAYER_HAND_SIZE * |players|..][..BOARD_SIZE], ds, mod)
  {
    RevealHands(players, mod, ds,
      seq(|players|, k requires 0 <= k < |players| => encrypted[PLAYER_HAND_SIZE * k..PLAYER_HAND_SIZE * (k + 1)]));
    var board := RevealBoard(players, deck, mod, ds);
    var hands := CollectHands(players);
    table := Table(hands, board.cards);
  }

  /** The table for a valid player count under the modulus 2q+1. */
  method PlayTable(n: nat, mod: int, keyDraws: seq<seq<nat>>, shuffleDraws: seq<seq<nat>>)
    returns (table: Table)
    requires 2 <= n <= MAX_PLAYERS && mod >= 4
    requires |keyDraws| >= MAX_PLAYERS && |shuffleDraws| >= MAX_PLAYERS
    requires forall k :: 0 <= k < MAX_PLAYERS ==> KeyDrawsFit(keyDraws[k], mod)
    requires forall k :: 0 <= k < MAX_PLAYERS ==> |shuffleDraws[k]| == DECK_SIZE
    ensures |table.hands| == n && |table.board| == BOARD_SIZE
    ensures forall i :: 0 <= i < n ==> |table.hands[i]| == PLAYER_HAND_SIZE
    ensures IsPrime(mod) && mod > DECK_SIZE + 1 ==> RevealsShuffledDeck(table)
  {
    var deck := NewDeck();
    var players, cs, ds := CreatePlayers(n, mod, deck, keyDraws, shuffleDraws);
    ghost var encrypted := deck.cards;
    Deal(players, deck);
    table := Reveal(players, deck, mod, ds, encrypted);
    if IsPrime(mod) && mod > DECK_SIZE + 1 {
      TableComesFromDeck(encrypted, cs, ds, mod, table.hands, table.board);
    }
  }

  /** poker_call_example. The Germain prime, the players' key draws and their
      shuffle draws are inputs; enough of them are supplied for the largest
      table. A player count outside [2, 10] is rejected before anything is
      made. Otherwise every player holds two cards and the board five, and
      when the modulus exceeds every card the revealed hands and the board
      are disjoint slices, in dealing order, of a rearrangement of 2..53. */
  method PokerCallExample(playersNum: int, germain: int, keyDraws: seq<seq<nat>>, shuffleDraws: seq<seq<nat>>)
    returns (r: Result<Table, Error>)
    requires IsPrime(germain) && IsPrime(2 * germain + 1)
    requires |keyDraws| >= MAX_PLAYERS && |shuffleDraws| >= MAX_PLAYERS
    requires forall k :: 0 <= k < MAX_PLAYERS ==> KeyDrawsFit(keyDraws[k], 2 * germain + 1)
    requires forall k :: 0 <= k < MAX_PLAYERS ==> |shuffleDraws[k]| == DECK_SIZE
    ensures r.Failure? <==> !(2 <= playersNum <= MAX_PLAYERS)
    ensures r.Failure? ==> r.error == InvalidArgument
    ensures r.Success? ==> |r.value.hands| == playersNum && |r.value.board| == BOARD_SIZE
    ensures r.Success? ==> forall i :: 0 <= i < playersNum ==> |r.value.hands[i]| == PLAYER_HAND_SIZE
    ensures r.Success? && 2 * germain + 1 > DECK_SIZE + 1 ==> RevealsShuffledDeck(r.value)
  {
    if playersNum > MAX_PLAYERS || playersNum < 2 {
      return Failure(InvalidArgument);
    }
    var mod := germain * 2 + 1;
    var table := PlayTable(playersNum, mod, keyDraws, shuffleDraws);
    r := Success(table);
  }
}
