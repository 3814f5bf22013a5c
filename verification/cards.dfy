/** The deck of the memory game: the fixed catalog of card names and the
    deck built from it, in which every catalog entry occurs twice. */
module Cards {

  /** A card: its catalog name and the face (the image) shown when a tile
      holding it is turned up. The two copies of a catalog entry are one and
      the same card, so they share one face; a face is identified here by
      the catalog index of its entry. */
  datatype Card = Card(name: string, face: nat)

  /** The catalog the game is played with. */
  const CardList: seq<string> := [
    "beerus1", "broly1", "cell-max1", "frieza1", "gohan1",
    "goku1", "jiren1", "marjinBuu1", "piccolo1", "vegeta1"
  ]

  /** The board grid. */
  const Rows: nat := 4
  const Columns: nat := 5

  /** One card per catalog name, in catalog order, each with its own face. */
  function CatalogCards(names: seq<string>): (cs: seq<Card>)
    ensures |cs| == |names|
    ensures forall i :: 0 <= i < |cs| ==> cs[i].name == names[i] && cs[i].face == i
    decreases |names|
  {
    if |names| == 0 then []
    else CatalogCards(names[..|names| - 1]) + [Card(names[|names| - 1], |names| - 1)]
  }

  /** The deck before shuffling: the catalog's cards, then the same list
      of cards appended once more. */
  function SetupCards(names: seq<string>): (deck: seq<Card>)
    ensures |deck| == 2 * |names|
    ensures forall i :: 0 <= i < |names| ==>
              deck[i] == Card(names[i], i) && deck[i + |names|] == deck[i]
  {
    var cs := CatalogCards(names);
    cs + cs
  }

  /** The names of a sequence of cards, position by position. */
  function Names(cs: seq<Card>): (ns: seq<string>)
    ensures |ns| == |cs|
    ensures forall i :: 0 <= i < |cs| ==> ns[i] == cs[i].name
  {
    seq(|cs|, i requires 0 <= i < |cs| => cs[i].name)
  }

  /** Every card of a deck occurs in it exactly twice. */
  ghost predicate Paired(deck: seq<Card>)
  {
    forall i :: 0 <= i < |deck| ==> multiset(deck)[deck[i]] == 2
  }

  /** The other position of the card at position i of a set-up deck of
      2 * n cards. */
  function Partner(n: nat, i: nat): (j: nat)
    requires i < 2 * n
    ensures j < 2 * n && j != i
  {
    if i < n then i + n else i - n
  }

  /** Read name by name, the set-up deck is the catalog followed by the catalog. */
  lemma SetupNames(names: seq<string>)
    ensures Names(SetupCards(names)) == names + names
  {
  }

  /** Each card occurs once among the catalog's cards when it is the card
      of a catalog entry, and not at all otherwise. */
  lemma {:induction false} CatalogCount(names: seq<string>, c: Card)
    ensures multiset(CatalogCards(names))[c] ==
            (if c.face < |names| && c.name == names[c.face] then 1 else 0)
    decreases |names|
  {
    if |names| > 0 {
      var n := |names| - 1;
      var front := names[..n];
      CatalogCount(front, c);
      assert CatalogCards(names) == CatalogCards(front) + [Card(names[n], n)];
      if c.face < n {
        assert front[c.face] == names[c.face];
      }
    }
  }

  /** Every catalog entry occurs in the set-up deck exactly twice, and no
      other card occurs in it. */
  lemma SetupCount(names: seq<string>, c: Card)
    ensures multiset(SetupCards(names))[c] ==
            (if c.face < |names| && c.name == names[c.face] then 2 else 0)
  {
    CatalogCount(names, c);
    var cs := CatalogCards(names);
    assert SetupCards(names) == cs + cs;
  }

  /** The set-up deck is paired. */
  lemma SetupPaired(names: seq<string>)
    ensures Paired(SetupCards(names))
  {
    var deck := SetupCards(names);
    forall i | 0 <= i < |deck|
      ensures multiset(deck)[deck[i]] == 2
    {
      var k := if i < |names| then i else i - |names|;
      assert deck[i] == Card(names[k], k);
      SetupCount(names, deck[i]);
    }
  }

  /** A paired deck stays paired under any reordering. */
  lemma PairedPermutation(deck: seq<Card>, other: seq<Card>)
    requires Paired(deck)
    requires multiset(other) == multiset(deck)
    ensures Paired(other)
  {
  }

  /** In the set-up deck two positions show the same face exactly when they
      hold the same card, which is exactly when they are the same position
      or partners. */
  lemma SetupFaces(names: seq<string>, i: nat, j: nat)
    requires i < 2 * |names| && j < 2 * |names|
    ensures SetupCards(names)[i].face == SetupCards(names)[j].face
            <==> SetupCards(names)[i] == SetupCards(names)[j]
    ensures SetupCards(names)[i].face == SetupCards(names)[j].face
            <==> (j == i || j == Partner(|names|, i))
  {
  }

  /** In any rearrangement of the set-up deck (the deck actually played),
      two positions show the same face exactly when they hold the same card,
      that is, the same catalog entry. */
  lemma DeckFaces(names: seq<string>, deck: seq<Card>, i: nat, j: nat)
    requires multiset(deck) == multiset(SetupCards(names))
    requires i < |deck| && j < |deck|
    ensures deck[i].face == deck[j].face <==> deck[i] == deck[j]
    ensures deck[i].face < |names| && deck[i].name == names[deck[i].face]
  {
    assert deck[i] in multiset(deck) && deck[j] in multiset(deck);
    SetupCount(names, deck[i]);
    SetupCount(names, deck[j]);
  }

  /** The catalog's names are pairwise distinct. */
  lemma CardListDistinct()
    ensures forall i, j :: 0 <= i < j < |CardList| ==> CardList[i] != CardList[j]
  {
  }

  /** For the game's own catalog, two cards of the deck show the same face
      exactly when they carry the same name, and the deck fills the grid. */
  lemma CardListDeck(i: nat, j: nat)
    requires i < |SetupCards(CardList)| && j < |SetupCards(CardList)|
    ensures |SetupCards(CardList)| == Rows * Columns
    ensures SetupCards(CardList)[i].face == SetupCards(CardList)[j].face
            <==> SetupCards(CardList)[i].name == SetupCards(CardList)[j].name
  {
  }

}
