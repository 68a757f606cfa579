/** The values of the flashcard deck store: the `Card` and `Deck` records, the
    seven store operations that replace the deck list, as functions from the old
    list to the new one, the `getDeck` lookup, and the rules that load the list from the storage slot (or seed a sample
    deck) and write it back. */
module DeckList {
  import opened Seqs

  /** An ISO-8601 text produced by the clock; the model never looks inside it. */
  type Timestamp = string

  datatype Card = Card(id: string, front: string, back: string)

  datatype Deck = Deck(
    id: string,
    title: string,
    description: string,
    cards: seq<Card>,
    lastStudied: Option<Timestamp>,
    createdAt: Timestamp)

  // ---------------------------------------------------------------------------
  // Identifiers built from the millisecond clock
  // ---------------------------------------------------------------------------

  function Digit(d: nat): (c: char)
    requires d < 10
    ensures '0' <= c <= '9'
  {
    (48 + d) as char
  }

  /** The decimal text of a non-negative integer, as a template literal renders it. */
  function Decimal(n: nat): (r: string)
    ensures r != []
    ensures n < 10 <==> |r| == 1
    ensures forall k :: 0 <= k < |r| ==> '0' <= r[k] <= '9'
  {
    if n < 10 then [Digit(n)] else Decimal(n / 10) + [Digit(n % 10)]
  }

  /** Different clock readings render as different texts. */
  lemma {:induction false} DecimalInjective(a: nat, b: nat)
    requires Decimal(a) == Decimal(b)
    ensures a == b
  {
    if a >= 10 && b >= 10 {
      var ra, rb := Decimal(a), Decimal(b);
      assert ra[|ra| - 1] == Digit(a % 10) && rb[|rb| - 1] == Digit(b % 10);
      assert ra[..|ra| - 1] == Decimal(a / 10) && rb[..|rb| - 1] == Decimal(b / 10);
      DecimalInjective(a / 10, b / 10);
    }
  }

  /** `${prefix}${Date.now()}` for the clock reading `clock`: the prefix and then only digits. */
  function IdAt(prefix: string, clock: nat): (id: string)
    ensures |id| > |prefix| && id[..|prefix|] == prefix
    ensures forall k :: |prefix| <= k < |id| ==> '0' <= id[k] <= '9'
  {
    prefix + Decimal(clock)
  }

  /** Ids with one prefix drawn at different milliseconds differ; ids drawn in the same one coincide. */
  lemma IdAtInjective(prefix: string, a: nat, b: nat)
    ensures IdAt(prefix, a) == IdAt(prefix, b) <==> a == b
  {
    if IdAt(prefix, a) == IdAt(prefix, b) {
      assert IdAt(prefix, a)[|prefix|..] == Decimal(a) && IdAt(prefix, b)[|prefix|..] == Decimal(b);
      DecimalInjective(a, b);
    }
  }

  /** The id addDeck draws: `deck-${Date.now()}`. */
  function DeckIdAt(clock: nat): string
  {
    IdAt("deck-", clock)
  }

  /** The id addCard draws: `card-${Date.now()}`. */
  function CardIdAt(clock: nat): string
  {
    IdAt("card-", clock)
  }

  // ---------------------------------------------------------------------------
  // Identity predicates
  // ---------------------------------------------------------------------------

  function DeckIds(ds: seq<Deck>): seq<string>
  {
    Map((d: Deck) => d.id, ds)
  }

  function CardIds(cs: seq<Card>): seq<string>
  {
    Map((c: Card) => c.id, cs)
  }

  predicate HasDeck(ds: seq<Deck>, id: string)
  {
    exists i :: 0 <= i < |ds| && ds[i].id == id
  }

  predicate HasCard(cs: seq<Card>, id: string)
  {
    exists k :: 0 <= k < |cs| && cs[k].id == id
  }

  /** Deck ids are unique across the store and card ids unique within each deck.
      The store never checks this; the lemmas below say which operations keep it. */
  predicate WellFormed(ds: seq<Deck>)
  {
    Distinct(DeckIds(ds)) && forall i :: 0 <= i < |ds| ==> Distinct(CardIds(ds[i].cards))
  }

  /** Two decks agree on everything but their card lists. */
  predicate SameExceptCards(a: Deck, b: Deck)
  {
    a.id == b.id && a.title == b.title && a.description == b.description
    && a.lastStudied == b.lastStudied && a.createdAt == b.createdAt
  }

  // ---------------------------------------------------------------------------
  // The store operations: seven functions from the old list to the new one, and
  // the getDeck lookup, which only reads the list
  // ---------------------------------------------------------------------------

  /** addDeck: `[...decks, newDeck]`. */
  function AddDeck(ds: seq<Deck>, clock: nat, title: string, description: string, now: Timestamp): (r: seq<Deck>)
    ensures |r| == |ds| + 1 && r[..|ds|] == ds
    ensures r[|ds|].id == DeckIdAt(clock) && r[|ds|].title == title && r[|ds|].description == description
    ensures r[|ds|].cards == [] && r[|ds|].lastStudied == None && r[|ds|].createdAt == now
  {
    ds + [Deck(DeckIdAt(clock), title, description, [], None, now)]
  }

  /** updateDeck: a map that rewrites title and description of every deck with that id. */
  function UpdateDeck(ds: seq<Deck>, id: string, title: string, description: string): (r: seq<Deck>)
    ensures |r| == |ds|
    ensures forall i :: 0 <= i < |ds| ==>
      && r[i].id == ds[i].id && r[i].cards == ds[i].cards
      && r[i].lastStudied == ds[i].lastStudied && r[i].createdAt == ds[i].createdAt
    ensures forall i :: 0 <= i < |ds| ==>
      if ds[i].id == id then r[i].title == title && r[i].description == description else r[i] == ds[i]
  {
    Map((d: Deck) => if d.id == id then d.(title := title, description := description) else d, ds)
  }

  /** deleteDeck: a filter that drops every deck with that id. */
  function DeleteDeck(ds: seq<Deck>, id: string): (r: seq<Deck>)
    ensures IsSubsequence(r, ds)
    ensures forall i :: 0 <= i < |r| ==> r[i].id != id
    ensures forall i :: 0 <= i < |ds| && ds[i].id != id ==> ds[i] in r
    ensures forall i :: 0 <= i < |ds| ==> multiset(r)[ds[i]] == if ds[i].id != id then multiset(ds)[ds[i]] else 0
  {
    FilterMultiplicity((d: Deck) => d.id != id, ds);
    Filter((d: Deck) => d.id != id, ds)
  }

  /** getDeck: the first deck with that id, or `None`. */
  function GetDeck(ds: seq<Deck>, id: string): (r: Option<Deck>)
    ensures r.None? <==> !HasDeck(ds, id)
    ensures r.Some? ==> exists i :: 0 <= i < |ds| && ds[i] == r.value && ds[i].id == id
                                    && forall j :: 0 <= j < i ==> ds[j].id != id
  {
    Find((d: Deck) => d.id == id, ds)
  }

  /** addCard: appends one card to every deck with that id. */
  function AddCard(ds: seq<Deck>, deckId: string, clock: nat, front: string, back: string): (r: seq<Deck>)
    ensures |r| == |ds|
    ensures forall i :: 0 <= i < |ds| ==> SameExceptCards(r[i], ds[i])
    ensures forall i :: 0 <= i < |ds| && ds[i].id == deckId ==>
      && |r[i].cards| == |ds[i].cards| + 1 && r[i].cards[..|ds[i].cards|] == ds[i].cards
      && r[i].cards[|ds[i].cards|] == Card(CardIdAt(clock), front, back)
    ensures forall i :: 0 <= i < |ds| && ds[i].id != deckId ==> r[i] == ds[i]
  {
    Map((d: Deck) => if d.id == deckId then d.(cards := d.cards + [Card(CardIdAt(clock), front, back)]) else d, ds)
  }

  /** The card list of a deck after updateCard rewrote the cards with that id. */
  function UpdateCards(cs: seq<Card>, cardId: string, front: string, back: string): (r: seq<Card>)
    ensures |r| == |cs|
    ensures forall k :: 0 <= k < |cs| ==>
      r[k].id == cs[k].id && if cs[k].id == cardId then r[k].front == front && r[k].back == back else r[k] == cs[k]
  {
    Map((c: Card) => if c.id == cardId then c.(front := front, back := back) else c, cs)
  }

  /** updateCard: inside every deck with that id, rewrites front and back of every card with that id. */
  function UpdateCard(ds: seq<Deck>, deckId: string, cardId: string, front: string, back: string): (r: seq<Deck>)
    ensures |r| == |ds|
    ensures forall i :: 0 <= i < |ds| ==> SameExceptCards(r[i], ds[i])
    ensures forall i :: 0 <= i < |ds| && ds[i].id == deckId ==> r[i].cards == UpdateCards(ds[i].cards, cardId, front, back)
    ensures forall i :: 0 <= i < |ds| && ds[i].id != deckId ==> r[i] == ds[i]
  {
    Map((d: Deck) => if d.id == deckId then d.(cards := UpdateCards(d.cards, cardId, front, back)) else d, ds)
  }

  /** The card list of a deck after deleteCard dropped the cards with that id. */
  function RemoveCards(cs: seq<Card>, cardId: string): (r: seq<Card>)
    ensures IsSubsequence(r, cs)
    ensures forall k :: 0 <= k < |r| ==> r[k].id != cardId
    ensures forall k :: 0 <= k < |cs| && cs[k].id != cardId ==> cs[k] in r
    ensures forall k :: 0 <= k < |cs| ==> multiset(r)[cs[k]] == if cs[k].id != cardId then multiset(cs)[cs[k]] else 0
  {
    FilterMultiplicity((c: Card) => c.id != cardId, cs);
    Filter((c: Card) => c.id != cardId, cs)
  }

  /** deleteCard: inside every deck with that id, drops every card with that id. */
  function DeleteCard(ds: seq<Deck>, deckId: string, cardId: string): (r: seq<Deck>)
    ensures |r| == |ds|
    ensures forall i :: 0 <= i < |ds| ==> SameExceptCards(r[i], ds[i])
    ensures forall i :: 0 <= i < |ds| && ds[i].id == deckId ==> r[i].cards == RemoveCards(ds[i].cards, cardId)
    ensures forall i :: 0 <= i < |ds| && ds[i].id != deckId ==> r[i] == ds[i]
  {
    Map((d: Deck) => if d.id == deckId then d.(cards := RemoveCards(d.cards, cardId)) else d, ds)
  }

  /** updateLastStudied: stamps every deck with that id. */
  function UpdateLastStudied(ds: seq<Deck>, deckId: string, now: Timestamp): (r: seq<Deck>)
    ensures |r| == |ds|
    ensures forall i :: 0 <= i < |ds| ==>
      && r[i].id == ds[i].id && r[i].title == ds[i].title && r[i].description == ds[i].description
      && r[i].cards == ds[i].cards && r[i].createdAt == ds[i].createdAt
    ensures forall i :: 0 <= i < |ds| ==>
      if ds[i].id == deckId then r[i].lastStudied == Some(now) else r[i] == ds[i]
  {
    Map((d: Deck) => if d.id == deckId then d.(lastStudied := Some(now)) else d, ds)
  }

  // ---------------------------------------------------------------------------
  // Properties of the operations
  // ---------------------------------------------------------------------------

  /** Every operation addressed to a deck id that is not in the store leaves the list as it was. */
  lemma NoOpWhenDeckAbsent(ds: seq<Deck>, id: string, title: string, description: string,
                           clock: nat, cardId: string, front: string, back: string, now: Timestamp)
    requires !HasDeck(ds, id)
    ensures UpdateDeck(ds, id, title, description) == ds
    ensures DeleteDeck(ds, id) == ds
    ensures GetDeck(ds, id) == None
    ensures AddCard(ds, id, clock, front, back) == ds
    ensures UpdateCard(ds, id, cardId, front, back) == ds
    ensures DeleteCard(ds, id, cardId) == ds
    ensures UpdateLastStudied(ds, id, now) == ds
  {
    FilterKeepsAll((d: Deck) => d.id != id, ds);
  }

  /** updateCard and deleteCard addressed to a card id that the deck does not hold change nothing. */
  lemma NoOpWhenCardAbsent(ds: seq<Deck>, deckId: string, cardId: string, front: string, back: string)
    requires forall i :: 0 <= i < |ds| && ds[i].id == deckId ==> !HasCard(ds[i].cards, cardId)
    ensures UpdateCard(ds, deckId, cardId, front, back) == ds
    ensures DeleteCard(ds, deckId, cardId) == ds
  {
    forall i | 0 <= i < |ds| && ds[i].id == deckId
      ensures UpdateCards(ds[i].cards, cardId, front, back) == ds[i].cards
      ensures RemoveCards(ds[i].cards, cardId) == ds[i].cards
    {
      FilterKeepsAll((c: Card) => c.id != cardId, ds[i].cards);
    }
  }

  /** A deck added under a fresh id is what getDeck returns for that id. */
  lemma GetDeckAfterAddDeck(ds: seq<Deck>, clock: nat, title: string, description: string, now: Timestamp)
    requires !HasDeck(ds, DeckIdAt(clock))
    ensures GetDeck(AddDeck(ds, clock, title, description, now), DeckIdAt(clock))
            == Some(Deck(DeckIdAt(clock), title, description, [], None, now))
  {
    var r := AddDeck(ds, clock, title, description, now);
    assert r[|ds|] == Deck(DeckIdAt(clock), title, description, [], None, now);
    FindAppend((d: Deck) => d.id == DeckIdAt(clock), ds, [r[|ds|]]);
  }

  /** addDeck changes no other lookup, whatever the clock; and a new deck whose id collides with
      one already in the store is hidden behind it, since getDeck returns the first match. */
  lemma GetDeckAfterAddDeckOther(ds: seq<Deck>, clock: nat, title: string, description: string, now: Timestamp, id: string)
    ensures id != DeckIdAt(clock) ==> GetDeck(AddDeck(ds, clock, title, description, now), id) == GetDeck(ds, id)
    ensures HasDeck(ds, id) ==> GetDeck(AddDeck(ds, clock, title, description, now), id) == GetDeck(ds, id)
  {
    var r := AddDeck(ds, clock, title, description, now);
    FindAppend((d: Deck) => d.id == id, ds, [r[|ds|]]);
  }

  /** After deleteDeck(id), getDeck(id) finds nothing and every other lookup is unchanged. */
  lemma GetDeckAfterDeleteDeck(ds: seq<Deck>, id: string, other: string)
    ensures GetDeck(DeleteDeck(ds, id), id) == None
    ensures other != id ==> GetDeck(DeleteDeck(ds, id), other) == GetDeck(ds, other)
  {
    if other != id {
      FindAfterFilter((d: Deck) => d.id == other, (d: Deck) => d.id != id, ds);
    }
  }

  /** After updateDeck(id, …), getDeck(id) returns the deck it returned before, with the new title and description. */
  lemma GetDeckAfterUpdateDeck(ds: seq<Deck>, id: string, title: string, description: string)
    ensures GetDeck(UpdateDeck(ds, id, title, description), id)
            == match GetDeck(ds, id)
               case None => None
               case Some(d) => Some(d.(title := title, description := description))
  {
    var r := UpdateDeck(ds, id, title, description);
    var g := GetDeck(r, id);
    if GetDeck(ds, id).Some? {
      var d := GetDeck(ds, id).value;
      var i :| 0 <= i < |ds| && ds[i] == d && ds[i].id == id && forall j :: 0 <= j < i ==> ds[j].id != id;
      var k :| 0 <= k < |r| && r[k] == g.value && r[k].id == id && forall j :: 0 <= j < k ==> r[j].id != id;
      assert ds[k].id == r[k].id && r[i].id == ds[i].id;
      assert k == i;
    } else {
      assert !HasDeck(r, id) by {
        forall i | 0 <= i < |r| ensures r[i].id != id { assert r[i].id == ds[i].id; }
      }
    }
  }

  /** addCard followed by deleteCard of the card it just created restores the deck list, provided the new card id was not already in use in any deck with that id. */
  lemma AddCardThenDeleteCard(ds: seq<Deck>, deckId: string, clock: nat, front: string, back: string)
    requires forall i :: 0 <= i < |ds| && ds[i].id == deckId ==> !HasCard(ds[i].cards, CardIdAt(clock))
    ensures DeleteCard(AddCard(ds, deckId, clock, front, back), deckId, CardIdAt(clock)) == ds
  {
    var a := AddCard(ds, deckId, clock, front, back);
    var r := DeleteCard(a, deckId, CardIdAt(clock));
    var p := (c: Card) => c.id != CardIdAt(clock);
    forall i | 0 <= i < |ds| ensures r[i] == ds[i] {
      if ds[i].id == deckId {
        var cs := ds[i].cards;
        FilterAppend(p, cs, [Card(CardIdAt(clock), front, back)]);
        FilterKeepsAll(p, cs);
        assert RemoveCards(a[i].cards, CardIdAt(clock)) == cs;
      }
    }
  }

  // ---------------------------------------------------------------------------
  // The uniqueness invariant and the operations that keep it
  // ---------------------------------------------------------------------------

  lemma AddDeckKeepsWellFormed(ds: seq<Deck>, clock: nat, title: string, description: string, now: Timestamp)
    requires WellFormed(ds) && !HasDeck(ds, DeckIdAt(clock))
    ensures WellFormed(AddDeck(ds, clock, title, description, now))
  {
    var r := AddDeck(ds, clock, title, description, now);
    assert forall i :: 0 <= i < |ds| ==> r[i] == ds[i];
    forall i, j | 0 <= i < j < |r| ensures DeckIds(r)[i] != DeckIds(r)[j] {
      if j < |ds| {
        assert DeckIds(ds)[i] != DeckIds(ds)[j];
      } else {
        assert ds[i].id != DeckIdAt(clock);
      }
    }
    assert CardIds([]) == [];
  }

  /** Operations that only rewrite fields other than ids keep the deck ids in place. */
  lemma SameIdsKeepWellFormed(ds: seq<Deck>, r: seq<Deck>)
    requires WellFormed(ds) && |r| == |ds|
    requires forall i :: 0 <= i < |ds| ==> r[i].id == ds[i].id && CardIds(r[i].cards) == CardIds(ds[i].cards)
    ensures WellFormed(r)
  {
    assert DeckIds(r) == DeckIds(ds);
  }

  lemma UpdateDeckKeepsWellFormed(ds: seq<Deck>, id: string, title: string, description: string)
    requires WellFormed(ds)
    ensures WellFormed(UpdateDeck(ds, id, title, description))
  {
    SameIdsKeepWellFormed(ds, UpdateDeck(ds, id, title, description));
  }

  lemma UpdateLastStudiedKeepsWellFormed(ds: seq<Deck>, id: string, now: Timestamp)
    requires WellFormed(ds)
    ensures WellFormed(UpdateLastStudied(ds, id, now))
  {
    SameIdsKeepWellFormed(ds, UpdateLastStudied(ds, id, now));
  }

  lemma UpdateCardKeepsWellFormed(ds: seq<Deck>, deckId: string, cardId: string, front: string, back: string)
    requires WellFormed(ds)
    ensures WellFormed(UpdateCard(ds, deckId, cardId, front, back))
  {
    var r := UpdateCard(ds, deckId, cardId, front, back);
    forall i | 0 <= i < |ds| ensures CardIds(r[i].cards) == CardIds(ds[i].cards) {
    }
    SameIdsKeepWellFormed(ds, r);
  }

  lemma DeleteDeckKeepsWellFormed(ds: seq<Deck>, id: string)
    requires WellFormed(ds)
    ensures WellFormed(DeleteDeck(ds, id))
  {
    var r := DeleteDeck(ds, id);
    MapSubsequence((d: Deck) => d.id, r, ds);
    SubsequenceDistinct(DeckIds(r), DeckIds(ds));
    forall i | 0 <= i < |r| ensures Distinct(CardIds(r[i].cards)) {
      SubsequenceMembers(r, ds);
      var j :| 0 <= j < |ds| && ds[j] == r[i];
    }
  }

  lemma AddCardKeepsWellFormed(ds: seq<Deck>, deckId: string, clock: nat, front: string, back: string)
    requires WellFormed(ds)
    requires forall i :: 0 <= i < |ds| && ds[i].id == deckId ==> !HasCard(ds[i].cards, CardIdAt(clock))
    ensures WellFormed(AddCard(ds, deckId, clock, front, back))
  {
    var r := AddCard(ds, deckId, clock, front, back);
    assert DeckIds(r) == DeckIds(ds);
    forall i | 0 <= i < |ds| && ds[i].id == deckId ensures Distinct(CardIds(r[i].cards)) {
      var cs := ds[i].cards;
      var ns := r[i].cards;
      assert ns == cs + [Card(CardIdAt(clock), front, back)];
      forall k, m | 0 <= k < m < |ns| ensures CardIds(ns)[k] != CardIds(ns)[m] {
        if m < |cs| {
          assert CardIds(cs)[k] != CardIds(cs)[m];
        } else {
          assert cs[k].id != CardIdAt(clock);
        }
      }
    }
  }

  lemma DeleteCardKeepsWellFormed(ds: seq<Deck>, deckId: string, cardId: string)
    requires WellFormed(ds)
    ensures WellFormed(DeleteCard(ds, deckId, cardId))
  {
    var r := DeleteCard(ds, deckId, cardId);
    assert DeckIds(r) == DeckIds(ds);
    forall i | 0 <= i < |ds| && ds[i].id == deckId ensures Distinct(CardIds(r[i].cards)) {
      MapSubsequence((c: Card) => c.id, r[i].cards, ds[i].cards);
      SubsequenceDistinct(CardIds(r[i].cards), CardIds(ds[i].cards));
    }
  }

  // ---------------------------------------------------------------------------
  // Creating several decks
  // ---------------------------------------------------------------------------

  /** One call of addDeck: the clock reading it draws and its arguments. */
  datatype DeckRequest = DeckRequest(clock: nat, title: string, description: string, now: Timestamp)

  function AddDecks(ds: seq<Deck>, reqs: seq<DeckRequest>): seq<Deck>
    decreases |reqs|
  {
    if reqs == [] then ds
    else AddDecks(AddDeck(ds, reqs[0].clock, reqs[0].title, reqs[0].description, reqs[0].now), reqs[1..])
  }

  predicate StrictlyIncreasingClocks(reqs: seq<DeckRequest>)
  {
    forall k, m :: 0 <= k < m < |reqs| ==> reqs[k].clock < reqs[m].clock
  }

  /** Decks created one after another at strictly later milliseconds, into a store holding none of
      their ids, keep the store well formed; each new deck sits at the end with an empty card list. */
  lemma {:induction false} AddDecksKeepsWellFormed(ds: seq<Deck>, reqs: seq<DeckRequest>)
    requires WellFormed(ds) && StrictlyIncreasingClocks(reqs)
    requires forall k :: 0 <= k < |reqs| ==> !HasDeck(ds, DeckIdAt(reqs[k].clock))
    decreases |reqs|
    ensures |AddDecks(ds, reqs)| == |ds| + |reqs| && AddDecks(ds, reqs)[..|ds|] == ds
    ensures forall i :: |ds| <= i < |AddDecks(ds, reqs)| ==> AddDecks(ds, reqs)[i].cards == []
    ensures WellFormed(AddDecks(ds, reqs))
  {
    if reqs != [] {
      var q := reqs[0];
      var ds' := AddDeck(ds, q.clock, q.title, q.description, q.now);
      AddDeckKeepsWellFormed(ds, q.clock, q.title, q.description, q.now);
      forall k | 0 <= k < |reqs[1..]| ensures !HasDeck(ds', DeckIdAt(reqs[1..][k].clock)) {
        assert reqs[1..][k] == reqs[k + 1];
        IdAtInjective("deck-", q.clock, reqs[k + 1].clock);
        assert !HasDeck(ds, DeckIdAt(reqs[k + 1].clock));
        forall i | 0 <= i < |ds'| ensures ds'[i].id != DeckIdAt(reqs[k + 1].clock) {
          if i < |ds| { assert ds'[i] == ds[i]; }
        }
      }
      AddDecksKeepsWellFormed(ds', reqs[1..]);
      var r := AddDecks(ds', reqs[1..]);
      assert r[..|ds|] == r[..|ds'|][..|ds|];
      forall i | |ds| <= i < |r| ensures r[i].cards == [] {
        if i == |ds| { assert r[i] == r[..|ds'|][i]; }
      }
    }
  }

  /** Two decks created within the same millisecond share an id, so the uniqueness invariant is lost. */
  lemma SameMillisecondBreaksUniqueness(ds: seq<Deck>, clock: nat, t1: string, d1: string, n1: Timestamp,
                                        t2: string, d2: string, n2: Timestamp)
    ensures !WellFormed(AddDeck(AddDeck(ds, clock, t1, d1, n1), clock, t2, d2, n2))
  {
    var r := AddDeck(AddDeck(ds, clock, t1, d1, n1), clock, t2, d2, n2);
    assert DeckIds(r)[|ds|] == DeckIds(r)[|ds| + 1];
  }

  // ---------------------------------------------------------------------------
  // Persistence: the "mermory-decks" storage slot
  // ---------------------------------------------------------------------------

  /** What the slot may hold: the serialisation of a deck list, or any other text, which fails to parse. */
  datatype Blob = Serialized(decks: seq<Deck>) | Unparsable(raw: string)

  /** The slot itself; `None` when nothing was ever stored under the key. */
  type Slot = Option<Blob>

  /** `if (savedDecks)`: a stored value counts only when it is not the empty text. */
  predicate Truthy(slot: Slot)
  {
    slot.Some? && slot.value != Unparsable("")
  }

  function Parse(b: Blob): Option<seq<Deck>>
  {
    match b
    case Serialized(ds) => Some(ds)
    case Unparsable(_) => None
  }

  // The texts of the demonstration deck, each held in a constant of its own.
  const SampleFront1: string := "What is the function of mitochondria?"
  const SampleBack1: string := "Mitochondria are the powerhouse of the cell. They generate most of the cell's supply of adenosine triphosphate (ATP), used as a source of chemical energy."
  const SampleFront2: string := "What is photosynthesis?"
  const SampleBack2: string := "Photosynthesis is the process by which green plants and some other organisms use sunlight to synthesize foods with carbon dioxide and water."
  const SampleFront3: string := "What is DNA?"
  const SampleBack3: string := "DNA, or deoxyribonucleic acid, is a molecule composed of two polynucleotide chains that coil around each other to form a double helix carrying genetic instructions."

  /** The demonstration deck seeded when nothing is stored: three cards with distinct ids, never
      studied, created now, under an id that no addDeck call can draw. */
  function SampleDeck(now: Timestamp): (d: Deck)
    ensures d.id == "sample-deck" && forall clock: nat :: DeckIdAt(clock) != d.id
    ensures |d.cards| == 3 && Distinct(CardIds(d.cards))
    ensures d.lastStudied == None && d.createdAt == now
  {
    assert forall clock: nat :: DeckIdAt(clock)[0] == "deck-"[0] != "sample-deck"[0];
    Deck(
      "sample-deck",
      "Biology 101",
      "Introduction to basic biology concepts",
      [Card("card-1", SampleFront1, SampleBack1),
       Card("card-2", SampleFront2, SampleBack2),
       Card("card-3", SampleFront3, SampleBack3)],
      None,
      now)
  }

  /** The deck list after the load effect, starting from the initial empty list: the sample deck when
      nothing truthy is stored, the stored list when it parses, and the empty list when it does not. */
  function Hydrate(slot: Slot, now: Timestamp): (r: seq<Deck>)
    ensures !Truthy(slot) ==> r == [SampleDeck(now)]
    ensures Truthy(slot) && Parse(slot.value).Some? ==> r == Parse(slot.value).value
    ensures r == [] <==> Truthy(slot) && (Parse(slot.value).None? || Parse(slot.value).value == [])
  {
    if !Truthy(slot) then [SampleDeck(now)]
    else match Parse(slot.value)
      case Some(ds) => ds
      case None => []
  }

  /** The slot after the save effect ran on the list `ds`: written only when the list is non-empty,
      and then holding a text that parses back to `ds`. */
  function Persist(ds: seq<Deck>, slot: Slot): (r: Slot)
    ensures |ds| > 0 ==> r.Some? && Parse(r.value) == Some(ds)
    ensures |ds| == 0 ==> r == slot
  {
    if |ds| > 0 then Some(Serialized(ds)) else slot
  }

  /** With nothing stored, the store becomes exactly the sample deck with its three cards, and it is well formed. */
  lemma SeedWhenNothingStored(now: Timestamp)
    ensures |Hydrate(None, now)| == 1
    ensures Hydrate(None, now)[0].id == "sample-deck"
    ensures CardIds(Hydrate(None, now)[0].cards) == ["card-1", "card-2", "card-3"]
    ensures WellFormed(Hydrate(None, now))
  {
    var cs := SampleDeck(now).cards;
    assert CardIds(cs) == ["card-1", "card-2", "card-3"];
    assert DeckIds([SampleDeck(now)]) == ["sample-deck"];
  }

  /** A stored empty text counts as nothing stored and seeds the sample deck; any other text that fails to parse leaves the initial empty list. */
  lemma UnparsableBlob(raw: string, now: Timestamp)
    ensures raw == "" ==> Hydrate(Some(Unparsable(raw)), now) == [SampleDeck(now)]
    ensures raw != "" ==> Hydrate(Some(Unparsable(raw)), now) == []
  {
  }

  /** What the save effect wrote for a non-empty list is what the next load reads back,
      and the save effect leaves the slot alone when the list is empty. */
  lemma PersistThenHydrate(ds: seq<Deck>, slot: Slot, now: Timestamp)
    ensures |ds| > 0 ==> Hydrate(Persist(ds, slot), now) == ds
    ensures |ds| == 0 ==> Persist(ds, slot) == slot
  {
  }

  /** Deleting the only deck is not written back: the slot still holds that deck, and the next load brings it back. */
  lemma DeletingLastDeckIsNotPersisted(d: Deck, now: Timestamp)
    ensures DeleteDeck([d], d.id) == []
    ensures Persist(DeleteDeck([d], d.id), Persist([d], None)) == Some(Serialized([d]))
    ensures Hydrate(Persist(DeleteDeck([d], d.id), Persist([d], None)), now) == [d]
  {
    SubsequenceMembers(DeleteDeck([d], d.id), [d]);
  }
}
