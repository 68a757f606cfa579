/** The flashcard provider: the `decks` state and the storage slot. Seven store
    operations replace the list wholesale and are followed by the save effect;
    `getDeck` only reads the list. */
module FlashcardContext {
  import opened Seqs
  import opened DeckList

  class DeckStore {
    var decks: seq<Deck>
    var storage: Slot

    /** Mounting the provider: state starts as the empty list, the load effect runs once,
        and the save effect runs on whatever the load effect produced. */
    constructor Mount(slot: Slot, now: Timestamp)
      ensures decks == Hydrate(slot, now)
      ensures storage == Persist(decks, slot)
    {
      decks := [];
      storage := slot;
      new;
      if storage.Some? && storage.value != Unparsable("") {
        match storage.value
        case Serialized(saved) =>
          decks := saved;
        case Unparsable(_) =>
          // the parse error is logged and the state stays the empty list
      } else {
        decks := [SampleDeck(now)];
      }
      Save();
    }

    /** The save effect, run after every replacement of `decks`. */
    method Save()
      modifies this`storage
      ensures storage == Persist(decks, old(storage))
    {
      if |decks| > 0 {
        storage := Some(Serialized(decks));
      }
    }

    method AddDeck(clock: nat, title: string, description: string, now: Timestamp)
      modifies this
      ensures decks == DeckList.AddDeck(old(decks), clock, title, description, now)
      ensures storage == Some(Serialized(decks))
    {
      decks := decks + [Deck(DeckIdAt(clock), title, description, [], None, now)];
      Save();
    }

    method UpdateDeck(id: string, title: string, description: string)
      modifies this
      ensures decks == DeckList.UpdateDeck(old(decks), id, title, description)
      ensures storage == Persist(decks, old(storage))
    {
      decks := DeckList.UpdateDeck(decks, id, title, description);
      Save();
    }

    method DeleteDeck(id: string)
      modifies this
      ensures decks == DeckList.DeleteDeck(old(decks), id)
      ensures storage == Persist(decks, old(storage))
    {
      decks := DeckList.DeleteDeck(decks, id);
      Save();
    }

    /** getDeck reads the current list and changes nothing. */
    method GetDeck(id: string) returns (r: Option<Deck>)
      ensures r == DeckList.GetDeck(decks, id)
      ensures r.None? <==> !HasDeck(decks, id)
      ensures r.Some? ==> r.value.id == id && r.value in decks
    {
      r := DeckList.GetDeck(decks, id);
    }

    method AddCard(deckId: string, clock: nat, front: string, back: string)
      modifies this
      ensures decks == DeckList.AddCard(old(decks), deckId, clock, front, back)
      ensures storage == Persist(decks, old(storage))
    {
      decks := DeckList.AddCard(decks, deckId, clock, front, back);
      Save();
    }

    method UpdateCard(deckId: string, cardId: string, front: string, back: string)
      modifies this
      ensures decks == DeckList.UpdateCard(old(decks), deckId, cardId, front, back)
      ensures storage == Persist(decks, old(storage))
    {
      decks := DeckList.UpdateCard(decks, deckId, cardId, front, back);
      Save();
    }

    method DeleteCard(deckId: string, cardId: string)
      modifies this
      ensures decks == DeckList.DeleteCard(old(decks), deckId, cardId)
      ensures storage == Persist(decks, old(storage))
    {
      decks := DeckList.DeleteCard(decks, deckId, cardId);
      Save();
    }

    method UpdateLastStudied(deckId: string, now: Timestamp)
      modifies this
      ensures decks == DeckList.UpdateLastStudied(old(decks), deckId, now)
      ensures storage == Persist(decks, old(storage))
    {
      decks := DeckList.UpdateLastStudied(decks, deckId, now);
      Save();
    }
  }
}
