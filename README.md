# Flashcard deck store: a verified model

This project models the deck store of a browser flashcard application ("Mermory"), and the deck
search and form guards of its dashboard page.

The store holds a list of decks. Each deck has an id, a title, a description, an ordered list of
cards (id, front, back), an optional last-studied timestamp and a creation timestamp. Seven
operations replace the whole list: `addDeck`, `updateDeck`, `deleteDeck`, `addCard`,
`updateCard`, `deleteCard` and `updateLastStudied`. An eighth, `getDeck`, only reads it. At
mount the store loads the list from one storage slot under the key `mermory-decks`, or seeds a
fixed sample deck when nothing is stored.
After every change of the list it writes the list back, but only when the list is non-empty.

The dashboard filters the decks by a case-insensitive substring search. Its create and edit
handlers trim the form fields and call the store only when the trimmed title is non-empty.

Files and modules:

- `seqs.dfy`, module `Seqs`: `Option`, and `Map`, `Filter` and `Find` with the meaning of the
  JavaScript array methods. Also subsequence and distinctness, with their lemmas.
- `deck_list.dfy`, module `DeckList`: the `Card` and `Deck` records and the clock-based ids. It
  has each of the seven replacing operations as a function from the old list to the new one, with
  field-by-field frame contracts, and `getDeck` as a lookup. Lemmas cover lookups, no-ops, round
  trips and the id-uniqueness invariant. It also holds the storage slot, the load rule (`Hydrate`) and the save rule (`Persist`).
- `flashcard_context.dfy`, module `FlashcardContext`: class `DeckStore`. Its `decks` and
  `storage` fields are replaced by each of the seven replacing operations. Each such method is
  specified by the matching `DeckList` function, followed by the save effect. `GetDeck` changes
  nothing and does not save.
- `dashboard.dfy`, module `Dashboard`: `trim`, `toLowerCase` and `includes` on strings, and
  `FilteredDecks` with its lemmas. Class `DashboardPage` holds the page's form state and the
  handlers that guard the store calls.

Modelling choices:

- Ids come from the millisecond clock (`deck-${Date.now()}`, `card-${Date.now()}`). The clock
  reading is a parameter `clock: nat`, and the id is `"deck-"` or `"card-"` followed by its decimal
  text. The code does not guarantee unique ids: two decks created in the same millisecond share
  one (`SameMillisecondBreaksUniqueness`). So every uniqueness result takes a freshness or a
  strictly-increasing-clock precondition.
- Timestamps (`new Date().toISOString()`) are opaque `Timestamp` values passed in as `now`.
- The storage slot is `Option<Blob>`. A blob is either the serialisation of a deck list or some
  other text that fails to parse. `JSON.stringify` followed by `JSON.parse` is treated as the
  identity on deck lists.
- The load test is `if (savedDecks)`, which is false for a stored empty text. So an empty stored
  text seeds the sample deck exactly as a missing one does (`UnparsableBlob`).
- The edit guard is `if (editDeckId && …)`, which is false for an empty id text. The model keeps
  that test (`HandleEditDeck`).

Where the code does less than its own comments and names suggest, the model follows the code:

- The comment at context/flashcard-context.tsx:79 says the decks are saved whenever they change.
  The test at line 81 writes only when the list is non-empty. So deleting the last deck is not
  saved, and the next load brings that deck back (`DeletingLastDeckIsNotPersisted`).
- Deck ids and card ids serve as keys (`getDeck`, `deleteDeck`, `deleteCard` look them up), but
  the code never checks that they are unique. `WellFormed` states uniqueness, and the
  `…KeepsWellFormed` lemmas say which operations keep it and under which freshness conditions.
- The store itself never checks its arguments: `addDeck`, `addCard` and `updateCard` accept empty
  texts. The dashboard handlers check the trimmed deck title (app/dashboard/page.tsx:44,53). The
  card editing page checks the trimmed front and back (app/deck/[id]/edit/page.tsx:54,70), but that
  page is not part of this model.

## Model

| member | source | states |
|---|---|---|
| `DeckList.DecimalInjective` | context/flashcard-context.tsx:88 | two clock readings with the same decimal text are equal |
| `DeckList.IdAtInjective` | context/flashcard-context.tsx:88 | ids drawn with one prefix (`deck-` here, `card-` at line 141) at two clock readings are equal exactly when the readings are equal |
| `DeckList.IdAt` | context/flashcard-context.tsx:88 | an id drawn from the clock (`deck-` here, `card-` at line 141) is the prefix followed by one or more decimal digits |
| `DeckList.AddDeck` | context/flashcard-context.tsx:86-94 | appends exactly one deck at the end, with id `deck-<clock>`, the given title and description, no cards, no last-studied time and `createdAt = now`; the earlier decks are unchanged and in order |
| `DeckList.UpdateDeck` | context/flashcard-context.tsx:101-112 | same length; every deck keeps its id, cards, lastStudied and createdAt; decks with the id get the new title and description; all others are unchanged |
| `DeckList.DeleteDeck` | context/flashcard-context.tsx:119-121 | the result is an order-preserving subsequence holding no deck with the id, and every deck with another id exactly as many times as the old list did |
| `DeckList.GetDeck` | context/flashcard-context.tsx:128-130 | `None` exactly when no deck has the id; otherwise the deck at the first index whose id matches |
| `DeckList.AddCard` | context/flashcard-context.tsx:132-150 | same length; every deck keeps all fields but its cards; each deck with the id gets the card `(card-<clock>, front, back)` appended after its old cards; every other deck is unchanged |
| `DeckList.UpdateCards` | context/flashcard-context.tsx:163-171 | same length and the same card ids in the same order; cards with the id get the new front and back; the others are unchanged |
| `DeckList.UpdateCard` | context/flashcard-context.tsx:157-176 | same length; every deck keeps all fields but its cards; decks with the deck id get their cards rewritten as `UpdateCards` states; every other deck is unchanged |
| `DeckList.RemoveCards` | context/flashcard-context.tsx:189 | an order-preserving subsequence of the cards holding no card with the id, and every card with another id exactly as many times as the old cards did |
| `DeckList.DeleteCard` | context/flashcard-context.tsx:183-194 | same length; every deck keeps all fields but its cards; decks with the deck id lose cards as `RemoveCards` states; every other deck is unchanged |
| `DeckList.UpdateLastStudied` | context/flashcard-context.tsx:201-212 | same length; every deck keeps id, title, description, cards and createdAt; decks with the id get `lastStudied = now`; the others are unchanged |
| `DeckList.NoOpWhenDeckAbsent` | context/flashcard-context.tsx:101-212 | for an id no deck has, getDeck finds nothing and updateDeck, deleteDeck, addCard, updateCard, deleteCard and updateLastStudied return the list unchanged |
| `DeckList.NoOpWhenCardAbsent` | context/flashcard-context.tsx:157-194 | when no deck with the deck id holds the card id, updateCard and deleteCard return the list unchanged |
| `DeckList.GetDeckAfterAddDeck` | context/flashcard-context.tsx:86-130 | after adding a deck under a fresh id, getDeck of that id returns the new deck |
| `DeckList.GetDeckAfterAddDeckOther` | context/flashcard-context.tsx:86-130 | for any clock reading, addDeck leaves getDeck of every other id unchanged; and when the new id collides with a deck already stored, getDeck still returns the old deck |
| `DeckList.GetDeckAfterDeleteDeck` | context/flashcard-context.tsx:119-130 | after deleteDeck(id), getDeck(id) returns nothing, and getDeck of any other id is unchanged |
| `DeckList.GetDeckAfterUpdateDeck` | context/flashcard-context.tsx:101-130 | after updateDeck(id, t, d), getDeck(id) returns the deck it returned before with title t and description d, or nothing if there was none |
| `DeckList.AddCardThenDeleteCard` | context/flashcard-context.tsx:132-194 | addCard then deleteCard of the new card id restores the whole deck list, when that card id was not used in any deck with the deck id |
| `DeckList.AddDeckKeepsWellFormed` | context/flashcard-context.tsx:86-94 | adding a deck under an id no deck has keeps deck ids unique and card ids unique per deck |
| `DeckList.UpdateDeckKeepsWellFormed` | context/flashcard-context.tsx:101-112 | updateDeck keeps the uniqueness invariant |
| `DeckList.DeleteDeckKeepsWellFormed` | context/flashcard-context.tsx:119-121 | deleteDeck keeps the uniqueness invariant |
| `DeckList.AddCardKeepsWellFormed` | context/flashcard-context.tsx:132-150 | addCard keeps the uniqueness invariant when the new card id is fresh in every deck with the deck id |
| `DeckList.UpdateCardKeepsWellFormed` | context/flashcard-context.tsx:157-176 | updateCard keeps the uniqueness invariant |
| `DeckList.DeleteCardKeepsWellFormed` | context/flashcard-context.tsx:183-194 | deleteCard keeps the uniqueness invariant |
| `DeckList.UpdateLastStudiedKeepsWellFormed` | context/flashcard-context.tsx:201-212 | updateLastStudied keeps the uniqueness invariant |
| `DeckList.AddDecksKeepsWellFormed` | context/flashcard-context.tsx:86-94 | a series of addDeck calls at strictly increasing clock readings, none of whose ids is already present, keeps the old decks as a prefix, gives every new deck an empty card list and keeps ids unique |
| `DeckList.SameMillisecondBreaksUniqueness` | context/flashcard-context.tsx:88 | two addDeck calls at the same clock reading produce two decks with the same id |
| `DeckList.SampleDeck` | context/flashcard-context.tsx:52-74 | the seeded deck has id `sample-deck`, which no `deck-<clock>` id equals, three cards with distinct ids, no last-studied time, and `createdAt = now` |
| `DeckList.Hydrate` | context/flashcard-context.tsx:42-77 | the load gives the sample deck when the slot holds nothing truthy, the stored list when it parses, and the empty list exactly when a truthy stored text fails to parse or holds an empty list |
| `DeckList.Persist` | context/flashcard-context.tsx:80-84 | the save writes, for a non-empty list, a text that parses back to that list, and leaves the slot as it was for an empty list |
| `DeckList.SeedWhenNothingStored` | context/flashcard-context.tsx:50-75 | with nothing stored, the list becomes exactly one deck with id `sample-deck` and cards `card-1`, `card-2`, `card-3`, and it satisfies the uniqueness invariant |
| `DeckList.UnparsableBlob` | context/flashcard-context.tsx:43-49 | a stored empty text seeds the sample deck; any other text that fails to parse leaves the initial empty list |
| `DeckList.PersistThenHydrate` | context/flashcard-context.tsx:42-84 | the next load reads back what the save effect wrote for a non-empty list; for an empty list the save effect leaves the slot as it was |
| `DeckList.DeletingLastDeckIsNotPersisted` | context/flashcard-context.tsx:80-84 | deleting the only deck leaves the slot holding that deck, so the next load returns it |
| `FlashcardContext.DeckStore.Mount` | context/flashcard-context.tsx:38-84 | mounting starts from the empty list, loads or seeds as `Hydrate` says, then runs the save effect |
| `FlashcardContext.DeckStore.Save` | context/flashcard-context.tsx:80-84 | the slot becomes the serialised list when the list is non-empty, and is left alone otherwise |
| `FlashcardContext.DeckStore.AddDeck` | context/flashcard-context.tsx:86-99 | the list becomes `AddDeck` of the old list, and the slot holds the new list |
| `FlashcardContext.DeckStore.UpdateDeck` | context/flashcard-context.tsx:101-117 | the list becomes `UpdateDeck` of the old list, followed by the save effect |
| `FlashcardContext.DeckStore.DeleteDeck` | context/flashcard-context.tsx:119-126 | the list becomes `DeleteDeck` of the old list, followed by the save effect |
| `FlashcardContext.DeckStore.GetDeck` | context/flashcard-context.tsx:128-130 | returns `GetDeck` of the current list: nothing exactly when no deck has the id, else a deck of the list with that id |
| `FlashcardContext.DeckStore.AddCard` | context/flashcard-context.tsx:132-155 | the list becomes `AddCard` of the old list, followed by the save effect |
| `FlashcardContext.DeckStore.UpdateCard` | context/flashcard-context.tsx:157-181 | the list becomes `UpdateCard` of the old list, followed by the save effect |
| `FlashcardContext.DeckStore.DeleteCard` | context/flashcard-context.tsx:183-199 | the list becomes `DeleteCard` of the old list, followed by the save effect |
| `FlashcardContext.DeckStore.UpdateLastStudied` | context/flashcard-context.tsx:201-213 | the list becomes `UpdateLastStudied` of the old list, followed by the save effect |
| `Dashboard.Trim` | app/dashboard/page.tsx:44-45 | `trim` returns a text no longer than its input that neither starts nor ends with whitespace |
| `Dashboard.TrimSpec` | app/dashboard/page.tsx:44-45 | `trim` gives the slice of the text between its leading and trailing whitespace; it is empty exactly when the text is all whitespace, and otherwise starts and ends with a non-whitespace character |
| `Dashboard.TrimIdempotent` | app/dashboard/page.tsx:44-45 | trimming a trimmed text changes nothing |
| `Dashboard.LowerChar` | app/dashboard/page.tsx:39-40 | `toLowerCase` on one character: `A`..`Z` become the matching `a`..`z`, no upper-case letter remains, and every other character is unchanged |
| `Dashboard.Lower` | app/dashboard/page.tsx:39-40 | `s.toLowerCase()` has the length of `s`, holds no upper-case letter, and keeps every character that is not one in place |
| `Dashboard.LowerIdempotent` | app/dashboard/page.tsx:39-40 | lower-casing a lower-cased text changes nothing |
| `Dashboard.Includes` | app/dashboard/page.tsx:39-40 | `s.includes(q)` holds exactly when `q` occurs in `s` at some position |
| `Dashboard.MatchesQuery` | app/dashboard/page.tsx:38-40 | a deck matches exactly when the lower-cased query occurs in its lower-cased title or its lower-cased description; the empty query matches every deck |
| `Dashboard.FilteredDecks` | app/dashboard/page.tsx:37-41 | an order-preserving subsequence of the decks, holding exactly the decks whose lower-cased title or description contains the lower-cased query, each as many times as in the store |
| `Dashboard.EmptyQueryKeepsAll` | app/dashboard/page.tsx:37-41 | with an empty query every deck is shown, in order |
| `Dashboard.QueryCaseIgnored` | app/dashboard/page.tsx:37-41 | two queries that lower-case to the same text select the same decks |
| `Dashboard.DashboardPage.constructor` | app/dashboard/page.tsx:28-35 | the search text and form fields start empty, no deck is selected for editing, and both dialogs are closed |
| `Dashboard.DashboardPage.VisibleDecks` | app/dashboard/page.tsx:29-41 | the decks the page shows are an order-preserving subsequence of the store's decks holding exactly those that match the search text, each as many times as in the store, and all of them while the search text is empty |
| `Dashboard.DashboardPage.HandleCreateDeck` | app/dashboard/page.tsx:43-50 | with a non-blank title, the store gets one `AddDeck` with the trimmed title and description and is saved; the form is cleared and the dialog closed. With a blank title, nothing changes |
| `Dashboard.DashboardPage.HandleEditDeck` | app/dashboard/page.tsx:52-60 | with a non-empty selected id and a non-blank title, the store gets `UpdateDeck` with the trimmed values, and the edit fields reset to none and empty with the dialog closed. Otherwise nothing changes |
| `Dashboard.DashboardPage.OpenEditDialog` | app/dashboard/page.tsx:62-67 | copies the deck's id, title and description into the edit fields and opens the edit dialog; no other field changes |
| `Dashboard.DashboardPage.HandleDeleteDeck` | app/dashboard/page.tsx:69-71 | the store gets `DeleteDeck` of the id, followed by the save effect |

## Left out

- Toast notifications (context/flashcard-context.tsx:95-98 and the other `toast` calls): UI side effects that change no state.
- `localStorage`, `JSON.parse` and `JSON.stringify`: the slot is an abstract `Option<Blob>`. A stored text that parses as JSON but not as a deck list (say `{}`) is not modelled.
- The parse-failure `console.error` log: output only.
- DeckList.AddCard, DeckList.UpdateLastStudied: take one clock reading (`clock`, `now`) per call. The code reads the clock inside the `map` callback (context/flashcard-context.tsx:141, :207), once per deck with the id. So when several decks share the id, the code can give them different card ids or timestamps, and `AddCardThenDeleteCard` then need not restore the list. The model is exact when at most one deck has the id, as `WellFormed` guarantees.
- `Date.now()` and `new Date().toISOString()`: the clock reading and the timestamp are parameters. Clock readings are natural numbers, so a clock before 1970 is not modelled. The exponent notation JavaScript uses for numbers from 10^21 up is not modelled either.
- React context, hooks and effect scheduling: each of the seven replacing operations is one atomic step on the store, followed by the save effect; `getDeck` is a read. The `useFlashcards` error for a missing provider is not modelled.
- Dashboard.LowerChar: lower-cases only the ASCII letters A to Z. Unicode case mapping beyond ASCII is not modelled.
- The dashboard's JSX rendering, `router.push`, `formatDistanceToNow`, the card-count wording, and the dialog and search-box `onChange`/`onOpenChange` wiring: presentation only.
- The study-session page (app/deck/[id]/study/page.tsx) and the card editing page (app/deck/[id]/edit/page.tsx), with their own form guards, are not part of this model.
- app/page.tsx and app/layout.tsx: providers, fonts and metadata only, with no logic.
