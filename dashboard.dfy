/** The dashboard page: the case-insensitive search over the deck list, and the
    create, edit and delete handlers, which trim the form fields and check the
    title before they call the deck store. */
module Dashboard {
  import opened Seqs
  import opened DeckList
  import opened FlashcardContext

  // ---------------------------------------------------------------------------
  // String.prototype.trim
  // ---------------------------------------------------------------------------

  /** The characters `trim` removes: ECMAScript's WhiteSpace and LineTerminator. */
  predicate IsWhitespace(c: char)
  {
    || c == '\t' || c == '\n' || c == '\U{000B}' || c == '\U{000C}' || c == '\r'
    || c == ' ' || c == '\U{00A0}' || c == '\U{1680}' || ('\U{2000}' <= c <= '\U{200A}')
    || c == '\U{2028}' || c == '\U{2029}' || c == '\U{202F}' || c == '\U{205F}'
    || c == '\U{3000}' || c == '\U{FEFF}'
  }

  /** The number of whitespace characters at the start of `s`. */
  function LeadingWhitespace(s: string): (n: nat)
    ensures n <= |s|
    ensures forall k :: 0 <= k < n ==> IsWhitespace(s[k])
    ensures n < |s| ==> !IsWhitespace(s[n])
  {
    if s != [] && IsWhitespace(s[0]) then 1 + LeadingWhitespace(s[1..]) else 0
  }

  /** The number of whitespace characters at the end of `s`. */
  function TrailingWhitespace(s: string): (n: nat)
    ensures n <= |s|
    ensures forall k :: |s| - n <= k < |s| ==> IsWhitespace(s[k])
    ensures n < |s| ==> !IsWhitespace(s[|s| - n - 1])
  {
    if s != [] && IsWhitespace(s[|s| - 1]) then 1 + TrailingWhitespace(s[..|s| - 1]) else 0
  }

  /** `s.trim()`: drops the leading, then the trailing whitespace; what is left is no longer than `s`
      and neither starts nor ends with whitespace. */
  function Trim(s: string): (r: string)
    ensures |r| <= |s|
    ensures r != [] ==> !IsWhitespace(r[0]) && !IsWhitespace(r[|r| - 1])
  {
    var t := s[LeadingWhitespace(s)..];
    t[..|t| - TrailingWhitespace(t)]
  }

  /** `s.trim()` is the slice of `s` between its leading and its trailing whitespace; it is empty exactly
      when `s` is all whitespace, and otherwise starts and ends with a non-whitespace character. */
  lemma TrimSpec(s: string)
    ensures Trim(s) == [] <==> forall k :: 0 <= k < |s| ==> IsWhitespace(s[k])
    ensures Trim(s) != [] ==> !IsWhitespace(Trim(s)[0]) && !IsWhitespace(Trim(s)[|Trim(s)| - 1])
    ensures OccursAt(s, Trim(s), LeadingWhitespace(s))
    ensures forall k :: 0 <= k < LeadingWhitespace(s) ==> IsWhitespace(s[k])
    ensures forall k :: LeadingWhitespace(s) + |Trim(s)| <= k < |s| ==> IsWhitespace(s[k])
  {
    var i := LeadingWhitespace(s);
    var t := s[i..];
    var r := Trim(s);
    assert r == s[i..i + |r|];
    forall k | i + |r| <= k < |s| ensures IsWhitespace(s[k]) {
      assert s[k] == t[k - i];
    }
    if r != [] {
      assert r[0] == s[i];
    }
  }

  /** Trimming twice trims nothing more. */
  lemma TrimIdempotent(s: string)
    ensures Trim(Trim(s)) == Trim(s)
  {
  }

  // ---------------------------------------------------------------------------
  // String.prototype.toLowerCase and String.prototype.includes
  // ---------------------------------------------------------------------------

  /** `toLowerCase` on one character: maps `A`..`Z` to `a`..`z` and leaves every other character alone. */
  function LowerChar(c: char): (r: char)
    ensures !('A' <= r <= 'Z')
    ensures 'A' <= c <= 'Z' ==> 'a' <= r <= 'z' && r as int - c as int == 'a' as int - 'A' as int
    ensures !('A' <= c <= 'Z') ==> r == c
  {
    if 'A' <= c <= 'Z' then (c as int + 32) as char else c
  }

  /** `s.toLowerCase()`: the same length, no upper-case letter left, every other character in place. */
  function Lower(s: string): (r: string)
    ensures |r| == |s|
    ensures forall i :: 0 <= i < |r| ==> !('A' <= r[i] <= 'Z')
    ensures forall i :: 0 <= i < |s| && !('A' <= s[i] <= 'Z') ==> r[i] == s[i]
  {
    Map(LowerChar, s)
  }

  /** Lower-casing a lower-cased text changes nothing. */
  lemma LowerIdempotent(s: string)
    ensures Lower(Lower(s)) == Lower(s)
  {
  }

  /** `q` occurs in `s` starting at index `i`. */
  predicate OccursAt(s: string, q: string, i: nat)
  {
    i + |q| <= |s| && s[i..i + |q|] == q
  }

  /** `s.includes(q)`: some position of `s` starts an occurrence of `q`. */
  function Includes(s: string, q: string): (b: bool)
    ensures b <==> exists i :: 0 <= i <= |s| && OccursAt(s, q, i)
  {
    if q <= s then
      assert OccursAt(s, q, 0);
      true
    else if s == [] then
      false
    else
      var b := Includes(s[1..], q);
      assert forall i :: 0 <= i < |s| ==> (OccursAt(s[1..], q, i) <==> OccursAt(s, q, i + 1)) by {
        forall i | 0 <= i < |s| ensures OccursAt(s[1..], q, i) <==> OccursAt(s, q, i + 1) {
          if i + |q| <= |s[1..]| {
            assert s[1..][i..i + |q|] == s[i + 1..i + 1 + |q|];
          }
        }
      }
      assert !OccursAt(s, q, 0);
      assert (exists i :: 0 <= i <= |s| && OccursAt(s, q, i)) ==> exists i :: 0 <= i <= |s[1..]| && OccursAt(s[1..], q, i) by {
        if exists i :: 0 <= i <= |s| && OccursAt(s, q, i) {
          var i :| 0 <= i <= |s| && OccursAt(s, q, i);
          assert OccursAt(s[1..], q, i - 1);
        }
      }
      b
  }

  // ---------------------------------------------------------------------------
  // filteredDecks
  // ---------------------------------------------------------------------------

  /** The search test of one deck: its lower-cased title or description contains the lower-cased query.
      The empty query matches every deck. */
  predicate MatchesQuery(d: Deck, query: string): (b: bool)
    ensures b <==> || (exists i :: 0 <= i <= |d.title| && OccursAt(Lower(d.title), Lower(query), i))
                   || (exists i :: 0 <= i <= |d.description| && OccursAt(Lower(d.description), Lower(query), i))
    ensures query == "" ==> b
  {
    assert Lower("") == "" && OccursAt(Lower(d.title), "", 0);
    Includes(Lower(d.title), Lower(query)) || Includes(Lower(d.description), Lower(query))
  }

  /** filteredDecks: the decks that match the query, in the order of the store. */
  function FilteredDecks(ds: seq<Deck>, query: string): (r: seq<Deck>)
    ensures IsSubsequence(r, ds)
    ensures forall i :: 0 <= i < |r| ==> r[i] in ds && MatchesQuery(r[i], query)
    ensures forall i :: 0 <= i < |ds| && MatchesQuery(ds[i], query) ==> ds[i] in r
    ensures forall i :: 0 <= i < |ds| ==> multiset(r)[ds[i]] == if MatchesQuery(ds[i], query) then multiset(ds)[ds[i]] else 0
  {
    FilterMultiplicity((d: Deck) => MatchesQuery(d, query), ds);
    Filter((d: Deck) => MatchesQuery(d, query), ds)
  }

  /** The empty search box shows every deck, in order. */
  lemma EmptyQueryKeepsAll(ds: seq<Deck>)
    ensures FilteredDecks(ds, "") == ds
  {
    assert Lower("") == "";
    FilterKeepsAll((d: Deck) => MatchesQuery(d, ""), ds);
  }

  /** Two queries that differ only in letter case select the same decks. */
  lemma QueryCaseIgnored(ds: seq<Deck>, q1: string, q2: string)
    requires Lower(q1) == Lower(q2)
    ensures FilteredDecks(ds, q1) == FilteredDecks(ds, q2)
  {
    FilterSame((d: Deck) => MatchesQuery(d, q1), (d: Deck) => MatchesQuery(d, q2), ds);
  }

  // ---------------------------------------------------------------------------
  // The page's state and its handlers
  // ---------------------------------------------------------------------------

  class DashboardPage {
    const store: DeckStore
    var searchQuery: string
    var isCreateDialogOpen: bool
    var isEditDialogOpen: bool
    var newDeckTitle: string
    var newDeckDescription: string
    var editDeckId: Option<string>
    var editDeckTitle: string
    var editDeckDescription: string

    /** filteredDecks as the page renders it: the store's decks that match the search box, in order;
        all of them while the search box is empty. */
    function VisibleDecks(): (r: seq<Deck>)
      reads this, store
      ensures IsSubsequence(r, store.decks)
      ensures forall i :: 0 <= i < |r| ==> MatchesQuery(r[i], searchQuery)
      ensures forall i :: 0 <= i < |store.decks| && MatchesQuery(store.decks[i], searchQuery) ==> store.decks[i] in r
      ensures forall i :: 0 <= i < |store.decks| ==>
        multiset(r)[store.decks[i]] == if MatchesQuery(store.decks[i], searchQuery) then multiset(store.decks)[store.decks[i]] else 0
      ensures searchQuery == "" ==> r == store.decks
    {
      EmptyQueryKeepsAll(store.decks);
      FilteredDecks(store.decks, searchQuery)
    }

    constructor (store: DeckStore)
      ensures this.store == store
      ensures searchQuery == "" && !isCreateDialogOpen && !isEditDialogOpen
      ensures newDeckTitle == "" && newDeckDescription == ""
      ensures editDeckId == None && editDeckTitle == "" && editDeckDescription == ""
    {
      this.store := store;
      searchQuery := "";
      isCreateDialogOpen, isEditDialogOpen := false, false;
      newDeckTitle, newDeckDescription := "", "";
      editDeckId, editDeckTitle, editDeckDescription := None, "", "";
    }

    /** handleCreateDeck: with a title that is not blank, adds one deck with the trimmed title and
        description, clears the form and closes the dialog; with a blank title, does nothing. */
    method HandleCreateDeck(clock: nat, now: Timestamp)
      modifies this`newDeckTitle, this`newDeckDescription, this`isCreateDialogOpen, store
      ensures Trim(old(newDeckTitle)) != "" ==>
        && store.decks == DeckList.AddDeck(old(store.decks), clock, Trim(old(newDeckTitle)), Trim(old(newDeckDescription)), now)
        && store.storage == Some(Serialized(store.decks))
        && newDeckTitle == "" && newDeckDescription == "" && !isCreateDialogOpen
      ensures Trim(old(newDeckTitle)) == "" ==> unchanged(this) && unchanged(store)
    {
      if Trim(newDeckTitle) != "" {
        store.AddDeck(clock, Trim(newDeckTitle), Trim(newDeckDescription), now);
        newDeckTitle := "";
        newDeckDescription := "";
        isCreateDialogOpen := false;
      }
    }

    /** handleEditDeck: with a selected deck id (a non-empty text) and a title that is not blank,
        updates that deck with the trimmed title and description, resets the edit form and closes
        the dialog; otherwise does nothing. */
    method HandleEditDeck()
      modifies this`editDeckId, this`editDeckTitle, this`editDeckDescription, this`isEditDialogOpen, store
      ensures var ready := old(editDeckId).Some? && old(editDeckId).value != "" && Trim(old(editDeckTitle)) != "";
        ready ==>
          && store.decks == DeckList.UpdateDeck(old(store.decks), old(editDeckId).value, Trim(old(editDeckTitle)), Trim(old(editDeckDescription)))
          && store.storage == Persist(store.decks, old(store.storage))
          && editDeckId == None && editDeckTitle == "" && editDeckDescription == "" && !isEditDialogOpen
      ensures var ready := old(editDeckId).Some? && old(editDeckId).value != "" && Trim(old(editDeckTitle)) != "";
        !ready ==> unchanged(this) && unchanged(store)
    {
      if editDeckId.Some? && editDeckId.value != "" && Trim(editDeckTitle) != "" {
        store.UpdateDeck(editDeckId.value, Trim(editDeckTitle), Trim(editDeckDescription));
        editDeckId := None;
        editDeckTitle := "";
        editDeckDescription := "";
        isEditDialogOpen := false;
      }
    }

    /** openEditDialog: copies the deck's id, title and description into the edit form and opens it. */
    method OpenEditDialog(deck: Deck)
      modifies this`editDeckId, this`editDeckTitle, this`editDeckDescription, this`isEditDialogOpen
      ensures editDeckId == Some(deck.id) && editDeckTitle == deck.title && editDeckDescription == deck.description
      ensures isEditDialogOpen
    {
      editDeckId := Some(deck.id);
      editDeckTitle := deck.title;
      editDeckDescription := deck.description;
      isEditDialogOpen := true;
    }

    /** handleDeleteDeck: passes the id straight to the store. */
    method HandleDeleteDeck(id: string)
      modifies store
      ensures store.decks == DeckList.DeleteDeck(old(store.decks), id)
      ensures store.storage == Persist(store.decks, old(store.storage))
    {
      store.DeleteDeck(id);
    }
  }
}
