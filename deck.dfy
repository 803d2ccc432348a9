/** A catalog of estimation decks: named, ordered lists of card labels used
    for planning-poker votes. Lookup of a card by index, the four built-in
    decks, and the merge of externally loaded deck definitions into the
    process-wide catalog. */
module Decks {

  datatype Option<+T> = None | Some(value: T)

  /** The error kinds the package reports. The message text is not modelled. */
  datatype Error =
    | CardNotFound   // index outside the deck
    | ReadError      // the deck file could not be read
    | DecodeError    // the deck file is not a JSON object of decks

  /** A deck: its name and its cards, in voting order. Decks are never
      mutated, so they are values here. */
  datatype Deck = Deck(name: string, cards: seq<string>)

  /** What `GetCard` hands back: a card and an error, Go-style. On failure the
      card is the empty string. */
  datatype CardLookup = CardLookup(card: string, err: Option<Error>)

  /** Card lookup by zero-based index, bounds-checked on both sides. */
  function GetCard(d: Deck, i: int): (r: CardLookup)
    ensures r.err.None? <==> 0 <= i < |d.cards|
    ensures r.err.None? ==> r.card == d.cards[i]
    ensures r.err.Some? ==> r == CardLookup("", Some(CardNotFound))
  {
    if i < 0 || i >= |d.cards| then CardLookup("", Some(CardNotFound))
    else CardLookup(d.cards[i], None)
  }

  /** An empty deck has no card to give, whatever the index. */
  lemma EmptyDeckAlwaysFails(d: Deck, i: int)
    requires d.cards == []
    ensures GetCard(d, i) == CardLookup("", Some(CardNotFound))
  {
  }

  /** Every card of a deck is reachable through `GetCard`, and the successful
      lookups, in index order, give back the deck's card list. */
  lemma {:induction false} GetCardEnumeratesDeck(d: Deck)
    ensures forall c :: c in d.cards <==> exists i :: GetCard(d, i) == CardLookup(c, None)
    ensures Cards(d, |d.cards|) == d.cards
  {
    forall c | c in d.cards
      ensures exists i :: GetCard(d, i) == CardLookup(c, None)
    {
      var i :| 0 <= i < |d.cards| && d.cards[i] == c;
      assert GetCard(d, i) == CardLookup(c, None);
    }
    CardsPrefix(d, |d.cards|);
  }

  /** The first `n` cards, gathered one successful lookup at a time. */
  function Cards(d: Deck, n: nat): seq<string>
    requires n <= |d.cards|
  {
    if n == 0 then [] else Cards(d, n - 1) + [GetCard(d, n - 1).card]
  }

  lemma {:induction false} CardsPrefix(d: Deck, n: nat)
    requires n <= |d.cards|
    ensures Cards(d, n) == d.cards[..n]
  {
    if n > 0 {
      CardsPrefix(d, n - 1);
      assert d.cards[..n] == d.cards[..n - 1] + [d.cards[n - 1]];
    }
  }

  // ---------------------------------------------------------------------------
  // Built-in decks and the initial catalog

  const ModifiedFibonacci: Deck :=
    Deck("Modified Fibonacci", ["0", "1", "2", "3", "5", "8", "13", "20", "40", "100", "?", "☕"])
  const Fibonacci: Deck :=
    Deck("Fibonacci", ["0", "1", "2", "3", "5", "8", "13", "21", "34", "55", "89", "?", "☕"])
  const TShirtSizes: Deck :=
    Deck("T-Shirt Sizes", ["XS", "S", "M", "L", "XL", "XXL", "?", "☕"])
  const Hours: Deck :=
    Deck("Hours", ["0", ".5", "1", "2", "4", "8", "12", "16", "20", "24", "?", "☕"])

  /** The four built-in decks. */
  const Builtins: set<Deck> := {ModifiedFibonacci, Fibonacci, TShirtSizes, Hours}

  /** Every entry is filed under its own deck name. */
  ghost predicate KeyedByName(catalog: map<string, Deck>)
  {
    forall name :: name in catalog ==> catalog[name].name == name
  }

  /** The catalog holds every built-in deck under its name, unchanged. */
  ghost predicate HasBuiltins(catalog: map<string, Deck>)
  {
    forall d :: d in Builtins ==> d.name in catalog && catalog[d.name] == d
  }

  /** The catalog a process starts with: each built-in deck under its name. */
  function InitialCatalog(): (catalog: map<string, Deck>)
    ensures catalog.Keys == {"Modified Fibonacci", "Fibonacci", "T-Shirt Sizes", "Hours"}
    ensures catalog.Values == Builtins
    ensures KeyedByName(catalog) && HasBuiltins(catalog)
  {
    map[ModifiedFibonacci.name := ModifiedFibonacci,
        Fibonacci.name := Fibonacci,
        TShirtSizes.name := TShirtSizes,
        Hours.name := Hours]
  }

  /** The built-in decks have the card lists the package declares; the
      Fibonacci deck, for one, has thirteen cards ending in "?" and "☕". */
  lemma InitialCatalogCards()
    ensures |InitialCatalog()| == 4
    ensures InitialCatalog()["Fibonacci"].cards
         == ["0", "1", "2", "3", "5", "8", "13", "21", "34", "55", "89", "?", "☕"]
    ensures InitialCatalog()["Modified Fibonacci"].cards
         == ["0", "1", "2", "3", "5", "8", "13", "20", "40", "100", "?", "☕"]
    ensures InitialCatalog()["T-Shirt Sizes"].cards == ["XS", "S", "M", "L", "XL", "XXL", "?", "☕"]
    ensures InitialCatalog()["Hours"].cards
         == ["0", ".5", "1", "2", "4", "8", "12", "16", "20", "24", "?", "☕"]
    ensures forall d :: d in Builtins ==> GetCard(d, |d.cards| - 1).card == "☕"
  {
    var keys := InitialCatalog().Keys;
    assert "Modified Fibonacci" !in keys - {"Modified Fibonacci"};
    assert |keys - {"Modified Fibonacci"}| == 3;
  }

  // ---------------------------------------------------------------------------
  // Merging loaded decks into the catalog

  /** What reading and decoding the deck file produced. The read and the
      decode themselves are outside this model. */
  datatype LoadOutcome =
    | Loaded(decks: map<string, Deck>)
    | ReadFailed
    | DecodeFailed

  /** The merged catalog: start from the loaded decks, then put every entry of
      the current catalog on top, so current entries win on a name clash. */
  function Merge(current: map<string, Deck>, loaded: map<string, Deck>): (merged: map<string, Deck>)
    ensures merged.Keys == current.Keys + loaded.Keys
    ensures forall name :: name in current ==> merged[name] == current[name]
    ensures forall name :: name in loaded && name !in current ==> merged[name] == loaded[name]
  {
    loaded + current
  }

  /** The loop of the merge: copy each current entry over the loaded map. */
  method Overlay(current: map<string, Deck>, loaded: map<string, Deck>)
    returns (merged: map<string, Deck>)
    ensures merged == Merge(current, loaded)
  {
    merged := loaded;
    var todo := current.Keys;
    while todo != {}
      invariant todo <= current.Keys
      invariant merged.Keys == loaded.Keys + (current.Keys - todo)
      invariant forall name :: name in current.Keys - todo ==> merged[name] == current[name]
      invariant forall name :: name in loaded && name !in current.Keys - todo ==> merged[name] == loaded[name]
      decreases todo
    {
      var name :| name in todo;
      merged := merged[name := current[name]];
      todo := todo - {name};
    }
  }

  /** Merging the same loaded decks a second time changes nothing. */
  lemma MergeIdempotent(current: map<string, Deck>, loaded: map<string, Deck>)
    ensures Merge(Merge(current, loaded), loaded) == Merge(current, loaded)
  {
  }

  /** A catalog keyed by name stays keyed by name after a merge exactly when
      every loaded deck whose name is new to the catalog is filed under its
      own name: colliding loaded entries are discarded, so they do not matter. */
  lemma MergeKeepsKeyedByName(current: map<string, Deck>, loaded: map<string, Deck>)
    requires KeyedByName(current)
    ensures KeyedByName(Merge(current, loaded))
        <==> forall name :: name in loaded && name !in current ==> loaded[name].name == name
  {
  }

  /** A deck file naming a built-in deck cannot replace it. */
  lemma MergeKeepsBuiltins(current: map<string, Deck>, loaded: map<string, Deck>)
    requires HasBuiltins(current)
    ensures HasBuiltins(Merge(current, loaded))
  {
  }

  /** The catalog after a series of successful merges. */
  function MergeAll(current: map<string, Deck>, loads: seq<map<string, Deck>>): map<string, Deck>
    decreases |loads|
  {
    if loads == [] then current else MergeAll(Merge(current, loads[0]), loads[1..])
  }

  /** However many deck files are merged, an entry once in the catalog keeps
      its deck, and a name that some file supplies is in the catalog. */
  lemma {:induction false} MergeAllKeepsEntries(current: map<string, Deck>, loads: seq<map<string, Deck>>)
    ensures forall name :: name in current ==> name in MergeAll(current, loads)
                                               && MergeAll(current, loads)[name] == current[name]
    ensures forall k, name :: 0 <= k < |loads| && name in loads[k] ==> name in MergeAll(current, loads)
    decreases |loads|
  {
    if loads != [] {
      var next := Merge(current, loads[0]);
      MergeAllKeepsEntries(next, loads[1..]);
      forall k, name | 0 <= k < |loads| && name in loads[k]
        ensures name in MergeAll(current, loads)
      {
        if k > 0 {
          assert loads[k] == loads[1..][k - 1];
        }
      }
    }
  }

  /** The process-wide catalog of decks, name to deck. */
  class Catalog {
    var decks: map<string, Deck>

    /** The catalog as the process starts: the four built-in decks. */
    constructor ()
      ensures decks == InitialCatalog()
    {
      decks := InitialCatalog();
    }

    /** Merges the decks of a deck file into the catalog. A read or decode
        failure is returned and leaves the catalog as it was. */
    method AppendFromJSON(outcome: LoadOutcome) returns (err: Option<Error>)
      modifies this
      ensures outcome.ReadFailed? ==> err == Some(ReadError) && decks == old(decks)
      ensures outcome.DecodeFailed? ==> err == Some(DecodeError) && decks == old(decks)
      ensures outcome.Loaded? ==> err == None && decks == Merge(old(decks), outcome.decks)
      ensures old(HasBuiltins(decks)) ==> HasBuiltins(decks)
    {
      match outcome {
        case ReadFailed =>
          err := Some(ReadError);
        case DecodeFailed =>
          err := Some(DecodeError);
        case Loaded(loaded) =>
          var merged := Overlay(decks, loaded);
          decks := merged;
          err := None;
      }
    }
  }
}
