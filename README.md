# Estimation deck catalog

A Dafny model of the `deck` package: a catalog of estimation decks (named,
ordered lists of card labels such as Fibonacci numbers or T-shirt sizes) used
for planning-poker votes. Everything lives in `deck.dfy`, module `Decks`.

- `Deck` is a value: a name and a sequence of card labels. No code mutates a
  deck, so pointer identity is not modelled.
- `GetCard` is the bounds-checked lookup. It returns the Go-style pair of a
  card and an error: `("", CardNotFound)` for an index outside `[0, len)`.
- `InitialCatalog` is the process-wide catalog at start: the four built-in
  decks, each filed under its own name.
- `Merge` is the merge rule of `AppendFromJSON` as a function: the loaded
  decks, with every current entry put on top, so current entries win on a name
  clash. `Overlay` is the loop of the source, with invariants, proved equal to
  `Merge`.
- `Catalog` is a class holding the mutable `decks` map (the package global
  `AllDecks`). `Catalog.AppendFromJSON` takes the outcome of reading and
  decoding the deck file as a parameter (`Loaded(map)`, `ReadFailed` or
  `DecodeFailed`). On a failure it returns the error and leaves `decks`
  unchanged. On success it replaces `decks` with the merge.

The package comment calls `AllDecks` a mapping of deck names to decks
(deck/deck.go:30), but the code never checks a decoded deck's `name` against
its key. The model follows the code: every key equals its deck's name in the
initial catalog, and a merge keeps it so exactly when every loaded deck whose
name is new to the catalog is filed under its own name
(`MergeKeepsKeyedByName`).

## Model

| member | source | states |
|---|---|---|
| `Decks.GetCard` | deck/deck.go:41-47 | The lookup succeeds exactly when `0 <= i < len(cards)`, and then returns `cards[i]`; otherwise it returns the empty card with `CardNotFound` |
| `Decks.EmptyDeckAlwaysFails` | deck/deck.go:42-44 | A deck with no cards fails every lookup with `CardNotFound` |
| `Decks.GetCardEnumeratesDeck` | deck/deck.go:41-47 | A label is a card of the deck exactly when some index looks it up successfully, and the successful lookups in index order give back the whole card list |
| `Decks.InitialCatalog` | deck/deck.go:20-38 | The initial catalog has exactly the keys "Modified Fibonacci", "Fibonacci", "T-Shirt Sizes" and "Hours", its decks are the four built-ins, and each key is its deck's name |
| `Decks.InitialCatalogCards` | deck/deck.go:20-38 | The initial catalog has four entries and each built-in deck has the declared card sequence; every built-in deck ends with the coffee card |
| `Decks.Merge` | deck/deck.go:55-62 | The merged key set is the union of the current and loaded keys; current names keep their deck; names only in the loaded map get the loaded deck |
| `Decks.Overlay` | deck/deck.go:59-61 | The loop copying every current entry over the loaded map yields exactly `Merge(current, loaded)` |
| `Decks.MergeIdempotent` | deck/deck.go:59-62 | Merging the same loaded map twice gives the same catalog as merging it once |
| `Decks.MergeKeepsKeyedByName` | deck/deck.go:55-62 | For a catalog keyed by name, the merge is keyed by name if and only if every loaded deck whose name is not already in the catalog is filed under its own name |
| `Decks.MergeKeepsBuiltins` | deck/deck.go:59-61 | A catalog holding the built-in decks still holds them, unchanged, after any merge |
| `Decks.MergeAllKeepsEntries` | deck/deck.go:49-64 | After any series of successful merges every earlier entry keeps its deck and every name any loaded map supplied is in the catalog |
| `Decks.Catalog.constructor` | deck/deck.go:33-38 | A new catalog holds exactly the initial catalog |
| `Decks.Catalog.AppendFromJSON` | deck/deck.go:49-64 | A read failure returns `ReadError` and a decode failure `DecodeError`, both leaving the catalog unchanged; a successful load returns no error and sets the catalog to `Merge(old catalog, loaded)`; the built-in decks survive |

## Left out

- Reading the file (`ioutil.ReadFile`) and decoding the JSON (`json.Unmarshal`): library calls, replaced by the `LoadOutcome` parameter of `AppendFromJSON`.
- The underlying error value of a failed read or decode: only its kind (`ReadError`, `DecodeError`) is modelled.
- The text of the card-not-found error message: only the error kind matters.
- Pointer identity of decks, and the sharing of the same deck object between the old and the new catalog: decks are immutable values here.
- Concurrency: the catalog is an unsynchronised package global and nothing is promised about concurrent callers.
- A JSON `null` document or a `null` deck value, which Go decodes to a nil map or a nil deck: `Loaded` carries a well-formed map of decks. On a `null` document the Go code panics writing into the nil map at deck/deck.go:60, before the catalog is replaced; the model has no outcome for that input.
- The built-in deck variables (`ModifiedFibonacci`, `Fibonacci`, `TShirtSizes`, `Hours`) are reachable as constants; the Go code can reassign them, which is not modelled.
