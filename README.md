# Poker card model and grouping helper, in Dafny

This project models the value core of a Texas Hold'em server written in Rust:

- `src/card.rs`: the `Rank` (13 variants, Two..Ace), `Suit` (Diamond, Club, Heart, Spade) and
  `HandRank` (HighCard..StraightFlush) enums with their derived orders, the explicit integer
  encodings `to_u32`, the character, symbol and name conversions in both directions, the `Card`
  struct with its derived rank-then-suit order, the two-character parser `Card::of` and the
  52-card `Card::deck`;
- `src/linq.rs`: `group_by`, which partitions a sequence of elements into a map from each key
  to the set of the elements with that key.

Files:

- `wrappers.dfy` (module `Wrappers`): `Option`, and `Result` for the parser's panics.
- `cards.dfy` (module `Cards`): the card model. The conversions are functions. The contracts
  of the parsers `FromChar` and `FromString` state them as the inverses of `ToChar` and
  `ToString` (`FromChar` returns `Some(q)` exactly when `q.ToChar()` is the character, and
  `None` outside the card alphabet). The `*ToU32Bijective` lemmas show that indexing the
  iterator inverts `ToU32`. `ToSymbol` has no inverse in the source; its contract says that a
  symbol never parses as a suit character. Further lemmas cover the round trips, the orders
  and the deck layout. Rust's derived `Ord` on an enum compares
  discriminants, the declaration positions 0, 1, 2, …; each enum carries that `Discriminant()`
  and its `Less`, and the lemmas prove that the hand-written `to_u32` tables agree with it.
  `Card.Deck` is a method: it builds the `flat_map` of the ranks over the suits
  (`Card.FlatMapSuits`, one four-card row per rank, concatenated), copies it by the source's zip
  loop (`Card.ZipInto`) into a 52-slot array initialised with the Two of Diamonds, and returns
  its contents (a Rust `[Card; 52]` is a value). A lemma proves that the rows, concatenated,
  equal the closed-form cross product `Card.WithEverySuit` for every rank list, and the layout
  lemmas are stated about that closed form.
- `linq.dfy` (module `Linq`): `GroupBy` is a method whose loop rebinds a local variable to an
  updated map value (`ret := ret[k := …]`; a Dafny `map` is immutable), proved against the
  reference function `Grouping`. The source's `ret` is local and unaliased, so this agrees with
  its in-place `HashMap` updates. Its loop invariant says that after `i`
  elements the map is exactly the grouping of those `i` elements, so elements not yet visited
  appear in no bucket.

Buckets are sets, as `HashSet` is. `Card::of`'s panics are `Result` failures. The deck is
rank-major, as the `flat_map` produces it.

`group_by` as written does not compile: `ret` and `hn` are not `mut`, `*elem` needs `T: Copy`,
and the new bucket is inserted under `*key`, a dereference of the key function itself. The model
follows the evident intent: insert the element's key `k` with a fresh singleton set.

## Model

| member | source | states |
|---|---|---|
| `Cards.Rank.Iterator` | src/card.rs:25-29 | yields exactly 13 ranks, and the i-th has strength `to_u32() == i` |
| `Cards.RankIteratorAscending` | src/card.rs:25-29 | the iterator's ranks are strictly ascending in the derived order |
| `Cards.Rank.ToU32` | src/card.rs:31-48 | every strength is below 13 |
| `Cards.RankToU32Bijective` | src/card.rs:31-48 | `to_u32` is injective, and indexing the iterator inverts it on both sides, so it is a bijection onto 0..12 |
| `Cards.RankToU32IsDiscriminant` | src/card.rs:7-48 | the explicit strength of each rank equals its declaration position |
| `Cards.Rank.Discriminant` | src/card.rs:7-22 | the implicit discriminants of the derived order run from 0 (Two) to 12 (Ace) |
| `Cards.Rank.Less` | src/card.rs:6-48 | the derived `<`, which compares discriminants, holds exactly when `a.to_u32() < b.to_u32()`, so the hand-written strengths order the ranks as the declaration does |
| `Cards.RankLessIsStrictTotalOrder` | src/card.rs:7-22 | the derived rank order is irreflexive, transitive and total |
| `Cards.Rank.FromChar` | src/card.rs:50-68 | returns `Some(q)` exactly when `q.to_char()` is the character, and `None` for any character outside `2`-`9`, `T`, `J`, `Q`, `K`, `A` |
| `Cards.Rank.ToChar` | src/card.rs:70-87 | every rank renders into that alphabet |
| `Cards.RankCharRoundTrip` | src/card.rs:50-87 | `from_char(r.to_char()) == Some(r)` for every rank |
| `Cards.Rank.FromString` | src/card.rs:89-107 | returns `Some(q)` exactly when `q.to_string()` is the string, so every other string gives `None` |
| `Cards.Rank.ToString` | src/card.rs:109-126 | every rank name is a capitalised word of at least three letters; that it is the inverse of `from_string` is in `Cards.Rank.FromString` and `Cards.RankNameRoundTrip` |
| `Cards.RankNameRoundTrip` | src/card.rs:89-126 | `from_string(r.to_string()) == Some(r)` for every rank |
| `Cards.Suit.Iterator` | src/card.rs:139-143 | yields exactly 4 suits, and the j-th has `to_u32() == j` |
| `Cards.SuitIteratorAscending` | src/card.rs:139-143 | the iterator's suits are strictly ascending in the derived order |
| `Cards.Suit.ToU32` | src/card.rs:145-153 | every suit number is below 4 |
| `Cards.SuitToU32Bijective` | src/card.rs:145-153 | `to_u32` is a bijection onto 0..3, inverted by indexing the iterator |
| `Cards.Suit.Discriminant` | src/card.rs:130-136 | the implicit discriminants run from 0 (Diamond) to 3 (Spade) |
| `Cards.Suit.Less` | src/card.rs:129-153 | the derived `<` holds exactly when `a.to_u32() < b.to_u32()` |
| `Cards.SuitToU32IsDiscriminant` | src/card.rs:130-153 | each suit's number equals its declaration position |
| `Cards.SuitOrderChain` | src/card.rs:129-136 | the derived order is Diamond < Club < Heart < Spade |
| `Cards.Suit.FromChar` | src/card.rs:155-164 | returns `Some(q)` exactly when `q.to_char()` is the character, and `None` outside `D`, `C`, `H`, `S` |
| `Cards.Suit.ToChar` | src/card.rs:166-174 | every suit renders into that alphabet |
| `Cards.SuitCharRoundTrip` | src/card.rs:155-174 | `from_char(s.to_char()) == Some(s)` for every suit |
| `Cards.Suit.ToSymbol` | src/card.rs:176-184 | a display symbol is never a typeable suit character |
| `Cards.SuitSymbolInjective` | src/card.rs:176-184 | two suits have the same symbol iff they are the same suit |
| `Cards.Suit.FromString` | src/card.rs:186-195 | returns `Some(q)` exactly when `q.to_string()` is the string |
| `Cards.Suit.ToString` | src/card.rs:197-205 | every suit name is a capitalised word that starts with the suit's card character; that it is the inverse of `from_string` is in `Cards.Suit.FromString` and `Cards.SuitNameRoundTrip` |
| `Cards.SuitNameRoundTrip` | src/card.rs:186-205 | `from_string(s.to_string()) == Some(s)` for every suit |
| `Cards.HandRank.Discriminant` | src/card.rs:209-220 | the implicit discriminants run from 0 (HighCard) to 8 (StraightFlush) |
| `Cards.HandRank.Less` | src/card.rs:208-220 | the derived `<` is irreflexive, nothing is above StraightFlush and nothing below HighCard |
| `Cards.HandRankAscending` | src/card.rs:208-220 | HighCard < Pair < TwoPair < Set < Straight < Flush < Boat < Quads < StraightFlush |
| `Cards.HandRankBounds` | src/card.rs:208-220 | HighCard is below and StraightFlush above every other category |
| `Cards.HandRankLessIsStrictTotalOrder` | src/card.rs:208-220 | the derived category order is irreflexive, transitive and total |
| `Cards.Card.Less` | src/card.rs:222-227 | the derived field-by-field `<` (rank first, then suit) holds exactly when the deck key `4 * rank.to_u32() + suit.to_u32()` is smaller |
| `Cards.CardKeyInjective` | src/card.rs:222-227 | card equality is structural: two cards with the same rank and suit number are equal |
| `Cards.CardLessIsStrictTotalOrder` | src/card.rs:222-227 | the derived card order is irreflexive, transitive and total |
| `Cards.Card.Of` | src/card.rs:230-240 | fails on a length other than 2, then on an unknown rank character, then on an unknown suit character, and otherwise returns exactly the card whose rank and suit characters make up the string |
| `Cards.CardOfRoundTrip` | src/card.rs:230-240 | parsing `[rank.to_char(), suit.to_char()]` gives the card back, for all 52 cards |
| `Cards.Card.Row` | src/card.rs:243 | the inner `Suit::iterator().map(...)` for one rank: four cards of that rank, the j-th with the j-th suit |
| `Cards.Card.FlatMapSuits` | src/card.rs:243 | the outer `flat_map` over a rank list: four cards per rank |
| `Cards.Card.Deck` | src/card.rs:242-253 | the deck is the `flat_map` of the ranks over the suits copied into the array: 52 cards, the card at `4 * i + j` having the i-th rank and the j-th suit |
| `Cards.Card.ZipInto` | src/card.rs:248-250 | the zip loop overwrites the array's first `min(len, |v|)` slots with `v` and leaves the rest; when the lengths agree the array becomes `v` |
| `Cards.FlatMapSuitsIsCross` | src/card.rs:243 | for every rank list, the concatenated `Suit::iterator().map(...)` rows of the `flat_map` are the closed-form cross product: the k-th card has rank `k / 4` of the list and suit `k % 4` |
| `Cards.CrossLayout` | src/card.rs:243 | the rank-major flat map of an ascending 13-rank list puts `(i-th rank, j-th suit)` at `4 * i + j` |
| `Cards.DeckLayout` | src/card.rs:242-253 | the deck has 52 cards, rank-major, and the card at position k has key k |
| `Cards.DeckExactlyOnce` | src/card.rs:242-253 | every rank and suit pair occurs in the deck, at exactly one position |
| `Cards.DeckAscending` | src/card.rs:242-253 | the deck is strictly ascending in the derived card order, so its cards are pairwise distinct |
| `Linq.GroupBy` | src/linq.rs:6-26 | the result is the grouping of the input: each element is in its key's bucket, buckets hold only input elements with that key, no bucket is empty, and the keys are exactly those reached |
| `Linq.GroupingSnoc` | src/linq.rs:9-23 | one loop step: adding an element puts it in its key's existing bucket or creates the singleton bucket |
| `Linq.GroupingProperties` | src/linq.rs:9-22 | the grouping puts every element in its key's bucket, holds nothing foreign, has no empty bucket, and its key set is the set of reached keys |
| `Linq.GroupingUnion` | src/linq.rs:12-19 | the union of the buckets is the set of input elements |
| `Linq.GroupingEmpty` | src/linq.rs:7-25 | grouping an empty input gives the empty map |

## Left out

- `Card::shuffle` (src/card.rs:255-258): it delegates to the thread RNG and `SliceRandom::shuffle`; randomness is outside the model.
- `Card::bestFive` (src/card.rs:260-262): the body is an unfinished stub that groups by suit and returns nothing, so there is no hand evaluation to model; only the `HandRank` order it would return is modelled.
- Equality is taken as structural. A user-defined `Eq`/`Hash` under which distinct values are equal, where `HashSet` keeps the first equal element inserted and `HashMap` the first key, is not modelled.
- Hashing and the iteration order of `HashMap` and `HashSet`: the result of `group_by` is a Dafny `map<K, set<T>>`.
- Card.Of: counts characters where `Card::of` checks `s.len()`, which counts UTF-8 bytes. For every string the model succeeds exactly when the source does; on non-ASCII input only the failure kind can differ. For example, "é" is 2 bytes, so the source passes the length check and panics on the rank unwrap, while the model gives `Failure(WrongLength)`; "Aé" is 3 bytes, so the source panics on the length, while the model gives `Failure(UnknownSuit)`.
- Panics: `Card::of`'s panics are `Result` failures, one per check, in the source's order; the `assert_eq!` on the deck length in `Card::deck` is proved rather than checked.
- Linq.GroupBy: the key function is a `&dyn Fn`, which Rust allows to have side effects; it is modelled as a pure total function.
- `to_u32` results are unbounded naturals; every value is below 13, so the 32-bit width never matters.
