/**
 * The card value model of the poker server: ranks, suits, hand categories and cards,
 * their derived orders, their integer, character and name encodings, the two-character
 * card parser and the 52-card deck.
 */
module Cards {
  import opened Wrappers

  /** The characters that name a rank in card text, weakest rank first. */
  const RankChars: string := "23456789TJQKA"

  /** The characters that name a suit in card text, in declaration order. */
  const SuitChars: string := "DCHS"

  /** A card's rank. */
  datatype Rank = Two | Three | Four | Five | Six | Seven | Eight | Nine | Ten | Jack | Queen | King | Ace
  {
    /** The discriminant Rust gives this variant: its position in the declaration, from 0. */
    function Discriminant(): (n: nat)
      ensures n < 13
      ensures n == 0 <==> this == Two
      ensures n == 12 <==> this == Ace
    {
      match this
      case Two => 0
      case Three => 1
      case Four => 2
      case Five => 3
      case Six => 4
      case Seven => 5
      case Eight => 6
      case Nine => 7
      case Ten => 8
      case Jack => 9
      case Queen => 10
      case King => 11
      case Ace => 12
    }

    /** The derived `<` on ranks, which compares discriminants: declared earlier is weaker. */
    predicate Less(other: Rank): (b: bool)
      ensures b <==> ToU32() < other.ToU32()
    {
      Discriminant() < other.Discriminant()
    }

    /** Every rank, in ascending order; the i-th has strength i. */
    static function Iterator(): (rs: seq<Rank>)
      ensures |rs| == 13
      ensures forall i | 0 <= i < 13 :: rs[i].ToU32() == i
    {
      [Two, Three, Four, Five, Six, Seven, Eight, Nine, Ten, Jack, Queen, King, Ace]
    }

    /** The strength of a rank; higher values are more powerful cards. */
    function ToU32(): (n: nat)
      ensures n < 13
    {
      match this
      case Two => 0
      case Three => 1
      case Four => 2
      case Five => 3
      case Six => 4
      case Seven => 5
      case Eight => 6
      case Nine => 7
      case Ten => 8
      case Jack => 9
      case Queen => 10
      case King => 11
      case Ace => 12
    }

    /** Parses a rank character: the inverse of `ToChar`, and `None` outside `RankChars`. */
    static function FromChar(c: char): (r: Option<Rank>)
      ensures r.Some? <==> c in RankChars
      ensures forall q: Rank :: r == Some(q) <==> q.ToChar() == c
    {
      match c
      case '2' => Some(Two)
      case '3' => Some(Three)
      case '4' => Some(Four)
      case '5' => Some(Five)
      case '6' => Some(Six)
      case '7' => Some(Seven)
      case '8' => Some(Eight)
      case '9' => Some(Nine)
      case 'T' => Some(Ten)
      case 'J' => Some(Jack)
      case 'Q' => Some(Queen)
      case 'K' => Some(King)
      case 'A' => Some(Ace)
      case _ => None
    }

    /** The character that names this rank in card text. */
    function ToChar(): (c: char)
      ensures c in RankChars
    {
      match this
      case Two => '2'
      case Three => '3'
      case Four => '4'
      case Five => '5'
      case Six => '6'
      case Seven => '7'
      case Eight => '8'
      case Nine => '9'
      case Ten => 'T'
      case Jack => 'J'
      case Queen => 'Q'
      case King => 'K'
      case Ace => 'A'
    }

    /** Parses a rank name: the inverse of `ToString`, and `None` for every other string. */
    static function FromString(s: string): (r: Option<Rank>)
      ensures forall q: Rank :: r == Some(q) <==> q.ToString() == s
    {
      match s
      case "Two" => Some(Two)
      case "Three" => Some(Three)
      case "Four" => Some(Four)
      case "Five" => Some(Five)
      case "Six" => Some(Six)
      case "Seven" => Some(Seven)
      case "Eight" => Some(Eight)
      case "Nine" => Some(Nine)
      case "Ten" => Some(Ten)
      case "Jack" => Some(Jack)
      case "Queen" => Some(Queen)
      case "King" => Some(King)
      case "Ace" => Some(Ace)
      case _ => None
    }

    /** The English name of this rank: a capitalised word. */
    function ToString(): (s: string)
      ensures |s| >= 3 && 'A' <= s[0] <= 'Z'
      ensures forall i | 1 <= i < |s| :: 'a' <= s[i] <= 'z'
    {
      match this
      case Two => "Two"
      case Three => "Three"
      case Four => "Four"
      case Five => "Five"
      case Six => "Six"
      case Seven => "Seven"
      case Eight => "Eight"
      case Nine => "Nine"
      case Ten => "Ten"
      case Jack => "Jack"
      case Queen => "Queen"
      case King => "King"
      case Ace => "Ace"
    }
  }

  /** A card's suit; its order only makes the card order deterministic. */
  datatype Suit = Diamond | Club | Heart | Spade
  {
    /** The discriminant Rust gives this variant: its position in the declaration, from 0. */
    function Discriminant(): (n: nat)
      ensures n < 4
      ensures n == 0 <==> this == Diamond
      ensures n == 3 <==> this == Spade
    {
      match this
      case Diamond => 0
      case Club => 1
      case Heart => 2
      case Spade => 3
    }

    /** The derived `<` on suits, which compares discriminants. */
    predicate Less(other: Suit): (b: bool)
      ensures b <==> ToU32() < other.ToU32()
    {
      Discriminant() < other.Discriminant()
    }

    /** Every suit, in declaration order; the j-th has number j. */
    static function Iterator(): (ss: seq<Suit>)
      ensures |ss| == 4
      ensures forall j | 0 <= j < 4 :: ss[j].ToU32() == j
    {
      [Diamond, Club, Heart, Spade]
    }

    /** The number of a suit, used for sorting stability. */
    function ToU32(): (n: nat)
      ensures n < 4
    {
      match this
      case Diamond => 0
      case Club => 1
      case Heart => 2
      case Spade => 3
    }

    /** Parses a suit character: the inverse of `ToChar`, and `None` outside `SuitChars`. */
    static function FromChar(c: char): (r: Option<Suit>)
      ensures r.Some? <==> c in SuitChars
      ensures forall q: Suit :: r == Some(q) <==> q.ToChar() == c
    {
      match c
      case 'D' => Some(Diamond)
      case 'C' => Some(Club)
      case 'H' => Some(Heart)
      case 'S' => Some(Spade)
      case _ => None
    }

    /** The typeable character that names this suit in card text. */
    function ToChar(): (c: char)
      ensures c in SuitChars
    {
      match this
      case Diamond => 'D'
      case Club => 'C'
      case Heart => 'H'
      case Spade => 'S'
    }

    /** The display symbol of this suit; it is never a typeable suit character. */
    function ToSymbol(): (c: char)
      ensures FromChar(c) == None
    {
      match this
      case Diamond => '\U{2666}'
      case Club => '\U{2663}'
      case Heart => '\U{2665}'
      case Spade => '\U{2660}'
    }

    /** Parses a suit name: the inverse of `ToString`, and `None` for every other string. */
    static function FromString(s: string): (r: Option<Suit>)
      ensures forall q: Suit :: r == Some(q) <==> q.ToString() == s
    {
      match s
      case "Diamond" => Some(Diamond)
      case "Club" => Some(Club)
      case "Heart" => Some(Heart)
      case "Spade" => Some(Spade)
      case _ => None
    }

    /** The English name of this suit: a capitalised word starting with the suit's card character. */
    function ToString(): (s: string)
      ensures |s| >= 4 && s[0] == ToChar()
      ensures forall i | 1 <= i < |s| :: 'a' <= s[i] <= 'z'
    {
      match this
      case Diamond => "Diamond"
      case Club => "Club"
      case Heart => "Heart"
      case Spade => "Spade"
    }
  }

  /** The category of a poker hand, weakest first. */
  datatype HandRank = HighCard | Pair | TwoPair | Set | Straight | Flush | Boat | Quads | StraightFlush
  {
    /** The discriminant Rust gives this variant: its position in the declaration, from 0. */
    function Discriminant(): (n: nat)
      ensures n < 9
      ensures n == 0 <==> this == HighCard
      ensures n == 8 <==> this == StraightFlush
    {
      match this
      case HighCard => 0
      case Pair => 1
      case TwoPair => 2
      case Set => 3
      case Straight => 4
      case Flush => 5
      case Boat => 6
      case Quads => 7
      case StraightFlush => 8
    }

    /** The derived `<` on hand categories, which compares discriminants. */
    predicate Less(other: HandRank): (b: bool)
      ensures b ==> this != other && this != StraightFlush && other != HighCard
    {
      Discriminant() < other.Discriminant()
    }
  }

  /** Why `Card.Of` rejects a string (each is a panic in the source). */
  datatype OfError = WrongLength | UnknownRank | UnknownSuit

  /** A playing card. */
  datatype Card = Card(rank: Rank, suit: Suit)
  {
    /** The derived `<` on cards: by rank, and by suit between cards of equal rank. */
    predicate Less(other: Card): (b: bool)
      ensures b <==> Key() < other.Key()
    {
      rank.Less(other.rank) || (rank == other.rank && suit.Less(other.suit))
    }

    /** The position of this card in the deck: rank-major, then suit. */
    function Key(): (k: nat)
      ensures k < 52
    {
      4 * rank.ToU32() + suit.ToU32()
    }

    /**
     * Parses a two-character card such as "AS": a rank character then a suit character.
     * The length is checked first, then the rank character, then the suit character.
     */
    static function Of(s: string): (r: Result<Card, OfError>)
      ensures r == Failure(WrongLength) <==> |s| != 2
      ensures r == Failure(UnknownRank) <==> |s| == 2 && s[0] !in RankChars
      ensures r == Failure(UnknownSuit) <==> |s| == 2 && s[0] in RankChars && s[1] !in SuitChars
      ensures forall c: Card :: r == Success(c) <==> s == [c.rank.ToChar(), c.suit.ToChar()]
    {
      if |s| != 2 then
        Failure(WrongLength)
      else
        match Rank.FromChar(s[0])
        case None => Failure(UnknownRank)
        case Some(rank) =>
          match Suit.FromChar(s[1])
          case None => Failure(UnknownSuit)
          case Some(suit) => Success(Card(rank, suit))
    }

    /** The inner map of the deck's `flat_map`: the four cards of rank `r`, one per suit in `Suit.Iterator()` order. */
    static function Row(r: Rank): (cs: seq<Card>)
      ensures |cs| == 4 && forall j | 0 <= j < 4 :: cs[j] == Card(r, Suit.Iterator()[j])
    {
      var suits := Suit.Iterator();
      [Card(r, suits[0]), Card(r, suits[1]), Card(r, suits[2]), Card(r, suits[3])]
    }

    /** The deck's `flat_map` over a rank list: the row of each rank, concatenated in list order. */
    static function FlatMapSuits(ranks: seq<Rank>): (cs: seq<Card>)
      ensures |cs| == 4 * |ranks|
    {
      if ranks == [] then [] else Row(ranks[0]) + FlatMapSuits(ranks[1..])
    }

    /** The cross product in closed form: the k-th card has rank `ranks[k / 4]` and the suit numbered k % 4. */
    static function WithEverySuit(ranks: seq<Rank>): seq<Card> {
      seq(4 * |ranks|, k requires 0 <= k < 4 * |ranks| => Card(ranks[k / 4], Suit.Iterator()[k % 4]))
    }

    /** The 52 cards of a deck, rank-major: the card at 4 * i + j has the i-th rank and the j-th suit. */
    static method Deck() returns (d: seq<Card>)
      ensures |d| == 52
      ensures d == FlatMapSuits(Rank.Iterator()) && d == WithEverySuit(Rank.Iterator())
      ensures forall i, j | 0 <= i < 13 && 0 <= j < 4 :: d[4 * i + j] == Card(Rank.Iterator()[i], Suit.Iterator()[j])
    {
      var v := FlatMapSuits(Rank.Iterator());
      FlatMapSuitsIsCross(Rank.Iterator());
      var blank := Card(Two, Diamond);
      var ret := new Card[52](_ => blank);
      assert |v| == ret.Length;
      ZipInto(ret, v);
      d := ret[..];
      DeckLayout();
    }

    /**
     * The deck's loop over the array zipped with `v`: overwrites the slots of `ret` with the cards
     * of `v`, stopping at the shorter of the two; later slots keep their card.
     */
    static method ZipInto(ret: array<Card>, v: seq<Card>)
      modifies ret
      ensures var n := if |v| < ret.Length then |v| else ret.Length;
        ret[..] == v[..n] + old(ret[..])[n..]
      ensures |v| == ret.Length ==> ret[..] == v
    {
      var n := if |v| < ret.Length then |v| else ret.Length;
      for i := 0 to n
        invariant forall k | 0 <= k < i :: ret[k] == v[k]
        invariant forall k | i <= k < ret.Length :: ret[k] == old(ret[k])
      {
        ret[i] := v[i];
      }
      assert ret[..] == v[..n] + old(ret[..])[n..];
    }
  }

  // ---------------------------------------------------------------------------
  // Ranks

  /**
   * `Rank.ToU32` is a bijection from the 13 ranks onto 0..12 whose inverse is indexing
   * `Rank.Iterator()`, so strengths are dense and consecutive.
   */
  lemma RankToU32Bijective()
    ensures forall a: Rank, b: Rank :: a.ToU32() == b.ToU32() ==> a == b
    ensures forall r: Rank :: Rank.Iterator()[r.ToU32()] == r
    ensures forall n | 0 <= n < 13 :: Rank.Iterator()[n].ToU32() == n
  {
  }

  /** The explicit strengths of `Rank.ToU32` are the discriminants of declaration order. */
  lemma RankToU32IsDiscriminant(r: Rank)
    ensures r.ToU32() == r.Discriminant()
  {
  }

  /** The derived order on ranks is a strict total order. */
  lemma RankLessIsStrictTotalOrder()
    ensures forall a: Rank :: !a.Less(a)
    ensures forall a: Rank, b: Rank, c: Rank :: a.Less(b) && b.Less(c) ==> a.Less(c)
    ensures forall a: Rank, b: Rank :: a != b ==> (a.Less(b) <==> !b.Less(a))
  {
  }

  /** `Rank.Iterator` yields the ranks weakest first, each stronger than the one before. */
  lemma RankIteratorAscending()
    ensures forall i, j | 0 <= i < j < 13 :: Rank.Iterator()[i].Less(Rank.Iterator()[j])
  {
  }

  /** Rendering a rank as a character and parsing it back gives the rank. */
  lemma RankCharRoundTrip(r: Rank)
    ensures Rank.FromChar(r.ToChar()) == Some(r)
  {
  }

  /** Rendering a rank as its name and parsing it back gives the rank. */
  lemma RankNameRoundTrip(r: Rank)
    ensures Rank.FromString(r.ToString()) == Some(r)
  {
  }

  // ---------------------------------------------------------------------------
  // Suits

  /** `Suit.ToU32` is a bijection from the 4 suits onto 0..3 whose inverse is indexing `Suit.Iterator()`. */
  lemma SuitToU32Bijective()
    ensures forall a: Suit, b: Suit :: a.ToU32() == b.ToU32() ==> a == b
    ensures forall s: Suit :: Suit.Iterator()[s.ToU32()] == s
    ensures forall n | 0 <= n < 4 :: Suit.Iterator()[n].ToU32() == n
  {
  }

  /** The numbers of `Suit.ToU32` are the discriminants of declaration order. */
  lemma SuitToU32IsDiscriminant(s: Suit)
    ensures s.ToU32() == s.Discriminant()
  {
  }

  /** The derived order on suits is Diamond < Club < Heart < Spade. */
  lemma SuitOrderChain()
    ensures Diamond.Less(Club) && Club.Less(Heart) && Heart.Less(Spade)
  {
  }

  /** `Suit.Iterator` yields the suits in ascending order. */
  lemma SuitIteratorAscending()
    ensures forall i, j | 0 <= i < j < 4 :: Suit.Iterator()[i].Less(Suit.Iterator()[j])
  {
  }

  /** Rendering a suit as a character and parsing it back gives the suit. */
  lemma SuitCharRoundTrip(s: Suit)
    ensures Suit.FromChar(s.ToChar()) == Some(s)
  {
  }

  /** Rendering a suit as its name and parsing it back gives the suit. */
  lemma SuitNameRoundTrip(s: Suit)
    ensures Suit.FromString(s.ToString()) == Some(s)
  {
  }

  /** Distinct suits have distinct display symbols. */
  lemma SuitSymbolInjective(a: Suit, b: Suit)
    ensures a.ToSymbol() == b.ToSymbol() <==> a == b
  {
  }

  // ---------------------------------------------------------------------------
  // Hand categories

  /** The hand categories climb from HighCard to StraightFlush. */
  lemma HandRankAscending()
    ensures HighCard.Less(Pair) && Pair.Less(TwoPair) && TwoPair.Less(Set) && Set.Less(Straight)
    ensures Straight.Less(Flush) && Flush.Less(Boat) && Boat.Less(Quads) && Quads.Less(StraightFlush)
  {
  }

  /** HighCard is below every other category and StraightFlush above every other category. */
  lemma HandRankBounds()
    ensures forall h: HandRank :: h != HighCard ==> HighCard.Less(h)
    ensures forall h: HandRank :: h != StraightFlush ==> h.Less(StraightFlush)
  {
  }

  /** The derived order on hand categories is a strict total order. */
  lemma HandRankLessIsStrictTotalOrder()
    ensures forall a: HandRank :: !a.Less(a)
    ensures forall a: HandRank, b: HandRank, c: HandRank :: a.Less(b) && b.Less(c) ==> a.Less(c)
    ensures forall a: HandRank, b: HandRank :: a != b ==> (a.Less(b) <==> !b.Less(a))
  {
  }

  // ---------------------------------------------------------------------------
  // Cards

  /** A card is determined by its deck position. */
  lemma CardKeyInjective(a: Card, b: Card)
    ensures a.Key() == b.Key() <==> a == b
  {
    RankToU32Bijective();
    SuitToU32Bijective();
  }

  /** The derived card order is a strict total order consistent with equality. */
  lemma CardLessIsStrictTotalOrder()
    ensures forall a: Card :: !a.Less(a)
    ensures forall a: Card, b: Card, c: Card :: a.Less(b) && b.Less(c) ==> a.Less(c)
    ensures forall a: Card, b: Card :: a != b ==> (a.Less(b) <==> !b.Less(a))
  {
    forall a: Card, b: Card ensures (a.Less(b) <==> a.Key() < b.Key()) && (a.Key() == b.Key() <==> a == b) {
      CardKeyInjective(a, b);
    }
  }

  /** Rendering a card as rank character then suit character and parsing it with `Card.Of` gives the card. */
  lemma CardOfRoundTrip(c: Card)
    ensures Card.Of([c.rank.ToChar(), c.suit.ToChar()]) == Success(c)
  {
  }

  /** The concatenated rows of the `flat_map` are the closed-form cross product, for every rank list. */
  lemma {:induction false} FlatMapSuitsIsCross(ranks: seq<Rank>)
    ensures Card.FlatMapSuits(ranks) == Card.WithEverySuit(ranks)
  {
    if ranks != [] {
      FlatMapSuitsIsCross(ranks[1..]);
      var row, rest := Card.Row(ranks[0]), Card.FlatMapSuits(ranks[1..]);
      var cross := Card.WithEverySuit(ranks);
      assert |row + rest| == |cross|;
      forall k | 0 <= k < |cross| ensures (row + rest)[k] == cross[k] {
        if k >= 4 {
          var k' := k - 4;
          assert k / 4 == k' / 4 + 1 && k % 4 == k' % 4;
          assert (row + rest)[k] == rest[k'];
        }
      }
    }
  }

  /**
   * The cross product of a full ascending rank list with the suits puts the card with the
   * i-th rank and the j-th suit at 4 * i + j, so the card at position k has key k.
   */
  lemma CrossLayout(ranks: seq<Rank>)
    requires |ranks| == 13 && forall i | 0 <= i < 13 :: ranks[i].ToU32() == i
    ensures |Card.WithEverySuit(ranks)| == 52
    ensures forall k | 0 <= k < 52 :: Card.WithEverySuit(ranks)[k].Key() == k
    ensures forall i, j | 0 <= i < 13 && 0 <= j < 4 ::
      Card.WithEverySuit(ranks)[4 * i + j] == Card(ranks[i], Suit.Iterator()[j])
  {
    var d := Card.WithEverySuit(ranks);
    forall k | 0 <= k < 52 ensures d[k].Key() == k {
      var i, j := k / 4, k % 4;
      assert d[k] == Card(ranks[i], Suit.Iterator()[j]);
      assert Suit.Iterator()[j].ToU32() == j;
      assert k == 4 * i + j;
    }
    forall i, j | 0 <= i < 13 && 0 <= j < 4
      ensures d[4 * i + j] == Card(ranks[i], Suit.Iterator()[j])
    {
      DivMod4(i, j);
    }
  }

  /** Euclidean division by four undoes `4 * i + j` for a remainder `j` below four. */
  lemma DivMod4(i: nat, j: nat)
    requires j < 4
    ensures (4 * i + j) / 4 == i && (4 * i + j) % 4 == j
  {
  }

  /** The deck is rank-major: the card at 4 * i + j has the i-th rank and the j-th suit, and position k holds the card with key k. */
  lemma DeckLayout()
    ensures |Card.WithEverySuit(Rank.Iterator())| == 52
    ensures forall k | 0 <= k < 52 :: Card.WithEverySuit(Rank.Iterator())[k].Key() == k
    ensures forall i, j | 0 <= i < 13 && 0 <= j < 4 ::
      Card.WithEverySuit(Rank.Iterator())[4 * i + j] == Card(Rank.Iterator()[i], Suit.Iterator()[j])
  {
    CrossLayout(Rank.Iterator());
  }

  /** Every card occurs in the deck exactly once, at the position given by its key. */
  lemma DeckExactlyOnce()
    ensures forall c: Card :: c in Card.WithEverySuit(Rank.Iterator())
    ensures forall c: Card, k | 0 <= k < 52 :: Card.WithEverySuit(Rank.Iterator())[k] == c <==> k == c.Key()
  {
    var d := Card.WithEverySuit(Rank.Iterator());
    DeckLayout();
    forall c: Card, k | 0 <= k < 52 ensures d[k] == c <==> k == c.Key() {
      CardKeyInjective(d[k], c);
    }
    forall c: Card ensures c in d {
      assert d[c.Key()] == c;
    }
  }

  /** The deck is strictly ascending in the card order, so its 52 cards are pairwise distinct. */
  lemma DeckAscending()
    ensures forall i, j | 0 <= i < j < 52 ::
      Card.WithEverySuit(Rank.Iterator())[i].Less(Card.WithEverySuit(Rank.Iterator())[j])
    ensures forall i, j | 0 <= i < j < 52 ::
      Card.WithEverySuit(Rank.Iterator())[i] != Card.WithEverySuit(Rank.Iterator())[j]
  {
    var d := Card.WithEverySuit(Rank.Iterator());
    DeckLayout();
  }
}
