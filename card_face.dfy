/** How the lobby view reads a card identifier: the suit is the last
    character, the rank everything before it; the text colour and the suit
    glyph follow from the suit. */
module CardFace {
  import Deck

  /** The suit part: the last character, or "" for an empty identifier. */
  function Suit(card: string): (suit: string)
    ensures |suit| == if card == [] then 0 else 1
    ensures card != [] ==> suit[0] == card[|card| - 1]
  {
    if |card| == 0 then "" else card[|card| - 1..]
  }

  /** The rank part: everything but the last character, or "" for an empty
      identifier. */
  function Rank(card: string): (rank: string)
    ensures |rank| == if card == [] then 0 else |card| - 1
    ensures rank <= card
  {
    if |card| == 0 then "" else card[..|card| - 1]
  }

  /** Whether the card is drawn in red. */
  function IsRed(suit: string): (red: bool)
  {
    suit == "H" || suit == "D"
  }

  const RedText := "text-red-500"
  const BlackText := "text-black"

  /** The style class of the rank and the glyph. */
  function TextColor(suit: string): (color: string)
    ensures color == RedText <==> IsRed(suit)
    ensures color == RedText || color == BlackText
  {
    if IsRed(suit) then RedText else BlackText
  }

  /** The glyph shown in the middle of the card. */
  function SuitIcon(suit: string): (icon: string)
  {
    match suit
    case "H" => "\U{2665}"
    case "D" => "\U{2666}"
    case "C" => "\U{2663}"
    case "S" => "\U{2660}"
    case _ => ""
  }

  /** What a card shows: its rank in the corners, in one colour with the
      glyph in the middle. */
  datatype Face = Face(rank: string, color: string, icon: string)

  function View(card: string): (face: Face)
    ensures card != [] ==> face.rank + [card[|card| - 1]] == card
    ensures card == [] ==> face == Face("", BlackText, "")
    ensures face.icon != "" <==> card != [] && card[|card| - 1..] in Deck.SuitCodes
    ensures face.color == RedText <==> card != [] && card[|card| - 1..] in ["H", "D"]
  {
    var suit := Suit(card);
    SplitRoundTrip(card);
    SuitIconCases(suit);
    Face(Rank(card), TextColor(suit), SuitIcon(suit))
  }

  /** Putting a card identifier together from its parts. */
  function Compose(rank: string, suit: string): (card: string)
  {
    rank + suit
  }

  /** Splitting an identifier and putting the parts back together gives the
      identifier again; the empty identifier has empty parts. */
  lemma SplitRoundTrip(card: string)
    ensures Compose(Rank(card), Suit(card)) == card
    ensures card == [] <==> (Rank(card) == [] && Suit(card) == [])
  {
    if card != [] {
      assert card == card[..|card| - 1] + card[|card| - 1..];
    }
  }

  /** A rank followed by a one-character suit splits back into exactly that
      rank and that suit. */
  lemma ComposeRoundTrip(rank: string, suit: string)
    requires |suit| == 1
    ensures Rank(Compose(rank, suit)) == rank && Suit(Compose(rank, suit)) == suit
  {
    var card := Compose(rank, suit);
    assert card[..|card| - 1] == rank && card[|card| - 1..] == suit;
  }

  /** A card is red exactly when its suit is hearts or diamonds. */
  lemma IsRedIffRedSuit(suit: string)
    ensures IsRed(suit) <==> suit in Deck.SuitCodes[..2]
  {
    assert Deck.SuitCodes[..2] == ["H", "D"];
  }

  /** A glyph is shown exactly for the four suit codes; the four glyphs are
      distinct single characters. */
  lemma SuitIconCases(suit: string)
    ensures SuitIcon(suit) != "" <==> suit in Deck.SuitCodes
    ensures suit in Deck.SuitCodes ==> |SuitIcon(suit)| == 1
  {
  }

  lemma SuitIconInjective(a: string, b: string)
    requires SuitIcon(a) != "" && SuitIcon(a) == SuitIcon(b)
    ensures a == b
  {
  }

  /** Every card of the server's canonical deck decodes into one of the
      thirteen ranks and one of the four suits, and it is red exactly when
      it comes from the first half of the deck (hearts, then diamonds); its
      face shows that rank, that colour and that suit's glyph. */
  lemma CanonicalDeckDecodes(i: nat)
    requires i < |Deck.CardDeck()|
    ensures Suit(Deck.CardDeck()[i]) == Deck.SuitCodes[i / 13]
    ensures Rank(Deck.CardDeck()[i]) == Deck.RankTokens[i % 13]
    ensures Suit(Deck.CardDeck()[i]) in Deck.SuitCodes && Rank(Deck.CardDeck()[i]) in Deck.RankTokens
    ensures IsRed(Suit(Deck.CardDeck()[i])) <==> i < 26
    ensures SuitIcon(Suit(Deck.CardDeck()[i])) != ""
    ensures View(Deck.CardDeck()[i]) ==
      Face(Deck.RankTokens[i % 13], if i < 26 then RedText else BlackText, SuitIcon(Deck.SuitCodes[i / 13]))
  {
    Deck.TokenFacts();
    ComposeRoundTrip(Deck.RankTokens[i % 13], Deck.SuitCodes[i / 13]);
    IsRedIffRedSuit(Deck.SuitCodes[i / 13]);
  }
}
