/** The search box over the artist cards: which cards stay displayed for a
    given input value. */
module Cards {
  import opened Text

  /** `e.target.value.toLowerCase().trim()`. */
  function Normalize(value: string): string {
    Trim(Lower(value))
  }

  /** Whether a card named `name` is displayed for the normalised search term
      `term`: always for an empty term, otherwise when the lower-cased name
      includes the term. */
  predicate CardVisible(term: string, name: string) {
    if term == "" then true else Contains(Lower(name), term)
  }

  /** The display flag of every card, in card order, after typing `value`. */
  function Visibility(cards: seq<string>, value: string): seq<bool> {
    seq(|cards|, j requires 0 <= j < |cards| => CardVisible(Normalize(value), cards[j]))
  }

  /** A card is displayed exactly when the term occurs somewhere in its
      lower-cased name; the empty-term branch agrees with this, since the
      empty string occurs in every name. */
  lemma CardVisibleIff(term: string, name: string)
    ensures CardVisible(term, name) <==> exists i :: OccursAt(Lower(name), term, i)
  {
    ContainsIff(Lower(name), term);
    if term == "" {
      ContainsEmpty(Lower(name));
    }
  }

  /** An input of whitespace only (including the empty input) displays every
      card. */
  lemma BlankSearchShowsAll(cards: seq<string>, value: string)
    requires forall i :: 0 <= i < |value| ==> IsJsWhitespace(value[i])
    ensures |Visibility(cards, value)| == |cards|
    ensures forall j :: 0 <= j < |cards| ==> Visibility(cards, value)[j]
  {
    LowerKeepsWhitespace(value);
    TrimAllWhitespace(Lower(value));
  }

  /** Upper-case letters in the input make no difference. */
  lemma SearchIgnoresCase(cards: seq<string>, value: string)
    ensures Visibility(cards, Lower(value)) == Visibility(cards, value)
  {
    LowerIdempotent(value);
  }
}
