/** The sign convention of the order placer: on the exchange a positive
    amount buys and a negative amount sells, whatever sign the caller gave. */
module PutOrder {
  import opened Wrappers
  import opened PyText

  /** The `ValueError` raised for a side that is neither buy nor sell; it
      carries the side as normalised. */
  datatype SideError = InvalidSide(side: string)

  function Abs(x: real): (a: real)
    ensures a >= 0.0 && (a == x || a == -x)
  {
    if x < 0.0 then -x else x
  }

  /** `side.strip().lower()` */
  function NormalisedSide(side: string): string {
    Lower(Strip(side))
  }

  /** `calculate_bfx_amount`: the magnitude of `amount`, signed positive for a
      buy and negative for a sell; any other side is an error. */
  function CalculateBfxAmount(amount: real, side: string): (r: Result<real, SideError>)
    ensures r.Success? <==> NormalisedSide(side) == "buy" || NormalisedSide(side) == "sell"
    ensures r.Failure? ==> r.error == InvalidSide(NormalisedSide(side))
    ensures r.Success? ==> Abs(r.value) == Abs(amount)
    ensures r.Success? && NormalisedSide(side) == "buy" ==> r.value >= 0.0
    ensures r.Success? && NormalisedSide(side) == "sell" ==> r.value <= 0.0
  {
    var s := NormalisedSide(side);
    if s == "buy" then Success(Abs(amount))
    else if s == "sell" then Success(-Abs(amount))
    else Failure(InvalidSide(s))
  }

  /** The sign the caller gives the amount is ignored. */
  lemma SignOfInputIgnored(amount: real, side: string)
    ensures CalculateBfxAmount(-amount, side) == CalculateBfxAmount(amount, side)
  {
  }

  /** A buy and a sell of the same amount are exact opposites. */
  lemma BuyAndSellAreOpposite(amount: real, buy: string, sell: string)
    requires NormalisedSide(buy) == "buy" && NormalisedSide(sell) == "sell"
    ensures CalculateBfxAmount(amount, buy).Success? && CalculateBfxAmount(amount, sell).Success?
    ensures CalculateBfxAmount(amount, sell).value == -CalculateBfxAmount(amount, buy).value
  {
  }

  /** `side` spells `word` up to ASCII case, padded with whitespace. */
  ghost predicate SpelledAs(side: string, word: string) {
    exists lead, core, trail :: side == lead + core + trail
      && AllSpace(lead) && AllSpace(trail) && Lower(core) == word
  }

  /** The sides accepted as `word` ("buy" or "sell") are exactly its spellings
      in any ASCII case with any whitespace around them. */
  lemma NormalisedSideSpells(side: string, word: string)
    requires word == "buy" || word == "sell"
    ensures NormalisedSide(side) == word <==> SpelledAs(side, word)
  {
    if NormalisedSide(side) == word {
      var lead, trail := StripParts(side);
      assert side == lead + Strip(side) + trail && Lower(Strip(side)) == word;
    }
    if SpelledAs(side, word) {
      SpelledSideNormalises(side, word);
    }
  }

  lemma SpelledSideNormalises(side: string, word: string)
    requires word == "buy" || word == "sell"
    requires SpelledAs(side, word)
    ensures NormalisedSide(side) == word
  {
    var lead, core, trail :| side == lead + core + trail
      && AllSpace(lead) && AllSpace(trail) && Lower(core) == word;
    assert LowerChar(core[0]) == word[0] && LowerChar(core[|core| - 1]) == word[|word| - 1];
    assert Trimmed(core);
    StripPadded(lead, core, trail);
  }

  /** An upper-case side with surrounding blanks is still a buy. */
  lemma PaddedUpperCaseBuy()
    ensures CalculateBfxAmount(-3.5, " BUY\n") == Success(3.5)
  {
    assert " BUY\n" == " " + "BUY" + "\n";
    StripPadded(" ", "BUY", "\n");
    assert Lower("BUY") == "buy";
  }

  /** A side that is neither buy nor sell is refused, whatever the amount. */
  lemma UnknownSideRefused(amount: real)
    ensures CalculateBfxAmount(amount, " Hold ") == Failure(InvalidSide("hold"))
  {
    assert " Hold " == " " + "Hold" + " ";
    StripPadded(" ", "Hold", " ");
    assert Lower("Hold") == "hold";
    assert NormalisedSide(" Hold ") == "hold";
  }
}
