/**
 * The buy / do-not-buy rule: the predicted next-day opening price is compared
 * strictly with the latest price, and the decision is rendered as a coloured
 * HTML `div`. Prices are exact reals.
 */
module Recommend {
  import opened Wrappers
  import Html

  const BuyLabel: string := "Recommendation: Buy"
  const DoNotBuyLabel: string := "Recommendation: Do Not Buy"
  /** Green box that goes with the Buy label. */
  const BuyStyle: string := "background-color: #16915a; padding: 10px; border-radius: 5px;"
  /** Red box that goes with the Do Not Buy label. */
  const DoNotBuyStyle: string := "background-color: #a11516; padding: 10px; border-radius: 5px;"

  /** The two snippets the rule can return. */
  const BuyHtml: string := Html.Div(BuyStyle, BuyLabel)
  const DoNotBuyHtml: string := Html.Div(DoNotBuyStyle, DoNotBuyLabel)

  /** Neither label contains a double quote, so each reads back as the text of the `div`. */
  lemma LabelsQuoteFree()
    ensures '"' !in BuyLabel && '"' !in DoNotBuyLabel
  {
  }

  /**
   * The rule: the returned snippet is a `div` whose style and text read back
   * as the green Buy pair when the prediction is strictly above the latest
   * price, and as the red Do Not Buy pair otherwise.
   */
  function MakeRecommendation(predictedOpeningPrice: real, latestPrice: real): (html: string)
    ensures Html.ParseDiv(html)
         == if predictedOpeningPrice > latestPrice then Some((BuyStyle, BuyLabel))
            else Some((DoNotBuyStyle, DoNotBuyLabel))
  {
    var (recommendation, style) :=
      if predictedOpeningPrice > latestPrice then (BuyLabel, BuyStyle)
      else (DoNotBuyLabel, DoNotBuyStyle);
    LabelsQuoteFree();
    Html.ParseDivOfDiv(style, recommendation);
    Html.Div(style, recommendation)
  }

  /**
   * The snippet's text is the Buy label exactly when the prediction is
   * strictly above the latest price, and the Do Not Buy label exactly when it
   * is not; the green style goes with Buy and the red style with Do Not Buy.
   */
  lemma LabelAndStyle(predictedOpeningPrice: real, latestPrice: real)
    ensures Html.ParseDiv(MakeRecommendation(predictedOpeningPrice, latestPrice)).Some?
    ensures var (style, text) := Html.ParseDiv(MakeRecommendation(predictedOpeningPrice, latestPrice)).value;
      && (text == BuyLabel <==> predictedOpeningPrice > latestPrice)
      && (text == DoNotBuyLabel <==> predictedOpeningPrice <= latestPrice)
      && (style == BuyStyle <==> text == BuyLabel)
      && (style == DoNotBuyStyle <==> text == DoNotBuyLabel)
  {
    assert BuyLabel != DoNotBuyLabel by { assert |BuyLabel| != |DoNotBuyLabel|; }
    assert BuyStyle != DoNotBuyStyle by { assert BuyStyle[20] != DoNotBuyStyle[20]; }
  }

  /** The rule is total and has exactly two distinct outputs. */
  lemma TwoOutcomes(predictedOpeningPrice: real, latestPrice: real)
    ensures MakeRecommendation(predictedOpeningPrice, latestPrice) in {BuyHtml, DoNotBuyHtml}
    ensures MakeRecommendation(predictedOpeningPrice, latestPrice) == BuyHtml
        <==> predictedOpeningPrice > latestPrice
    ensures BuyHtml != DoNotBuyHtml
  {
  }

  /** Equal prices do not give Buy: the comparison is strict. */
  lemma TieIsDoNotBuy(price: real)
    ensures MakeRecommendation(price, price) == DoNotBuyHtml
  {
  }

  /**
   * Raising the prediction never turns Buy into Do Not Buy, and raising the
   * latest price never turns Do Not Buy into Buy.
   */
  lemma Monotone(predicted: real, predicted': real, latest: real, latest': real)
    requires predicted <= predicted' && latest <= latest'
    ensures MakeRecommendation(predicted, latest) == BuyHtml
        ==> MakeRecommendation(predicted', latest) == BuyHtml
    ensures MakeRecommendation(predicted, latest) == DoNotBuyHtml
        ==> MakeRecommendation(predicted, latest') == DoNotBuyHtml
  {
  }
}
