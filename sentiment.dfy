/**
 * `get_stock_sentiment` once its collaborators have answered: the news and
 * price endpoints' results and the language model's reply are inputs. The
 * endpoint calls the two other view functions directly and reads their
 * answer with `.get_json()`; on an error those views return a
 * `(response, status)` pair instead, the call raises, and the endpoint
 * answers with its generic error. With news but no articles the label
 * follows the sign of the daily change; otherwise the reply is read by
 * `SentimentParser`.
 */
module Sentiment {
  import opened Wrappers
  import opened SentimentParser
  import News

  /** What `get_stock_news` returned: an error pair, or the company name and its articles. */
  datatype NewsData = NewsFailed | NewsFound(companyName: string, articles: seq<News.Article>)

  /** What `get_stock_price` returned: an error pair, or the rounded price and daily change in percent. */
  datatype PriceData = PriceFailed | PriceFound(currentPrice: real, changePercent: real)

  /** `current_price` in the response: a number, or the string 'N/A'. */
  datatype PriceField = NotAvailable | Price(amount: real)

  /** The JSON body of the endpoint. */
  datatype SentimentResponse =
    | ConfigError(message: string)
    | Failed(message: string)
    | NoNews(sentiment: string, articleSentiments: seq<string>, priceChange: real, currentPrice: PriceField)
    | Analysis(ticker: string, companyName: string, sentiment: string, articleSentiments: seq<string>,
               priceChange: real, currentPrice: PriceField, articleCount: nat)

  const MissingKeyMessage: string := "Claude API key not configured"
  const FailureMessage: string := "Failed to generate sentiment analysis"
  const Bullish: string := "bullish"
  const Bearish: string := "bearish"

  /** The label of a daily change: its sign, read as bullish, bearish or neutral. */
  function Direction(change: real): (direction: string)
    ensures direction == Bullish <==> change > 0.0
    ensures direction == Bearish <==> change < 0.0
    ensures direction == Neutral <==> change == 0.0
  {
    if change > 0.0 then Bullish else if change < 0.0 then Bearish else Neutral
  }

  /** The news endpoint gave a body without `error` and with a non-empty article list. */
  predicate HasArticles(news: NewsData) {
    news.NewsFound? && |news.articles| > 0
  }

  /**
   * The answer when there is no usable news: no article labels; with a
   * price, the price, its change and the change's direction; without one,
   * neutral, a change of 0 and 'N/A'.
   */
  function NoNewsResponse(price: PriceData): (r: SentimentResponse)
    ensures r.NoNews? && r.articleSentiments == []
    ensures price.PriceFailed? ==> r.sentiment == Neutral && r.priceChange == 0.0 && r.currentPrice == NotAvailable
    ensures price.PriceFound? ==> r.priceChange == price.changePercent && r.currentPrice == Price(price.currentPrice)
    ensures price.PriceFound? ==>
      && (r.sentiment == Bullish <==> price.changePercent > 0.0)
      && (r.sentiment == Bearish <==> price.changePercent < 0.0)
      && (r.sentiment == Neutral <==> price.changePercent == 0.0)
  {
    match price
    case PriceFailed => NoNews(Neutral, [], 0.0, NotAvailable)
    case PriceFound(p, change) => NoNews(Direction(change), [], change, Price(p))
  }

  /**
   * The analysis of `n` articles from the reply, with the price when there
   * is one and a change of 0 and 'N/A' otherwise.
   */
  function AnalysisOf(ticker: string, news: NewsData, price: PriceData, reply: string): (r: SentimentResponse)
    requires news.NewsFound?
    ensures r.Analysis? && r.ticker == ticker && r.companyName == news.companyName
    ensures r.articleCount == |news.articles| == |r.articleSentiments|
    ensures Reply(r.sentiment, r.articleSentiments) == ParseReply(reply, |news.articles|)
    ensures price.PriceFound? ==> r.priceChange == price.changePercent && r.currentPrice == Price(price.currentPrice)
    ensures price.PriceFailed? ==> r.priceChange == 0.0 && r.currentPrice == NotAvailable
  {
    var parsed := ParseReply(reply, |news.articles|);
    Analysis(ticker, news.companyName, parsed.overall, parsed.articles,
             if price.PriceFound? then price.changePercent else 0.0,
             if price.PriceFound? then Price(price.currentPrice) else NotAvailable,
             |news.articles|)
  }

  /**
   * The endpoint as written. `reply` is None when the call to the language
   * model raised; it is asked only when there are articles. A failed news or
   * price fetch, or a failed model call, ends in the generic error.
   */
  function Respond(ticker: string, apiKeyConfigured: bool, news: NewsData, price: PriceData, reply: Option<string>)
    : (r: SentimentResponse)
    ensures !apiKeyConfigured <==> r.ConfigError?
    ensures r.ConfigError? ==> r.message == MissingKeyMessage
    ensures r.Failed? <==> apiKeyConfigured && (news.NewsFailed? || price.PriceFailed? || (HasArticles(news) && reply.None?))
    ensures r.Failed? ==> r.message == FailureMessage
    ensures r.NoNews? <==> apiKeyConfigured && news.NewsFound? && news.articles == [] && price.PriceFound?
    ensures r.NoNews? ==> r == NoNewsResponse(price)
    ensures r.Analysis? ==> reply.Some? && r == AnalysisOf(ticker, news, price, reply.value)
    ensures r.Analysis? ==> r.currentPrice.Price?
  {
    if !apiKeyConfigured then ConfigError(MissingKeyMessage)
    else if news.NewsFailed? || price.PriceFailed? then Failed(FailureMessage)
    else if |news.articles| == 0 then NoNewsResponse(price)
    else if reply.None? then Failed(FailureMessage)
    else AnalysisOf(ticker, news, price, reply.value)
  }

  /**
   * The endpoint as its fallback branches mean it: a failed news fetch falls
   * back on the price, and a failed price fetch gives a change of 0 and 'N/A'.
   */
  function RespondIntended(ticker: string, apiKeyConfigured: bool, news: NewsData, price: PriceData, reply: Option<string>)
    : (r: SentimentResponse)
    ensures !apiKeyConfigured <==> r.ConfigError?
    ensures r.Failed? <==> apiKeyConfigured && HasArticles(news) && reply.None?
    ensures r.NoNews? <==> apiKeyConfigured && !HasArticles(news)
    ensures r.NoNews? ==> r == NoNewsResponse(price)
    ensures r.Analysis? ==> reply.Some? && r == AnalysisOf(ticker, news, price, reply.value)
  {
    if !apiKeyConfigured then ConfigError(MissingKeyMessage)
    else if !HasArticles(news) then NoNewsResponse(price)
    else if reply.None? then Failed(FailureMessage)
    else AnalysisOf(ticker, news, price, reply.value)
  }

  /** When both fetches succeed, the endpoint as written and as meant give the same answer. */
  lemma RespondAgreesWhenFetched(ticker: string, apiKeyConfigured: bool, news: NewsData, price: PriceData, reply: Option<string>)
    requires news.NewsFound? && price.PriceFound?
    ensures Respond(ticker, apiKeyConfigured, news, price, reply) == RespondIntended(ticker, apiKeyConfigured, news, price, reply)
  {
  }

  /**
   * A failed price fetch next to one article: the endpoint as written answers
   * with the generic error, where the branches at app.py:392-393 meant an
   * analysis with a change of 0 and 'N/A'.
   */
  lemma FailedPriceHidesAnalysis(a: News.Article)
    ensures Respond("X", true, NewsFound("X", [a]), PriceFailed, Some("")) == Failed(FailureMessage)
    ensures var r := RespondIntended("X", true, NewsFound("X", [a]), PriceFailed, Some(""));
      r.Analysis? && r.priceChange == 0.0 && r.currentPrice == NotAvailable && r.articleSentiments == [Neutral]
  {
    NeutralUnlessWritten("", 1, 0);
  }

  /**
   * A failed news fetch with a price: the endpoint as written answers with the
   * generic error, where the branch at app.py:369-386 meant the price fallback.
   */
  lemma FailedNewsHidesFallback(p: real, change: real)
    ensures Respond("X", true, NewsFailed, PriceFound(p, change), None) == Failed(FailureMessage)
    ensures RespondIntended("X", true, NewsFailed, PriceFound(p, change), None)
      == NoNews(Direction(change), [], change, Price(p))
  {
  }

  /**
   * The endpoint, as written. The reply is read with the imperative reader
   * of `SentimentParser`.
   */
  method GetStockSentiment(ticker: string, apiKeyConfigured: bool, news: NewsData, price: PriceData, reply: Option<string>)
    returns (r: SentimentResponse)
    ensures r == Respond(ticker, apiKeyConfigured, news, price, reply)
  {
    if !apiKeyConfigured {
      return ConfigError(MissingKeyMessage);
    }
    if news.NewsFailed? || price.PriceFailed? {
      return Failed(FailureMessage);
    }
    if |news.articles| == 0 {
      return NoNewsResponse(price);
    }
    if reply.None? {
      return Failed(FailureMessage);
    }
    var articles := news.articles;
    var priceChange := if price.PriceFound? then price.changePercent else 0.0;
    var currentPrice := if price.PriceFound? then Price(price.currentPrice) else NotAvailable;
    var overall, articleSentiments := ParseSentimentReply(reply.value, |articles|);
    r := Analysis(ticker, news.companyName, overall, articleSentiments, priceChange, currentPrice, |articles|);
  }
}
