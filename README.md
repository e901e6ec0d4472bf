# Stock watchlist core, modelled in Dafny

The application is a personal stock watchlist. Signed-in users keep a list of
ticker symbols. For each ticker they see its price, a news-based sentiment label
with one label per article, the recent articles, and a company logo. This
project models the server-side logic of `app.py` that decides something once
the external services have answered:

- **Sentiment reply reader** (`get_stock_sentiment`). The language model's reply
  is stripped and cut into lines. An `OVERALL:` line sets the overall label. An
  `ARTICLES:` line carries `k:label` pairs, and each pair may overwrite the label
  of article `k` in a list that starts as `n` copies of `"neutral"`. Any pair the
  reader does not understand is skipped. Module `SentimentParser`: a
  specification function `ParseReply`, the imperative reader
  `ParseSentimentReply` (a preallocated array overwritten by index inside a
  loop over lines and a loop over pairs), proved equal to it, and lemmas about
  what the reader guarantees.
- **Sentiment endpoint**. The endpoint calls the news and price views directly
  and reads their answers with `.get_json()`. On an error those views return a
  `(response, status)` pair, the call raises, and the endpoint answers with its
  generic error. With news but no articles, and a price, the label is the sign
  of the daily change. Module `Sentiment`. It also holds the fallback the error branches were
  written for (see Findings).
- **News normalisation** (`get_stock_news`). At most five feed entries become
  article records, with defaults for missing fields. The image is the first
  media url, else the first link whose type starts with `image/`, else null.
  Module `News`.
- **Logo lookup, ticker validation, company-name fallback and the watchlist
  table**. The table is unique on (user, ticker), and its company name may not
  be null. A duplicate insert or a null name is a swallowed integrity error. A
  delete removes the pair's row, if present. Modules `Logo` and
  `Watchlist`; the table is the class `Watchlist.WatchlistTable`.
- **The Python string builtins** the reader relies on, as the interpreter
  defines them: `strip`, `split('\n')`, `split()`, `replace`, `startswith`,
  `lower`/`upper` and base-10 `int()`. White space is exactly the set that
  `str.isspace()` accepts. Module `PyStr`; `Wrappers` holds `Option` and `Result`.

The external services (quote service, news search, language model), the clock
and the domain mapping file are parameters: their answers are inputs to the
model.

The overall label is whatever the reply says, lower-cased. It is not restricted
to bullish/bearish/neutral. In the no-news fallback, the label is always one of
the three.

## Model

| member | source | states |
|---|---|---|
| `PyStr.Strip` | app.py:422 | the result has no white space at either end, and a string without white space comes back unchanged |
| `PyStr.TrimLeftExact` | app.py:422 | `lstrip()` drops an all-space prefix and keeps the rest of the string |
| `PyStr.TrimRightExact` | app.py:422 | `rstrip()` keeps a prefix of the string and drops an all-space suffix |
| `PyStr.StripExact` | app.py:422 | `strip()` cuts the string into white space, the result and white space; with `Strip`'s non-space ends this fixes the result |
| `PyStr.SplitOn` | app.py:429 | `s.split(sep)` gives one more part than `s` has separators, no part holds the separator, and joining the parts with it gives `s` back |
| `PyStr.SplitJoin` | app.py:438 | splitting inverts joining: `sep.join(parts).split(sep) == parts` whenever no part holds `sep` |
| `PyStr.SplitWhitespace` | app.py:435 | `s.split()` yields only non-empty tokens without white space |
| `PyStr.SplitWhitespaceJoin` | app.py:435 | `" ".join(words).split() == words` for non-empty words without white space |
| `PyStr.SplitWhitespaceAllSpace` | app.py:435 | white space alone splits into no words |
| `PyStr.SplitWhitespaceNextWord` | app.py:435 | leading white space, then a word up to white space or the end, splits into that word and then the words of the rest; with the all-space case this fixes `split()` on every text |
| `PyStr.ReplaceAll` | app.py:431 | removing a pattern never lengthens the text |
| `PyStr.ReplaceAllNoMatch` | app.py:431 | text without an occurrence of the pattern is unchanged |
| `PyStr.ReplaceAllSkipsMatch` | app.py:431 | a match at the front is removed, and the scan resumes after it |
| `PyStr.ReplaceAllKeepsUnmatched` | app.py:431 | text where no match starts is kept unchanged, in front of what the rest becomes; with the previous lemma this fixes `replace` on every text |
| `PyStr.ReplaceAllLeading` | app.py:431 | `(pat + rest).replace(pat, "") == rest` when `rest` holds no further `pat` |
| `PyStr.Lower` | app.py:441 | `lower()` keeps the length, maps each ASCII capital to its small letter (code point + 32), and keeps every other character |
| `PyStr.Upper` | app.py:108 | `upper()` keeps the length, maps each ASCII small letter to its capital (code point - 32), and keeps every other character |
| `PyStr.UpperOfLower` | app.py:173 | `s.lower().upper() == s.upper()`: letter case is lost under `upper()` |
| `PyStr.ParseDecimal` | app.py:439 | `int(str(k)) == k` for every integer `k`, negative ones included |
| `SentimentParser.ParseReply` | app.py:426-427 | the per-article list always has exactly `n` entries, one per article |
| `SentimentParser.ParseSentimentReply` | app.py:422-443 | the reader returns exactly `ParseReply(text, n)`: overall label and per-article labels |
| `SentimentParser.WriteArticlePairs` | app.py:435-443 | after the loop over one line's pairs, the array holds those pairs applied in order to what it held before |
| `SentimentParser.TokenWrite` | app.py:436-441 | a pair can only write a slot below `n` |
| `SentimentParser.PairNeedsOneColon` | app.py:436-438 | a pair with no colon or with two or more colons writes nothing |
| `SentimentParser.PairWithOneColon` | app.py:438-441 | a pair `d:s` writes `s.lower()` into slot `k-1` exactly when `int(d)` is some `k` in `1..n`, and writes nothing otherwise |
| `SentimentParser.PairForArticle` | app.py:438-441 | the pair `str(k) + ":" + s` with `k` in `1..n` writes `s.lower()` into slot `k-1` |
| `SentimentParser.EmptyLabelAccepted` | app.py:438-441 | `"1:"` is accepted and writes the empty label into the first slot |
| `SentimentParser.UnwrittenSlotKept` | app.py:440-441 | a slot that no pair writes keeps its label |
| `SentimentParser.LastWriteWins` | app.py:435-441 | when several pairs write a slot, the last one decides its label |
| `SentimentParser.LinesWriteTheirPairs` | app.py:429-443 | the article labels depend only on the pairs of the `ARTICLES:` lines, taken in reply order |
| `SentimentParser.OverallLabelOf` | app.py:430-431 | an `OVERALL:` line whose remainder holds no second tag gets that remainder, stripped and lower-cased, as its label |
| `SentimentParser.OverallKept` | app.py:429-431 | lines that do not start with `OVERALL:` never change the overall label |
| `SentimentParser.LastOverallLineWins` | app.py:429-431 | the last `OVERALL:` line decides the overall label |
| `SentimentParser.NeutralUnlessWritten` | app.py:427-441 | every article that no pair of the reply writes is labelled `"neutral"` |
| `SentimentParser.LastPairWins` | app.py:429-441 | across all `ARTICLES:` lines, the last pair writing an article decides its label |
| `SentimentParser.OverallDefaultsToNeutral` | app.py:426-431 | a reply with no `OVERALL:` line has the overall label `"neutral"` |
| `SentimentParser.LastOverallWins` | app.py:429-431 | with several `OVERALL:` lines, the last one's remainder decides the overall label: every `OVERALL:` removed, then stripped and lower-cased |
| `SentimentParser.OverallNotChecked` | app.py:430-431 | the overall label is not checked against a vocabulary: `"OVERALL: Mixed"` gives `"mixed"` |
| `Sentiment.Direction` | app.py:380 | the label is bullish, bearish or neutral exactly when the change is above, below or equal to 0 |
| `Sentiment.NoNewsResponse` | app.py:369-386 | with no usable news there are no article labels. With a price, the answer carries the price and change, and the label is bullish/bearish/neutral exactly as the change is >0, <0 or =0. Without a price it is neutral, change 0, price 'N/A' |
| `Sentiment.AnalysisOf` | app.py:388-453 | the analysis carries the ticker and company name, one label per article as the reader finds them in the reply, and the price and change, with 0 and 'N/A' when there is no price |
| `Sentiment.Respond` | app.py:356-457 | the endpoint as written. It gives the configuration error exactly when there is no API key. It gives the generic error exactly when the news fetch, the price fetch or (with articles) the model call failed. It gives the price fallback exactly when the news has no articles and the price was fetched. Otherwise it gives the analysis, always with a price |
| `Sentiment.RespondIntended` | app.py:369-393 | the endpoint as its fallback branches mean it: the generic error only when the model call failed; the price fallback exactly when there are no articles, news failure included; otherwise the analysis, with 0 and 'N/A' for a missing price |
| `Sentiment.RespondAgreesWhenFetched` | app.py:361-393 | when both fetches succeed, the endpoint as written and as meant answer the same |
| `Sentiment.FailedPriceHidesAnalysis` | app.py:365-366 | one article and a failed price fetch: as written, the generic error; as meant, an analysis with change 0, 'N/A' and the article labelled neutral |
| `Sentiment.FailedNewsHidesFallback` | app.py:361-362 | a failed news fetch with a price: as written, the generic error; as meant, the price fallback |
| `Sentiment.GetStockSentiment` | app.py:356-457 | the endpoint method, which reads the reply with the imperative reader, returns exactly `Respond` |
| `News.ArticleOf` | app.py:255-274 | an entry's record carries the entry's image choice, and a missing source gives `"Unknown"` |
| `News.CollectArticles` | app.py:252-276 | the loop returns `min(5, len(entries))` records, record `i` made from entry `i` (feed order); nothing when the search had no entries |
| `News.FirstImageHrefIsFirst` | app.py:266-271 | the link scan finds nothing exactly when no link is an image link; otherwise it takes the href of the first image link |
| `News.MediaFirst` | app.py:263-264 | a non-empty media list decides the image: its first url, or `""` when that url is missing |
| `News.ImageLinkNext` | app.py:266-271 | without media, the first link whose type starts with `image/` gives the image |
| `News.NoImage` | app.py:263-274 | the image is null exactly when the media list is absent or empty and no link is an image link |
| `Logo.LogoUrl` | app.py:173-184 | a url comes back exactly when the upper-cased ticker maps to a non-empty domain, and the url carries that domain, which can be read back out of it |
| `Logo.LogoIgnoresCase` | app.py:173 | the lower-case and upper-case forms of a ticker find the same logo as the ticker itself |
| `Watchlist.Lookup` | app.py:231-238 | the row for (user, ticker) is found exactly when the table holds one, and it has that key |
| `Watchlist.InsertRow` | app.py:144-150 | an insert keeps the keys unique, leaves the key present, and leaves the table unchanged when the key was already there |
| `Watchlist.DeleteRows` | app.py:159-162 | a delete removes exactly the rows with that key, keeps every other row, and keeps the keys unique |
| `Watchlist.CompanyName` | app.py:127-130 | the name to store is the typed name; else the quote service's `longName` when the key is present (an empty string stays, a null gives no name); else the ticker |
| `Watchlist.EmptyNameOnlyFromLongName` | app.py:127-130 | a stored name is empty exactly when no name was typed and `longName` is the empty string |
| `Watchlist.NoNameOnlyFromNull` | app.py:127-128 | there is no name exactly when no name was typed and `longName` is present but null |
| `Watchlist.DeleteRemovesOne` | app.py:159-162 | under the uniqueness constraint, deleting a present pair removes exactly one row |
| `Watchlist.ValidateTicker` | app.py:108-140 | a ticker is accepted exactly when the quote service's `symbol` equals the upper-cased form ticker; a failing lookup gives "could not validate", any other rejection "invalid ticker" |
| `Watchlist.InsertExistingKeepsFirst` | app.py:144-150 | adding a pair already present leaves the table unchanged, so the first company name stays |
| `Watchlist.InsertNew` | app.py:144-150 | adding a new pair makes it findable with the given row, and every other pair reads as before |
| `Watchlist.DeleteOnlyThatRow` | app.py:159-162 | after removal the pair is absent, and every other user's rows and tickers read as before |
| `Watchlist.RemoveUndoesAdd` | app.py:144-162 | removing a pair that was just added restores the previous table |
| `Watchlist.WatchlistTable.constructor` | database.py:93-103 | a new table is empty and satisfies the uniqueness constraint |
| `Watchlist.WatchlistTable.Insert` | app.py:142-151 | the table keeps its uniqueness. A null name (NOT NULL) leaves the table as it was; otherwise the table becomes `InsertRow` of the old one. It reports whether a row went in: exactly when the name is present and the key is new |
| `Watchlist.WatchlistTable.Remove` | app.py:158-164 | the table keeps its uniqueness and becomes `DeleteRows` of the old table, for the ticker exactly as given. It loses exactly one row when the pair was present, and is unchanged otherwise |
| `Watchlist.WatchlistTable.AddStock` | app.py:107-153 | a rejected ticker leaves the table untouched and reports the validation error. An accepted one is inserted under its upper-cased form with the fallback name; a null name or a duplicate leaves the table as it was |

## Left out

- PyStr.Lower: only ASCII letters change case; Python's full Unicode case mapping is not modelled.
- PyStr.Upper: only ASCII letters change case, as for `Lower`.
- PyStr.ParseInt (no contract row; see `PyStr.ParseDecimal`): only ASCII digits are read. Python's other Unicode decimal digits and its 4300-digit limit on `int()` are not modelled.
- Logo.LogoUrl: the domain map is assumed to hold strings. Loading `stock_domains.json` (app.py:19-20) is not modelled: the map is a parameter.
- Login, logout, profile, sessions, `login_required` and password-hash checks (app.py:28-89) are framework and library calls.
- The watchlist page query and its `ORDER BY date_added` (app.py:91-103) are not modelled. The table keeps rows in insertion order, and `dateAdded` is a clock input.
- Database connections and the DDL of `database.py`, other than the UNIQUE(user_id, stock_ticker) and `company_name` NOT NULL rules, are driver I/O.
- Calls to the quote service, the news search (including the one-day-then-two-day retry), and the language model are not modelled. The same goes for prompt text (app.py:194-197, 242-250, 313-337, 401-420). Their results are inputs.
- `get_stock_price` (app.py:190-224) is not modelled: it is floating-point arithmetic and rounding over quote history. Its result is a `PriceData` input with real numbers.
- `get_stock_summary` (app.py:290-350) is not modelled. It only forwards news to the language model and returns the text.
- Exceptions inside the logo and news views (app.py:186-188, 286-288) are not modelled. Exceptions that reach `add_stock` (app.py:132-140) are modelled as `InfoUnavailable`. Those that reach the sentiment endpoint (app.py:455-457) are modelled as `Failed`, with the model call's failure as a `None` reply.
- HTTP status codes, `print` logging and `render_template` output are not modelled.
- Non-string values in the quote service's info are not modelled: `symbol` and `longName` are assumed to be strings, missing or null.
- The browser-side cache, refresh, stagger and card-ordering logic is out of scope.

## Findings

| source | as written | input that shows it | evidently intended | confidence | as-written member | corrected member |
|---|---|---|---|---|---|---|
| app.py:361-366 | `get_stock_news(ticker).get_json()` and `get_stock_price(ticker).get_json()` are called on what the views return. On an error that is a `(response, status)` pair, so the call raises and the endpoint answers the generic 500 error. The branches at 369-376 and 392-393 never run | API key set, one article, the price view fails (for example rate limited): the answer is `{'error': 'Failed to generate sentiment analysis'}` | an analysis with change 0 and 'N/A'; with a failed news fetch, the price fallback | not executed | `Sentiment.FailedPriceHidesAnalysis` | `Sentiment.RespondIntended` |
