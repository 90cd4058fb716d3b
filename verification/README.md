# price-tracker, modelled in Dafny

price-tracker.py runs once per schedule tick:
- it visits a fixed list of product pages on one retail site;
- it records the name and price it finds on each page in a CSV history file;
- it sends one alert email when a product's price fell below its last recorded price.

This project models the decision core of that script. The browser, the mail relay, the
environment and the clock are inputs; none of them is part of the model.

- `wrappers.dfy` (`Wrappers`): the `Option` type. `None` stands for a failure the script
  catches, or for a missing file or setting.
- `price_parser.dfy` (`PriceParser`): `parse_price`.
  - `Clean` is the chain of three replacements: drop `$`, drop `.`, turn `,` into `.`.
  - `ReadDecimal` is the numeric conversion for plain decimal text.
  - The site's display format (`$1.234,56`) is defined as `LocalePrice`. It is proved to
    parse back to the displayed amount.
- `observations.dfy` (`Observations`): the observation record and `str.strip`.
  - `ProductInfo` is what `get_product_info` returns once the page has loaded: an
    observation, or `None` when an element is missing or the price does not parse.
  - `GetProductInfo` is the whole call. `driver.get` (line 41) runs before the `try`, so a
    navigation error escapes the call (`Escaped`) instead of giving `None`.
- `history.dfy` (`History`): the history file as a sequence of rows, a header and then
  records.
  - `Store` is a class holding the file. Its method `Append` is `write_to_csv`.
  - `LastPrices` is `read_last_prices`. It keeps the tail-slice heuristic exactly as
    written: only the last N records are consulted, with N the number of tracked URLs, and
    a later row overwrites an earlier one.
- `tracker.dfy` (`Tracker`): `main`.
  - `Collect` is the fetch-and-compare loop.
  - `Persist` is the write loop.
  - `Notify` is the notification decision, with `send_email`'s configuration guard.
  - `Run` composes them against a `Store`. An error escaping a fetch ends the run before
    anything is written or sent: the `finally` at lines 125-126 only quits the browser.

Details of the script that shape the model:
- The recipient address is read from the same variable as the sender address (`EMAIL`,
  lines 26 and 28). `Config` therefore holds one address and one password.
- The drop check compares the observation with the last price of the loop's URL. Every
  observation `get_product_info` returns carries the URL visited (line 52);
  `GetProductInfoFetches` proves this, and `Collect` and `Run` rely on it as a
  precondition.

## Model

| member | source | states |
|---|---|---|
| PriceParser.Remove | price-tracker.py:38 | removing a character leaves none of it; the length drops by exactly its number of occurrences; no character is introduced |
| PriceParser.RemoveAppend | price-tracker.py:38 | removal works piece by piece: the result for a concatenation is the results for its parts, in order, so the kept characters keep their order |
| PriceParser.RemoveSingle | price-tracker.py:38 | a single character is dropped when it is the removed one and kept otherwise |
| PriceParser.Replace | price-tracker.py:38 | replacing keeps the length; each position holds the replacement where the input had the target, and the input character elsewhere |
| PriceParser.Clean | price-tracker.py:36-38 | the cleaned text has no `$`; its number of `.` equals the input's number of `,`; its length is the input length minus the `$` and `.` count; every other character comes from the input |
| PriceParser.CleanIsPerChar | price-tracker.py:38 | the three-step cleaning equals the per-character rewrite (`$` and `.` vanish, `,` becomes `.`, anything else stays), so relative order is kept |
| PriceParser.CleanAppend | price-tracker.py:38 | cleaning a concatenation is the concatenation of the cleanings |
| PriceParser.CleanDigits | price-tracker.py:38 | text made of digits only comes out of cleaning unchanged |
| PriceParser.DigitsValueAppend | price-tracker.py:38 | the value of concatenated digit strings is the first value shifted by the second's length plus the second value |
| PriceParser.ReadDecimal | price-tracker.py:38 | an accepted text has at most one `.` and at least one digit |
| PriceParser.ReadPointed | price-tracker.py:38 | digits, a point and digits, with at least one digit in all (`.56` and `12.` too), are accepted with the value whole part plus fraction |
| PriceParser.ParsePrice | price-tracker.py:36-38 | a price parses only if the raw text has at most one `,` and at least one digit |
| PriceParser.Digits | price-tracker.py:36-38 | the decimal writing of n is non-empty, all digits, and reads back as n |
| PriceParser.Pad3 | price-tracker.py:36-38 | a zero-padded three-digit group reads back as its number |
| PriceParser.CleanGrouped | price-tracker.py:38 | cleaning a number grouped with `.` every three digits leaves digits that read back as the number |
| PriceParser.LocalePriceRoundTrip | price-tracker.py:36-38 | every price shown as `$` + grouped integer part + `,` + two decimals parses back to exactly cents/100 |
| PriceParser.ParsePriceExampleGrouped | price-tracker.py:36-38 | `$1.234,56` parses to 1234.56 |
| PriceParser.ParsePriceExampleSmall | price-tracker.py:36-38 | `$10,00` parses to 10 |
| Observations.Strip | price-tracker.py:48-49 | the stripped text is no longer than the input, neither starts nor ends with whitespace, and is empty exactly when the input is all whitespace |
| Observations.StripRemovesPadding | price-tracker.py:48-49 | whitespace padding around a text with non-space ends is removed and nothing else is |
| Observations.ProductInfo | price-tracker.py:42-59 | once the page has loaded, an observation comes back exactly when the page gave its texts and the stripped price text parses; it then carries the visited URL, the stripped name, the parsed price and the given timestamp |
| Observations.GetProductInfo | price-tracker.py:40-59 | the call raises exactly when navigation failed; otherwise it returns what ProductInfo gives, and a returned observation is about the URL visited |
| History.Body | price-tracker.py:71-72 | the rows a reader yields are the records after the header, one per line, in file order |
| History.BodyOfRecords | price-tracker.py:70-72 | a file written as the header plus records is well formed and reads back as exactly those records |
| History.WellFormedHeaderCount | price-tracker.py:62-65 | a well-formed file holds one header line, or none when empty |
| History.BodyWriteRow | price-tracker.py:61-66 | one append keeps the file well formed and adds exactly that observation at the end of what it reads back as |
| History.WriteAllSnoc | price-tracker.py:115-116 | one more write after a series of writes extends the series by that write |
| History.BodyWriteAll | price-tracker.py:61-66 | after any number of appends the file is well formed and reads back as the earlier records followed by the appended observations in order |
| History.WriteAllHeaderOnce | price-tracker.py:62-66 | however many appends, a non-empty file begins with the header and holds it exactly once (from an empty file too) |
| History.WriteAllNonEmpty | price-tracker.py:64-66 | appending to a non-empty file leaves its lines in place and adds one record line per observation, never a header |
| History.WriteRow | price-tracker.py:61-66 | one write_to_csv call: the file starts with the header (written only into an empty file) or keeps its first line, keeps all earlier lines, and ends with the new record; BodyWriteRow states what it reads back as |
| History.WriteAll | price-tracker.py:115-116 | successive write_to_csv calls: the file grows by one line per observation plus one header line only when it was empty, and earlier lines stay in place; WriteAllSnoc, BodyWriteAll, WriteAllHeaderOnce and WriteAllNonEmpty pin it down |
| History.PriceMap | price-tracker.py:73 | the dict comprehension: every entry is the URL and price of some row; PriceMapKeys gives its keys and PriceMapLatest its values |
| History.TailSlice | price-tracker.py:73 | the slice is a suffix of the rows: the last n rows, all rows when there are fewer, and all rows when n is 0 |
| History.PriceMapKeys | price-tracker.py:73 | the URL-to-price map has as keys exactly the URLs of the rows |
| History.PriceMapLatest | price-tracker.py:73 | a URL's price is that of its latest row |
| History.LastPrices | price-tracker.py:68-75 | a missing file gives the empty map |
| History.LastPricesKeys | price-tracker.py:73 | the keys are exactly the URLs of the tail slice |
| History.LastPricesLatestInTail | price-tracker.py:73 | within the tail slice (all rows when there are fewer than n, or when n is 0), the latest row for a URL gives its last price |
| History.LastPricesIgnoresOlderRows | price-tracker.py:73 | rows before the last n have no influence on the result |
| History.LastPricesMissesEarlierUrl | price-tracker.py:73 | a URL recorded only before the last n rows has no last price, although the file holds one |
| History.Store.constructor | price-tracker.py:70-72 | a file that exists or not, holding the given records behind one header |
| History.Store.Contents | price-tracker.py:69-72 | the file reads as nothing exactly when it does not exist |
| History.Store.ReadLastPrices | price-tracker.py:68-75 | a missing file gives the empty map |
| History.Store.Append | price-tracker.py:61-66 | the file exists afterwards; the header is written only into an empty file; the records read back gain exactly the observation at the end |
| Tracker.Successes | price-tracker.py:104-107 | no more successes than fetches |
| Tracker.SuccessesAppend | price-tracker.py:104-107 | the successes of consecutive fetch lists are concatenated in order |
| Tracker.SuccessesSingle | price-tracker.py:105-107 | a failed fetch is skipped and a successful one contributes its observation |
| Tracker.SuccessesSnoc | price-tracker.py:105-107 | one more fetch adds its observation at the end when it succeeded, and nothing otherwise |
| Tracker.SuccessesMembers | price-tracker.py:105-107 | an observation is kept exactly when some fetch returned it |
| Tracker.DropFor | price-tracker.py:110-112 | a drop entry exists exactly when the URL has a last price strictly above the new one; it carries the name and new price, and the positive amount is the last price minus the new one |
| Tracker.DropForUrl | price-tracker.py:110-111 | the check as written, with the loop's URL, is DropFor of an observation fetched from that URL |
| Tracker.DetectDrops | price-tracker.py:104-112 | no more drop entries than observations, each with a positive amount |
| Tracker.DetectDropsAppend | price-tracker.py:104-112 | the entries for consecutive observation lists come one list after the other: one entry per dropping observation, in fetch order |
| Tracker.DetectDropsSingle | price-tracker.py:110-112 | one observation gives its own DropFor entry when it dropped, and nothing otherwise |
| Tracker.DetectDropsSnoc | price-tracker.py:110-112 | one more observation adds its entry at the end when it dropped, and nothing otherwise |
| Tracker.DetectDropsMembers | price-tracker.py:110-112 | an entry is in the list exactly when it is the drop of some observation |
| Tracker.DetectDropsEmpty | price-tracker.py:110-112 | the list is empty exactly when every observation is unseen, unchanged or dearer |
| Tracker.Notify | price-tracker.py:118-123 | nothing is sent exactly when there are no drops; an email is attempted exactly when there are drops and both address and password are set; otherwise it is skipped; the drops are carried unchanged |
| Tracker.GetProductInfoFetches | price-tracker.py:104-105 | fetches made by get_product_info for the URLs in order carry their URLs, and none escapes exactly when every navigation succeeded |
| Tracker.Collect | price-tracker.py:101-112 | the loop completes exactly when no fetch raised; it then keeps exactly the successes in fetch order and the drop entries of those successes against the last prices |
| Tracker.Persist | price-tracker.py:114-116 | every collected observation is appended in order: the file becomes the series of writes, reads back as before plus the observations, and exists when anything was written |
| Tracker.Run | price-tracker.py:97-126 | a fetch that raises aborts the run with the file unchanged and nothing sent; otherwise the run reports the drops of the successes against the last prices read before writing, appends exactly the successes in fetch order, and notifies as `Notify` decides |
| Tracker.EndToEndScenario | price-tracker.py:100-116 | a run with last prices 55 and 80, fetches 50, 80 and a timeout reports one drop of 5 and keeps exactly the two fetched observations, in order, for appending |

## Left out

- Browser automation (`setup_driver`, page navigation, the wait and the element lookups in `get_product_info`, lines 30-34 and 40-47): a visit is an input: navigation failed, or the page loaded with its two texts or without them.
- Every exception caught in `get_product_info` (line 57) becomes `None`. The log line it prints is not modelled.
- Errors raised elsewhere (starting the browser, reading a malformed history file, writing the file) are not modelled. Only a navigation error is: it ends the run with nothing written or sent.
- SMTP delivery and MIME construction in `send_email` (lines 82-95): `Notify` ends at the decision to attempt one message with the alert subject. The message body text is not modelled.
- Environment configuration (lines 24-28): `Config` holds the two values the guard at line 78 tests. The relay host and port are not modelled.
- Timestamps (line 55): opaque text supplied by the caller.
- Floating point: prices are exact reals. Float rounding in `float()` is not modelled, and neither is the `:.2f` formatting at lines 108 and 112.
- The CSV encoding (quoting, escaping, UTF-8) and the float text written to the file: rows are records, and a price read back is the price written.
- PriceParser.ReadDecimal: accepts an optional sign, digits and at most one `.` with at least one digit. Python's `float()` also accepts exponents, underscores between digits, `inf`/`nan`, surrounding whitespace and non-ASCII decimal digits; the model rejects those.
- Console output (the `print` calls) and `driver.quit()` (lines 125-126).
- The tracked URL list is fixed at three in the script. `LastPrices` takes the count as a parameter, and the model keeps Python's `rows[-0:]`, which returns the whole list.
- A malformed price in the history file makes the script's read fail with an error; the model's file holds only records it wrote itself.
