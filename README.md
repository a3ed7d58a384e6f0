# Quote manager — the quote collection

A model of the in-memory quote collection of a browser "quote manager" page
(`dom-manipulation/script.js`):

- the list of quotes the page starts with;
- the "add quote" handler, which trims the quote text and category typed into
  two inputs, shows an alert and changes nothing when either is empty after
  trimming, and otherwise appends a `{text, category}` record to the end of the
  list, writes a confirmation paragraph and clears both inputs;
- the "show new quote" handler, which shows "No quotes available." for an empty
  list and otherwise renders one quote, picked by `Math.random()`, as
  `"<text>" — <em><category></em>`.

Two modules:

- `StringTrim` (`trim.dfy`): `String.prototype.trim` of ECMAScript, which
  removes leading and trailing WhiteSpace and LineTerminator characters
  (sections 12.2 and 12.3 of ECMA-262), with a reference characterisation and
  its algebraic properties.
- `Quotes` (`quotes.dfy`): the quote record, the initial collection, the
  validation step, the display text and its inverse, the pick of a quote, and
  the class `QuoteManager` that owns the collection and the two input values.
  The DOM inputs are the fields `textInput` and `categoryInput`; the display
  region is the string `ShowRandomQuote` returns; `alert` and the confirmation
  paragraph are the `message` `AddQuote` returns; `Math.random()` is an index
  argument, and `RandomIndex` shows that `Math.floor(Math.random() * n)` gives
  such an index.

`Valid()` of `QuoteManager` says every stored quote has a non-empty text and
category without whitespace at either end. The initial quotes meet it
(`InitialQuotesValid`), and `AddQuote` keeps it, so it holds after any sequence
of calls; `AddAllValid` states the same for the collection as a value.

## Model

| member | source | states |
|---|---|---|
| `StringTrim.IsWhiteSpace` | dom-manipulation/script.js:30-31 | the set `trim()` strips (ECMAScript WhiteSpace and LineTerminator); every member lies in the Basic Multilingual Plane |
| `StringTrim.WhiteSpaceMembers` | dom-manipulation/script.js:30-31 | space, tab, LF, CR, NBSP, U+3000 and U+FEFF are stripped; NEL, U+200B, U+180E and every printable ASCII character are kept |
| `StringTrim.LeadingCount` | dom-manipulation/script.js:30-31 | the count of leading characters that `trim()` removes: all of them are whitespace, and the next character, if any, is not |
| `StringTrim.TrailingCount` | dom-manipulation/script.js:30-31 | the count of trailing characters that `trim()` removes: all of them are whitespace, and the character before them, if any, is not |
| `StringTrim.Trim` | dom-manipulation/script.js:30-31 | `trim()` never lengthens, leaves no whitespace at either end, and yields `""` exactly when the input is whitespace only |
| `StringTrim.TrimUnique` | dom-manipulation/script.js:30-31 | `trim()` equals the reference definition: the substring bordered only by whitespace that is empty or starts and ends with non-whitespace |
| `StringTrim.TrimSpan` | dom-manipulation/script.js:30-31 | the result of `trim()` is a contiguous substring of the input with only whitespace on either side of it |
| `StringTrim.TrimIdempotent` | dom-manipulation/script.js:30-31 | trimming a trimmed string changes nothing |
| `StringTrim.TrimFixedPoint` | dom-manipulation/script.js:30-31 | a string is its own trim if and only if it has no whitespace at either end |
| `StringTrim.TrimPadded` | dom-manipulation/script.js:30-31 | adding whitespace at either end does not change the trimmed value |
| `Quotes.InitialQuotesValid` | dom-manipulation/script.js:1-11 | each of the three initial quotes has non-empty text and category without edge whitespace |
| `Quotes.FirstQuoteValid` | dom-manipulation/script.js:2-5 | the first initial quote is one the add form could have stored |
| `Quotes.SecondQuoteValid` | dom-manipulation/script.js:6-9 | the second initial quote is one the add form could have stored |
| `Quotes.ThirdQuoteValid` | dom-manipulation/script.js:10 | the third initial quote is one the add form could have stored |
| `Quotes.Validate` | dom-manipulation/script.js:30-36 | the inputs are refused exactly when one of them is empty or whitespace only; an accepted quote is the pair of trimmed inputs and is valid |
| `Quotes.ValidQuoteAccepted` | dom-manipulation/script.js:30-39 | a quote is valid if and only if submitting its own text and category stores that very quote |
| `Quotes.AddToCollection` | dom-manipulation/script.js:33-40 | one submission leaves the collection unchanged exactly when an input is whitespace only; otherwise the old collection is a prefix and the one new record at the end is the pair of trimmed inputs |
| `Quotes.AddToCollectionValid` | dom-manipulation/script.js:33-40 | one submission keeps every stored quote valid |
| `Quotes.AddAll` | dom-manipulation/script.js:29-40 | after any sequence of submissions the old collection is an unchanged prefix, and it grew by at most one record per submission |
| `Quotes.AddAllValid` | dom-manipulation/script.js:29-40 | a valid collection stays valid through any sequence of submissions |
| `Quotes.Display` | dom-manipulation/script.js:26 | the display text is a double quote, the text, `" — <em>` (with U+2014), the category and `</em>`, of exactly that total length; `DisplayInverse` gives its inverse |
| `Quotes.AddedNotice` | dom-manipulation/script.js:44 | the confirmation paragraph is `New quote added: ` followed by the quote's display text |
| `Quotes.AddedNoticeNamesQuote` | dom-manipulation/script.js:44 | the confirmation paragraph after its prefix parses back to the added quote when the category holds no double quote |
| `Quotes.DisplayInverse` | dom-manipulation/script.js:26 | a text parses to a quote exactly when it is that quote's display text and the category holds no double quote, so the display text determines the quote |
| `Quotes.DisplayRoundTrip` | dom-manipulation/script.js:26 | parsing the display text of a quote whose category has no double quote gives the quote back |
| `Quotes.ParseDisplaySound` | dom-manipulation/script.js:26 | whatever parses was the display text of the parsed quote |
| `Quotes.Select` | dom-manipulation/script.js:20-25 | nothing is picked exactly when the collection is empty; otherwise the pick is an element of the collection at the given index |
| `Quotes.RandomIndex` | dom-manipulation/script.js:24 | `Math.floor(r * n)` with `0 <= r < 1` and `n > 0` is an index in `[0, n)` |
| `Quotes.RandomIndexSelects` | dom-manipulation/script.js:24-25 | for a non-empty collection the `Math.floor(Math.random() * length)` index meets the precondition of `Select` and `ShowRandomQuote` and selects the element at that index |
| `Quotes.QuoteManager.constructor` | dom-manipulation/script.js:1-11 | the page starts with the three initial quotes, empty inputs, and a valid collection |
| `Quotes.QuoteManager.ShowRandomQuote` | dom-manipulation/script.js:19-27 | for an empty collection the display is exactly "No quotes available."; otherwise it is the display text of the element at the in-bounds index; no `modifies` clause, so the collection and inputs are unchanged |
| `Quotes.QuoteManager.AddQuote` | dom-manipulation/script.js:29-50 | rejects exactly when an input is whitespace only, and then leaves collection and inputs unchanged and returns the alert text; on success the collection is the old one plus the one trimmed record (length + 1, earlier records in place), both inputs are `""` and the confirmation paragraph is returned; validity is preserved |

## Left out

- DOM lookups (`getElementById`) and the event-listener wiring: UI plumbing; the inputs are fields and the display is a returned string.
- `alert`, `createElement` and `appendChild`: the alert text and the confirmation paragraph's HTML are returned by `AddQuote` instead of being shown.
- `Math.random()`: nondeterministic; `ShowRandomQuote` takes the index as an argument.
- RandomIndex: computes `Math.floor(r * n)` over exact reals, so the rounding of IEEE double multiplication is not modelled.
- The initial values of the two inputs are taken to be `""`, the default of an empty HTML text input; the page markup is not part of this model.
- HTML injection: the display text is built without escaping, as in the source; nothing about escaping is modelled.
- Characters are Unicode scalar values; JavaScript strings are UTF-16 code units. Every character `trim()` removes lies in the Basic Multilingual Plane, so trimming agrees, but lone surrogates are not representable here.
- Persistent storage, session cache, category filtering and enumeration, server sync and JSON import/export are not in `dom-manipulation/script.js` and are not modelled.
