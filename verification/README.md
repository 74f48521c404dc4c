# Sistemas Pamplona site scripts: a Dafny model of the page logic

The site's two scripts are mostly DOM plumbing, but they hold a few decision rules.
This project lifts those rules into pure functions over sequences of records and strings, and proves what they promise.

- **Catalog filter** (`assets/js/catalog.js`). `showCategory` makes the clicked category pill the only active one. It shows exactly the product cards whose `data-category` equals the category, and gives each revealed card its position in the reveal order. It also empties the search box.
- **Search handler** (`assets/js/catalog.js`). The `input` handler lower-cases and trims the box's value. An empty term falls back to the first active pill. Any other term shows the cards whose title, description, category label or joined spec chips contain it.
- **WhatsApp contact** (`assets/js/catalog.js`). `contactSistemasP` rejects a missing, non-string or blank product name. Otherwise it builds the message and the `wa.me` link with `encodeURIComponent`.
- **Contact form** (`assets/js/main.js`). The submit handler checks that the required fields are present, then checks the e-mail pattern `^[^\s@]+@[^\s@]+\.[^\s@]+$`. It then builds the mail template parameters, with placeholders for missing optional fields.
- **Service pre-fill** (`assets/js/main.js`). The service-title map sets the contact form's service select.
- **Typing effect** (`assets/js/main.js`). Each tick appends one character of the trimmed hero title. The part from "integral para su empresa" on is shown highlighted.

The page is the record `Catalog.Page`. It holds the cards and pills in document order, and the search box's value (`None` when the page has no search box). Each card records its texts and `data-category`. It also records the two things the handlers write: its inline display, and its reveal index. Each handler is a function from page to page.

Modules, one per concern:

| file | module | models |
|---|---|---|
| wrappers.dfy | `Wrappers` | `Option`, `Result` |
| text.dfy | `Text` | white space, `toLowerCase`, `trim`, `includes`, `indexOf`, `join`, `substring` |
| uri.dfy | `Uri` | `encodeURIComponent` and its inverse |
| catalog.dfy | `Catalog` | `showCategory` and the search handler |
| product_contact.dfy | `ProductContact` | `contactSistemasP` |
| contact_form.dfy | `ContactForm` | submit validation and template parameters |
| service_map.dfy | `ServiceMap` | the service-title map |
| typing_effect.dfy | `TypingEffect` | the typing-effect tick |

Details of the code's behaviour that the model keeps:
- The empty-term fallback uses the **first** active pill in document order. That is what `querySelector` returns.
- The fallback also requires the pill's `data-category` to be truthy. A pill whose `data-category` is `""` is treated like one without the attribute, and nothing changes.
- The search matches the `.product-category` label text, not `data-category`.
- The chip texts are joined with one space, so a term may span two neighbouring chips.
- Card texts are lower-cased before matching. The term is lower-cased and then trimmed.

## Model

| member | source | states |
|---|---|---|
| Text.ToLower | assets/js/catalog.js:88 | `toLowerCase` keeps the length, leaves no upper-case letter, and keeps every other character in place. |
| Text.ToLowerBlank | assets/js/catalog.js:88-91 | A value is all white space exactly when its lower-cased form is. |
| Text.Trim | assets/js/catalog.js:88 | `trim` gives the infix of the input left after removing white space at both ends. The result is empty exactly when the input is all white space. Otherwise it starts and ends with a non-space character. |
| Text.TrimToLowerCommute | assets/js/catalog.js:88 | Lower-casing then trimming equals trimming then lower-casing. Lower-casing never creates or removes white space. |
| Text.Includes | assets/js/catalog.js:116-119 | `includes` holds exactly when the needle occurs in the text at some index. |
| Text.IndexOf | assets/js/main.js:259 | `indexOf` returns -1 exactly when the needle does not occur. Otherwise it returns an index where it occurs, and it occurs at no earlier index. |
| Text.Join | assets/js/catalog.js:112-114 | `join` starts with the first part and ends with the last. With two or more parts, the separator follows the first part. |
| Text.JoinContainsParts | assets/js/catalog.js:112-114 | Each spec chip's text is a substring of the chips joined with a space. |
| Text.JoinToLower | assets/js/catalog.js:112-114 | Lower-casing each chip and then joining equals lower-casing the joined text. |
| Text.Substring | assets/js/main.js:261-263 | `substring` always gives a substring of its input. With bounds in order and in range it is the slice between them. |
| Text.SubstringSwap | assets/js/main.js:261-263 | Swapping the two bounds of `substring` gives the same result. |
| Uri.EncodeURIComponent | assets/js/catalog.js:10 | The encoding contains only unreserved characters and `%`. It is at least as long as the input. A string made only of unreserved characters is unchanged. |
| Uri.DecodeEncode | assets/js/catalog.js:10 | Decoding the UTF-8 percent-encoding of any string gives back that string. |
| Uri.EncodeInjective | assets/js/catalog.js:10 | Different messages have different encodings. |
| ProductContact.Message | assets/js/catalog.js:9 | The message is the fixed greeting, then the product name unchanged, then the fixed request, with no other characters. |
| ProductContact.ContactUrl | assets/js/catalog.js:2-11 | No link is produced exactly when the argument is not a string or is blank. Otherwise the link starts with the fixed `wa.me` prefix and the rest is URL-safe. |
| ProductContact.ContactUrlRoundTrip | assets/js/catalog.js:9-10 | Decoding the link and removing the fixed message prefix and suffix gives back the product name verbatim. |
| ProductContact.ContactUrlInjective | assets/js/catalog.js:9-10 | Different accepted product names give different links. |
| ProductContact.ContactUrlSingleParameter | assets/js/catalog.js:10 | After the prefix, the link contains no `&`, `#`, `=` or space, whatever the product name holds. |
| Catalog.RevealCard | assets/js/catalog.js:59-69 | The per-card loop shows a card exactly when it is in the category and hides it otherwise. A hidden card keeps its old reveal index. A shown card gets the running count plus the number of matching cards before it. Card content is unchanged. |
| Catalog.ShowCategory | assets/js/catalog.js:52-75 | Afterwards the clicked pill is the only active pill. A card is visible exactly when its `data-category` equals the category. Card contents and pill categories are unchanged. The search box, if present, becomes `""`. |
| Catalog.ShowCategoryStagger | assets/js/catalog.js:59-66 | A shown card's reveal index is the number of matching cards before it in document order. |
| Catalog.ShowCategoryStaggerBound | assets/js/catalog.js:59-66 | Every shown card has a reveal index below the number of matching cards. |
| Catalog.ShowCategoryStaggerOrdered | assets/js/catalog.js:59-66 | Reveal indices strictly increase in document order. |
| Catalog.ShowCategoryStaggerDense | assets/js/catalog.js:59-66 | Every index from 0 to n-1 belongs to some shown card, where n is the number of matching cards. There are no gaps. |
| Catalog.ShowCategoryIdempotent | assets/js/catalog.js:52-75 | Clicking the same pill twice leaves the same page as clicking it once. |
| Catalog.FirstActive | assets/js/catalog.js:92 | Returns the first pill with `active`, or none exactly when no pill is active. |
| Catalog.Search | assets/js/catalog.js:87-123 | Without a search box, nothing changes. With a non-empty normalized term, pills, reveal indices and card contents are unchanged. A card is then visible exactly when the term is a substring of its lower-cased title, description, category label or joined chips. |
| Catalog.Normalize | assets/js/catalog.js:88 | The term is the lower-cased trim of the value. It has no upper-case letter. It is empty exactly when the value is all white space. |
| Catalog.Matches | assets/js/catalog.js:109-119 | The handler's `includes` test holds exactly when the term is a substring of the lower-cased title, description or category label, or of the lower-cased join of the chips. |
| Catalog.ShowMatches | assets/js/catalog.js:108-122 | Each card is shown exactly when the term matches it and hidden exactly when it does not. Card contents and reveal indices are unchanged. |
| Catalog.ChipMatch | assets/js/catalog.js:112-119 | A term found in any single chip makes the card match. |
| Catalog.SearchEmptyFallsBack | assets/js/catalog.js:91-102 | With an empty term and an active pill that has category data, the result equals `showCategory` on that pill. |
| Catalog.SearchEmptyWithoutCategory | assets/js/catalog.js:91-104 | With an empty term and no active pill, or one without category data, no card or pill changes. |
| Catalog.SearchSameTerm | assets/js/catalog.js:88 | Two values with the same normalized term lead to the same cards and pills. |
| Catalog.SearchBlankIsEmpty | assets/js/catalog.js:88-91 | A white-space-only value leads to the same cards and pills as an empty one. |
| Catalog.SearchIgnoresCase | assets/js/catalog.js:88 | Lower-casing the typed value changes neither the cards nor the pills. |
| Catalog.SearchIdempotent | assets/js/catalog.js:87-123 | Running the handler twice on the same value gives the same page as running it once. |
| Catalog.ShowMatchesIdempotent | assets/js/catalog.js:108-122 | Filtering the cards a second time with the same term gives the same cards. Whether a card matches never depends on its display. |
| Catalog.HandlersKeepOneActive | assets/js/catalog.js:53-56 | If at most one pill is active before either handler, at most one is active after it. |
| ContactForm.EmailPattern | assets/js/main.js:97-98 | Splitting at the first `@` and checking both sides accepts a string exactly when the string is L@A.B, with L, A and B non-empty runs of characters that are neither white space nor `@`. |
| ContactForm.ValidEmail | assets/js/main.js:97-98 | `emailRegex.test` holds exactly when the regular expression matches the whole string. |
| ContactForm.ValidEmailShape | assets/js/main.js:97 | An accepted address has no white space and exactly one `@`, which is not first. After the `@` there is a `.` that is neither the first nor the last character of that part. |
| ContactForm.Submit | assets/js/main.js:91-119 | The required-fields error is returned exactly when `nombre`, `email` or `mensaje` is missing or `""`, even if the e-mail is also malformed. The invalid-e-mail error is returned exactly when all three are present and the pattern fails. On success the name, message and both address fields come from the form. Optional fields pass through or become their fixed placeholders. |
| ContactForm.SubmitParamsNonEmpty | assets/js/main.js:110-119 | Every template parameter of an accepted form is non-empty. The sender address contains no white space. |
| ContactForm.SpacesCountAsPresent | assets/js/main.js:91-119 | For all present values, the required-fields error comes exactly when the name, e-mail or message is `""`. The check does not trim. A non-empty name and message, with an address the pattern accepts, are sent exactly as typed, spaces included. |
| ServiceMap.Prefill | assets/js/main.js:196-210 | A known title sets the select to its mapped value, which is one of the six select values. An unknown title leaves the select unchanged. |
| ServiceMap.DevelopmentTitles | assets/js/main.js:196-204 | Both development titles select `desarrollo-software`. Every select value is produced by some title. |
| ServiceMap.PrefillIdentifiesService | assets/js/main.js:196-204 | Two different known titles give the same value only when they are the two development titles. |
| TypingEffect.Start | assets/js/main.js:220-252 | Before the first tick, the text to type is the trimmed title. Nothing is typed or shown, the index is 0 and the interval is set. |
| TypingEffect.Rendering | assets/js/main.js:259-272 | Before the phrase is reached, or when the text has no phrase, the typed text is shown plain. From then on, the text before the phrase is shown plain and the typed part from the phrase's start is highlighted. |
| TypingEffect.Tick | assets/js/main.js:254-276 | A tick on a running state with characters left types the next character and advances the index by one. At the end it clears the interval and keeps the typed text. After that it changes nothing. |
| TypingEffect.TickRenders | assets/js/main.js:255-276 | After a tick that types a character, the span holds the rendering for that character. After any other tick, it holds what it held before. |
| TypingEffect.TickStep | assets/js/main.js:254-276 | A tick keeps this invariant: the first `index` characters are typed. Before the end it advances the index by one. At the end it clears the interval and keeps the text. |
| TypingEffect.HighlightShown | assets/js/main.js:259-269 | Once typing reaches the phrase, the shown text is the text before the phrase plus a non-empty highlighted part. Together they equal the typed text, so the plain fallback at line 268 is never taken. |
| TypingEffect.HighlightIsPhrasePrefix | assets/js/main.js:259-266 | While the phrase is being typed, the highlighted part is the typed prefix of the phrase. |
| TypingEffect.TypedPrefix | assets/js/main.js:221-274 | After i ticks, for i up to the trimmed title's length, the typed and shown text is the first i characters of the trimmed title. |
| TypingEffect.ViewShown | assets/js/main.js:259-272 | In every reachable state, the span shows exactly the typed text. |
| TypingEffect.TypingStops | assets/js/main.js:254-276 | After more ticks than the trimmed title has characters, the interval is cleared and the full title is shown, however many ticks follow. |

## Left out

- DOM queries, style and class mutation, and the `fadeUp` animation strings are left out. The model keeps only each card's display and its integer reveal index. The delay of `index * 0.1` seconds is a float.
- `console.error` diagnostics are left out. The guards they accompany are modelled as "no change" or "no link".
- `window.open`, `setTimeout` and `setInterval` are host I/O and timers. The typing effect's interval is modelled as repeated `Tick` calls. The restore of the original HTML 2 s after typing ends is left out.
- The EmailJS `init` and `send` calls, the promise callbacks, `showNotification` and the submit-button state are left out. They are network calls and UI. `Submit` returns the template parameters or the error that would be shown.
- Smooth scrolling, the header scroll class, the mobile menu, the IntersectionObserver fade-ins, parallax, the counter animation and `createParticles` are left out. They are layout, floating point, randomness and timers.
- `setupProductButtons` is left out: it only forwards a truthy `data-product` to `contactSistemasP`.
- Text.ToLower: covers ASCII and Latin-1 upper-case letters. Other characters are left unchanged, and no length-changing Unicode case mappings are made.
- Text.IsSpace and Text.Trim: strings are sequences of Unicode scalar values, not UTF-16 code units. The white-space set is that of ECMAScript.
- Uri.EncodeURIComponent: the `URIError` that `encodeURIComponent` throws for a lone surrogate cannot arise, because the model's strings have no lone surrogates. The decoder accepts some overlong UTF-8 escapes that `decodeURIComponent` rejects. It only serves as the encoder's inverse.
- TypingEffect.Tick: advances by one Unicode scalar value per tick, where the page advances by one UTF-16 code unit. The HTML parsing of `innerHTML` is left out. The rendering is kept as a plain part and a highlighted part. The span's content is derived from the state by `View`, not stored in it.
- ServiceMap.Prefill: a title equal to an `Object.prototype` property name, such as `constructor`, is treated as unknown. On the page that lookup is truthy. The model also does not check whether the select has an option with the assigned value.
- ContactForm.FormData: a field is a string or absent. File entries and repeated field names are left out.
