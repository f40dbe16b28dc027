# Gazette-alert form and notification logic, in Dafny

This project models the sequential core of a web application that watches the
official gazette of Minas Gerais for search terms. It has three parts.

- **The configuration page script** (`app/static/js/main.js`).
  - Two bounded lists of repeatable rows: search terms, each with an "exact"
    flag, and e-mail recipients. Each list is a class. Its counter and its
    container's rows are fields that the add and remove methods update in
    place. The disabled state of the add controls is a field too.
  - `validateForm`, the short-circuiting submit check. It is a specification
    function, plus a method whose loops mirror the source's passes.
  - `escapeHtml`, the click handler of the add-term button, and the date check
    of the backtest form.
- **The notification mailer** (`mailer/notification.py`).
  - The deep link into the day's gazette edition: an ISO date inside a fixed
    JSON text, percent-encoded the way `urllib.parse.quote` does it.
  - The e-mail: the subject default, the `DD/MM/YYYY` date and the HTML body.
    The body is built by a method with two `+=` loops, like the source.
- **The migration script** (`old_tests/migrate_sqlite_to_postgres.py`): the
  `to_bool` coercion and the default for a missing recipient list.

Modules:

- `Wrappers`: `Option`.
- `JsText`: `String.prototype.trim`.
- `Html`: `escapeHtml`, un-escaping, and how a browser reads a double-quoted
  attribute value back.
- `RowLists`: the two row lists.
- `EmailRegex`: the e-mail regular expression, as a matcher and as a shape.
- `FormValidation`: `validateForm` and the backtest date check.
- `Decimal`: integer and zero-padded digit strings.
- `PercentEncoding`: UTF-8 encoding, `quote` and `unquote_to_bytes`.
- `Gazette`: dates and the deep link.
- `Notification`: the e-mail.
- `Migration`: `to_bool` and `mail_to`.

Row indices are **not** unique. The code uses the current counter as the next
index, and a removal lowers the counter, so after a removal a new row can share
its index with a surviving row. Each row's × button calls the remove function
with the index the row was created with, and the remove function takes the
first row carrying it. `RowLists.ReusedIndexScenario` shows a list holding two
rows with index 2, where the × button of the later one removes the earlier one
(see Findings).

## Model

| member | source | states |
|---|---|---|
| JsText.Trim | app/static/js/main.js:80 | the trimmed text is no longer than the input, and is empty or starts and ends with a non-white-space character |
| JsText.TrimSlice | app/static/js/main.js:168 | the trimmed text is a contiguous slice of the input with only white space before it and after it |
| JsText.TrimEmptyIff | app/static/js/main.js:168 | the trimmed text is empty exactly when the input has no character other than white space |
| Html.EscapeHtml | app/static/js/main.js:234-238 | the escaped text contains no `<` and no `>` |
| Html.UnescapeEscapeHtml | app/static/js/main.js:234-238 | decoding the five named character references of the escaped text gives the input back exactly |
| Html.EscapeHtmlIdentity | app/static/js/main.js:234-238 | a text without `&`, U+00A0, `<` or `>` is returned unchanged |
| Html.EscapeHtmlKeepsQuote | app/static/js/main.js:234-238 | a `"` passes through unescaped: escaping `a + "\"" + b` escapes `a` and `b` around the quote |
| Html.EscapeHtmlAppend | app/static/js/main.js:234-238 | escaping works character by character, so it distributes over concatenation |
| Html.UntilQuote | app/static/js/main.js:24 | the attribute value the browser reads is the longest quote-free prefix of the text after the opening quote |
| Html.EscapeHtmlInAttribute | app/static/js/main.js:24 | placed inside `value="…"`, an `escapeHtml` result reads back as the value cut at its first `"` |
| Html.EscapeHtmlTruncatesQuotedTerm | app/static/js/main.js:24 | the term `say "hi"` does not read back as itself |
| Html.EscapeAttribute | app/static/js/main.js:24 | the attribute-mode escape leaves no `"`, `<` or `>` |
| Html.EscapeAttributeRoundTrip | app/static/js/main.js:24 | placed inside `value="…"` and followed by any markup, the attribute-mode escape reads back as the exact value |
| Html.UnescapeEscapeAttribute | app/static/js/main.js:24 | decoding the attribute-mode escape gives the input back exactly |
| RowLists.FirstWithIndex | app/static/js/main.js:53 | the position of the first row carrying the index; every earlier row carries another index; None exactly when no row carries it |
| RowLists.TermList.constructor | app/static/js/main.js:3-6 | the page starts with no rows, a zero counter and enabled controls, and the list invariant holds |
| RowLists.TermList.UpdateTermButtons | app/static/js/main.js:61-71 | the add button and the text input are disabled exactly when the counter is at least 5; rows and counter are unchanged |
| RowLists.TermList.AddSearchTerm | app/static/js/main.js:10-47 | when the list is full nothing changes; otherwise exactly one row is appended, with the old counter as its index, the given exact flag, and as value what the browser reads from `value="${escapeHtml(termValue)}"`: the given value up to its first `"`; the counter goes up by one; the invariant (counter = number of rows, 0..5, controls disabled iff full) is kept |
| RowLists.TermList.RemoveSearchTerm | app/static/js/main.js:49-59 | no row with the index: nothing changes; otherwise only the first such row is deleted, the others keep their order, and the counter goes down by one; the invariant is kept |
| RowLists.TermList.ClickAddTerm | app/static/js/main.js:79-85 | a blank input does nothing; a non-blank one is trimmed and added as a non-exact term (the row holds the trimmed value up to its first `"`), and the input is cleared even when the add is refused |
| RowLists.TermList.ClickRemoveTerm | app/static/js/main.js:37-59 | the × button of the row at position `p` deletes the first row carrying that row's creation index, which is at or before `p`; the others keep their order and the counter goes down by one |
| RowLists.SharedIndexRemovesEarlierRow | app/static/js/main.js:21-56 | when an earlier row shares the index of the row at `p`, the row the remove function finds for that index lies before `p` |
| RowLists.IncreasingFirstWithIndex | app/static/js/main.js:53 | when indices strictly increase along the rows, the row found for a row's own index is that row |
| RowLists.UniqueTermList.AddSearchTerm | app/static/js/main.js:10-47 | corrected: the new row gets a fresh index from a counter that never goes down and holds the given value exactly; refused when full; indices stay strictly increasing |
| RowLists.UniqueTermList.ClickRemoveTerm | app/static/js/main.js:37-59 | corrected: the × button of the row at position `p` deletes exactly that row |
| RowLists.EmailList.constructor | app/static/js/main.js:3-6 | the page starts with no rows, a zero counter and an enabled add button |
| RowLists.EmailList.UpdateEmailButtons | app/static/js/main.js:139-145 | the add button is disabled exactly when the counter is at least 5; e-mails have no paired input |
| RowLists.EmailList.AddEmailField | app/static/js/main.js:98-125 | when the list is full nothing changes; otherwise exactly one row is appended with the old counter as its index and, as value, the given value up to its first `"` (what the browser reads from `value="${escapeHtml(emailValue)}"`); the counter goes up by one; the invariant is kept |
| RowLists.EmailList.RemoveEmailField | app/static/js/main.js:127-137 | no row with the index: nothing changes; otherwise only the first such row is deleted, the others keep their order, and the counter goes down by one |
| EmailRegex.Matches | app/static/js/main.js:193-195 | `emailRegex.test`: a backtracking matcher for `^[^\s@]+@[^\s@]+\.[^\s@]+$`; what it accepts is stated by `EmailRegex.MatchesIff` |
| EmailRegex.MatchesIff | app/static/js/main.js:193 | the matcher for `^[^\s@]+@[^\s@]+\.[^\s@]+$` accepts exactly the texts `a + "@" + b + "." + c` with `a`, `b`, `c` non-empty and free of white space and `@` |
| EmailRegex.NoAtNoMatch | app/static/js/main.js:193 | a text without `@` is never accepted |
| EmailRegex.MatchesExamples | app/static/js/main.js:193 | `a@b.com` is accepted and `not-an-email` is not |
| FormValidation.Message | app/static/js/main.js:174-211 | each refusal has its alert text; the invalid-e-mail alert ends with the offending e-mail |
| FormValidation.NonBlankTrimmed | app/static/js/main.js:185 | the filtered list is no longer than the inputs and holds no empty value |
| FormValidation.NonBlankTrimmedMembers | app/static/js/main.js:185 | a value is in the filtered list exactly when it is the trimmed value of a non-blank e-mail input |
| FormValidation.FirstInvalid | app/static/js/main.js:194-199 | the position of the first value the expression rejects, every earlier value accepted; None exactly when all are accepted |
| FormValidation.HasValidTermIff | app/static/js/main.js:165-171 | some trimmed term is non-empty exactly when some term input holds a non-white-space character |
| FormValidation.AnyTermNonBlank | app/static/js/main.js:166-171 | the `forEach` flag loop computes the "some non-blank term" rule |
| FormValidation.TrimmedNonBlank | app/static/js/main.js:185 | the map-and-filter pass computes the filtered e-mail list |
| FormValidation.FindInvalidEmail | app/static/js/main.js:194-199 | the `for…of` pass with early exit finds the first rejected e-mail |
| FormValidation.ValidateForm | app/static/js/main.js:160-217 | the method returns the verdict of the rules in source order, stopping at the first failure; a page without the form accepts |
| FormValidation.FirstInvalidNoneIff | app/static/js/main.js:193-199 | no e-mail is rejected exactly when every non-blank e-mail, trimmed, has the e-mail shape |
| FormValidation.CheckWebhook | app/static/js/main.js:202-214 | the webhook rule in source order: missing or blank passes, an unparsable value is refused as invalid, a protocol other than `https:` is refused; stated by `FormValidation.CheckWebhookAcceptIff` |
| FormValidation.Validate | app/static/js/main.js:160-217 | `validateForm` as a function: the five rules in source order, the first failure decides; stated by `FormValidation.ValidateAcceptIff` and `FormValidation.ValidateRejectsAtFirstFailure` |
| FormValidation.CheckWebhookAcceptIff | app/static/js/main.js:202-214 | the webhook passes exactly when it is missing or blank, or the untrimmed value parses with protocol `https:` |
| FormValidation.ValidateAcceptIff | app/static/js/main.js:160-217 | a form is accepted exactly when all five rules hold: a non-blank term, at most 5 term inputs (blank ones count), at most 5 non-blank e-mails, each of the e-mail shape, an acceptable webhook |
| FormValidation.ValidateRejectsAtFirstFailure | app/static/js/main.js:160-217 | each refusal names the first failing rule: all earlier rules hold and that one fails; the e-mail refusal names the first malformed e-mail; an invalid URL and a non-HTTPS URL are told apart |
| FormValidation.ScenarioNoTerm | app/static/js/main.js:173-176 | a form without terms is refused for the missing term |
| FormValidation.ScenarioOneTerm | app/static/js/main.js:160-217 | one term and nothing else is accepted |
| FormValidation.ScenarioBadEmail | app/static/js/main.js:194-199 | a malformed e-mail is refused and named |
| FormValidation.ScenarioWebhook | app/static/js/main.js:203-209 | an `http:` webhook is refused; an `https:` one passes |
| FormValidation.ValidateTooManyEmails | app/static/js/main.js:187-190 | six non-blank e-mails are refused for their number before any shape check |
| FormValidation.NonBlankTrimmedAllVisible | app/static/js/main.js:185 | when every e-mail input is non-blank, none is filtered out |
| FormValidation.BacktestDateAccepted | app/static/js/main.js:264-268 | the backtest submission passes exactly when the date input exists and its value is not `""` |
| FormValidation.BacktestDateNotTrimmed | app/static/js/main.js:265 | a value of one space passes, and an empty value or a missing input does not |
| Decimal.Padded | mailer/notification.py:23 | a zero-padded field has exactly the given width |
| Decimal.PaddedDigits | mailer/notification.py:23 | a zero-padded field holds only digits |
| Decimal.PaddedValue | mailer/notification.py:23 | a zero-padded field reads back as the number whenever the number fits |
| Decimal.NatString | mailer/notification.py:96 | `str` of a natural number is never empty |
| Decimal.NatStringDigits | mailer/notification.py:96 | `str` of a natural number holds only digits and has no leading zero |
| Decimal.NatStringValue | mailer/notification.py:96 | `str` of a natural number reads back as the number |
| Decimal.IntString | mailer/notification.py:96 | `str` of an integer: a `-` before the digits of a negative number; read back by `Migration.ParseIntString` |
| Gazette.IsoDate | mailer/notification.py:23 | `strftime("%Y-%m-%d")`; its shape is stated by `Gazette.IsoDateFields` |
| Gazette.BrDate | mailer/notification.py:62 | `strftime('%d/%m/%Y')`; its shape is stated by `Gazette.BrDateFields` |
| Gazette.Payload | mailer/notification.py:24 | the JSON text with the ISO date followed by `T03:00:00.000Z`; only ASCII, by `Gazette.PayloadAscii` |
| Gazette.IsoDateFields | mailer/notification.py:23 | `%Y-%m-%d` is ten characters with dashes at 4 and 7, and its digit fields read back as the year, month and day |
| Gazette.BrDateFields | mailer/notification.py:62 | `%d/%m/%Y` is ten characters with slashes at 2 and 5, and its digit fields read back as the day, month and year |
| Gazette.IsoDateExample | mailer/notification.py:23 | 5 January 2024 is written `2024-01-05` |
| PercentEncoding.Utf8 | mailer/notification.py:27 | a code point becomes 1 to 4 bytes; one byte, equal to it, exactly when it is ASCII; every byte of a longer form is at least 0x80 |
| PercentEncoding.Quote | mailer/notification.py:27 | `urllib.parse.quote` with its default safe `/`: UTF-8 bytes, unreserved bytes and `/` copied, every other byte as `%XX`; stated by the lemmas below |
| PercentEncoding.UnquoteQuote | mailer/notification.py:27 | percent-decoding the quoted text gives back its UTF-8 bytes |
| PercentEncoding.QuoteEncoded | mailer/notification.py:27 | the quoted text holds only ASCII letters, digits, `_.-~/` and `%XX` triplets with upper-case hexadecimal digits |
| PercentEncoding.QuoteSafe | mailer/notification.py:27 | a text made only of unreserved characters and `/` is left as it is |
| PercentEncoding.QuoteAppend | mailer/notification.py:27 | quoting distributes over concatenation |
| Gazette.GazetteLink | mailer/notification.py:28-30 | the link always begins with `https://www.jornalminasgerais.mg.gov.br/edicao-do-dia?dados=` |
| Gazette.GazetteLinkDecodes | mailer/notification.py:23-30 | percent-decoding what follows `?dados=` gives exactly `{"dataPublicacaoSelecionada":"YYYY-MM-DDT03:00:00.000Z"}` for the date |
| Gazette.GazetteLinkEncoded | mailer/notification.py:27-30 | what follows `?dados=` holds only ASCII letters, digits, `_.-~/` and upper-case `%XX` triplets |
| Gazette.QuoteExamples | mailer/notification.py:24-27 | the JSON punctuation `{"`, `":"` and `"}` becomes `%7B%22`, `%22%3A%22` and `%22%7D` |
| Notification.NotificationEmail | mailer/notification.py:48-124 | the recipients pass through unchanged; the subject is the given one when non-empty and `Novas notificações - Diário Oficial` when None or empty; the HTML body is the head, the term items, the middle, the highlight items and the closing, built by the two loops |
| Notification.JoinAppend | mailer/notification.py:99-100 | the items appended by a loop over `a + b` are those over `a` followed by those over `b` |
| Notification.TermItemAt | mailer/notification.py:99-100 | the `i`-th search term appears in the body, unescaped, as `<li>term</li>` at its offset, and the next term item starts right after it |
| Notification.TermOffsetsOrdered | mailer/notification.py:99-105 | the term items appear in report order and all of them come before the highlights |
| Notification.HighlightItemAt | mailer/notification.py:106-112 | the `i`-th highlight item appears in the body at its offset |
| Notification.HighlightOffsetStep | mailer/notification.py:106-112 | the next highlight item starts right after the `i`-th one |
| Notification.HighlightOffsetsOrdered | mailer/notification.py:106-112 | the highlight items appear in report order |
| Notification.HighlightItemShows | mailer/notification.py:107-112 | each highlight item shows `str(page)` after `Página ` and the content, unescaped, after `</strong><br>` |
| Notification.HtmlBodyShowsLink | mailer/notification.py:92 | the button's `href`, right after the fixed start of the body, is the gazette link for the publish date |
| Notification.HtmlBodyShowsDate | mailer/notification.py:93 | the button's text, right after the link's attributes, ends with the publish date as `DD/MM/YYYY` |
| Migration.ParseInt | old_tests/migrate_sqlite_to_postgres.py:20 | `int` succeeds exactly on a non-empty run of digits, or on one sign followed by a non-empty run of digits |
| Migration.ToBool | old_tests/migrate_sqlite_to_postgres.py:13-22 | `to_bool`: a string is false exactly when it is empty or a numeral of zero |
| Migration.ParseIntString | old_tests/migrate_sqlite_to_postgres.py:20 | `int` reads back every integer `str` writes |
| Migration.ToBoolNone | old_tests/migrate_sqlite_to_postgres.py:15-16 | `to_bool(None)` is false |
| Migration.ToBoolBool | old_tests/migrate_sqlite_to_postgres.py:17-18 | a bool is returned unchanged |
| Migration.ToBoolInt | old_tests/migrate_sqlite_to_postgres.py:19-20 | an int `n` gives `n != 0` |
| Migration.ToBoolNumeral | old_tests/migrate_sqlite_to_postgres.py:19-20 | a string holding a number is parsed first: it is false exactly when the number is 0 |
| Migration.ToBoolSignedDigits | old_tests/migrate_sqlite_to_postgres.py:19-20 | any numeral `int` reads, leading zeros and a `+` or `-` included (`"00"`, `"+0"`, `"007"`), is false exactly when its digits spell zero |
| Migration.ToBoolNonNumeral | old_tests/migrate_sqlite_to_postgres.py:21-22 | a string with a character that is neither a digit nor a sign is not a number, and falls back to truthiness: true |
| Migration.ToBoolExamples | old_tests/migrate_sqlite_to_postgres.py:13-22 | `"0"` and `"-0"` are false; `"1"` and `"+7"` are true; `""` is false; `"abc"` and `"False"` are true |
| Migration.MailTo | old_tests/migrate_sqlite_to_postgres.py:38 | a None `mail_to` becomes the text `[]`; any other value passes through; the result is never None |
| Migration.MailToIdempotent | old_tests/migrate_sqlite_to_postgres.py:38 | applying the default twice is the same as once |

## Left out

- DOM wiring: the `DOMContentLoaded` listeners, `alert`, `preventDefault`, the Enter-key forwarding and the markup and CSS of each row. A row keeps only its index, its value and, for terms, its flag.
- Missing page elements: the early returns of the add and remove functions when the container is missing are not modelled. The model assumes the containers and buttons exist.
- URL parsing (`new URL`): it is the WHATWG URL parser, a foreign library. It is an oracle parameter returning the protocol, or None when parsing throws.
- JsText.Trim: white space is the ASCII set (tab, line feed, vertical tab, form feed, carriage return, space). ECMAScript's `trim` also removes U+00A0, U+FEFF and the Unicode space separators and line terminators. The same predicate stands for `\s` in the e-mail expression.
- Html.Unescape: only the five named references that `escapeHtml` and the attribute-mode `Html.EscapeAttribute` produce are decoded: `&amp;`, `&nbsp;`, `&lt;`, `&gt;` from both, `&quot;` from the attribute mode only. This is enough for the round trips; general HTML entity decoding is not modelled.
- RowLists.TermList.AddSearchTerm, RowLists.EmailList.AddEmailField: the row keeps the value attribute as the tokenizer reads it (up to the first `"`, character references decoded), not the value the input finally holds. Two browser steps are left out. First, input-stream preprocessing when `innerHTML` is set turns CR and CRLF into LF, and inside a double-quoted attribute value NUL becomes U+FFFD. Second, value sanitization: a `type="text"` input strips line breaks, and a `type="email"` input also strips leading and trailing ASCII white space. So `AddSearchTerm("a\rb", false)` leaves `a\nb` in the attribute, and `AddEmailField(" a@b.c ")` leaves the input holding `a@b.c`, where the model's rows hold the values unchanged. The click handler passes a trimmed value, and the page adds e-mail rows with `''`, so neither case arises there. The text after a `"` in the value, which the tokenizer parses as further attributes of the input, is not modelled either.
- RowLists.UniqueTermList: the corrected list is written for search terms only. The e-mail list reuses its indices in the same way (main.js:109, 115, 127-137).
- `formatDate`: it depends on the browser locale and `Date`.
- `executeBacktest`: its label and disabled toggling are a UI side effect.
- The plain-text body of the e-mail: it is rendered by Jinja2, a foreign template engine. `Email` holds the recipients, the subject and the HTML body only.
- `Email` and `Report`: their classes are not part of this model. They are plain records holding the fields the mailer reads.
- Gazette.IsoDateFields, Gazette.BrDateFields: `%Y` is modelled as four zero-padded digits. The C library behind `strftime` may skip the padding for years below 1000.
- Gazette.GazetteLink: no lemma writes out the whole link for one concrete date; `Gazette.IsoDateExample` and `Gazette.QuoteExamples` give its pieces, and `Gazette.GazetteLinkDecodes` covers every date.
- Migration.ParseInt: Python's `int` also accepts surrounding white space, underscores between digits and non-ASCII decimal digits. These are not modelled, so for example `" 0"` is treated as non-numeric (true) where Python gives false.
- Migration.ToBool: floats and byte strings are not part of the value type.
- Database I/O of the migration script: the SQLite and PostgreSQL connections, the inserts, the sequence adjustment and the command-line handling.

## Findings

| source | as written | input that shows it | evidently intended | confidence | as-written member | corrected member |
|---|---|---|---|---|---|---|
| app/static/js/main.js:24, app/static/js/main.js:112 | the row's value is put inside `value="…"` through `escapeHtml`, which escapes text content and leaves `"` as it is; the browser ends the attribute at the first `"` of the value | the term `say "hi"` reads back as `say ` | the input shows the value it was given, which needs the attribute-mode escape (also `"` → `&quot;`) | not executed | Html.EscapeHtmlInAttribute, Html.EscapeHtmlTruncatesQuotedTerm, RowLists.TermList.AddSearchTerm, RowLists.EmailList.AddEmailField | Html.EscapeAttributeRoundTrip (used by RowLists.UniqueTermList.AddSearchTerm) |
| app/static/js/main.js:21, app/static/js/main.js:37, app/static/js/main.js:56 | a row's index and its × button take the current counter, and a removal lowers the counter, so a later row can get the index of a surviving one; the button then removes the first row with that index | add `a`, `b`, `c`, remove `a`, add `d`: the rows are `b`(1), `c`(2), `d`(2), and the × of `d` removes `c` | each × button removes its own row, which needs an index that is never reused | not executed | RowLists.SharedIndexRemovesEarlierRow, RowLists.ReusedIndexScenario | RowLists.IncreasingFirstWithIndex (used by RowLists.UniqueTermList.ClickRemoveTerm) |
