# EmailSender: the send handler's string and list logic

EmailSender is a one-page Flask application: a form posts `to`, `cc`, `bcc`,
`subject` and `body` to `POST /send`, and the handler builds a mail message
and gives it to Flask-Mail for delivery over SMTP. This project models the
parts of `app.py` that decide what is sent and what is answered:

- `_parse_emails`, the recipient-list parser (module `EmailList`). It splits
  on `,` and `;`, strips each piece and drops blank pieces.
- The hidden blind-copy merge (module `HiddenBcc`). The configured
  `HIDDEN_BCC` addresses are appended to the user's BCC list, except those
  whose lower-case form matches a lower-cased user entry.
- The body renderer (module `BodyHtml`). The regular-expression substitution
  that wraps `http://` and `https://` URLs in anchors, then the replacement
  of every newline by `<br>`.
- The request handler `send_email` (module `SendHandler`). It checks the
  credentials, parses the fields, merges the hidden copies, requires a `To`
  address, composes the message and maps the transport's outcome to a reply.

The Python string primitives these rely on are in module `PyStr`:

- the whitespace test shared by `str.strip()` and the `\s` class, taken from
  CPython's whitespace table;
- `str.strip()`;
- ASCII lower-casing.

`SeqFacts` holds small sequence lemmas. `Wrappers` holds `Option`.

The parser is a pure function. Its partner is an independent account:

- `Split` and `Rejoin` give the pieces back the input.
- Each address is the unique trimmed core of its piece (`PyStr.StripParts`).

The merge is a method with a loop that appends to a local sequence. It is
proved against the function `Additions`, whose counting and order lemmas
state what is appended. The regular-expression substitution is modelled as
the left-to-right scan `Tokenize`. That scan is characterised by the step
relation `ScanStep`, and proved to be the only token sequence that satisfies
it. The handler is an imperative method with early returns. Its
postcondition ties every field of the message it hands over, and its reply,
to the model's functions.

Only `smtplib.SMTPException` and its subclass `SMTPAuthenticationError` are
caught (app.py:76-80). Any other exception raised by `mail.send`, such as the
`OSError` of a refused connection, leaves the handler. The model yields
`Escaped` for it, and what the framework then answers is not modelled.

## Model

| member | source | states |
|---|---|---|
| PyStr.IsSpace | app.py:32 | among ASCII characters exactly tab, line feed, vertical tab, form feed, carriage return, 0x1C-0x1F and the blank are whitespace (the set `str.strip()` and `\s` share) |
| PyStr.AsciiListed | app.py:32 | the whitespace table's ASCII entries are exactly 0x09-0x0D and 0x1C-0x20 |
| PyStr.LStrip | app.py:32 | the result is a suffix of the input, what was removed is all whitespace, and the result does not start with whitespace |
| PyStr.RStrip | app.py:32 | the result is a prefix of the input, what was removed is all whitespace, and the result does not end with whitespace |
| PyStr.Strip | app.py:32 | the result is no longer than the input and has no leading or trailing whitespace |
| PyStr.StripCut | app.py:32 | the input is whitespace, then the stripped result, then whitespace |
| PyStr.StripParts | app.py:32 | whitespace + a trimmed core + whitespace strips to exactly that core, so strip() is determined by its partner description |
| PyStr.StripEmpty | app.py:32 | a piece strips to the empty string exactly when it is all whitespace (the comprehension's filter) |
| PyStr.StripIgnoresLeadingSpace | app.py:32 | whitespace in front does not change the stripped result |
| PyStr.StripIgnoresTrailingSpace | app.py:32 | whitespace behind does not change the stripped result |
| PyStr.StripTrimmed | app.py:32 | an already trimmed string is unchanged by strip() |
| PyStr.PrintableNotSpace | app.py:32 | no printable ASCII character counts as whitespace |
| PyStr.Lower | app.py:57 | same length; each upper-case ASCII letter becomes the letter 32 code points on, every other character is kept |
| PyStr.LowerIdempotent | app.py:57 | lower-casing leaves no upper-case ASCII letter and is idempotent |
| PyStr.LowerIgnoresCase | app.py:57 | strings that differ only in ASCII letter case lower-case to the same string |
| EmailList.Split | app.py:31 | splitting yields one more piece than there are delimiters |
| EmailList.SplitNoDelimiter | app.py:31 | no piece of the split contains `,` or `;` |
| EmailList.SplitRejoin | app.py:31 | putting the delimiters back between the pieces gives back the input |
| EmailList.SplitAppend | app.py:31 | the split of a + delimiter + b is the split of a followed by the split of b |
| EmailList.StripNonBlank | app.py:32 | the comprehension keeps at most as many entries as there are pieces, each non-empty and trimmed |
| EmailList.StripNonBlankAppend | app.py:32 | the comprehension works piece by piece, keeping order |
| EmailList.ParseEmails | app.py:28-32 | absent or empty input gives []; every address is non-empty, trimmed and free of `,` and `;` |
| EmailList.ParseEmailsSplits | app.py:31-32 | a present value is parsed by stripping the pieces of its split and dropping the blank ones |
| EmailList.ParseEmailsConcat | app.py:31-32 | the addresses of a + delimiter + b are those of a followed by those of b (input order is kept) |
| EmailList.ParseEmailsPiece | app.py:31-32 | a delimiter-free text yields its stripped form, or nothing when that is empty |
| EmailList.ParseEmailsAllSpace | app.py:29-32 | a value made only of whitespace yields no address |
| EmailList.ParseEmailsJoin | app.py:31-32 | joining well-formed addresses with `,` and parsing gives them back |
| EmailList.ParseEmailsIdempotent | app.py:31-32 | re-parsing the parser's output joined with `,` yields the same list |
| EmailList.ParseEmailsOuterWhitespace | app.py:23 | stripping a value before parsing it does not change its addresses |
| EmailList.ParseEmailsLeadingSpace | app.py:32 | whitespace in front of a value does not change its addresses |
| EmailList.ParseEmailsTrailingSpace | app.py:32 | whitespace after a value does not change its addresses |
| HiddenBcc.LowerSet | app.py:57 | every user entry's lower-case form is in the set, and every member is the lower-case form of an entry |
| HiddenBcc.Additions | app.py:58 | what is appended is drawn from the hidden list, none of it lower-cases into the existing set, and it is no longer than the hidden list |
| HiddenBcc.MergeHiddenBcc | app.py:56-58 | the user's list is an unchanged prefix, the appended suffix is exactly the filtered hidden list, an empty hidden list changes nothing, and every hidden address ends up present up to ASCII case |
| HiddenBcc.AdditionsCount | app.py:57-58 | a hidden address is appended as often as it is configured if its lower-case form is not a user entry's, otherwise never (duplicates in the hidden list survive) |
| HiddenBcc.AdditionsAppend | app.py:58 | the filter keeps configured order, piece by piece |
| HiddenBcc.AdditionsNoClash | app.py:58 | with no clash against the user's entries, the whole hidden list is appended as it is |
| HiddenBcc.MergeCoversHidden | app.py:56-58 | after the merge every hidden address is present up to case, and every entry was typed by the user or configured |
| HiddenBcc.DuplicateHiddenSurvives | app.py:57-58 | a hidden address configured twice is appended twice |
| HiddenBcc.MergeExample | app.py:56-58 | user BCC `a@x.com` with hidden `A@X.com, d@w.com` yields `a@x.com, d@w.com` |
| BodyHtml.NonSpaceRun | app.py:71 | the greedy run stops at the end or at a whitespace character |
| BodyHtml.NonSpaceRunNoSpace | app.py:71 | the greedy run holds no whitespace |
| BodyHtml.NonSpaceRunExact | app.py:71 | the run ends exactly at the first whitespace |
| BodyHtml.UrlRunCoversScheme | app.py:71 | where the pattern matches, the match covers the scheme and at least one more character |
| BodyHtml.Tokenize | app.py:71 | the tokens spell out the body, and every matched URL is non-empty and holds no whitespace |
| BodyHtml.TokenizeIsScan | app.py:71 | the scan takes the longest match wherever the pattern matches and one character elsewhere, and its tokens spell out the body |
| BodyHtml.ScanUnique | app.py:71 | any token sequence with those two properties is the scan |
| BodyHtml.Anchor | app.py:71 | the replacement is `<a href="`, the URL, `">`, the URL again and `</a>`: the URL appears twice inside fifteen characters of markup |
| BodyHtml.Linkify | app.py:71 | the substitution adds and removes no newline |
| BodyHtml.LinkifyPlain | app.py:71 | a body in which the pattern matches nowhere is unchanged; nothing is escaped |
| BodyHtml.LinkifyPlainPrefix | app.py:71 | text before the first match is copied as it is |
| BodyHtml.LinkifyAtUrl | app.py:71 | at a match the whole run up to the next whitespace becomes `<a href="U">U</a>` |
| BodyHtml.LinkifyUrlLine | app.py:71 | a URL that ends its line becomes an anchor, and a following line without a URL is copied |
| BodyHtml.EmitKeepsNewlines | app.py:71 | replacing tokens whose URLs hold no whitespace keeps the number of newlines of the text they spell out |
| BodyHtml.AnchorNewlines | app.py:71 | the anchor markup holds no newline of its own |
| BodyHtml.ReplacementKeepsNewlines | app.py:71 | a token's replacement holds as many newlines as the text it stands for |
| BodyHtml.ReplaceNewlines | app.py:72 | the result holds no newline and is three characters longer per newline |
| BodyHtml.ReplaceNewlinesAppend | app.py:72 | the replacement works piece by piece |
| BodyHtml.ReplaceNewlinesAt | app.py:72 | each character of the input reappears in place, a newline as exactly one `<br>` |
| BodyHtml.ReplaceNewlinesNone | app.py:72 | text without a newline is unchanged |
| BodyHtml.ReplaceNewlinesLines | app.py:72 | two newline-free lines joined by a newline come out joined by `<br>` |
| BodyHtml.RenderHtml | app.py:71-72 | the HTML holds no newline, and each newline of the body became exactly one `<br>` (three characters more than the linked body per newline) |
| BodyHtml.RenderHtmlPlain | app.py:71-72 | a body with no match and no newline is returned unchanged, HTML-significant characters included |
| BodyHtml.UrlStartAppend | app.py:71 | whether the pattern matches at a position depends only on the nine characters from there on |
| BodyHtml.RenderUrlLine | app.py:71-72 | text in which the pattern starts nowhere, a URL ending the line, then a plain line render as text, anchor, `<br>`, line (for instance `see http://e.co\nhi`) |
| SendHandler.HiddenBccSetting | app.py:23 | the stored HIDDEN_BCC is trimmed, no longer than the raw value, and empty when unset |
| SendHandler.HiddenBccParsesAsRaw | app.py:23 | stripping at load time does not change the hidden addresses, and a whitespace-only value yields none |
| SendHandler.OrEmpty | app.py:48-49 | a submitted field is taken as it is, a missing one as the empty string |
| SendHandler.Sender | app.py:64 | the sender is MAIL_DEFAULT_SENDER when that is set, otherwise the username, and never empty when the username is set |
| SendHandler.HasCredentials | app.py:42 | once both credentials are configured, the message never goes out without a sender |
| SendHandler.Outcome | app.py:74-82 | success gives `Email sent successfully!` with 200; an authentication failure gives its fixed prefix followed by exactly the exception's detail, with 500, and so does any other SMTP failure with `SMTP error: `; a non-SMTP exception escapes |
| SendHandler.ComposeMessage | app.py:63-72 | the message carries the given headers, the body verbatim and the rendered HTML, which holds no newline |
| SendHandler.SendEmail | app.py:41-82 | missing credentials give 500 with no send, whatever the form; an empty parsed `To` gives 400 with no send, even with cc, bcc or hidden copies; otherwise exactly one message is sent, with the parsed lists, the merged BCC, the default sender or else the username (never empty), and the reply follows the outcome |

## Left out

- Flask set-up, the `/` route and its template (app.py:13, app.py:35-37). They are web-framework code that is not part of this model.
- Reading the environment and `.env` (app.py:7-21), including the server, port, TLS and SSL settings. The handler never reads them; the configuration it does read is a parameter, `SendHandler.Config`.
- `flask_mail` and SMTP delivery (app.py:25, app.py:75). The message handed to the transport is returned, and what the transport does is the parameter `Delivery`.
- What Flask answers when an exception escapes the handler. The model stops at `Escaped`.
- The detail text of SMTP exceptions (app.py:77-80): byte decoding with `errors='ignore'`, and `str(e)`. The detail is an opaque string in the `Delivery` value.
- HiddenBcc.MergeHiddenBcc: `bcc_list.extend` (app.py:58) changes the list object in place. The model appends to a local sequence and returns it; nothing else holds the list, so aliasing does not arise.
- The Flask-Mail `Message` object. It is modelled as an immutable value whose `body` and `html` fields are replaced in turn, so aliasing of the object is not modelled.
- Repeated form keys. A form field is one optional string, as `request.form.get` returns it.
- PyStr.Lower: lower-cases ASCII letters only. Python's `str.lower` also maps non-ASCII letters (`'Ä'` to `'ä'`, for one), so two addresses that differ only in non-ASCII case are treated as distinct here.
- PyStr.IsSpace: whitespace is CPython's table for `str` values. Byte strings and `re.ASCII` patterns, which use a narrower set, do not occur in the handler.
