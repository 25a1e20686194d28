# telegrama-rs message formatting and delivery, in Dafny

This project models the core of telegrama-rs, a small Rust client that sends messages to a chat
through the Telegram Bot API, and proves properties of the model. Three parts are modelled:

- **The formatter** (`src/formatter.rs`). `Formatter::format` runs one fixed pipeline over a
  message:
  1. it adds the configured prefix and suffix;
  2. it escapes HTML entities;
  3. it obfuscates e-mail addresses;
  4. it escapes for Telegram's MarkdownV2 dialect;
  5. it truncates at a word boundary and appends an ellipsis.

  The MarkdownV2 escape has two passes. A link pre-pass rewrites every `[label](url)`. Then a
  character scan tracks six contexts (inline code, fenced block, bold, italic, link label, link
  URL) and decides which reserved characters get a backslash.
- **Delivery** (`src/client.rs`). `send_message` and its helpers:
  - look up options;
  - resolve and normalise the parse mode;
  - apply the formatting overrides;
  - format per dialect;
  - check for an empty message;
  - classify the API's reply;
  - run the fallback cascade MarkdownV2 → HTML → plain text.
- **The configuration record** (`src/configuration.rs`): its defaults, its setters and getters, and
  `validate`.

Files and modules:

| file | module | contents |
|---|---|---|
| `errors.dfy` | `Errors` | `Option`, the library's `Error` enum, `Result` |
| `text.dfy` | `Text` | ASCII character classes, lower-casing, substring search, decimal rendering and `str::parse::<usize>` |
| `config.dfy` | `Config` | `FormattingOptions`, `ClientOptions`, the `Configuration` class |
| `markdown.dfy` | `Markdown` | the reserved characters, the link pre-pass, the context scan, `strip_markdown` |
| `html.dfy` | `Html` | `escape_html` |
| `emails.dfy` | `Emails` | the e-mail pattern as a scanner, and the per-address rewrite |
| `truncation.dfy` | `Truncation` | `truncate` |
| `formatter.dfy` | `Formatter` | the `format` pipeline |
| `client.dfy` | `Client` | option resolution, `handle_response`, `send_message` and its fallbacks |

How the source maps to Dafny:

- The source's loops become Dafny methods with loop invariants. Each is proved equal to a
  specification function. These are:
  - the MarkdownV2 scan with its six mutable flags (`Markdown.Scan`, which `Markdown.EscapeMarkdownV2` calls on the pre-pass output);
  - the pre-pass's replacement loop over the reserved characters (`Markdown.EscapeLinkUrl`);
  - the last-wins override loop of `extract_formatting_options` (`Client.ExtractFormattingOptions`).
- `format` and `send_message` reassign a mutable text and a mutable parse mode. They are methods too:
  - `Formatter.Format` is proved equal to `Formatter.FormatText`;
  - `Client.SendMessage` is proved equal to `Client.Deliver`.
- The configuration is a class. Its setters modify only their own field.

Escaping is modelled as *rendering with a mask*:

- `Render(s, m)` writes a backslash before every character of `s` whose flag in `m` is set.
- `BackslashesInserted(s, t)` says that `t` is `s` with backslashes inserted, and only immediately
  before characters of `MARKDOWN_SPECIAL_CHARS`.

The link pattern `\[([^\]]+)\]\(([^)]+)\)` is modelled exactly. The label runs to the first `]`
and the URL runs to the first `)`. Matches are taken leftmost-first and do not overlap.

The e-mail pattern `\b[A-Za-z0-9._%+-]+@[A-Za-z0-9.-]+\.[A-Za-z]{2,}\b` is modelled by a scanner
that makes the regex engine's backtracking choice:

- the local part runs as far as it can;
- the top-level-domain dot is the rightmost one that admits a match.

`Emails.EmailAtSound` and `Emails.EmailAtComplete` characterise the scanner against the pattern,
which is written there as a relation. `\b` uses ASCII word characters.

The network is a function parameter: `net(k, request)` gives the replies to the two posts of the
`k`-th attempt of a call. The source posts every request twice and looks only at the second reply;
the model does the same.

Four properties one might expect of the code do not hold for it. The model follows the code,
and each failure is proved about the model:

- **MarkdownV2 escaping is not idempotent.** Escaping an escaped text adds more backslashes.
  `Markdown.EscapeNotIdempotent` proves this: for example, `a.b` escapes to `a\.b`, and a second
  pass gives `a\\.b` (the backslash is not reserved, so only the `.` gets another one).
- **`strip_markdown` does not undo the escape.** It removes `*`, `_` and `` ` `` and reduces
  links to their labels, but keeps the backslashes. `Markdown.StripKeepsBackslashes` proves this.
- **An escaped marker in a link still opens a context.** The pre-pass escapes a `` ` ``, `*` or
  `_` in a link's label or URL. The scan's arms for those three characters do not look at the
  backslash before them, so they still toggle inline code, bold or italic. That context stays
  set after the link. `Markdown.EscapedMarkerLeaksContext` proves this for one text: `[_](u).`
  escapes to `[\_](u).`, and the final `.` gets no backslash because italic is still on.
- **The space cut of `truncate` can exceed the limit.** It keeps the text before the last space in
  the first `max` characters and then appends `...`, so the result can be up to two characters
  longer than `max`. `Truncation.TruncateOvershoot` proves this, and `Truncation.Truncate` states
  the bound `max + 2`.

Concrete examples are covered by general lemmas:

- **E-mail obfuscation.** `Emails.WholeAddress` covers any text that is exactly one address. It
  covers the repository's test addresses: `info@example.com` → `inf...o@example.com` and
  `john.doe@example.org` → `joh...e@example.org`.
- **Link escaping.** `Markdown.LoneLink` covers any text that is one link whose label and URL
  hold no `` ` ``, `*` or `_`, and whose URL holds no `[`, for example
  `[a.b](http://x.y/z-1)` → `[a\.b](http://x.y/z-1)`.
- **Link stripping.** `Markdown.StripMarkdownLoneLink` covers any text that is one link without
  markers, for example `[docs](http://x.y)` → `docs`.

## Model

| member | source | states |
|---|---|---|
| Text.IsTrueFlag | src/client.rs:125 | a flag value is true exactly when it is four characters that spell "true" in any letter case, which is `to_lowercase() == "true"` on ASCII |
| Text.ParseUsize | src/client.rs:406-407 | `str::parse::<usize>` succeeds exactly when the text, after one optional leading '+', is a nonempty run of decimal digits whose value is at most 2^64-1, and then gives that value |
| Text.ParseRejects | src/client.rs:406-407 | a character that is neither a digit nor the leading '+' makes the parse fail (so "-5" and "5x" give `None`), as do "" and a lone "+" |
| Text.ParseLeadingZero | src/client.rs:406-407 | a leading zero does not change the parse: "07" parses as "7" does |
| Text.ParsePlus | src/client.rs:406-407 | a leading '+' before digits is accepted and ignored |
| Text.ParseOverflow | src/client.rs:406-407 | 2^64 does not parse |
| Text.ParseNatToString | src/client.rs:351-355 | parsing the decimal rendering of a status code gives the code back |
| Text.Contains | src/client.rs:192-195 | `str::contains` holds exactly when the pattern occurs at some index |
| Text.ContainsInTail | src/client.rs:351-355 | a pattern that occurs in the text's tail occurs in the whole text |
| Config.NoneIfEmpty | src/configuration.rs:168-175 | the empty string becomes `None`, and any other string `s` becomes `Some(s)` |
| Config.Configuration.constructor | src/configuration.rs:73-86 | the defaults: no token or chat, `MarkdownV2` as default mode, previews disabled, no prefix or suffix, formatting options (true, false, false, Some(4096)), client options (30, 3, 1) |
| Config.Configuration.SetBotToken | src/configuration.rs:144-147 | stores the token and changes no other field |
| Config.Configuration.BotToken | src/configuration.rs:149-154 | returns the stored token, or the Configuration error "Bot token not configured" when none is stored |
| Config.Configuration.SetChatId | src/configuration.rs:156-159 | stores the chat and changes no other field |
| Config.Configuration.ChatId | src/configuration.rs:161-166 | returns the stored chat, or the Configuration error "Chat ID not configured" |
| Config.Configuration.SetDefaultParseMode | src/configuration.rs:168-176 | stores `None` for "" and the mode otherwise; no other field changes |
| Config.Configuration.DefaultParseMode | src/configuration.rs:178-181 | returns the stored mode, which is never `Some("")` |
| Config.Configuration.DisableWebPagePreview | src/configuration.rs:188-190 | returns the stored preview setting |
| Config.Configuration.MessagePrefix | src/configuration.rs:203-205 | returns the stored prefix, which is never `Some("")` |
| Config.Configuration.MessageSuffix | src/configuration.rs:218-220 | returns the stored suffix, which is never `Some("")` |
| Config.Configuration.FormattingOptions | src/configuration.rs:228-230 | returns the stored formatting options |
| Config.Configuration.ClientOptions | src/configuration.rs:238-240 | returns the stored client options |
| Config.Configuration.SetDisableWebPagePreview | src/configuration.rs:183-186 | stores the flag and changes no other field |
| Config.Configuration.SetMessagePrefix | src/configuration.rs:193-201 | stores `None` for "" and the prefix otherwise; no other field changes |
| Config.Configuration.SetMessageSuffix | src/configuration.rs:208-216 | stores `None` for "" and the suffix otherwise; no other field changes |
| Config.Configuration.SetFormattingOptions | src/configuration.rs:223-226 | stores the options and changes no other field |
| Config.Configuration.SetClientOptions | src/configuration.rs:233-236 | stores the options and changes no other field |
| Config.Configuration.Validate | src/configuration.rs:243-258 | fails exactly when the token is unset, or a default mode is set that is neither MarkdownV2 nor HTML, with the source's messages; the chat is not checked; every failure is a Configuration error |
| Config.ClearDefaultParseMode | src/configuration.rs:168-176 | after `set_default_parse_mode("")` the mode is `None`, and a configuration with a token validates |
| Config.ConfigureAndReadBack | tests/unit_tests.rs:4-38 | after the setters of the configuration test, every getter returns what was set, and fields no setter touched keep their defaults |
| Markdown.ReservedListed | src/formatter.rs:8-10 | the eighteen characters of `MARKDOWN_SPECIAL_CHARS` are exactly the reserved ones |
| Markdown.UnrenderRender | src/formatter.rs:183-199 | deleting the backslashes a mask inserted gives back the text |
| Markdown.RenderInserts | src/formatter.rs:183-199 | a mask that flags only reserved characters inserts backslashes only before them |
| Markdown.InsertedTransitive | src/formatter.rs:97-99 | two insertion passes compose into one, because a backslash is not reserved |
| Markdown.InsertedLength | src/formatter.rs:94-97 | an insertion is never shorter than its input, and is empty exactly when the input is |
| Markdown.LinkAtMatches | src/formatter.rs:20 | the link matcher reports a span at `i` exactly when the link pattern matches there, and reports that span |
| Markdown.LinkAt | src/formatter.rs:20 | a reported match starts with `[`, has its `]` followed by `(` after a nonempty label, and ends at a `)` after a nonempty URL |
| Markdown.EscapeLinkUrl | src/formatter.rs:227-233 | the replacement loop escapes exactly the reserved characters other than `.` and `-` |
| Markdown.ReplaceExtends | src/formatter.rs:229-232 | one `replace` of the loop escapes one more character |
| Markdown.LabelEscaped | src/formatter.rs:214-225 | the escaped label is the label with backslashes inserted before reserved characters only, and deleting them gives the label back |
| Markdown.PreProcessLinks | src/formatter.rs:206-241 | the pre-pass's output is the link-by-link rewrite of its input |
| Markdown.PreFrom | src/formatter.rs:206-241 | the link-by-link rewrite of a text is empty only for the empty text |
| Markdown.PieceRender | src/formatter.rs:214-236 | a rewritten link is the link with its label fully escaped and its URL escaped except `.` and `-` |
| Markdown.PreFromInserts | src/formatter.rs:206-241 | the pre-pass only inserts backslashes, and only before reserved characters |
| Markdown.PreFromRender | src/formatter.rs:206-241 | the pre-pass output is its input rendered with the pre-pass mask |
| Markdown.PreFromWithoutBracket | src/formatter.rs:211-238 | text without `[` is left alone by the pre-pass |
| Markdown.ScanStep | src/formatter.rs:118-200 | one scan iteration consumes one or three characters, and escapes only a reserved non-structural character outside every context |
| Markdown.ScanStepContexts | src/formatter.rs:118-199 | each context rule of the scan: inside code or a fenced block everything but a backtick is copied; the triple-backtick check does not fire inside inline code; only three backticks toggle the fenced block; the reserved characters no arm claims are escaped outside every context |
| Markdown.ScanMaskFlags | src/formatter.rs:183-199 | the scan never puts a backslash before `` ` ``, `*`, `_` or `[`, nor before anything unreserved |
| Markdown.CodeRunVerbatim | src/formatter.rs:118-199 | inside code or a fenced block a run without backticks is copied verbatim |
| Markdown.PlainRun | src/formatter.rs:183-199 | outside every context, text without a structural character gets one backslash before each reserved character |
| Markdown.LinkScanCopies | src/formatter.rs:153-180 | the scan copies a rewritten link `[label](url)` without adding anything, and ends outside every context, when the label holds no `` ` ``, `*`, `_` or `]` and the URL no `` ` ``, `*`, `_`, `[` or `)` |
| Markdown.ScanOne | src/formatter.rs:118-200 | one iteration of the loop, with its six flags, is the scan step |
| Markdown.Scan | src/formatter.rs:103-202 | the loop with its six flags, started outside every context, computes the scan of the whole pre-processed text |
| Markdown.EscapeMarkdownV2 | src/formatter.rs:94-203 | always returns `Ok`, and the result is the pre-pass followed by the scan |
| Markdown.MarkdownEscaped | src/formatter.rs:94-203 | the escaped text is empty exactly when the input is |
| Markdown.EscapeInsertsOnlyBackslashes | src/formatter.rs:94-203 | the escaped text is the input with backslashes inserted, and only before reserved characters |
| Markdown.EscapeWithoutReserved | src/formatter.rs:94-203 | text without reserved characters is returned unchanged |
| Markdown.EscapeLength | src/formatter.rs:94-97 | escaping never shortens, and gives the empty text exactly for the empty text |
| Markdown.EscapePlain | src/formatter.rs:183-199 | text without `` ` ``, `*`, `_` or `[` gets exactly one backslash before each reserved character |
| Markdown.EscapeUnrender | src/formatter.rs:94-241 | deleting the backslashes the scan inserted, then those the pre-pass inserted, gives back the input |
| Markdown.EscapeNotIdempotent | src/formatter.rs:183-199 | escaping twice differs from escaping once for any plain text with a reserved character |
| Markdown.LoneLink | src/formatter.rs:94-241 | a text that is one link, whose label and URL hold no `` ` ``, `*` or `_` and whose URL holds no `[`, escapes to the link rewritten by the pre-pass, with nothing added by the scan |
| Markdown.EscapedMarkerLeaksContext | src/formatter.rs:120-152 | the `_` that the pre-pass escapes in the label of `[_](u).` still turns italic on, so the `.` after the link is left unescaped |
| Markdown.RemoveMarkers | src/formatter.rs:246 | leaves no `*`, `_` or `` ` ``, adds nothing, and never lengthens |
| Markdown.StripLinks | src/formatter.rs:249-254 | writes only characters of the text it scans, and never lengthens it |
| Markdown.StripMarkdown | src/formatter.rs:244-257 | no bold, italic or code marker survives, and the text never grows |
| Markdown.RemoveMarkersAppend | src/formatter.rs:246 | marker removal works character by character over a concatenation, so every other character is kept in order |
| Markdown.RemoveMarkersChar | src/formatter.rs:246 | a single character is dropped exactly when it is `*`, `_` or `` ` `` |
| Markdown.StripLinksStep | src/formatter.rs:249-254 | at a link match the output is the label followed by the rest after the match; elsewhere the character is kept and the search moves on |
| Markdown.StripLinksLoneLink | src/formatter.rs:249-254 | a text that is exactly one match of the link pattern strips to its label |
| Markdown.StripMarkdownLoneLink | src/formatter.rs:244-257 | `strip_markdown` of one link `[label](url)` whose label and URL hold no marker is the label |
| Markdown.StripKeepsBackslashes | src/formatter.rs:244-257 | stripping an escaped plain text keeps its backslashes, so it does not recover the input |
| Html.Entity | src/formatter.rs:296-311 | `<`, `>` and `&` become `&lt;`, `&gt;` and `&amp;`; any other character is kept |
| Html.EscapeHtml | src/formatter.rs:294-314 | the escaped text is never shorter than the input |
| Html.EscapeHtmlSafe | src/formatter.rs:294-314 | the escaped text holds no `<` or `>`, and adds only entity characters |
| Html.EscapeHtmlAppend | src/formatter.rs:294-314 | escaping is a per-character replacement in one pass |
| Html.UnescapeEscape | src/formatter.rs:294-314 | decoding the three entities gives back the input, so nothing is lost |
| Html.EscapeHtmlIdentity | src/formatter.rs:294-314 | text without `<`, `>` and `&` is unchanged |
| Html.EscapeHtmlChanges | src/formatter.rs:294-314 | each `<`, `>` or `&` lengthens the text by at least three |
| Emails.RunEnd | src/formatter.rs:13-14 | a greedy character-class run ends at the first character outside the class |
| Emails.LastTld | src/formatter.rs:13-14 | the chosen top-level-domain dot is the rightmost that admits a match |
| Emails.EmailAt | src/formatter.rs:13-14 | a reported address has its `@`, then its top-level-domain dot, then at least two more characters before its end, in that order |
| Emails.EmailAtSound | src/formatter.rs:13-14 | every reported address matches the pattern |
| Emails.EmailAtComplete | src/formatter.rs:13-14 | where the pattern matches, the scanner reports a match with the same `@` and the greedy dot |
| Emails.CountAt | src/formatter.rs:264-269 | there are no `@` exactly when the count is zero (the split gives one part) |
| Emails.Obfuscated | src/formatter.rs:271-287 | a username of up to three characters is kept; a longer one becomes its first three characters, `...` and its last character, then `@` and the domain |
| Emails.SplitMatch | src/formatter.rs:262-289 | a match with one `@` is split into username and domain and rewritten as above |
| Emails.ObfuscateMatch | src/formatter.rs:262-289 | the rewrite of one match writes only characters of the match and dots, and is empty only for an empty match |
| Emails.ObfuscateFrom | src/formatter.rs:260-291 | the leftmost-first replacement of the rest of a text is empty only when nothing is left |
| Emails.ObfuscateEmails | src/formatter.rs:260-291 | only the empty text obfuscates to the empty text |
| Emails.ObfuscateNoAt | src/formatter.rs:260-291 | text without `@` is unchanged |
| Emails.ObfuscateChars | src/formatter.rs:260-291 | obfuscation writes only characters of the text and dots |
| Emails.WholeAddress | src/formatter.rs:260-291 | a text that is one address becomes its obfuscated form |
| Truncation.LastSpace | src/formatter.rs:323 | `rfind(' ')` gives the last space, or none when there is no space |
| Truncation.TruncateDefined | src/formatter.rs:317-330 | `truncate` cannot panic on a text that fits the limit, nor with a limit of at least three |
| Truncation.Truncate | src/formatter.rs:317-330 | short text is unchanged; otherwise the cut is before the last space among the first `max` characters, or after `max - 3` characters with length exactly `max`, then `...`; the result is at most `max + 2` long, adds only dots, and is empty only for empty input |
| Truncation.TruncateOvershoot | src/formatter.rs:323-325 | a last space at position `max - 1` gives a result of length `max + 2` |
| Truncation.TruncatePrefix | src/formatter.rs:317-330 | a cut text is a prefix of the input followed by `...` |
| Formatter.Affixed | src/formatter.rs:53-60 | the prefix, then the text, then the suffix, each when configured |
| Formatter.ResolvedOptions | src/formatter.rs:42-49 | the caller's options, else the configured ones |
| Formatter.FormatText | src/formatter.rs:27-91 | with a limit, the message is at most the limit plus two long |
| Formatter.Format | src/formatter.rs:27-91 | always `Ok`; the stages run in the source's order; the `strip_markdown` fallback is never taken |
| Formatter.DefinedWithLimit | src/formatter.rs:84-86 | a limit of at least three never panics |
| Formatter.FormatNothing | src/formatter.rs:27-91 | with every stage off, the message is the affixed text |
| Formatter.FormatNoAngles | src/formatter.rs:61-86 | with HTML escaping on, the formatted message holds no `<` or `>`, whatever the other stages do |
| Formatter.FormatMarkdownOnly | src/formatter.rs:72-81 | with only MarkdownV2 escaping on, the message is the affixed text with backslashes inserted before reserved characters |
| Formatter.FormatEmpty | src/formatter.rs:27-91 | the message is empty exactly when the affixed text is |
| Client.FindOption | src/client.rs:70-74 | the first pair with the key gives the value; `None` exactly when no pair has the key |
| Client.LastOption | src/client.rs:395-411 | the last pair with the key gives the value; `None` exactly when no pair has the key |
| Client.ExtractFormattingOptions | src/client.rs:386-414 | the override loop applies the options to the defaults in order |
| Client.ApplyOption | src/client.rs:395-411 | each known key sets its own field (a flag from "true" in any case, the limit from `parse::<usize>`) and leaves every other field as it was; an unknown key changes nothing |
| Client.ExtractEscapeMarkdown | src/client.rs:397-399 | the last `escape_markdown` option decides the flag, else the default stands |
| Client.ExtractObfuscateEmails | src/client.rs:400-402 | the last `obfuscate_emails` option decides the flag, else the default stands |
| Client.ExtractEscapeHtml | src/client.rs:403-405 | the last `escape_html` option decides the flag, else the default stands |
| Client.ExtractTruncate | src/client.rs:406-408 | the last `truncate` option decides the limit, and an unparsable value gives `None`; else the default stands |
| Client.ExtractLastWins | src/client.rs:386-414 | every field is decided by the last occurrence of its key, or is the default |
| Client.LastOptionSkip | src/client.rs:395-411 | a pair with another key does not affect the last occurrence of a key |
| Client.ExtractIgnoresUnknown | src/client.rs:409 | a pair with an unknown key changes nothing |
| Client.ResolveParseMode | src/client.rs:107-119 | the first `parse_mode` option, else the configured default; a value other than MarkdownV2, HTML or "" becomes `None` |
| Client.WireParseMode | src/client.rs:288-293 | the wire mode is always MarkdownV2, HTML or ""; a known mode passes through, anything else is "" |
| Client.DialectOptions | src/client.rs:131-162 | MarkdownV2 forces MarkdownV2 escaping on and HTML escaping off, HTML the reverse, plain text both off; obfuscation and limit are carried over |
| Client.HandleResponse | src/client.rs:341-383 | success exactly for a 2xx status, a decodable body and `ok: true`; otherwise an Api error, with the status and body, the decoding error, or the description or "Unknown API error", in that order |
| Client.HttpErrorCarriesBody | src/client.rs:343-355 | the error for a failed status mentions whatever its body mentions |
| Client.HttpErrorCarriesStatus | src/client.rs:343-355 | the status code can be read back from that error |
| Client.Attempt | src/client.rs:303-337 | a transport failure of either post is an Http error; otherwise the second reply is classified |
| Client.Posts | src/client.rs:303-333 | an attempt posts twice unless the first post fails |
| Client.FirstReplyDiscarded | src/client.rs:303-327 | the reply to the first post does not affect the result |
| Client.SendMessageRequest | src/client.rs:274-338 | the request carries token, chat, text, wire mode and preview flag, and the result is the attempt's |
| Client.ChatIdFor | src/client.rs:70-85 | the first `chat_id` option, else the configured chat, else "" |
| Client.PreviewFor | src/client.rs:122-126 | the first `disable_web_page_preview` option read as a flag, else the configured setting |
| Client.MentionsParseMode | src/client.rs:192-195 | the fallback goes straight to plain text exactly for an Api error whose message contains `parse_mode` |
| Client.DispatchSends | src/client.rs:173-270 | a cascade sends one to three requests, first the one in the call's mode, and only tier requests |
| Client.DispatchEndsInResult | src/client.rs:182-270 | the result is that of the last attempt, and every earlier attempt failed |
| Client.RetriesShape | src/client.rs:187-268 | the retries are at most two; with none, the first error is returned unchanged |
| Client.Cascade | src/client.rs:173-270 | a call that passed its checks sends one to three requests, the first in the call's own mode |
| Client.Deliver | src/client.rs:60-270 | a call sends at most three requests, and a call that sends none fails |
| Client.ChecksBeforeSending | src/client.rs:64-171 | an invalid configuration, a missing chat and an empty formatted message each give their error and send nothing; otherwise one to three requests are sent |
| Client.TierEmpty | src/client.rs:131-171 | a tier's text is empty exactly when the affixed message is, in every dialect |
| Client.RequestsWellFormed | src/client.rs:173-301 | every request has the configured token, the call's chat and preview flag, a wire mode the API accepts and a nonempty text; the result is the last attempt's |
| Client.SuccessStops | src/client.rs:182-186 | a first attempt that succeeds is the only one |
| Client.ParseModeErrorRetriesPlain | src/client.rs:192-217 | an Api error that mentions `parse_mode` gives exactly one retry, in plain text with wire mode "" |
| Client.MarkdownFallsBackToHtml | src/client.rs:218-264 | any other failure in MarkdownV2 is retried in HTML, and a failure of that in plain text |
| Client.OtherModesDoNotRetry | src/client.rs:265-268 | any other failure in HTML or plain text is returned with no retry |
| Client.HtmlTierNoAngles | src/client.rs:143-151 | the HTML tier's text holds no `<` or `>` |
| Client.TiersWithoutLimit | src/client.rs:131-163 | without obfuscation or a limit, the plain tier is the affixed message, and the MarkdownV2 tier is that text with backslashes inserted |
| Client.SendMessage | src/client.rs:60-270 | the request sequence and the result are those of the delivery function, with the source's checks, formatting and fallbacks |
| Client.ResolveMode | src/client.rs:107-119 | computes the call's parse mode |
| Client.SendWithFallback | src/client.rs:173-270 | the first request and the fallbacks follow the cascade |
| Client.Retry | src/client.rs:187-268 | the `Err(e)` arm follows the cascade's retry rules |
| Client.RetryHtml | src/client.rs:218-264 | the HTML retry, and the plain one if that fails |
| Client.FormatTier | src/client.rs:131-163 | a tier's text is the message formatted with that dialect's options |

## Left out

- The global configuration singleton (`static mut`, `Once`, `Mutex`, the `try_lock` fallback, `get_instance_mut`) is not modelled. It is concurrency and unsafe global state. The configuration is passed explicitly. Both `send_message` and `format` read the same configuration, which the source clones separately from the singleton.
- Logging (`info!`, `error!`, `trace!`) is not modelled, because it has no effect on behaviour.
- HTTP and JSON are not modelled. This covers reqwest construction and timeouts, the URL, the JSON encoding of the request, and the JSON decoding of the reply. Each reply is given by a status code, a readable or unreadable body, and a decoding that succeeds or fails with a reason. A reason's text is whatever the decoder reports.
- The `result` payload of the API's reply is not modelled. The delivery logic never looks at it.
- `ClientOptions` is modelled as data only. No delivery code reads it.
- The client and the formatter read the configuration's fields directly, not through the getters `MessagePrefix`, `MessageSuffix`, `DisableWebPagePreview` and `FormattingOptions`. Each getter's contract states that it returns its field, so the reading is the same.
- src/lib.rs is not part of this model. It is a thin wrapper around the client and the configuration.
- src/error.rs is modelled only as the `Error` datatype. The `Http` variant carries a text instead of a reqwest error.
- Text is modelled as a sequence of characters over ASCII:
  - Rust's byte lengths and byte offsets are taken to be character counts;
  - the panics of slicing inside a multi-byte character are not modelled;
  - `to_lowercase` and `\b` use their ASCII meaning.
- The e-mail and link patterns are modelled by hand-written scanners, not by a regex engine. `Emails.EmailAtSound` and `Emails.EmailAtComplete` relate the e-mail scanner to the pattern. `Markdown.LinkAtMatches` relates the link scanner to the link pattern.
- Client.Deliver: requires the resolved `truncate` limit to be `None` or at least 3. This is sufficient but not necessary. `truncate` panics only when the hard cut is taken with a limit below 3, and `Truncation.TruncateDefined` states the exact condition for one call.
- Client.Cascade: prepares the HTML and plain-text requests up front, while the source formats them only when needed. Formatting is pure, so the requests sent are the same.
- Markdown.LoneLink: does not cover a link whose label or URL holds `` ` ``, `*` or `_`, or whose URL holds `[`. For such a link, the escaped marker changes the scan's context, as `Markdown.EscapedMarkerLeaksContext` shows. The result then depends on the text that follows.
- Markdown.LinkScanCopies: has the same restriction, for the same reason. With such a character, the scan does not end outside every context after the link.
- Markdown.EscapeNotIdempotent: is shown for text without `` ` ``, `*`, `_` and `[`, not for every text. With those characters, re-escaping depends on the contexts. The general claim does not hold for the code anyway.
- Emails.WholeAddress: covers a text that is exactly one address. The repository's test sentence, which holds two addresses, is not proved as a whole.
