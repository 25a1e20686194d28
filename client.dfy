/** Message delivery (src/client.rs): option lookup, parse-mode resolution, per-dialect
    formatting options, the empty-message check, the classification of API replies and the
    fallback cascade MarkdownV2, then HTML, then plain text. The network is a parameter:
    `net(k, request)` is what the two posts of the `k`-th attempt of a call receive. */
module Client {
  import opened Errors
  import opened Text
  import opened Config
  import opened Markdown
  import opened Formatter

  /** The caller's options: key/value pairs in the order given. */
  type Options = seq<(string, string)>

  /** `options.iter().find(|(k, _)| *k == key)`: the value of the first pair with that key. */
  function FindOption(options: Options, key: string): (r: Option<string>)
    ensures r.None? <==> forall i :: 0 <= i < |options| ==> options[i].0 != key
    ensures r.Some? ==> exists i :: 0 <= i < |options| && options[i] == (key, r.value) &&
                                    forall j :: 0 <= j < i ==> options[j].0 != key
    decreases |options|
  {
    if options == [] then None
    else if options[0].0 == key then
      assert options[0] == (key, options[0].1);
      Some(options[0].1)
    else
      var r := FindOption(options[1..], key);
      assert forall i :: 1 <= i < |options| ==> options[i] == options[1..][i - 1];
      if r.Some? then
        var i :| 0 <= i < |options[1..]| && options[1..][i] == (key, r.value) &&
                 forall j :: 0 <= j < i ==> options[1..][j].0 != key;
        assert options[i + 1] == (key, r.value);
        r
      else r
  }

  /** The value of the last pair with that key. */
  function LastOption(options: Options, key: string): (r: Option<string>)
    ensures r.None? <==> forall i :: 0 <= i < |options| ==> options[i].0 != key
    ensures r.Some? ==> exists i :: 0 <= i < |options| && options[i] == (key, r.value) &&
                                    forall j :: i < j < |options| ==> options[j].0 != key
    decreases |options|
  {
    if options == [] then None
    else
      var last := options[|options| - 1];
      if last.0 == key then
        assert options[|options| - 1] == (key, last.1);
        Some(last.1)
      else
        var front := options[..|options| - 1];
        var r := LastOption(front, key);
        assert forall i :: 0 <= i < |front| ==> options[i] == front[i];
        if r.Some? then
          var i :| 0 <= i < |front| && front[i] == (key, r.value) &&
                   forall j :: i < j < |front| ==> front[j].0 != key;
          assert options[i] == (key, r.value);
          r
        else r
  }

  /** One iteration of `extract_formatting_options`: a known key overrides its field. */
  function ApplyOption(fo: FormattingOptions, kv: (string, string)): (r: FormattingOptions)
    ensures kv.0 == "escape_markdown" ==> r.escapeMarkdown == IsTrueFlag(kv.1)
    ensures kv.0 == "obfuscate_emails" ==> r.obfuscateEmails == IsTrueFlag(kv.1)
    ensures kv.0 == "escape_html" ==> r.escapeHtml == IsTrueFlag(kv.1)
    ensures kv.0 == "truncate" ==> r.truncate == ParseUsize(kv.1)
    // every other field keeps its value
    ensures kv.0 != "escape_markdown" ==> r.escapeMarkdown == fo.escapeMarkdown
    ensures kv.0 != "obfuscate_emails" ==> r.obfuscateEmails == fo.obfuscateEmails
    ensures kv.0 != "escape_html" ==> r.escapeHtml == fo.escapeHtml
    ensures kv.0 != "truncate" ==> r.truncate == fo.truncate
  {
    if kv.0 == "escape_markdown" then fo.(escapeMarkdown := IsTrueFlag(kv.1))
    else if kv.0 == "obfuscate_emails" then fo.(obfuscateEmails := IsTrueFlag(kv.1))
    else if kv.0 == "escape_html" then fo.(escapeHtml := IsTrueFlag(kv.1))
    else if kv.0 == "truncate" then fo.(truncate := ParseUsize(kv.1))
    else fo
  }

  /** The options applied to the defaults one pair at a time, in order. */
  function ExtractFrom(options: Options, d: FormattingOptions): FormattingOptions
    decreases |options|
  {
    if options == [] then d
    else ApplyOption(ExtractFrom(options[..|options| - 1], d), options[|options| - 1])
  }

  /** `extract_formatting_options`: a loop that overrides fields of a copy of the defaults. */
  method ExtractFormattingOptions(options: Options, d: FormattingOptions) returns (fo: FormattingOptions)
    ensures fo == ExtractFrom(options, d)
  {
    fo := d;
    for i := 0 to |options|
      invariant fo == ExtractFrom(options[..i], d)
    {
      assert options[..i + 1][..i] == options[..i];
      var (key, value) := options[i];
      if key == "escape_markdown" {
        fo := fo.(escapeMarkdown := IsTrueFlag(value));
      } else if key == "obfuscate_emails" {
        fo := fo.(obfuscateEmails := IsTrueFlag(value));
      } else if key == "escape_html" {
        fo := fo.(escapeHtml := IsTrueFlag(value));
      } else if key == "truncate" {
        fo := fo.(truncate := ParseUsize(value));
      }
    }
    assert options[..|options|] == options;
  }

  /** A flag setting: the last occurrence decides, else the default stands. */
  function FlagSetting(options: Options, key: string, default: bool): bool
  {
    match LastOption(options, key)
    case Some(v) => IsTrueFlag(v)
    case None => default
  }

  /** The last `escape_markdown` option decides `escapeMarkdown`; without one the default stands. */
  lemma {:induction false} ExtractEscapeMarkdown(options: Options, d: FormattingOptions)
    ensures ExtractFrom(options, d).escapeMarkdown == FlagSetting(options, "escape_markdown", d.escapeMarkdown)
    decreases |options|
  {
    if options != [] {
      var front := options[..|options| - 1];
      ExtractEscapeMarkdown(front, d);
      assert ExtractFrom(options, d) == ApplyOption(ExtractFrom(front, d), options[|options| - 1]);
    }
  }

  /** The last `obfuscate_emails` option decides `obfuscateEmails`; without one the default stands. */
  lemma {:induction false} ExtractObfuscateEmails(options: Options, d: FormattingOptions)
    ensures ExtractFrom(options, d).obfuscateEmails == FlagSetting(options, "obfuscate_emails", d.obfuscateEmails)
    decreases |options|
  {
    if options != [] {
      var front := options[..|options| - 1];
      ExtractObfuscateEmails(front, d);
      assert ExtractFrom(options, d) == ApplyOption(ExtractFrom(front, d), options[|options| - 1]);
    }
  }

  /** The last `escape_html` option decides `escapeHtml`; without one the default stands. */
  lemma {:induction false} ExtractEscapeHtml(options: Options, d: FormattingOptions)
    ensures ExtractFrom(options, d).escapeHtml == FlagSetting(options, "escape_html", d.escapeHtml)
    decreases |options|
  {
    if options != [] {
      var front := options[..|options| - 1];
      ExtractEscapeHtml(front, d);
      assert ExtractFrom(options, d) == ApplyOption(ExtractFrom(front, d), options[|options| - 1]);
    }
  }

  /** The last `truncate` option decides the limit: `None` when its value does not parse as an
      unsigned integer; without one the default stands. */
  lemma {:induction false} ExtractTruncate(options: Options, d: FormattingOptions)
    ensures ExtractFrom(options, d).truncate ==
              match LastOption(options, "truncate") case Some(v) => ParseUsize(v) case None => d.truncate
    decreases |options|
  {
    if options != [] {
      var front := options[..|options| - 1];
      ExtractTruncate(front, d);
      assert ExtractFrom(options, d) == ApplyOption(ExtractFrom(front, d), options[|options| - 1]);
    }
  }

  /** Each field is decided by the last occurrence of its key, or is the default. */
  lemma ExtractLastWins(options: Options, d: FormattingOptions)
    ensures ExtractFrom(options, d) ==
              FormattingOptions(FlagSetting(options, "escape_markdown", d.escapeMarkdown),
                                FlagSetting(options, "obfuscate_emails", d.obfuscateEmails),
                                FlagSetting(options, "escape_html", d.escapeHtml),
                                match LastOption(options, "truncate") case Some(v) => ParseUsize(v) case None => d.truncate)
  {
    ExtractEscapeMarkdown(options, d);
    ExtractObfuscateEmails(options, d);
    ExtractEscapeHtml(options, d);
    ExtractTruncate(options, d);
  }

  /** The last-occurrence search looks at the final pair first. */
  lemma LastOptionSnoc(o: Options, kv: (string, string), key: string)
    ensures LastOption(o + [kv], key) == if kv.0 == key then Some(kv.1) else LastOption(o, key)
  {
    assert (o + [kv])[..|o|] == o;
  }

  /** Removing a pair from the last-occurrence search changes nothing for other keys. */
  lemma {:induction false} LastOptionSkip(o1: Options, kv: (string, string), o2: Options, key: string)
    requires kv.0 != key
    ensures LastOption(o1 + [kv] + o2, key) == LastOption(o1 + o2, key)
    decreases |o2|
  {
    if o2 == [] {
      assert o1 + [kv] + o2 == o1 + [kv];
      assert o1 + o2 == o1;
      LastOptionSnoc(o1, kv, key);
    } else {
      var o2f := o2[..|o2| - 1];
      var x := o2[|o2| - 1];
      LastOptionSkip(o1, kv, o2f, key);
      calc {
        LastOption(o1 + [kv] + o2, key);
        { assert o1 + [kv] + o2 == (o1 + [kv] + o2f) + [x]; }
        LastOption((o1 + [kv] + o2f) + [x], key);
        { LastOptionSnoc(o1 + [kv] + o2f, x, key); }
        if x.0 == key then Some(x.1) else LastOption(o1 + [kv] + o2f, key);
        if x.0 == key then Some(x.1) else LastOption(o1 + o2f, key);
        { LastOptionSnoc(o1 + o2f, x, key); }
        LastOption((o1 + o2f) + [x], key);
        { assert o1 + o2 == (o1 + o2f) + [x]; }
        LastOption(o1 + o2, key);
      }
    }
  }

  /** A pair with a key other than the four formatting keys changes nothing. */
  lemma ExtractIgnoresUnknown(o1: Options, kv: (string, string), o2: Options, d: FormattingOptions)
    requires kv.0 != "escape_markdown" && kv.0 != "obfuscate_emails" && kv.0 != "escape_html" && kv.0 != "truncate"
    ensures ExtractFrom(o1 + [kv] + o2, d) == ExtractFrom(o1 + o2, d)
  {
    ExtractLastWins(o1 + [kv] + o2, d);
    ExtractLastWins(o1 + o2, d);
    LastOptionSkip(o1, kv, o2, "escape_markdown");
    LastOptionSkip(o1, kv, o2, "obfuscate_emails");
    LastOptionSkip(o1, kv, o2, "escape_html");
    LastOptionSkip(o1, kv, o2, "truncate");
  }

  /** The parse mode of a call: the first `parse_mode` option, else the configured default;
      a value other than "MarkdownV2", "HTML" or "" is dropped (plain text). */
  function ResolveParseMode(options: Options, defaultMode: Option<string>): (r: Option<string>)
    ensures r == None || r == Some("MarkdownV2") || r == Some("HTML") || r == Some("")
    ensures var chosen := if FindOption(options, "parse_mode").Some? then FindOption(options, "parse_mode") else defaultMode;
            (chosen.Some? && (IsKnownMode(chosen.value) || chosen.value == "") ==> r == chosen) &&
            (chosen.None? || !(IsKnownMode(chosen.value) || chosen.value == "") ==> r == None)
  {
    var mode := match FindOption(options, "parse_mode") case Some(v) => Some(v) case None => defaultMode;
    if mode.Some? && mode.value != "MarkdownV2" && mode.value != "HTML" && mode.value != "" then None
    else mode
  }

  /** `effective_parse_mode`: the field always goes on the wire; anything but the two known
      modes becomes the empty string. */
  function WireParseMode(mode: Option<string>): (w: string)
    ensures w == "MarkdownV2" || w == "HTML" || w == ""
    ensures mode.Some? && IsKnownMode(mode.value) ==> w == mode.value
    ensures !(mode.Some? && IsKnownMode(mode.value)) ==> w == ""
  {
    match mode
    case Some(m) =>
      if m == "" then ""
      else if m != "MarkdownV2" && m != "HTML" then ""
      else m
    case None => ""
  }

  /** The formatting options of each dialect: it sets its own escaping flags and keeps the
      resolved `obfuscate_emails` and `truncate`. */
  function MarkdownOptions(fo: FormattingOptions): FormattingOptions
  {
    FormattingOptions(true, fo.obfuscateEmails, false, fo.truncate)
  }

  function HtmlOptions(fo: FormattingOptions): FormattingOptions
  {
    FormattingOptions(false, fo.obfuscateEmails, true, fo.truncate)
  }

  function PlainOptions(fo: FormattingOptions): FormattingOptions
  {
    FormattingOptions(false, fo.obfuscateEmails, false, fo.truncate)
  }

  /** The dialect chosen by the `match parse_mode` of `send_message`. */
  function DialectOptions(mode: Option<string>, fo: FormattingOptions): (r: FormattingOptions)
    ensures r.escapeMarkdown <==> mode == Some("MarkdownV2")
    ensures r.escapeHtml <==> mode == Some("HTML")
    ensures r.obfuscateEmails == fo.obfuscateEmails && r.truncate == fo.truncate
  {
    if mode == Some("MarkdownV2") then MarkdownOptions(fo)
    else if mode == Some("HTML") then HtmlOptions(fo)
    else PlainOptions(fo)
  }

  /** The Telegram reply body, as far as the delivery logic looks at it. */
  datatype Response = Response(ok: bool, description: Option<string>)

  /** The JSON decoding of a reply body. */
  datatype Decoded = Decoded(response: Response) | Undecodable(reason: string)

  /** What one attempt gets back from the network: a transport failure, or a reply with its
      status code, its body as text (`None` when it cannot be read) and its JSON decoding. */
  datatype Outcome =
    | TransportFailure(detail: string)
    | Reply(status: nat, body: Option<string>, decoded: Decoded)

  predicate IsSuccess(status: nat) { 200 <= status <= 299 }

  function BodyText(body: Option<string>): string
  {
    if body.Some? then body.value else "Unable to read response body"
  }

  /** `handle_response`: a non-success status, an undecodable body and `ok: false` are API
      errors, in that order of precedence; otherwise the decoded reply is the result. */
  function HandleResponse(status: nat, body: Option<string>, decoded: Decoded): (r: Result<Response>)
    ensures r.Ok? <==> IsSuccess(status) && decoded.Decoded? && decoded.response.ok
    ensures r.Ok? ==> r.value == decoded.response
    ensures r.Err? ==> r.error.Api?
    ensures !IsSuccess(status) ==>
              r == Err(Api("HTTP error (status " + NatToString(status) + "): " + BodyText(body)))
    ensures IsSuccess(status) && decoded.Undecodable? ==>
              r == Err(Api("Failed to parse API response: " + decoded.reason))
    ensures IsSuccess(status) && decoded.Decoded? && !decoded.response.ok ==>
              r == Err(Api(if decoded.response.description.Some? then decoded.response.description.value
                           else "Unknown API error"))
  {
    if !IsSuccess(status) then
      Err(Api("HTTP error (status " + NatToString(status) + "): " + BodyText(body)))
    else
      match decoded
      case Undecodable(e) => Err(Api("Failed to parse API response: " + e))
      case Decoded(response) =>
        if !response.ok then
          var description := if response.description.Some? then response.description.value else "Unknown API error";
          Err(Api(description))
        else Ok(response)
  }

  /** The error of a failed status carries the body, so a body that mentions `parse_mode`
      makes the error mention it too. */
  lemma HttpErrorCarriesBody(status: nat, body: string, decoded: Decoded, p: string)
    requires !IsSuccess(status) && Contains(body, p)
    ensures HandleResponse(status, Some(body), decoded).error.Api?
    ensures Contains(HandleResponse(status, Some(body), decoded).error.message, p)
  {
    ContainsInTail("HTTP error (status " + NatToString(status) + "): ", body, p);
  }

  /** The status code can be read back from the error message. */
  lemma HttpErrorCarriesStatus(status: nat, body: Option<string>, decoded: Decoded)
    requires !IsSuccess(status) && status <= UsizeMax
    ensures var m := HandleResponse(status, body, decoded).error.message;
            var n := |NatToString(status)|;
            |m| >= 19 + n && ParseUsize(m[19..19 + n]) == Some(status)
  {
    var digits := NatToString(status);
    var tail := "): " + BodyText(body);
    var m := HandleResponse(status, body, decoded).error.message;
    assert m == "HTTP error (status " + digits + tail;
    StatusField(digits, tail);
    ParseNatToString(status);
  }

  lemma StatusField(digits: string, tail: string)
    ensures var m := "HTTP error (status " + digits + tail;
            |m| >= 19 + |digits| && m[19..19 + |digits|] == digits
  {
    var head := "HTTP error (status ";
    assert |head| == 19;
    assert (head + digits + tail)[|head|..|head| + |digits|] == digits;
  }

  /** One request as `send_message_request` builds it, with the wire parse mode. */
  datatype Request = Request(
    botToken: string,
    chatId: string,
    text: string,
    parseMode: string,
    disableWebPagePreview: bool)

  /** The replies to the two posts of one attempt: `send_message_request` posts the request,
      reads and discards the body of the reply, and posts the same request again; only the
      reply to the second post is examined. */
  datatype Exchange = Exchange(first: Outcome, second: Outcome)

  /** The network as seen by one call: the exchange of its `k`-th attempt. */
  type Network = (nat, Request) -> Exchange

  /** The result of one attempt: a transport failure of either post is an `Http` error, and
      the first reply plays no part beyond having arrived. */
  function Attempt(x: Exchange): (r: Result<Response>)
    ensures x.first.TransportFailure? ==> r == Err(Http(x.first.detail))
    ensures x.first.Reply? && x.second.TransportFailure? ==> r == Err(Http(x.second.detail))
    ensures x.first.Reply? && x.second.Reply? ==> r == HandleResponse(x.second.status, x.second.body, x.second.decoded)
  {
    match x.first
    case TransportFailure(detail) => Err(Http(detail))
    case Reply(_, _, _) =>
      match x.second
      case TransportFailure(detail) => Err(Http(detail))
      case Reply(status, body, decoded) => HandleResponse(status, body, decoded)
  }

  /** The number of times an attempt posts its request: twice unless the first post fails. */
  function Posts(x: Exchange): (n: nat)
    ensures n == 1 <==> x.first.TransportFailure?
    ensures 1 <= n <= 2
  {
    if x.first.TransportFailure? then 1 else 2
  }

  /** Whatever the first post got back, the attempt's result is decided by the second. */
  lemma FirstReplyDiscarded(a: Outcome, b: Outcome, second: Outcome)
    requires a.Reply? && b.Reply?
    ensures Attempt(Exchange(a, second)) == Attempt(Exchange(b, second))
  {
  }

  /** `send_message_request`: build the request, post it (twice, as the source does) as
      attempt `k`, read the reply. */
  method SendMessageRequest(botToken: string, chatId: string, text: string, parseMode: Option<string>,
                            disableWebPagePreview: bool, k: nat, net: Network)
    returns (r: Result<Response>, request: Request)
    ensures request == Request(botToken, chatId, text, WireParseMode(parseMode), disableWebPagePreview)
    ensures r == Attempt(net(k, request))
  {
    var effective: string;
    match parseMode {
      case Some(mode) =>
        if mode == "" {
          effective := "";
        } else if mode != "MarkdownV2" && mode != "HTML" {
          effective := "";
        } else {
          effective := mode;
        }
      case None =>
        effective := "";
    }
    request := Request(botToken, chatId, text, effective, disableWebPagePreview);
    var exchange := net(k, request);
    match exchange.first {
      case TransportFailure(detail) =>
        r := Err(Http(detail));
        return;
      case Reply(_, _, _) =>
    }
    match exchange.second {
      case TransportFailure(detail) =>
        r := Err(Http(detail));
      case Reply(status, body, decoded) =>
        r := HandleResponse(status, body, decoded);
    }
  }

  /** The error that sends the cascade straight to plain text. */
  predicate MentionsParseMode(e: Error)
    ensures MentionsParseMode(e) <==> e.Api? && exists k: nat :: OccursAt(e.message, "parse_mode", k)
  {
    e.Api? && Contains(e.message, "parse_mode")
  }

  // The settings of one call, each from its options first and its configuration second.

  function ChatIdFor(c: Configuration, options: Options): (id: string)
    reads c
    ensures FindOption(options, "chat_id").Some? ==> id == FindOption(options, "chat_id").value
    ensures FindOption(options, "chat_id").None? ==> id == if c.chatId.Some? then c.chatId.value else ""
  {
    match FindOption(options, "chat_id")
    case Some(v) => v
    case None => match c.ChatId() case Ok(id) => id case Err(_) => ""
  }

  function OptionsFor(c: Configuration, options: Options): FormattingOptions
    reads c
  {
    ExtractFrom(options, c.formattingOptions)
  }

  function ModeFor(c: Configuration, options: Options): Option<string>
    reads c
  {
    ResolveParseMode(options, c.defaultParseMode)
  }

  /** The first `disable_web_page_preview` option, read as a flag, else the configured one. */
  function PreviewFor(c: Configuration, options: Options): (b: bool)
    reads c
    ensures FindOption(options, "disable_web_page_preview").Some? ==>
              b == IsTrueFlag(FindOption(options, "disable_web_page_preview").value)
    ensures FindOption(options, "disable_web_page_preview").None? ==> b == c.disableWebPagePreview
  {
    match FindOption(options, "disable_web_page_preview")
    case Some(v) => IsTrueFlag(v)
    case None => c.disableWebPagePreview
  }

  /** The calls on which no formatting of the message panics: a resolved `truncate` of at
      least three, or none. */
  predicate DeliverDefined(c: Configuration, options: Options)
    reads c
  {
    OptionsFor(c, options).truncate.None? || OptionsFor(c, options).truncate.value >= 3
  }

  /** The message formatted for one dialect. */
  function TierText(c: Configuration, message: string, options: Options, mode: Option<string>): string
    reads c
    requires DeliverDefined(c, options)
  {
    var o := DialectOptions(mode, OptionsFor(c, options));
    DefinedWithLimit(c.messagePrefix, c.messageSuffix, o, message);
    FormatText(c.messagePrefix, c.messageSuffix, o, message)
  }

  /** The request of one tier. */
  function TierRequest(c: Configuration, message: string, options: Options, mode: Option<string>): Request
    reads c
    requires c.botToken.Some? && DeliverDefined(c, options)
  {
    Request(c.botToken.value, ChatIdFor(c, options), TierText(c, message, options, mode),
            WireParseMode(mode), PreviewFor(c, options))
  }

  /** What a call returns and the requests it sent, in order. */
  datatype Delivery = Delivery(result: Result<Response>, sent: seq<Request>)

  // The fallback cascade over three prepared requests: the first in the call's mode, its HTML
  // and its plain-text variants. Formatting is pure, so preparing the fallback requests up
  // front sends the same requests as formatting them when they are needed.

  /** The first attempt, then the retries if it failed. */
  function Dispatch(first: Request, html: Request, plain: Request, markdown: bool, net: Network): Delivery
  {
    var r1 := Attempt(net(0, first));
    if r1.Ok? then Delivery(r1, [first])
    else
      var retry := Retries(html, plain, markdown, net, r1.error);
      Delivery(retry.result, [first] + retry.sent)
  }

  /** After a first attempt failed with `e`: an error mentioning `parse_mode` is retried in
      plain text; another error in MarkdownV2 is retried in HTML and then in plain text; any
      other error is the result. */
  function Retries(html: Request, plain: Request, markdown: bool, net: Network, e: Error): Delivery
  {
    if MentionsParseMode(e) then Delivery(Attempt(net(1, plain)), [plain])
    else if markdown then HtmlThenPlain(html, plain, net)
    else Delivery(Err(e), [])
  }

  /** The HTML retry, and the plain one if HTML fails too. */
  function HtmlThenPlain(html: Request, plain: Request, net: Network): Delivery
  {
    var r2 := Attempt(net(1, html));
    if r2.Ok? then Delivery(r2, [html])
    else Delivery(Attempt(net(2, plain)), [html, plain])
  }

  /** The attempts of `d`, numbered from `offset`, end in the one that gave its result and
      every one before it failed. */
  predicate EndsInResult(net: Network, d: Delivery, offset: nat)
  {
    d.sent != [] ==>
      d.result == Attempt(net(offset + |d.sent| - 1, d.sent[|d.sent| - 1])) &&
      forall k :: 0 <= k < |d.sent| - 1 ==> Attempt(net(offset + k, d.sent[k])).Err?
  }

  /** A dispatch of three requests sends one to three of them, the first one first. */
  lemma DispatchSends(first: Request, html: Request, plain: Request, markdown: bool, net: Network)
    ensures var d := Dispatch(first, html, plain, markdown, net);
            1 <= |d.sent| <= 3 && d.sent[0] == first &&
            forall q :: q in d.sent ==> q == first || q == html || q == plain
  {
    var r1 := Attempt(net(0, first));
    if r1.Err? {
      RetriesShape(html, plain, markdown, net, r1.error);
    }
  }

  /** The result of a dispatch is that of its last attempt, every earlier one having failed. */
  lemma DispatchEndsInResult(first: Request, html: Request, plain: Request, markdown: bool, net: Network)
    ensures EndsInResult(net, Dispatch(first, html, plain, markdown, net), 0)
  {
    var r1 := Attempt(net(0, first));
    if r1.Err? {
      var retry := Retries(html, plain, markdown, net, r1.error);
      RetriesShape(html, plain, markdown, net, r1.error);
      var d := Delivery(retry.result, [first] + retry.sent);
      assert Dispatch(first, html, plain, markdown, net) == d;
      assert forall k :: 1 <= k < |d.sent| ==> d.sent[k] == retry.sent[k - 1];
    }
  }

  /** The retries, numbered from one, are at most two of the fallback requests and end in the
      attempt that gave their result; without any, the first attempt's error stands. */
  lemma RetriesShape(html: Request, plain: Request, markdown: bool, net: Network, e: Error)
    ensures var d := Retries(html, plain, markdown, net, e);
            |d.sent| <= 2 && (forall q :: q in d.sent ==> q == html || q == plain) &&
            EndsInResult(net, d, 1) && (d.sent == [] ==> d.result == Err(e))
  {
    if !MentionsParseMode(e) && markdown {
      var d := HtmlThenPlain(html, plain, net);
      assert d.sent == [html] || d.sent == [html, plain];
    }
  }

  /** `send_message`, as a function of the configuration, the message, the options and the
      network. */
  function Deliver(c: Configuration, message: string, options: Options, net: Network): (d: Delivery)
    reads c
    requires DeliverDefined(c, options)
    ensures |d.sent| <= 3
    ensures d.sent == [] ==> d.result.Err?
  {
    if c.Validate().Err? then Delivery(Err(c.Validate().error), [])
    else if ChatIdFor(c, options) == "" then Delivery(Err(Configuration("Chat ID not provided")), [])
    else if TierText(c, message, options, ModeFor(c, options)) == "" then
      Delivery(Err(Formatting("Message is empty after formatting")), [])
    else Cascade(c, message, options, net)
  }

  /** The requests of a call that passed its checks, dispatched. */
  function Cascade(c: Configuration, message: string, options: Options, net: Network): (d: Delivery)
    reads c
    requires c.botToken.Some? && DeliverDefined(c, options)
    ensures 1 <= |d.sent| <= 3 && d.sent[0] == TierRequest(c, message, options, ModeFor(c, options))
  {
    DispatchSends(TierRequest(c, message, options, ModeFor(c, options)), TierRequest(c, message, options, Some("HTML")),
                  TierRequest(c, message, options, None), ModeFor(c, options) == Some("MarkdownV2"), net);
    Dispatch(TierRequest(c, message, options, ModeFor(c, options)), TierRequest(c, message, options, Some("HTML")),
             TierRequest(c, message, options, None), ModeFor(c, options) == Some("MarkdownV2"), net)
  }

  /** A call that fails its checks sends nothing: an invalid configuration reports the
      validation error, a missing chat "Chat ID not provided", and a message that formats to
      nothing "Message is empty after formatting"; a call that passes them sends one to three
      requests. */
  lemma ChecksBeforeSending(c: Configuration, message: string, options: Options, net: Network)
    requires DeliverDefined(c, options)
    ensures var d := Deliver(c, message, options, net);
            (c.Validate().Err? ==> d == Delivery(Err(c.Validate().error), [])) &&
            (c.Validate().Ok? && ChatIdFor(c, options) == "" ==>
               d == Delivery(Err(Configuration("Chat ID not provided")), [])) &&
            (c.Validate().Ok? && ChatIdFor(c, options) != "" && Affixed(c.messagePrefix, c.messageSuffix, message) == [] ==>
               d == Delivery(Err(Formatting("Message is empty after formatting")), [])) &&
            (d.sent == [] <==> c.Validate().Err? || ChatIdFor(c, options) == "" ||
                               Affixed(c.messagePrefix, c.messageSuffix, message) == []) &&
            |d.sent| <= 3
  {
    if c.Validate().Ok? {
      TierEmpty(c, message, options, ModeFor(c, options));
      if ChatIdFor(c, options) != "" && TierText(c, message, options, ModeFor(c, options)) != "" {
        DispatchSends(TierRequest(c, message, options, ModeFor(c, options)), TierRequest(c, message, options, Some("HTML")),
                      TierRequest(c, message, options, None), ModeFor(c, options) == Some("MarkdownV2"), net);
      }
    }
  }

  /** A tier's text is empty exactly when the prefixed and suffixed message is, whatever the
      dialect. */
  lemma TierEmpty(c: Configuration, message: string, options: Options, mode: Option<string>)
    requires DeliverDefined(c, options)
    ensures TierText(c, message, options, mode) == [] <==> Affixed(c.messagePrefix, c.messageSuffix, message) == []
  {
    var o := DialectOptions(mode, OptionsFor(c, options));
    DefinedWithLimit(c.messagePrefix, c.messageSuffix, o, message);
    FormatEmpty(c.messagePrefix, c.messageSuffix, o, message);
  }

  /** The properties every request of a call has. */
  predicate WellFormedRequest(c: Configuration, options: Options, q: Request)
    reads c
  {
    Some(q.botToken) == c.botToken && q.chatId == ChatIdFor(c, options) && q.chatId != "" &&
    q.disableWebPagePreview == PreviewFor(c, options) &&
    (q.parseMode == "MarkdownV2" || q.parseMode == "HTML" || q.parseMode == "") &&
    q.text != []
  }

  /** Every request of a call goes with the configured token, the call's chat and preview
      setting, a parse mode the API accepts and a nonempty text; the result is that of the
      last attempt, and every earlier attempt failed. */
  lemma RequestsWellFormed(c: Configuration, message: string, options: Options, net: Network)
    requires DeliverDefined(c, options)
    ensures forall q :: q in Deliver(c, message, options, net).sent ==> WellFormedRequest(c, options, q)
    ensures EndsInResult(net, Deliver(c, message, options, net), 0)
  {
    if c.Validate().Ok? && ChatIdFor(c, options) != "" && TierText(c, message, options, ModeFor(c, options)) != "" {
      var first := TierRequest(c, message, options, ModeFor(c, options));
      var html := TierRequest(c, message, options, Some("HTML"));
      var plain := TierRequest(c, message, options, None);
      TierEmpty(c, message, options, ModeFor(c, options));
      TierEmpty(c, message, options, Some("HTML"));
      TierEmpty(c, message, options, None);
      assert WellFormedRequest(c, options, first) && WellFormedRequest(c, options, html) &&
             WellFormedRequest(c, options, plain);
      DispatchSends(first, html, plain, ModeFor(c, options) == Some("MarkdownV2"), net);
      DispatchEndsInResult(first, html, plain, ModeFor(c, options) == Some("MarkdownV2"), net);
    }
  }

  /** A first attempt that succeeds is the only one. */
  lemma SuccessStops(c: Configuration, message: string, options: Options, net: Network)
    requires DeliverDefined(c, options) && c.Validate().Ok? && ChatIdFor(c, options) != ""
    requires Affixed(c.messagePrefix, c.messageSuffix, message) != []
    requires Attempt(net(0, TierRequest(c, message, options, ModeFor(c, options)))).Ok?
    ensures Deliver(c, message, options, net) ==
              Delivery(Attempt(net(0, TierRequest(c, message, options, ModeFor(c, options)))),
                       [TierRequest(c, message, options, ModeFor(c, options))])
  {
    TierEmpty(c, message, options, ModeFor(c, options));
  }

  /** An API error that mentions `parse_mode` is retried once, in plain text, whatever mode the
      first attempt used. */
  lemma ParseModeErrorRetriesPlain(c: Configuration, message: string, options: Options, net: Network)
    requires DeliverDefined(c, options) && c.Validate().Ok? && ChatIdFor(c, options) != ""
    requires Affixed(c.messagePrefix, c.messageSuffix, message) != []
    requires var r1 := Attempt(net(0, TierRequest(c, message, options, ModeFor(c, options))));
             r1.Err? && MentionsParseMode(r1.error)
    ensures var d := Deliver(c, message, options, net);
            |d.sent| == 2 && d.sent[1] == TierRequest(c, message, options, None) && d.sent[1].parseMode == "" &&
            d.result == Attempt(net(1, d.sent[1]))
  {
    TierEmpty(c, message, options, ModeFor(c, options));
  }

  /** Any other failure of a MarkdownV2 attempt is retried in HTML, and a failure of that in
      plain text. */
  lemma MarkdownFallsBackToHtml(c: Configuration, message: string, options: Options, net: Network)
    requires DeliverDefined(c, options) && c.Validate().Ok? && ChatIdFor(c, options) != ""
    requires Affixed(c.messagePrefix, c.messageSuffix, message) != []
    requires ModeFor(c, options) == Some("MarkdownV2")
    requires var r1 := Attempt(net(0, TierRequest(c, message, options, ModeFor(c, options))));
             r1.Err? && !MentionsParseMode(r1.error)
    ensures var d := Deliver(c, message, options, net);
            |d.sent| >= 2 && d.sent[0].parseMode == "MarkdownV2" && d.sent[1] == TierRequest(c, message, options, Some("HTML")) && d.sent[1].parseMode == "HTML" &&
            (Attempt(net(1, d.sent[1])).Ok? ==> |d.sent| == 2) &&
            (Attempt(net(1, d.sent[1])).Err? ==>
               |d.sent| == 3 && d.sent[2] == TierRequest(c, message, options, None) && d.sent[2].parseMode == "")
  {
    TierEmpty(c, message, options, ModeFor(c, options));
  }

  /** Any other failure in HTML or plain text is returned as it is, with no retry. */
  lemma OtherModesDoNotRetry(c: Configuration, message: string, options: Options, net: Network)
    requires DeliverDefined(c, options) && c.Validate().Ok? && ChatIdFor(c, options) != ""
    requires Affixed(c.messagePrefix, c.messageSuffix, message) != []
    requires ModeFor(c, options) != Some("MarkdownV2")
    requires var r1 := Attempt(net(0, TierRequest(c, message, options, ModeFor(c, options))));
             r1.Err? && !MentionsParseMode(r1.error)
    ensures var d := Deliver(c, message, options, net);
            |d.sent| == 1 && d.result == Attempt(net(0, TierRequest(c, message, options, ModeFor(c, options))))
  {
    TierEmpty(c, message, options, ModeFor(c, options));
  }

  /** The HTML tier never carries a '<' or '>' of its own: they all became entities. */
  lemma HtmlTierNoAngles(c: Configuration, message: string, options: Options)
    requires DeliverDefined(c, options)
    ensures var t := TierText(c, message, options, Some("HTML"));
            forall k :: 0 <= k < |t| ==> t[k] != '<' && t[k] != '>'
  {
    var o := DialectOptions(Some("HTML"), OptionsFor(c, options));
    DefinedWithLimit(c.messagePrefix, c.messageSuffix, o, message);
    FormatNoAngles(c.messagePrefix, c.messageSuffix, o, message);
  }

  /** Without obfuscation and a limit, the plain tier is the message between prefix and suffix,
      and the MarkdownV2 tier is that text with backslashes inserted. */
  lemma TiersWithoutLimit(c: Configuration, message: string, options: Options)
    requires !OptionsFor(c, options).obfuscateEmails && OptionsFor(c, options).truncate.None?
    ensures DeliverDefined(c, options)
    ensures TierText(c, message, options, None) == Affixed(c.messagePrefix, c.messageSuffix, message)
    ensures BackslashesInserted(Affixed(c.messagePrefix, c.messageSuffix, message),
                                TierText(c, message, options, Some("MarkdownV2")))
  {
    FormatNothing(c.messagePrefix, c.messageSuffix, message);
    FormatMarkdownOnly(c.messagePrefix, c.messageSuffix, message);
  }

  /** `send_message`, with the source's mutable parse mode and its nested fallbacks. */
  method SendMessage(c: Configuration, message: string, options: Options, net: Network)
    returns (r: Result<Response>, sent: seq<Request>)
    requires DeliverDefined(c, options)
    ensures Delivery(r, sent) == Deliver(c, message, options, net)
  {
    sent := [];
    var valid := c.Validate();
    if valid.Err? {
      r := Err(valid.error);
      return;
    }
    var botToken := c.botToken.value;
    var chatId := ChatIdFor(c, options);
    if chatId == "" {
      r := Err(Configuration("Chat ID not provided"));
      return;
    }
    var fo := ExtractFormattingOptions(options, c.formattingOptions);
    var parseMode := ResolveMode(c, options);
    var preview := PreviewFor(c, options);
    var formatted := FormatTier(c, message, options, fo, parseMode);
    if formatted == "" {
      r := Err(Formatting("Message is empty after formatting"));
      return;
    }
    r, sent := SendWithFallback(c, message, options, botToken, chatId, preview, fo, parseMode, formatted, net);
  }

  /** The parse mode of a call, reset to plain text when it is not one the API knows. */
  method ResolveMode(c: Configuration, options: Options) returns (parseMode: Option<string>)
    ensures parseMode == ModeFor(c, options)
  {
    parseMode := match FindOption(options, "parse_mode") case Some(v) => Some(v) case None => c.defaultParseMode;
    if parseMode.Some? {
      var mode := parseMode.value;
      if mode != "MarkdownV2" && mode != "HTML" && mode != "" {
        parseMode := None;
      }
    }
  }

  /** The request of a checked call and its fallbacks. */
  method SendWithFallback(c: Configuration, message: string, options: Options, botToken: string, chatId: string,
                          preview: bool, fo: FormattingOptions, parseMode: Option<string>, formatted: string,
                          net: Network)
    returns (r: Result<Response>, sent: seq<Request>)
    requires c.botToken == Some(botToken) && DeliverDefined(c, options)
    requires chatId == ChatIdFor(c, options) && preview == PreviewFor(c, options)
    requires fo == OptionsFor(c, options) && parseMode == ModeFor(c, options)
    requires formatted == TierText(c, message, options, parseMode)
    ensures Delivery(r, sent) == Cascade(c, message, options, net)
  {
    var request;
    r, request := SendMessageRequest(botToken, chatId, formatted, parseMode, preview, 0, net);
    assert request == TierRequest(c, message, options, parseMode);
    if r.Ok? {
      sent := [request];
      return;
    }
    var retries;
    r, retries := Retry(c, message, options, botToken, chatId, preview, fo, parseMode, r.error, net);
    sent := [request] + retries;
  }

  /** The `Err(e)` arm of `send_message`: the fallback requests, in order. */
  method Retry(c: Configuration, message: string, options: Options, botToken: string, chatId: string,
               preview: bool, fo: FormattingOptions, parseMode: Option<string>, e: Error,
               net: Network)
    returns (r: Result<Response>, sent: seq<Request>)
    requires c.botToken == Some(botToken) && DeliverDefined(c, options)
    requires chatId == ChatIdFor(c, options) && preview == PreviewFor(c, options)
    requires fo == OptionsFor(c, options) && parseMode == ModeFor(c, options)
    ensures Delivery(r, sent) == Retries(TierRequest(c, message, options, Some("HTML")), TierRequest(c, message, options, None),
                                         parseMode == Some("MarkdownV2"), net, e)
  {
    var request;
    var shouldTryPlaintext := match e case Api(description) => Contains(description, "parse_mode") case _ => false;
    if shouldTryPlaintext {
      var plainMessage := FormatTier(c, message, options, fo, None);
      r, request := SendMessageRequest(botToken, chatId, plainMessage, None, preview, 1, net);
      assert request == TierRequest(c, message, options, None);
      sent := [request];
    } else if parseMode == Some("MarkdownV2") {
      r, sent := RetryHtml(c, message, options, botToken, chatId, preview, fo, net);
    } else {
      r := Err(e);
      sent := [];
    }
  }

  /** The MarkdownV2 arm of the fallback: an HTML request, and a plain one if that fails. */
  method RetryHtml(c: Configuration, message: string, options: Options, botToken: string, chatId: string,
                   preview: bool, fo: FormattingOptions, net: Network)
    returns (r: Result<Response>, sent: seq<Request>)
    requires c.botToken == Some(botToken) && DeliverDefined(c, options)
    requires chatId == ChatIdFor(c, options) && preview == PreviewFor(c, options)
    requires fo == OptionsFor(c, options)
    ensures Delivery(r, sent) == HtmlThenPlain(TierRequest(c, message, options, Some("HTML")),
                                               TierRequest(c, message, options, None), net)
  {
    var request;
    var htmlMessage := FormatTier(c, message, options, fo, Some("HTML"));
    r, request := SendMessageRequest(botToken, chatId, htmlMessage, Some("HTML"), preview, 1, net);
    assert request == TierRequest(c, message, options, Some("HTML"));
    sent := [request];
    if r.Err? {
      var plainMessage := FormatTier(c, message, options, fo, None);
      r, request := SendMessageRequest(botToken, chatId, plainMessage, None, preview, 2, net);
      assert request == TierRequest(c, message, options, None);
      sent := sent + [request];
    }
  }

  /** `Formatter::format(message, Some(dialect options))?` for one tier; formatting never
      fails, so the `?` never returns early. */
  method FormatTier(c: Configuration, message: string, options: Options, fo: FormattingOptions, mode: Option<string>)
    returns (text: string)
    requires DeliverDefined(c, options) && fo == OptionsFor(c, options)
    ensures text == TierText(c, message, options, mode)
  {
    var o := DialectOptions(mode, fo);
    DefinedWithLimit(c.messagePrefix, c.messageSuffix, o, message);
    var formatted := Format(c, message, Some(o));
    text := formatted.value;
  }
}
