/** The configuration record of the library (src/configuration.rs): default formatting
    options, credentials, the default chat and dialect, message affixes and client knobs.
    It is an explicit object here; the process-wide singleton around it is not modelled. */
module Config {
  import opened Errors

  /** Which transformations the formatter applies to a message. */
  datatype FormattingOptions = FormattingOptions(
    escapeMarkdown: bool,
    obfuscateEmails: bool,
    escapeHtml: bool,
    truncate: Option<nat>)

  /** `FormattingOptions::default`: MarkdownV2 escaping on, cut at Telegram's 4096 limit. */
  const DefaultFormattingOptions: FormattingOptions :=
    FormattingOptions(true, false, false, Some(4096))

  /** HTTP client knobs; stored and returned, never consulted by the delivery logic. */
  datatype ClientOptions = ClientOptions(timeout: nat, retryCount: nat, retryDelay: nat)

  const DefaultClientOptions: ClientOptions := ClientOptions(30, 3, 1)

  /** The rule the affix and parse-mode setters share: an empty string means "unset". */
  function NoneIfEmpty(s: string): (r: Option<string>)
    ensures r.None? <==> s == ""
    ensures r.Some? ==> r.value == s
  {
    if s == "" then None else Some(s)
  }

  /** A parse mode `validate` accepts. */
  predicate IsKnownMode(mode: string)
  {
    mode == "MarkdownV2" || mode == "HTML"
  }

  class Configuration {
    var botToken: Option<string>
    var chatId: Option<string>
    var defaultParseMode: Option<string>
    var disableWebPagePreview: bool
    var messagePrefix: Option<string>
    var messageSuffix: Option<string>
    var formattingOptions: FormattingOptions
    var clientOptions: ClientOptions

    /** The setters never store an empty default mode, prefix or suffix. */
    ghost predicate Valid()
      reads this
    {
      defaultParseMode != Some("") && messagePrefix != Some("") && messageSuffix != Some("")
    }

    /** `Configuration::default`. */
    constructor ()
      ensures Valid()
      ensures botToken == None && chatId == None
      ensures defaultParseMode == Some("MarkdownV2")
      ensures disableWebPagePreview
      ensures messagePrefix == None && messageSuffix == None
      ensures formattingOptions == DefaultFormattingOptions
      ensures clientOptions == DefaultClientOptions
    {
      botToken := None;
      chatId := None;
      defaultParseMode := Some("MarkdownV2");
      disableWebPagePreview := true;
      messagePrefix := None;
      messageSuffix := None;
      formattingOptions := DefaultFormattingOptions;
      clientOptions := DefaultClientOptions;
    }

    // Each setter's frame names only its own field, so every other field is unchanged.

    method SetBotToken(token: string)
      requires Valid()
      modifies this`botToken
      ensures Valid()
      ensures botToken == Some(token)
    {
      botToken := Some(token);
    }

    /** The bot token, or a Configuration error when it is unset. */
    function BotToken(): (r: Result<string>)
      reads this
      ensures r.Ok? <==> botToken.Some?
      ensures r.Ok? ==> r.value == botToken.value
      ensures r.Err? ==> r.error == Configuration("Bot token not configured")
    {
      match botToken
      case Some(t) => Ok(t)
      case None => Err(Configuration("Bot token not configured"))
    }

    method SetChatId(id: string)
      requires Valid()
      modifies this`chatId
      ensures Valid()
      ensures chatId == Some(id)
    {
      chatId := Some(id);
    }

    /** The default chat id, or a Configuration error when it is unset. */
    function ChatId(): (r: Result<string>)
      reads this
      ensures r.Ok? <==> chatId.Some?
      ensures r.Ok? ==> r.value == chatId.value
      ensures r.Err? ==> r.error == Configuration("Chat ID not configured")
    {
      match chatId
      case Some(c) => Ok(c)
      case None => Err(Configuration("Chat ID not configured"))
    }

    method SetDefaultParseMode(mode: string)
      requires Valid()
      modifies this`defaultParseMode
      ensures Valid()
      ensures defaultParseMode == NoneIfEmpty(mode)
    {
      defaultParseMode := NoneIfEmpty(mode);
    }

    function DefaultParseMode(): (r: Option<string>)
      reads this
      requires Valid()
      ensures r == defaultParseMode && r != Some("")
    {
      defaultParseMode
    }

    method SetDisableWebPagePreview(disable: bool)
      requires Valid()
      modifies this`disableWebPagePreview
      ensures Valid()
      ensures disableWebPagePreview == disable
    {
      disableWebPagePreview := disable;
    }

    /** Whether web page previews are disabled by default. */
    function DisableWebPagePreview(): (r: bool)
      reads this
      ensures r == disableWebPagePreview
    {
      disableWebPagePreview
    }

    method SetMessagePrefix(prefix: string)
      requires Valid()
      modifies this`messagePrefix
      ensures Valid()
      ensures messagePrefix == NoneIfEmpty(prefix)
    {
      messagePrefix := NoneIfEmpty(prefix);
    }

    /** The message prefix as `as_deref` lends it: never an empty string. */
    function MessagePrefix(): (r: Option<string>)
      reads this
      requires Valid()
      ensures r == messagePrefix && r != Some("")
    {
      messagePrefix
    }

    method SetMessageSuffix(suffix: string)
      requires Valid()
      modifies this`messageSuffix
      ensures Valid()
      ensures messageSuffix == NoneIfEmpty(suffix)
    {
      messageSuffix := NoneIfEmpty(suffix);
    }

    /** The message suffix as `as_deref` lends it: never an empty string. */
    function MessageSuffix(): (r: Option<string>)
      reads this
      requires Valid()
      ensures r == messageSuffix && r != Some("")
    {
      messageSuffix
    }

    method SetFormattingOptions(options: FormattingOptions)
      requires Valid()
      modifies this`formattingOptions
      ensures Valid()
      ensures formattingOptions == options
    {
      formattingOptions := options;
    }

    /** The formatting options that apply when a call gives none. */
    function FormattingOptions(): (r: FormattingOptions)
      reads this
      ensures r == formattingOptions
    {
      formattingOptions
    }

    method SetClientOptions(options: ClientOptions)
      requires Valid()
      modifies this`clientOptions
      ensures Valid()
      ensures clientOptions == options
    {
      clientOptions := options;
    }

    /** The options of the HTTP client. */
    function ClientOptions(): (r: ClientOptions)
      reads this
      ensures r == clientOptions
    {
      clientOptions
    }

    /** `validate`: a bot token must be set, and a default parse mode, when present, must be
        "MarkdownV2" or "HTML". The chat id is not checked. */
    function Validate(): (r: Result<()>)
      reads this
      ensures r.Ok? <==> botToken.Some? && (defaultParseMode.None? || IsKnownMode(defaultParseMode.value))
      ensures botToken.None? ==> r == Err(Configuration("Bot token not configured"))
      ensures botToken.Some? && defaultParseMode.Some? && !IsKnownMode(defaultParseMode.value) ==>
                r == Err(Configuration("Invalid parse mode: '" + defaultParseMode.value
                                       + "'. Must be 'MarkdownV2' or 'HTML'"))
      ensures r.Err? ==> r.error.Configuration?
    {
      match BotToken()
      case Err(e) => Err(e)
      case Ok(_) =>
        match defaultParseMode
        case Some(mode) =>
          if mode == "" || (mode != "MarkdownV2" && mode != "HTML") then
            Err(Configuration("Invalid parse mode: '" + mode + "'. Must be 'MarkdownV2' or 'HTML'"))
          else
            Ok(())
        case None => Ok(())
    }
  }

  /** Clearing the default mode with an empty string stores `None`, which `validate` accepts:
      a configuration with a bot token still validates afterwards. */
  method ClearDefaultParseMode(c: Configuration)
    requires c.Valid() && c.botToken.Some?
    modifies c`defaultParseMode
    ensures c.Valid() && c.defaultParseMode == None
    ensures c.Validate() == Ok(())
  {
    c.SetDefaultParseMode("");
  }

  /** The configuration test of the repository: every getter returns what its setter stored,
      and setting one field leaves the others as they were. */
  method ConfigureAndReadBack() returns (c: Configuration)
    ensures c.Valid()
    ensures c.BotToken() == Ok("test_token") && c.ChatId() == Ok("12345")
    ensures c.DefaultParseMode() == Some("MarkdownV2") && c.DisableWebPagePreview()
    ensures c.MessagePrefix() == Some("[Test] ") && c.MessageSuffix() == Some(" --End")
    ensures c.FormattingOptions() == FormattingOptions(true, true, false, Some(1000))
    ensures c.ClientOptions() == DefaultClientOptions
    ensures c.Validate() == Ok(())
  {
    c := new Configuration();
    c.SetBotToken("test_token");
    c.SetChatId("12345");
    c.SetDefaultParseMode("MarkdownV2");
    c.SetDisableWebPagePreview(true);
    c.SetMessagePrefix("[Test] ");
    c.SetMessageSuffix(" --End");
    c.SetFormattingOptions(FormattingOptions(true, true, false, Some(1000)));
  }
}
