/** The formatting pipeline (`Formatter::format` in src/formatter.rs): prefix and suffix,
    then, as the options ask, HTML escaping, e-mail obfuscation, MarkdownV2 escaping and
    truncation, in that order. */
module Formatter {
  import opened Errors
  import opened Text
  import opened Config
  import opened Markdown
  import opened Html
  import opened Emails
  import opened Truncation

  /** The configured prefix and suffix around the text. */
  function Affixed(prefix: Option<string>, suffix: Option<string>, text: string): (r: string)
    ensures prefix.None? && suffix.None? ==> r == text
    ensures |r| == (if prefix.Some? then |prefix.value| else 0) + |text| + (if suffix.Some? then |suffix.value| else 0)
  {
    (if prefix.Some? then prefix.value else "") + text + (if suffix.Some? then suffix.value else "")
  }

  /** The text as it reaches the truncation stage. */
  function Escaped(o: FormattingOptions, text: string): string
  {
    var t1 := if o.escapeHtml then EscapeHtml(text) else text;
    var t2 := if o.obfuscateEmails then ObfuscateEmails(t1) else t1;
    if o.escapeMarkdown then MarkdownEscaped(t2) else t2
  }

  /** The inputs on which `format` does not panic (see `TruncateDefined`). */
  predicate FormatDefined(prefix: Option<string>, suffix: Option<string>, o: FormattingOptions, text: string)
  {
    o.truncate.None? || TruncateDefined(Escaped(o, Affixed(prefix, suffix, text)), o.truncate.value)
  }

  /** The formatted message: the stages composed in the source's order. With a limit it is at
      most the limit plus two long (see `TruncateOvershoot`). */
  function FormatText(prefix: Option<string>, suffix: Option<string>, o: FormattingOptions, text: string): (r: string)
    requires FormatDefined(prefix, suffix, o, text)
    ensures o.truncate.Some? ==> |r| <= o.truncate.value + 2
  {
    var t := Escaped(o, Affixed(prefix, suffix, text));
    if o.truncate.Some? then Truncate(t, o.truncate.value) else t
  }

  /** A limit of at least three never panics. */
  lemma DefinedWithLimit(prefix: Option<string>, suffix: Option<string>, o: FormattingOptions, text: string)
    requires o.truncate.None? || o.truncate.value >= 3
    ensures FormatDefined(prefix, suffix, o, text)
  {
  }

  /** The options in force: the caller's, else the configured defaults. */
  function ResolvedOptions(c: Configuration, options: Option<FormattingOptions>): (o: FormattingOptions)
    reads c
    ensures options.Some? ==> o == options.value
    ensures options.None? ==> o == c.formattingOptions
  {
    if options.Some? then options.value else c.formattingOptions
  }

  /** `format`, stage by stage on a mutable text. The MarkdownV2 escape never fails, so the
      `strip_markdown` fallback is dead code and the result is always `Ok`. */
  method Format(c: Configuration, text: string, options: Option<FormattingOptions>) returns (r: Result<string>)
    requires FormatDefined(c.messagePrefix, c.messageSuffix, ResolvedOptions(c, options), text)
    ensures r == Ok(FormatText(c.messagePrefix, c.messageSuffix, ResolvedOptions(c, options), text))
  {
    var o := if options.Some? then options.value else c.formattingOptions;
    var t := text;
    if c.messagePrefix.Some? {
      t := c.messagePrefix.value + t;
    }
    if c.messageSuffix.Some? {
      t := t + c.messageSuffix.value;
    }
    assert t == Affixed(c.messagePrefix, c.messageSuffix, text);
    ghost var affixed := t;
    if o.escapeHtml {
      t := EscapeHtml(t);
    }
    if o.obfuscateEmails {
      t := ObfuscateEmails(t);
    }
    if o.escapeMarkdown {
      var escaped := EscapeMarkdownV2(t);
      match escaped
      case Ok(v) =>
        t := v;
      case Err(_) =>
        t := StripMarkdown(t);
    }
    assert t == Escaped(o, affixed);
    if o.truncate.Some? {
      t := Truncate(t, o.truncate.value);
    }
    r := Ok(t);
  }

  /** With every stage switched off the message is the text between prefix and suffix. */
  lemma FormatNothing(prefix: Option<string>, suffix: Option<string>, text: string)
    ensures FormatDefined(prefix, suffix, FormattingOptions(false, false, false, None), text)
    ensures FormatText(prefix, suffix, FormattingOptions(false, false, false, None), text)
            == Affixed(prefix, suffix, text)
  {
  }

  /** With HTML escaping on, whatever the other options, the message holds no '<' or '>':
      the later stages add only dots and backslashes. */
  lemma FormatNoAngles(prefix: Option<string>, suffix: Option<string>, o: FormattingOptions, text: string)
    requires o.escapeHtml && FormatDefined(prefix, suffix, o, text)
    ensures forall k :: 0 <= k < |FormatText(prefix, suffix, o, text)| ==>
              FormatText(prefix, suffix, o, text)[k] != '<' && FormatText(prefix, suffix, o, text)[k] != '>'
  {
    var t0 := Affixed(prefix, suffix, text);
    var t1 := EscapeHtml(t0);
    var t2 := if o.obfuscateEmails then ObfuscateEmails(t1) else t1;
    var t3 := if o.escapeMarkdown then MarkdownEscaped(t2) else t2;
    var r := FormatText(prefix, suffix, o, text);
    EscapeHtmlSafe(t0);
    NoAnglesKept(t1, t2, t3, r, o);
  }

  /** Provenance along the stages after HTML escaping. */
  lemma NoAnglesKept(t1: string, t2: string, t3: string, r: string, o: FormattingOptions)
    requires forall k :: 0 <= k < |t1| ==> t1[k] != '<' && t1[k] != '>'
    requires t2 == if o.obfuscateEmails then ObfuscateEmails(t1) else t1
    requires t3 == if o.escapeMarkdown then MarkdownEscaped(t2) else t2
    requires o.truncate.None? ==> r == t3
    requires o.truncate.Some? ==> TruncateDefined(t3, o.truncate.value) && r == Truncate(t3, o.truncate.value)
    ensures forall k :: 0 <= k < |r| ==> r[k] != '<' && r[k] != '>'
  {
    assert CharsFrom(t2, t1, {'.'}) by {
      if o.obfuscateEmails {
        ObfuscateChars(t1);
      }
    }
    assert CharsFrom(t3, t2, {'\\'}) by {
      if o.escapeMarkdown {
        EscapeInsertsOnlyBackslashes(t2);
        InsertedChars(t2, t3);
      }
    }
    assert CharsFrom(r, t3, {'.'});
    CharsFromTransitive(t3, t2, t1, {'.'}, {'\\'});
    CharsFromTransitive(r, t3, t1, {'.'} + {'\\'}, {'.'});
    forall k | 0 <= k < |r| ensures r[k] != '<' && r[k] != '>' {
      if r[k] in t1 {
        var j :| 0 <= j < |t1| && t1[j] == r[k];
      }
    }
  }

  /** With MarkdownV2 escaping the only stage, the message is the affixed text with backslashes
      inserted before reserved characters only. */
  lemma FormatMarkdownOnly(prefix: Option<string>, suffix: Option<string>, text: string)
    ensures FormatDefined(prefix, suffix, FormattingOptions(true, false, false, None), text)
    ensures BackslashesInserted(Affixed(prefix, suffix, text),
                                FormatText(prefix, suffix, FormattingOptions(true, false, false, None), text))
  {
    EscapeInsertsOnlyBackslashes(Affixed(prefix, suffix, text));
  }

  /** The message is empty exactly when the affixed text is: no stage empties a text. */
  lemma FormatEmpty(prefix: Option<string>, suffix: Option<string>, o: FormattingOptions, text: string)
    requires FormatDefined(prefix, suffix, o, text)
    ensures FormatText(prefix, suffix, o, text) == [] <==> Affixed(prefix, suffix, text) == []
  {
    var t0 := Affixed(prefix, suffix, text);
    var t1 := if o.escapeHtml then EscapeHtml(t0) else t0;
    var t2 := if o.obfuscateEmails then ObfuscateEmails(t1) else t1;
    EscapeLength(t2);
  }
}
