/** Telegram MarkdownV2 escaping (`escape_markdown_v2`, `pre_process_links`,
    `strip_markdown` in src/formatter.rs).

    Every escape here is a backslash insertion: a mask `m` with one flag per input character
    says where a backslash goes, and `Render(s, m)` is the escaped text. The link pre-pass
    and the character scan each compute such a mask, and their composition is again a
    backslash insertion before reserved characters only. */
module Markdown {
  import opened Errors
  import opened Text

  /** MARKDOWN_SPECIAL_CHARS, in the order the source lists them. */
  const Reserved: seq<char> :=
    ['_', '*', '[', ']', '(', ')', '~', '`', '>', '#', '+', '-', '=', '|', '{', '}', '.', '!']

  const ReservedSet: set<char> :=
    {'_', '*', '[', ']', '(', ')', '~', '`', '>', '#', '+', '-', '=', '|', '{', '}', '.', '!'}

  /** The reserved characters the link pre-pass escapes inside a URL: all but '.' and '-'
      (the source also exempts '/' and ':', which are not reserved). */
  const UrlEscaped: set<char> :=
    {'_', '*', '[', ']', '(', ')', '~', '`', '>', '#', '+', '=', '|', '{', '}', '!'}

  predicate IsReserved(c: char)
  {
    c in ReservedSet
  }

  /** The list and the set hold the same characters. */
  lemma ReservedListed(c: char)
    ensures c in Reserved <==> IsReserved(c)
  {
  }

  /** The reserved characters the scan may escape: all but the backtick and the bold,
      italic and link-label markers, which it always treats as syntax. */
  const ScanEscapable: set<char> :=
    {']', '(', ')', '~', '>', '#', '+', '-', '=', '|', '{', '}', '.', '!'}

  // ---------------------------------------------------------------------------------------
  // Backslash insertion

  /** `s` with a backslash inserted before every character whose mask flag is set. */
  function Render(s: string, m: seq<bool>): (r: string)
    requires |m| == |s|
    decreases |s|
  {
    if s == [] then [] else (if m[0] then ['\\', s[0]] else [s[0]]) + Render(s[1..], m[1..])
  }

  /** Deletes the backslashes that mask `m` says were inserted. */
  function Unrender(t: string, m: seq<bool>): string
    decreases |m|
  {
    if m == [] || t == [] then []
    else if m[0] && |t| >= 2 then [t[1]] + Unrender(t[2..], m[1..])
    else [t[0]] + Unrender(t[1..], m[1..])
  }

  /** Deleting the inserted backslashes gives back the input. */
  lemma {:induction false} UnrenderRender(s: string, m: seq<bool>)
    requires |m| == |s|
    ensures Unrender(Render(s, m), m) == s
    decreases |s|
  {
    if s != [] {
      UnrenderRender(s[1..], m[1..]);
      var t := Render(s, m);
      if m[0] {
        assert t[2..] == Render(s[1..], m[1..]);
      } else {
        assert t[1..] == Render(s[1..], m[1..]);
      }
    }
  }

  lemma {:induction false} RenderAppend(a: string, ma: seq<bool>, b: string, mb: seq<bool>)
    requires |ma| == |a| && |mb| == |b|
    ensures Render(a + b, ma + mb) == Render(a, ma) + Render(b, mb)
    decreases |a|
  {
    if a == [] {
      assert a + b == b && ma + mb == mb;
    } else {
      RenderAppend(a[1..], ma[1..], b, mb);
      var h := if ma[0] then ['\\', a[0]] else [a[0]];
      assert (a + b)[1..] == a[1..] + b;
      assert (ma + mb)[1..] == ma[1..] + mb;
      assert Render(a + b, ma + mb) == h + Render(a[1..] + b, ma[1..] + mb);
      assert Render(a, ma) == h + Render(a[1..], ma[1..]);
      AppendAssoc(h, Render(a[1..], ma[1..]), Render(b, mb));
    }
  }

  /** A mask that inserts nothing leaves the text as it is. */
  lemma {:induction false} RenderNothing(s: string, m: seq<bool>)
    requires |m| == |s| && forall k :: 0 <= k < |m| ==> !m[k]
    ensures Render(s, m) == s
    decreases |s|
  {
    if s != [] {
      RenderNothing(s[1..], m[1..]);
    }
  }

  /** One flag per character: is the character in `S`? */
  function MaskIn(s: string, S: set<char>): (m: seq<bool>)
    ensures |m| == |s|
    ensures forall k :: 0 <= k < |s| ==> m[k] == (s[k] in S)
    decreases |s|
  {
    if s == [] then [] else [s[0] in S] + MaskIn(s[1..], S)
  }

  /** `t` is `s` with backslashes inserted, and only immediately before reserved characters. */
  ghost predicate BackslashesInserted(s: string, t: string)
    decreases |t|
  {
    if s == [] then t == []
    else
      t != [] &&
      ((t[0] == s[0] && BackslashesInserted(s[1..], t[1..])) ||
       (t[0] == '\\' && IsReserved(s[0]) && BackslashesInserted(s, t[1..])))
  }

  /** A mask that flags reserved characters only is a backslash insertion. */
  lemma {:induction false} RenderInserts(s: string, m: seq<bool>)
    requires |m| == |s|
    requires forall k :: 0 <= k < |s| && m[k] ==> IsReserved(s[k])
    ensures BackslashesInserted(s, Render(s, m))
    decreases |s|
  {
    if s != [] {
      RenderInserts(s[1..], m[1..]);
      var t := Render(s, m);
      if m[0] {
        assert t[1..][1..] == Render(s[1..], m[1..]);
        assert BackslashesInserted(s, t[1..]);
      } else {
        assert t[1..] == Render(s[1..], m[1..]);
      }
    }
  }

  /** Inserting backslashes twice is still inserting backslashes: the backslash is not
      reserved, so the second pass never escapes one the first pass inserted. */
  lemma {:induction false} InsertedTransitive(a: string, b: string, c: string)
    requires BackslashesInserted(a, b) && BackslashesInserted(b, c)
    ensures BackslashesInserted(a, c)
    decreases |c|
  {
    if b == [] {
      assert c == [];
      assert a == [];
    } else {
      assert c != [];
      if c[0] == b[0] && BackslashesInserted(b[1..], c[1..]) {
        if b[0] == a[0] && BackslashesInserted(a[1..], b[1..]) {
          InsertedTransitive(a[1..], b[1..], c[1..]);
        } else {
          InsertedTransitive(a, b[1..], c[1..]);
        }
      } else {
        InsertedTransitive(a, b, c[1..]);
        assert !IsReserved('\\');
      }
    }
  }

  /** Insertions into two texts concatenate to an insertion into their concatenation. */
  lemma {:induction false} InsertedAppend(a: string, b: string, c: string, d: string)
    requires BackslashesInserted(a, b) && BackslashesInserted(c, d)
    ensures BackslashesInserted(a + c, b + d)
    decreases |b|
  {
    if a == [] {
      assert b == [];
      assert a + c == c && b + d == d;
    } else {
      assert (b + d)[0] == b[0] && (b + d)[1..] == b[1..] + d;
      if b[0] == a[0] && BackslashesInserted(a[1..], b[1..]) {
        InsertedAppend(a[1..], b[1..], c, d);
        assert (a + c)[0] == a[0] && (a + c)[1..] == a[1..] + c;
      } else {
        InsertedAppend(a, b[1..], c, d);
        assert (a + c)[0] == a[0];
      }
    }
  }

  /** Text without reserved characters admits no insertion at all. */
  lemma {:induction false} InsertedNoReserved(s: string, t: string)
    requires BackslashesInserted(s, t)
    requires forall k :: 0 <= k < |s| ==> !IsReserved(s[k])
    ensures t == s
    decreases |t|
  {
    if s != [] {
      InsertedNoReserved(s[1..], t[1..]);
    }
  }

  /** An insertion is never shorter, and is empty exactly when the input is. */
  lemma {:induction false} InsertedLength(s: string, t: string)
    requires BackslashesInserted(s, t)
    ensures |t| >= |s|
    ensures t == [] <==> s == []
    decreases |t|
  {
    if s != [] {
      if t[0] == s[0] && BackslashesInserted(s[1..], t[1..]) {
        InsertedLength(s[1..], t[1..]);
      } else {
        InsertedLength(s, t[1..]);
      }
    }
  }

  /** An insertion adds no character other than the backslash. */
  lemma {:induction false} InsertedChars(s: string, t: string)
    requires BackslashesInserted(s, t)
    ensures CharsFrom(t, s, {'\\'})
    decreases |t|
  {
    if s != [] {
      if t[0] == s[0] && BackslashesInserted(s[1..], t[1..]) {
        InsertedChars(s[1..], t[1..]);
      } else {
        InsertedChars(s, t[1..]);
      }
      forall k | 0 <= k < |t| ensures t[k] in s || t[k] in {'\\'} {
        if k > 0 {
          assert t[k] == t[1..][k - 1];
          if t[k] in s[1..] {
            var j :| 0 <= j < |s[1..]| && s[1..][j] == t[k];
            assert s[j + 1] == t[k];
          }
        }
      }
    }
  }

  // ---------------------------------------------------------------------------------------
  // LINK_REGEX: \[([^\]]+)\]\(([^)]+)\)

  /** The first index at or after `from` holding `c`, or |s| when there is none. */
  function IndexOf(s: string, from: nat, c: char): (r: nat)
    requires from <= |s|
    ensures from <= r <= |s|
    ensures r < |s| ==> s[r] == c
    ensures forall p :: from <= p < r ==> s[p] != c
    decreases |s| - from
  {
    if from == |s| || s[from] == c then from else IndexOf(s, from + 1, c)
  }

  /** Positions of a link `[label](url)` that starts at some index: `close` holds the ']'
      and `end` the ')'. */
  datatype LinkSpan = LinkSpan(close: nat, end: nat)

  /** The link pattern matches exactly `s[i..k+1]`, with the ']' at `j`. */
  ghost predicate IsLinkAt(s: string, i: nat, j: nat, k: nat)
  {
    && i + 1 < j && j + 2 < k < |s|
    && s[i] == '[' && s[j] == ']' && s[j + 1] == '(' && s[k] == ')'
    && (forall p :: i < p < j ==> s[p] != ']')
    && (forall p :: j + 1 < p < k ==> s[p] != ')')
  }

  /** The match of the link pattern anchored at `i`, if any. The label runs to the first ']'
      and the URL to the first ')', so the match is unique when it exists. */
  function LinkAt(s: string, i: nat): (r: Option<LinkSpan>)
    requires i < |s|
    ensures r.Some? ==> i + 1 < r.value.close && r.value.close + 2 < r.value.end < |s|
    ensures r.Some? ==> s[i] == '[' && s[r.value.close] == ']' && s[r.value.close + 1] == '('
                        && s[r.value.end] == ')'
  {
    if s[i] != '[' then None
    else
      var j := IndexOf(s, i + 1, ']');
      if j == i + 1 || j + 2 >= |s| || s[j + 1] != '(' then None
      else
        var k := IndexOf(s, j + 2, ')');
        if k == j + 2 || k == |s| then None else Some(LinkSpan(j, k))
  }

  /** LinkAt finds a match of the pattern at `i` exactly when there is one, and it is that
      match (the match at a given start is unique). */
  lemma LinkAtMatches(s: string, i: nat, j: nat, k: nat)
    requires i < |s|
    ensures LinkAt(s, i) == Some(LinkSpan(j, k)) <==> IsLinkAt(s, i, j, k)
  {
    if IsLinkAt(s, i, j, k) {
      assert IndexOf(s, i + 1, ']') == j;
      assert IndexOf(s, j + 2, ')') == k;
    }
  }

  // ---------------------------------------------------------------------------------------
  // Link pre-pass

  /** Mask `m` covers `s[off..off + |m|]` and flags only characters of `S`. */
  ghost predicate FlagsIn(s: string, off: nat, m: seq<bool>, S: set<char>)
  {
    off + |m| <= |s| && forall p :: 0 <= p < |m| && m[p] ==> s[off + p] in S
  }

  lemma FlagsAppend(s: string, off: nat, m1: seq<bool>, mid: nat, m2: seq<bool>, S: set<char>)
    requires mid == off + |m1|
    requires FlagsIn(s, off, m1, S) && FlagsIn(s, mid, m2, S)
    ensures FlagsIn(s, off, m1 + m2, S)
  {
    forall p | 0 <= p < |m1 + m2| && (m1 + m2)[p] ensures s[off + p] in S {
      if p >= |m1| {
        assert (m1 + m2)[p] == m2[p - |m1|];
        assert s[off + p] == s[mid + (p - |m1|)];
      }
    }
  }

  lemma FlagsNone(s: string, off: nat, n: nat, S: set<char>)
    requires off + n <= |s|
    ensures FlagsIn(s, off, seq(n, _ => false), S)
  {
  }

  lemma FlagsMaskIn(s: string, off: nat, len: nat, T: set<char>, S: set<char>)
    requires off + len <= |s| && T <= S
    ensures FlagsIn(s, off, MaskIn(s[off..off + len], T), S)
  {
    var m := MaskIn(s[off..off + len], T);
    forall p | 0 <= p < |m| && m[p] ensures s[off + p] in S {
      assert s[off..off + len][p] == s[off + p];
    }
  }

  /** A mask over the whole text that flags characters of ReservedSet only is one the
      insertion lemmas accept. */
  lemma FlagsReserved(s: string, m: seq<bool>, S: set<char>)
    requires FlagsIn(s, 0, m, S) && S <= ReservedSet && |m| == |s|
    ensures forall k :: 0 <= k < |s| && m[k] ==> IsReserved(s[k])
  {
    forall k | 0 <= k < |s| && m[k] ensures IsReserved(s[k]) {
      assert s[0 + k] in S;
    }
  }

  /** The label part of the pre-pass: every reserved character gets a backslash. */
  function EscapeLinkLabel(linkText: string): string
  {
    Render(linkText, MaskIn(linkText, ReservedSet))
  }

  /** The escaped label is the label with a backslash inserted before reserved characters
      only, and deleting the backslashes before its reserved characters gives it back. */
  lemma LabelEscaped(linkText: string)
    ensures BackslashesInserted(linkText, EscapeLinkLabel(linkText))
    ensures Unrender(EscapeLinkLabel(linkText), MaskIn(linkText, ReservedSet)) == linkText
  {
    RenderInserts(linkText, MaskIn(linkText, ReservedSet));
    UnrenderRender(linkText, MaskIn(linkText, ReservedSet));
  }

  /** Replaces every occurrence of `ch` by `rep` (Rust's `str::replace` with a char pattern). */
  function ReplaceChar(s: string, ch: char, rep: string): string
    decreases |s|
  {
    if s == [] then [] else (if s[0] == ch then rep else [s[0]]) + ReplaceChar(s[1..], ch, rep)
  }

  lemma {:induction false} ReplaceCharAppend(a: string, b: string, ch: char, rep: string)
    ensures ReplaceChar(a + b, ch, rep) == ReplaceChar(a, ch, rep) + ReplaceChar(b, ch, rep)
    decreases |a|
  {
    if a == [] {
      assert a + b == b;
    } else {
      var h := if a[0] == ch then rep else [a[0]];
      calc {
        ReplaceChar(a + b, ch, rep);
        { assert (a + b)[0] == a[0] && (a + b)[1..] == a[1..] + b; }
        h + ReplaceChar(a[1..] + b, ch, rep);
        { ReplaceCharAppend(a[1..], b, ch, rep); }
        h + (ReplaceChar(a[1..], ch, rep) + ReplaceChar(b, ch, rep));
        { AppendAssoc(h, ReplaceChar(a[1..], ch, rep), ReplaceChar(b, ch, rep)); }
        ReplaceChar(a, ch, rep) + ReplaceChar(b, ch, rep);
      }
    }
  }

  /** One `replace` of the URL loop adds one character to the set already escaped. */
  lemma {:induction false} ReplaceExtends(s: string, S: set<char>, ch: char)
    requires ch !in S && ch != '\\'
    ensures ReplaceChar(Render(s, MaskIn(s, S)), ch, ['\\', ch]) == Render(s, MaskIn(s, S + {ch}))
    decreases |s|
  {
    if s != [] {
      ReplaceExtends(s[1..], S, ch);
      var head := if s[0] in S then ['\\', s[0]] else [s[0]];
      assert MaskIn(s, S)[1..] == MaskIn(s[1..], S);
      assert MaskIn(s, S + {ch})[1..] == MaskIn(s[1..], S + {ch});
      assert Render(s, MaskIn(s, S)) == head + Render(s[1..], MaskIn(s[1..], S));
      ReplaceCharAppend(head, Render(s[1..], MaskIn(s[1..], S)), ch, ['\\', ch]);
      if s[0] in S {
        assert ReplaceChar(head, ch, ['\\', ch]) == head by {
          assert head[1..][1..] == [];
        }
      } else {
        assert ReplaceChar(head, ch, ['\\', ch]) == if s[0] == ch then ['\\', ch] else head;
      }
    }
  }

  /** The characters the URL loop has escaped after its first `k` rounds. */
  ghost predicate UrlDoneUpTo(done: set<char>, k: nat)
    requires k <= |Reserved|
  {
    forall c :: c in done <==> c in UrlEscaped && c in Reserved[..k]
  }

  /** One round of the URL loop: the character of round `k` is new, and it joins the escaped
      set exactly when it is not exempt. */
  lemma UrlDoneStep(done: set<char>, k: nat)
    requires k < |Reserved| && UrlDoneUpTo(done, k)
    ensures Reserved[k] !in done
    ensures var ch := Reserved[k];
            if ch != '/' && ch != ':' && ch != '.' && ch != '-' then UrlDoneUpTo(done + {ch}, k + 1)
            else UrlDoneUpTo(done, k + 1)
  {
    var ch := Reserved[k];
    ReservedDistinct(k);
    assert forall c :: c in Reserved[..k + 1] <==> c in Reserved[..k] || c == ch by {
      assert Reserved[..k + 1] == Reserved[..k] + [ch];
    }
  }

  /** No character is listed twice. */
  lemma ReservedDistinct(k: nat)
    requires k < |Reserved|
    ensures Reserved[k] !in Reserved[..k]
    ensures Reserved[k] in UrlEscaped <==> Reserved[k] != '.' && Reserved[k] != '-'
  {
  }

  /** After the last round the escaped set is UrlEscaped. */
  lemma UrlDoneAll(done: set<char>)
    requires UrlDoneUpTo(done, |Reserved|)
    ensures done == UrlEscaped
  {
    assert Reserved[..|Reserved|] == Reserved;
  }

  /** The URL part of the pre-pass: for each reserved character other than '/', ':', '.'
      and '-', in the listed order, replace every occurrence by a backslash and itself.
      The loop escapes exactly the characters of UrlEscaped. */
  method EscapeLinkUrl(url: string) returns (r: string)
    ensures r == Render(url, MaskIn(url, UrlEscaped))
  {
    r := url;
    ghost var done: set<char> := {};
    RenderNothing(url, MaskIn(url, {}));
    for k := 0 to |Reserved|
      invariant UrlDoneUpTo(done, k)
      invariant r == Render(url, MaskIn(url, done))
    {
      var ch := Reserved[k];
      UrlDoneStep(done, k);
      if ch != '/' && ch != ':' && ch != '.' && ch != '-' {
        ReplaceExtends(url, done, ch);
        r := ReplaceChar(r, ch, ['\\', ch]);
        done := done + {ch};
      }
    }
    UrlDoneAll(done);
  }

  /** What the pre-pass writes for one matched link. */
  function RewrittenLink(linkText: string, url: string): string
  {
    "[" + EscapeLinkLabel(linkText) + "](" + Render(url, MaskIn(url, UrlEscaped)) + ")"
  }

  /** One step of the pre-pass: what it writes at index `i` and where it resumes. */
  datatype Rewrite = Rewrite(piece: string, next: nat)

  /** At a match of the link pattern the rewritten link (the replacement closure of the link
      regex) and the index after the match; elsewhere the character itself. */
  function RewriteStep(s: string, i: nat): (w: Rewrite)
    requires i < |s|
    ensures i < w.next <= |s|
  {
    match LinkAt(s, i)
    case Some(sp) => Rewrite(RewrittenLink(s[i + 1..sp.close], s[sp.close + 2..sp.end]), sp.end + 1)
    case None => Rewrite([s[i]], i + 1)
  }

  /** The text `pre_process_links` produces from `s[i..]`: scanning left to right for the
      link pattern, each match is replaced by its rewritten form and the search resumes
      after it; characters outside matches are copied. */
  function PreFrom(s: string, i: nat): (r: string)
    requires i <= |s|
    ensures r == [] <==> i == |s|
    decreases |s| - i
  {
    if i == |s| then []
    else
      var w := RewriteStep(s, i);
      w.piece + PreFrom(s, w.next)
  }

  /** The text the character scan works on. */
  function PreProcessed(s: string): string
  {
    PreFrom(s, 0)
  }

  /** One step of the pre-pass loop. */
  method RewriteAt(text: string, i: nat) returns (piece: string, next: nat)
    requires i < |text|
    ensures Rewrite(piece, next) == RewriteStep(text, i)
  {
    match LinkAt(text, i) {
      case Some(sp) =>
        var linkText := EscapeLinkLabel(text[i + 1..sp.close]);
        var url := EscapeLinkUrl(text[sp.close + 2..sp.end]);
        piece := "[" + linkText + "](" + url + ")";
        next := sp.end + 1;
      case None =>
        piece := [text[i]];
        next := i + 1;
    }
  }

  /** `pre_process_links`: every complete `[label](url)` is rewritten with its label and URL
      escaped; the text around the links is copied. */
  method PreProcessLinks(text: string) returns (r: string)
    ensures r == PreProcessed(text)
  {
    r := [];
    var i := 0;
    while i < |text|
      invariant i <= |text|
      invariant r + PreFrom(text, i) == PreProcessed(text)
      decreases |text| - i
    {
      var piece, next := RewriteAt(text, i);
      AppendAssoc(r, piece, PreFrom(text, next));
      r := r + piece;
      i := next;
    }
    assert r + [] == r;
  }

  /** The mask that turns one link into its rewritten form: reserved label characters and
      URL characters of UrlEscaped are flagged, the four delimiters are not. */
  function LinkPieceMask(linkText: string, url: string): (m: seq<bool>)
    ensures |m| == |linkText| + |url| + 4
  {
    [false] + MaskIn(linkText, ReservedSet) + [false, false] + MaskIn(url, UrlEscaped) + [false]
  }

  /** Rendering one link with its piece mask escapes the label and the URL. */
  lemma PieceRender(linkText: string, url: string)
    ensures Render("[" + linkText + "](" + url + ")", LinkPieceMask(linkText, url))
            == RewrittenLink(linkText, url)
  {
    var lm := MaskIn(linkText, ReservedSet);
    var um := MaskIn(url, UrlEscaped);
    var open, mid, close := "[", "](", ")";
    RenderAppend(open + linkText + mid + url, [false] + lm + [false, false] + um, close, [false]);
    RenderAppend(open + linkText + mid, [false] + lm + [false, false], url, um);
    RenderAppend(open + linkText, [false] + lm, mid, [false, false]);
    RenderAppend(open, [false], linkText, lm);
    assert Render(close, [false]) == close;
    assert Render(mid, [false, false]) == mid;
    assert Render(open, [false]) == open;
  }

  /** The piece mask flags reserved characters only. */
  lemma PieceFlags(linkText: string, url: string)
    ensures FlagsIn("[" + linkText + "](" + url + ")", 0, LinkPieceMask(linkText, url), ReservedSet)
  {
    var s := "[" + linkText + "](" + url + ")";
    var R := ReservedSet;
    var lm := MaskIn(linkText, R);
    var um := MaskIn(url, UrlEscaped);
    var a := |linkText| + 1;
    assert s[1..a] == linkText;
    assert s[a + 2..a + 2 + |url|] == url;
    FlagsNone(s, 0, 1, R);
    assert seq(1, _ => false) == [false];
    FlagsMaskIn(s, 1, |linkText|, R, R);
    FlagsAppend(s, 0, [false], 1, lm, R);
    FlagsNone(s, a, 2, R);
    assert seq(2, _ => false) == [false, false];
    FlagsAppend(s, 0, [false] + lm, a, [false, false], R);
    FlagsMaskIn(s, a + 2, |url|, UrlEscaped, R);
    FlagsAppend(s, 0, [false] + lm + [false, false], a + 2, um, R);
    FlagsNone(s, a + 2 + |url|, 1, R);
    FlagsAppend(s, 0, [false] + lm + [false, false] + um, a + 2 + |url|, [false], R);
  }

  /** One rewritten link is its source text with backslashes inserted before reserved
      characters. */
  lemma PieceInserts(linkText: string, url: string)
    ensures BackslashesInserted("[" + linkText + "](" + url + ")", RewrittenLink(linkText, url))
  {
    var s := "[" + linkText + "](" + url + ")";
    PieceFlags(linkText, url);
    FlagsReserved(s, LinkPieceMask(linkText, url), ReservedSet);
    RenderInserts(s, LinkPieceMask(linkText, url));
    PieceRender(linkText, url);
  }

  /** The characters a match spans are the link's delimiters, label and URL. */
  lemma LinkSlices(s: string, i: nat, sp: LinkSpan)
    requires i < |s| && LinkAt(s, i) == Some(sp)
    ensures s[i..sp.end + 1] == "[" + s[i + 1..sp.close] + "](" + s[sp.close + 2..sp.end] + ")"
  {
    var c, e := sp.close, sp.end;
    assert s[i..c] == "[" + s[i + 1..c];
    assert s[c] == ']' && s[c + 1] == '(';
    assert s[i..c + 2] == s[i..c] + [s[c], s[c + 1]];
    assert s[i..c + 2] == s[i..c] + "](";
    assert s[i..e] == s[i..c + 2] + s[c + 2..e];
    assert s[i..e + 1] == s[i..e] + ")";
  }

  /** Each step of the pre-pass inserts backslashes before reserved characters only. */
  lemma StepInserts(s: string, i: nat)
    requires i < |s|
    ensures BackslashesInserted(s[i..RewriteStep(s, i).next], RewriteStep(s, i).piece)
  {
    match LinkAt(s, i)
    case Some(sp) =>
      LinkSlices(s, i, sp);
      PieceInserts(s[i + 1..sp.close], s[sp.close + 2..sp.end]);
    case None =>
      assert s[i..i + 1] == [s[i]];
      assert BackslashesInserted([s[i]], [s[i]]);
  }

  /** The pre-pass only inserts backslashes, and only before reserved characters. */
  lemma {:induction false} PreFromInserts(s: string, i: nat)
    requires i <= |s|
    ensures BackslashesInserted(s[i..], PreFrom(s, i))
    decreases |s| - i
  {
    if i < |s| {
      var w := RewriteStep(s, i);
      StepInserts(s, i);
      PreFromInserts(s, w.next);
      assert s[i..] == s[i..w.next] + s[w.next..];
      InsertedAppend(s[i..w.next], w.piece, s[w.next..], PreFrom(s, w.next));
    }
  }

  /** The backslashes one step of the pre-pass inserts, as a mask over the text it consumes. */
  function StepMask(s: string, i: nat): (m: seq<bool>)
    requires i < |s|
    ensures |m| == RewriteStep(s, i).next - i
  {
    match LinkAt(s, i)
    case Some(sp) => LinkPieceMask(s[i + 1..sp.close], s[sp.close + 2..sp.end])
    case None => [false]
  }

  /** The backslashes the whole pre-pass inserts from `i` on. */
  function PreMask(s: string, i: nat): (m: seq<bool>)
    requires i <= |s|
    ensures |m| == |s| - i
    decreases |s| - i
  {
    if i == |s| then [] else StepMask(s, i) + PreMask(s, RewriteStep(s, i).next)
  }

  lemma StepRender(s: string, i: nat)
    requires i < |s|
    ensures RewriteStep(s, i).piece == Render(s[i..RewriteStep(s, i).next], StepMask(s, i))
  {
    match LinkAt(s, i)
    case Some(sp) =>
      LinkSlices(s, i, sp);
      PieceRender(s[i + 1..sp.close], s[sp.close + 2..sp.end]);
    case None =>
      assert s[i..i + 1] == [s[i]];
      assert Render([s[i]], [false]) == [s[i]];
  }

  /** The pre-pass output is its input rendered with the pre-pass mask. */
  lemma {:induction false} PreFromRender(s: string, i: nat)
    requires i <= |s|
    ensures PreFrom(s, i) == Render(s[i..], PreMask(s, i))
    decreases |s| - i
  {
    if i < |s| {
      var w := RewriteStep(s, i);
      assert PreFrom(s, i) == w.piece + PreFrom(s, w.next);
      assert PreMask(s, i) == StepMask(s, i) + PreMask(s, w.next);
      assert s[i..] == s[i..w.next] + s[w.next..];
      StepRender(s, i);
      PreFromRender(s, w.next);
      JoinRender(w.piece, PreFrom(s, w.next), s[i..w.next], StepMask(s, i), s[w.next..], PreMask(s, w.next),
                 s[i..], PreMask(s, i));
    } else {
      assert s[i..] == [];
    }
  }

  /** Two rendered pieces side by side are the rendering of the two texts joined. */
  lemma JoinRender(p: string, q: string, a: string, ma: seq<bool>, b: string, mb: seq<bool>,
                   whole: string, m: seq<bool>)
    requires |ma| == |a| && |mb| == |b|
    requires p == Render(a, ma) && q == Render(b, mb) && whole == a + b && m == ma + mb
    ensures p + q == Render(whole, m)
  {
    RenderAppend(a, ma, b, mb);
  }

  /** Text without a '[' is left alone by the pre-pass. */
  lemma {:induction false} PreFromWithoutBracket(s: string, i: nat)
    requires i <= |s|
    requires forall p :: i <= p < |s| ==> s[p] != '['
    ensures PreFrom(s, i) == s[i..]
    decreases |s| - i
  {
    if i < |s| {
      PreFromWithoutBracket(s, i + 1);
      assert s[i..] == [s[i]] + s[i + 1..];
    }
  }

  // ---------------------------------------------------------------------------------------
  // The character scan

  /** The six lexical contexts the scan tracks. */
  datatype Context = Context(
    inCode: bool,      // inside `inline code`
    inPre: bool,       // inside a ``` fenced block
    inBold: bool,
    inItalic: bool,
    inLinkText: bool,
    inLinkUrl: bool)

  const Outside: Context := Context(false, false, false, false, false, false)

  /** What the scan does with the character at one index: how many characters it consumes,
      whether it puts a backslash before the character, and the context afterwards. */
  datatype Step = Step(width: nat, escaped: bool, next: Context)

  /** One iteration of the scan loop, arm by arm in the source's order. */
  function ScanStep(t: string, i: nat, ctx: Context): (st: Step)
    requires i < |t|
    ensures st.width == 1 || (st.width == 3 && i + 3 <= |t|)
    // only a reserved character outside every context is escaped, and never a backtick,
    // '*', '_' or '['
    ensures st.escaped ==> st.width == 1 && t[i] in ScanEscapable && ctx == Outside
  {
    var c := t[i];
    var code := ctx.inCode || ctx.inPre;
    if c == '`' then
      if !ctx.inCode && i + 2 < |t| && t[i + 1] == '`' && t[i + 2] == '`' then
        Step(3, false, ctx.(inPre := !ctx.inPre))
      else
        Step(1, false, ctx.(inCode := !ctx.inCode))
    else if c == '*' && !code then
      Step(1, false, ctx.(inBold := !ctx.inBold))
    else if c == '_' && !code then
      Step(1, false, ctx.(inItalic := !ctx.inItalic))
    else if c == '[' && !code && !ctx.inLinkText then
      Step(1, false, ctx.(inLinkText := true))
    else if c == ']' && !code && ctx.inLinkText then
      Step(1, false, ctx.(inLinkText := false,
                          inLinkUrl := if i + 1 < |t| && t[i + 1] == '(' then true else ctx.inLinkUrl))
    else if c == '(' && !code && !ctx.inLinkText && ctx.inLinkUrl then
      Step(1, false, ctx)
    else if c == ')' && !code && ctx.inLinkUrl then
      Step(1, false, ctx.(inLinkUrl := false))
    else if ctx == Outside && IsReserved(c) then
      Step(1, true, ctx)
    else
      Step(1, false, ctx)
  }

  /** How one scan step treats the contexts. */
  lemma ScanStepContexts(t: string, i: nat, ctx: Context)
    requires i < |t|
    ensures var st := ScanStep(t, i, ctx);
      // every reserved character other than the four markers is escaped outside every context
      && ((ctx == Outside && IsReserved(t[i]) && t[i] != '`' && t[i] != '*' && t[i] != '_'
           && t[i] != '[') ==> st.escaped)
      // inside code or a fenced block, everything but a backtick is copied and changes nothing
      && ((ctx.inCode || ctx.inPre) && t[i] != '`' ==> st == Step(1, false, ctx))
      // the triple-backtick check does not fire inside inline code
      && (ctx.inCode && t[i] == '`' ==> st == Step(1, false, ctx.(inCode := false)))
      // only three backticks outside inline code open or close a fenced block
      && (st.next.inPre != ctx.inPre <==> st.width == 3)
      && (st.width == 3 ==> !ctx.inCode && t[i..i + 3] == "```" && st.next == ctx.(inPre := !ctx.inPre))
  {
    if ScanStep(t, i, ctx).width == 3 {
      assert t[i..i + 3] == [t[i], t[i + 1], t[i + 2]];
    }
  }

  /** The backslash mask of the scan over `t[i..]`, started in context `ctx`. */
  function ScanMask(t: string, i: nat, ctx: Context): (m: seq<bool>)
    requires i <= |t|
    ensures |m| == |t| - i
    decreases |t| - i
  {
    if i == |t| then []
    else
      var st := ScanStep(t, i, ctx);
      (if st.width == 1 then [st.escaped] else [false, false, false])
        + ScanMask(t, i + st.width, st.next)
  }

  /** The scan escapes only characters of ScanEscapable. */
  lemma {:induction false} ScanMaskFlags(t: string, i: nat, ctx: Context)
    requires i <= |t|
    ensures FlagsIn(t, i, ScanMask(t, i, ctx), ScanEscapable)
    decreases |t| - i
  {
    if i < |t| {
      var st := ScanStep(t, i, ctx);
      var head := if st.width == 1 then [st.escaped] else [false, false, false];
      ScanMaskFlags(t, i + st.width, st.next);
      if st.width != 1 {
        FlagsNone(t, i, 3, ScanEscapable);
        assert seq(3, _ => false) == head;
      }
      FlagsAppend(t, i, head, i + st.width, ScanMask(t, i + st.width, st.next), ScanEscapable);
    }
  }

  /** What one scan step appends to the output. */
  function Emitted(t: string, i: nat, st: Step): string
    requires i < |t| && (st.width == 1 || i + 3 <= |t|)
  {
    if st.width != 1 then [t[i], t[i + 1], t[i + 2]] else if st.escaped then ['\\', t[i]] else [t[i]]
  }

  /** What the scan writes for `t[i..]`, started in context `ctx`. */
  function ScanOutput(t: string, i: nat, ctx: Context): string
    requires i <= |t|
  {
    Render(t[i..], ScanMask(t, i, ctx))
  }

  /** The scan's output from `i` is the current step's output followed by the rest. */
  lemma ScanUnfold(t: string, i: nat, ctx: Context)
    requires i < |t|
    ensures var st := ScanStep(t, i, ctx);
            ScanOutput(t, i, ctx) == Emitted(t, i, st) + ScanOutput(t, i + st.width, st.next)
  {
    var st := ScanStep(t, i, ctx);
    var w := st.width;
    var head := if w == 1 then [st.escaped] else [false, false, false];
    var tail := ScanMask(t, i + w, st.next);
    assert ScanMask(t, i, ctx) == head + tail;
    assert t[i..] == t[i..i + w] + t[i + w..];
    RenderAppend(t[i..i + w], head, t[i + w..], tail);
    if w == 1 {
      assert Render(t[i..i + 1], head) == Emitted(t, i, st) by {
        assert t[i..i + 1] == [t[i]];
      }
    } else {
      RenderNothing(t[i..i + 3], head);
      assert t[i..i + 3] == [t[i], t[i + 1], t[i + 2]];
    }
  }

  /** Inside inline code or a fenced block, a run without backticks is copied verbatim and
      leaves the context as it was. */
  lemma CodeRunVerbatim(t: string, i: nat, j: nat, ctx: Context)
    requires (ctx.inCode || ctx.inPre) && i <= j <= |t|
    requires forall p :: i <= p < j ==> t[p] != '`'
    ensures ScanMask(t, i, ctx) == seq(j - i, _ => false) + ScanMask(t, j, ctx)
  {
    forall p | i <= p < j
      ensures ScanStep(t, p, ctx) == Step(1, false, ctx)
    {
      ScanStepContexts(t, p, ctx);
    }
    InertRun(t, i, j, ctx);
  }

  /** A run of steps that write their character unescaped and keep the contexts. */
  lemma {:induction false} InertRun(t: string, i: nat, j: nat, ctx: Context)
    requires i <= j <= |t|
    requires forall p :: i <= p < j ==> ScanStep(t, p, ctx) == Step(1, false, ctx)
    ensures ScanMask(t, i, ctx) == seq(j - i, _ => false) + ScanMask(t, j, ctx)
    decreases j - i
  {
    if i < j {
      InertRun(t, i + 1, j, ctx);
      assert [false] + seq(j - i - 1, _ => false) == seq(j - i, _ => false);
    }
  }

  /** Outside every context, text without a backtick, '*', '_' or '[' is escaped exactly at
      its reserved characters, one backslash each. */
  lemma {:induction false} PlainRun(t: string, i: nat, j: nat)
    requires i <= j <= |t|
    requires forall p :: i <= p < j ==> t[p] != '`' && t[p] != '*' && t[p] != '_' && t[p] != '['
    ensures ScanMask(t, i, Outside) == MaskIn(t[i..j], ReservedSet) + ScanMask(t, j, Outside)
    decreases j - i
  {
    if i == j {
      assert t[i..j] == [];
    } else {
      PlainRun(t, i + 1, j);
      var x := IsReserved(t[i]);
      assert ScanStep(t, i, Outside) == Step(1, x, Outside);
      assert ScanMask(t, i, Outside) == [x] + ScanMask(t, i + 1, Outside);
      assert t[i..j][1..] == t[i + 1..j];
      assert MaskIn(t[i..j], ReservedSet) == [x] + MaskIn(t[i + 1..j], ReservedSet);
      AppendAssoc([x], MaskIn(t[i + 1..j], ReservedSet), ScanMask(t, j, Outside));
    }
  }

  lemma FalsesJoin(a: nat, b: nat, rest: seq<bool>)
    ensures seq(a, _ => false) + (seq(b, _ => false) + rest) == seq(a + b, _ => false) + rest
  {
    AppendAssoc(seq(a, _ => false), seq(b, _ => false), rest);
    assert seq(a, _ => false) + seq(b, _ => false) == seq(a + b, _ => false);
  }

  /** From the ']' of a rewritten link, the scan copies `](url)` verbatim and ends outside
      every context. */
  lemma UrlScanCopies(t: string, c: nat, e: nat)
    requires c + 1 < e < |t|
    requires t[c] == ']' && t[c + 1] == '(' && t[e] == ')'
    requires forall p :: c + 1 < p < e ==>
               t[p] != '`' && t[p] != '*' && t[p] != '_' && t[p] != '[' && t[p] != ')'
    ensures ScanMask(t, c, Outside.(inLinkText := true))
            == seq(e + 1 - c, _ => false) + ScanMask(t, e + 1, Outside)
  {
    var inUrl := Outside.(inLinkUrl := true);
    UrlBodyInert(t, c, e);
    InertRun(t, c + 2, e, inUrl);
    var rest := ScanMask(t, e + 1, Outside);
    UrlDelimiters(t, c, e);
    FalsesJoin(e - c - 2, 1, rest);
    FalsesJoin(2, e - c - 1, rest);
  }

  lemma UrlBodyInert(t: string, c: nat, e: nat)
    requires c + 1 < e <= |t|
    requires forall p :: c + 1 < p < e ==>
               t[p] != '`' && t[p] != '*' && t[p] != '_' && t[p] != '[' && t[p] != ')'
    ensures forall p :: c + 2 <= p < e ==>
              ScanStep(t, p, Outside.(inLinkUrl := true)) == Step(1, false, Outside.(inLinkUrl := true))
  {
  }

  /** The scan steps over `](` into the URL context and over `)` out of it. */
  lemma UrlDelimiters(t: string, c: nat, e: nat)
    requires c + 1 < e < |t|
    requires t[c] == ']' && t[c + 1] == '(' && t[e] == ')'
    ensures ScanMask(t, e, Outside.(inLinkUrl := true)) == seq(1, _ => false) + ScanMask(t, e + 1, Outside)
    ensures ScanMask(t, c, Outside.(inLinkText := true))
            == seq(2, _ => false) + ScanMask(t, c + 2, Outside.(inLinkUrl := true))
  {
    UrlClose(t, e);
    UrlOpen(t, c);
  }

  lemma UrlClose(t: string, e: nat)
    requires e < |t| && t[e] == ')'
    ensures ScanMask(t, e, Outside.(inLinkUrl := true)) == seq(1, _ => false) + ScanMask(t, e + 1, Outside)
  {
    var inUrl := Outside.(inLinkUrl := true);
    assert ScanStep(t, e, inUrl) == Step(1, false, Outside);
    assert seq(1, _ => false) == [false];
  }

  lemma UrlOpen(t: string, c: nat)
    requires c + 1 < |t| && t[c] == ']' && t[c + 1] == '('
    ensures ScanMask(t, c, Outside.(inLinkText := true))
            == seq(2, _ => false) + ScanMask(t, c + 2, Outside.(inLinkUrl := true))
  {
    var inUrl := Outside.(inLinkUrl := true);
    assert ScanStep(t, c, Outside.(inLinkText := true)) == Step(1, false, inUrl);
    assert ScanStep(t, c + 1, inUrl) == Step(1, false, inUrl);
    assert ScanMask(t, c + 1, inUrl) == [false] + ScanMask(t, c + 2, inUrl);
    assert seq(2, _ => false) == [false, false];
  }

  /** The scan copies a rewritten link verbatim and ends outside every context, provided its
      label holds no backtick, '*', '_' or ']' and its URL no backtick, '*', '_', '[' or ')'
      (each of these would change a context). */
  lemma LinkScanCopies(t: string, i: nat, c: nat, e: nat)
    requires i < c && c + 1 < e < |t|
    requires t[i] == '[' && t[c] == ']' && t[c + 1] == '(' && t[e] == ')'
    requires forall p :: i < p < c ==> t[p] != '`' && t[p] != '*' && t[p] != '_' && t[p] != ']'
    requires forall p :: c + 1 < p < e ==>
               t[p] != '`' && t[p] != '*' && t[p] != '_' && t[p] != '[' && t[p] != ')'
    ensures ScanMask(t, i, Outside) == seq(e + 1 - i, _ => false) + ScanMask(t, e + 1, Outside)
  {
    var inLabel := Outside.(inLinkText := true);
    forall p | i + 1 <= p < c ensures ScanStep(t, p, inLabel) == Step(1, false, inLabel) {
    }
    InertRun(t, i + 1, c, inLabel);
    UrlScanCopies(t, c, e);
    var rest := ScanMask(t, e + 1, Outside);
    FalsesJoin(c - i - 1, e + 1 - c, rest);
    assert ScanMask(t, i, Outside) == seq(1, _ => false) + ScanMask(t, i + 1, inLabel);
    FalsesJoin(1, e - i, rest);
  }

  /** The text MarkdownV2 escaping produces: the scan's insertion over the pre-pass output. */
  function MarkdownEscaped(s: string): (r: string)
    ensures r == [] <==> s == []
  {
    var t := PreProcessed(s);
    Render(t, ScanMask(t, 0, Outside))
  }

  /** One iteration of the scan loop: what is written for `t[i]` (with the two following
      backticks when they open or close a fenced block), how far the scan moves and the
      contexts afterwards. */
  method ScanOne(t: string, i: nat, ctx: Context) returns (piece: string, width: nat, next: Context)
    requires i < |t|
    ensures var st := ScanStep(t, i, ctx);
            width == st.width && next == st.next && piece == Emitted(t, i, st)
  {
    var c := t[i];
    piece := [c];
    width := 1;
    next := ctx;
    if c == '`' {
      if !ctx.inCode && i + 2 < |t| && t[i + 1] == '`' && t[i + 2] == '`' {
        piece := [c, t[i + 1], t[i + 2]];
        width := 3;
        next := ctx.(inPre := !ctx.inPre);
      } else {
        next := ctx.(inCode := !ctx.inCode);
      }
    } else if c == '*' && !ctx.inCode && !ctx.inPre {
      next := ctx.(inBold := !ctx.inBold);
    } else if c == '_' && !ctx.inCode && !ctx.inPre {
      next := ctx.(inItalic := !ctx.inItalic);
    } else if c == '[' && !ctx.inCode && !ctx.inPre && !ctx.inLinkText {
      next := ctx.(inLinkText := true);
    } else if c == ']' && !ctx.inCode && !ctx.inPre && ctx.inLinkText {
      next := ctx.(inLinkText := false);
      if i + 1 < |t| && t[i + 1] == '(' {
        next := next.(inLinkUrl := true);
      }
    } else if c == '(' && !ctx.inCode && !ctx.inPre && !ctx.inLinkText && ctx.inLinkUrl {
    } else if c == ')' && !ctx.inCode && !ctx.inPre && ctx.inLinkUrl {
      next := ctx.(inLinkUrl := false);
    } else if !ctx.inCode && !ctx.inPre && !ctx.inBold && !ctx.inItalic && !ctx.inLinkText
              && !ctx.inLinkUrl && IsReserved(c) {
      piece := ['\\', c];
    }
  }

  /** The scan writes nothing past the end of its input. */
  lemma ScanOutputEnd(t: string, ctx: Context)
    ensures ScanOutput(t, |t|, ctx) == []
  {
    assert t[|t|..] == [];
  }

  /** The scan's output over the whole pre-pass result is the escaped text. */
  lemma ScanOutputWhole(s: string)
    ensures ScanOutput(PreProcessed(s), 0, Outside) == MarkdownEscaped(s)
  {
    var t := PreProcessed(s);
    assert t[0..] == t;
  }

  /** `escape_markdown_v2`: never fails; after the link pre-pass, a single left-to-right scan
      with six context flags decides which characters get a backslash. */
  method EscapeMarkdownV2(text: string) returns (r: Result<string>)
    ensures r == Ok(MarkdownEscaped(text))
  {
    if |text| == 0 {
      assert PreProcessed(text) == [];
      return Ok("");
    }
    var t := PreProcessLinks(text);
    var result := Scan(t);
    ScanOutputWhole(text);
    r := Ok(result);
  }

  /** The loop of `escape_markdown_v2` over the pre-pass output. */
  method Scan(t: string) returns (result: string)
    ensures result == ScanOutput(t, 0, Outside)
  {
    result := "";
    // the six flags of the scan: inline code, fenced block, bold, italic, link label, link URL
    var ctx := Outside;
    var i := 0;
    while i < |t|
      invariant i <= |t|
      invariant result + ScanOutput(t, i, ctx) == ScanOutput(t, 0, Outside)
      decreases |t| - i
    {
      ScanUnfold(t, i, ctx);
      var piece, width, next := ScanOne(t, i, ctx);
      AppendAssoc(result, piece, ScanOutput(t, i + width, next));
      result := result + piece;
      i := i + width;
      ctx := next;
    }
    ScanOutputEnd(t, ctx);
    assert result + [] == result;
  }

  // ---------------------------------------------------------------------------------------
  // Properties of the whole escape

  /** The output is the input with backslashes inserted, only immediately before reserved
      characters. */
  lemma EscapeInsertsOnlyBackslashes(s: string)
    ensures BackslashesInserted(s, MarkdownEscaped(s))
  {
    var t := PreProcessed(s);
    PreFromInserts(s, 0);
    assert s[0..] == s;
    ScanMaskFlags(t, 0, Outside);
    FlagsReserved(t, ScanMask(t, 0, Outside), ScanEscapable);
    RenderInserts(t, ScanMask(t, 0, Outside));
    InsertedTransitive(s, t, MarkdownEscaped(s));
  }

  /** Text without reserved characters is returned unchanged. */
  lemma EscapeWithoutReserved(s: string)
    requires forall k :: 0 <= k < |s| ==> !IsReserved(s[k])
    ensures MarkdownEscaped(s) == s
  {
    EscapeInsertsOnlyBackslashes(s);
    InsertedNoReserved(s, MarkdownEscaped(s));
  }

  /** Escaping never shortens the text and keeps it empty exactly when it was empty. */
  lemma EscapeLength(s: string)
    ensures |MarkdownEscaped(s)| >= |s|
    ensures MarkdownEscaped(s) == [] <==> s == []
  {
    EscapeInsertsOnlyBackslashes(s);
    InsertedLength(s, MarkdownEscaped(s));
  }

  /** Text without a backtick, '*', '_' or '[' gets exactly one backslash before each
      reserved character and nothing else. */
  lemma EscapePlain(s: string)
    requires forall p :: 0 <= p < |s| ==> s[p] != '`' && s[p] != '*' && s[p] != '_' && s[p] != '['
    ensures MarkdownEscaped(s) == Render(s, MaskIn(s, ReservedSet))
  {
    PreFromWithoutBracket(s, 0);
    assert PreProcessed(s) == s by {
      assert s[0..] == s;
    }
    PlainRun(s, 0, |s|);
    assert s[0..|s|] == s;
    assert ScanMask(s, |s|, Outside) == [];
    assert MaskIn(s, ReservedSet) + [] == MaskIn(s, ReservedSet);
  }

  /** Deleting the backslashes the scan inserted, then those the link pre-pass inserted, gives
      back the input. */
  lemma EscapeUnrender(s: string)
    ensures var t := PreProcessed(s);
            Unrender(Unrender(MarkdownEscaped(s), ScanMask(t, 0, Outside)), PreMask(s, 0)) == s
  {
    var t := PreProcessed(s);
    UnrenderRender(t, ScanMask(t, 0, Outside));
    PreFromRender(s, 0);
    assert s[0..] == s;
    UnrenderRender(s, PreMask(s, 0));
  }

  lemma {:induction false} RenderNotShorter(s: string, m: seq<bool>)
    requires |m| == |s|
    ensures |Render(s, m)| >= |s|
    decreases |s|
  {
    if s != [] {
      RenderNotShorter(s[1..], m[1..]);
    }
  }

  /** Rendering keeps every character, and a flagged one makes the text longer. */
  lemma {:induction false} RenderGrows(s: string, m: seq<bool>, k: nat)
    requires |m| == |s| && k < |s|
    ensures |Render(s, m)| >= |s| + (if m[k] then 1 else 0)
    ensures s[k] in Render(s, m)
    decreases |s|
  {
    var h := if m[0] then ['\\', s[0]] else [s[0]];
    var rest := Render(s[1..], m[1..]);
    assert Render(s, m) == h + rest;
    if k == 0 {
      RenderNotShorter(s[1..], m[1..]);
      assert s[0] in h;
    } else {
      RenderGrows(s[1..], m[1..], k - 1);
      assert s[1..][k - 1] == s[k];
      var j :| 0 <= j < |rest| && rest[j] == s[k];
      assert (h + rest)[|h| + j] == s[k];
    }
  }

  /** Escaping is not idempotent: on text with a reserved character and none of the four
      markers (for instance "a.b", escaped to "a\\.b" and then to "a\\\\.b"), a second
      pass copies the inserted backslashes and escapes the reserved characters again. */
  lemma EscapeNotIdempotent(s: string, k: nat)
    requires forall p :: 0 <= p < |s| ==> s[p] != '`' && s[p] != '*' && s[p] != '_' && s[p] != '['
    requires k < |s| && IsReserved(s[k])
    ensures MarkdownEscaped(MarkdownEscaped(s)) != MarkdownEscaped(s)
  {
    var e := MarkdownEscaped(s);
    EscapePlain(s);
    EscapeInsertsOnlyBackslashes(s);
    InsertedChars(s, e);
    assert forall p :: 0 <= p < |e| ==> e[p] != '`' && e[p] != '*' && e[p] != '_' && e[p] != '[' by {
      forall p | 0 <= p < |e| ensures e[p] != '`' && e[p] != '*' && e[p] != '_' && e[p] != '[' {
        if e[p] in s {
          var q :| 0 <= q < |s| && s[q] == e[p];
        }
      }
    }
    RenderGrows(s, MaskIn(s, ReservedSet), k);
    var j :| 0 <= j < |e| && e[j] == s[k];
    EscapePlain(e);
    RenderGrows(e, MaskIn(e, ReservedSet), j);
  }

  /** Rendering adds only backslashes, so it avoids every other character the text avoids. */
  lemma {:induction false} RenderAvoids(s: string, m: seq<bool>, bad: set<char>)
    requires |m| == |s| && '\\' !in bad
    requires forall k :: 0 <= k < |s| ==> s[k] !in bad
    ensures forall k :: 0 <= k < |Render(s, m)| ==> Render(s, m)[k] !in bad
    decreases |s|
  {
    if s != [] {
      RenderAvoids(s[1..], m[1..], bad);
      var h := if m[0] then ['\\', s[0]] else [s[0]];
      assert Render(s, m) == h + Render(s[1..], m[1..]);
    }
  }

  /** A link standing alone, whose label holds no backtick, '*', '_' or ']' and whose URL
      no backtick, '*', '_', '[' or ')', is escaped to exactly its rewritten form: the label
      fully escaped, the URL escaped except for '.' and '-', and nothing added by the scan. */
  lemma LoneLink(linkText: string, url: string)
    requires linkText != [] && url != []
    requires forall p :: 0 <= p < |linkText| ==> linkText[p] !in {'`', '*', '_', ']'}
    requires forall p :: 0 <= p < |url| ==> url[p] !in {'`', '*', '_', '[', ')'}
    ensures MarkdownEscaped("[" + linkText + "](" + url + ")") == RewrittenLink(linkText, url)
  {
    var s := "[" + linkText + "](" + url + ")";
    var t := RewrittenLink(linkText, url);
    LonePrePass(linkText, url);
    var l := EscapeLinkLabel(linkText);
    var u := Render(url, MaskIn(url, UrlEscaped));
    RenderAvoids(linkText, MaskIn(linkText, ReservedSet), {'`', '*', '_', ']'});
    RenderAvoids(url, MaskIn(url, UrlEscaped), {'`', '*', '_', '[', ')'});
    LinkScanQuiet(l, u, t);
    var m := ScanMask(t, 0, Outside);
    assert forall k :: 0 <= k < |m| ==> !m[k];
    RenderNothing(t, m);
    assert MarkdownEscaped(s) == Render(t, m);
  }

  /** The scan's marker arms do not look at a preceding backslash. The pre-pass escapes the
      '_' of the label in `[_](u).`, giving `[\_](u).`, yet the scan still turns italic on at
      that '_'. Italic stays on after the link, so the final '.' is not escaped. */
  lemma EscapedMarkerLeaksContext()
    ensures PreProcessed("[_](u).") == "[\\_](u)."
    ensures MarkdownEscaped("[_](u).") == "[\\_](u)."
  {
    LeakPrePass();
    var t := "[\\_](u).";
    LeakScan(t);
    RenderNothing(t, ScanMask(t, 0, Outside));
  }

  lemma LeakPrePass()
    ensures PreProcessed("[_](u).") == "[\\_](u)."
  {
    var s := "[_](u).";
    assert IsLinkAt(s, 0, 2, 5);
    LinkAtMatches(s, 0, 2, 5);
    assert s[1..2] == "_" && s[4..5] == "u";
    assert MaskIn("_", ReservedSet) == [true];
    assert MaskIn("u", UrlEscaped) == [false];
    assert EscapeLinkLabel("_") == "\\_";
    assert RewrittenLink("_", "u") == "[\\_](u)";
    assert RewriteStep(s, 0) == Rewrite("[\\_](u)", 6);
    assert RewriteStep(s, 6) == Rewrite(".", 7);
    assert PreFrom(s, 6) == ".";
  }

  /** The scan of `[\_](u).` flags nothing: every character after the '_' is in italic. */
  lemma LeakScan(t: string)
    requires t == "[\\_](u)."
    ensures forall k :: 0 <= k < |t| ==> !ScanMask(t, 0, Outside)[k]
  {
    LeakScanFrom0(t);
    LeakScanFrom2(t);
    LeakScanFrom4(t);
    LeakScanFrom6(t);
    assert ScanMask(t, 0, Outside) == [false, false, false, false, false, false, false, false];
  }

  lemma LeakScanFrom0(t: string)
    requires t == "[\\_](u)."
    ensures ScanMask(t, 0, Outside) == [false, false] + ScanMask(t, 2, Outside.(inLinkText := true))
  {
    var inLabel := Outside.(inLinkText := true);
    ScanMaskStep(t, 0, Outside, false, inLabel);
    ScanMaskStep(t, 1, inLabel, false, inLabel);
  }

  lemma LeakScanFrom2(t: string)
    requires t == "[\\_](u)."
    ensures ScanMask(t, 2, Outside.(inLinkText := true))
            == [false, false] + ScanMask(t, 4, Context(false, false, false, true, false, true))
  {
    var inLabel := Outside.(inLinkText := true);
    var italic := inLabel.(inItalic := true);
    ScanMaskStep(t, 2, inLabel, false, italic);
    ScanMaskStep(t, 3, italic, false, Context(false, false, false, true, false, true));
  }

  lemma LeakScanFrom4(t: string)
    requires t == "[\\_](u)."
    ensures ScanMask(t, 4, Context(false, false, false, true, false, true))
            == [false, false] + ScanMask(t, 6, Context(false, false, false, true, false, true))
  {
    var inUrl := Context(false, false, false, true, false, true);
    ScanMaskStep(t, 4, inUrl, false, inUrl);
    ScanMaskStep(t, 5, inUrl, false, inUrl);
  }

  lemma LeakScanFrom6(t: string)
    requires t == "[\\_](u)."
    ensures ScanMask(t, 6, Context(false, false, false, true, false, true)) == [false, false]
  {
    var after := Context(false, false, false, true, false, false);
    ScanMaskStep(t, 6, Context(false, false, false, true, false, true), false, after);
    ScanMaskStep(t, 7, after, false, after);
  }

  /** A one-character scan step contributes its flag and hands on its context. */
  lemma ScanMaskStep(t: string, i: nat, ctx: Context, escaped: bool, next: Context)
    requires i < |t| && ScanStep(t, i, ctx) == Step(1, escaped, next)
    ensures ScanMask(t, i, ctx) == [escaped] + ScanMask(t, i + 1, next)
  {
  }

  /** The pre-pass rewrites a lone link as a whole. */
  lemma LonePrePass(linkText: string, url: string)
    requires linkText != [] && url != []
    requires forall p :: 0 <= p < |linkText| ==> linkText[p] != ']'
    requires forall p :: 0 <= p < |url| ==> url[p] != ')'
    ensures PreProcessed("[" + linkText + "](" + url + ")") == RewrittenLink(linkText, url)
  {
    var s := "[" + linkText + "](" + url + ")";
    var c := |linkText| + 1;
    var e := c + 2 + |url|;
    LoneLinkShape(linkText, url, s);
    LinkAtMatches(s, 0, c, e);
    var t := RewrittenLink(linkText, url);
    assert RewriteStep(s, 0) == Rewrite(t, e + 1);
    assert PreFrom(s, e + 1) == [];
    assert PreFrom(s, 0) == t + [];
  }

  lemma LoneLinkShape(linkText: string, url: string, s: string)
    requires s == "[" + linkText + "](" + url + ")"
    requires linkText != [] && url != []
    requires forall p :: 0 <= p < |linkText| ==> linkText[p] != ']'
    requires forall p :: 0 <= p < |url| ==> url[p] != ')'
    ensures IsLinkAt(s, 0, |linkText| + 1, |linkText| + |url| + 3)
    ensures s[1..|linkText| + 1] == linkText && s[|linkText| + 3..|linkText| + |url| + 3] == url
  {
    var c := |linkText| + 1;
    var e := c + 2 + |url|;
    assert s[1..c] == linkText && s[c + 2..e] == url;
    forall p | 0 < p < c ensures s[p] != ']' {
      assert s[p] == linkText[p - 1];
    }
    forall p | c + 1 < p < e ensures s[p] != ')' {
      assert s[p] == url[p - c - 2];
    }
  }

  /** The scan finds no structural character inside a rewritten lone link. */
  lemma LinkScanQuiet(l: string, u: string, t: string)
    requires t == "[" + l + "](" + u + ")"
    requires forall p :: 0 <= p < |l| ==> l[p] !in {'`', '*', '_', ']'}
    requires forall p :: 0 <= p < |u| ==> u[p] !in {'`', '*', '_', '[', ')'}
    ensures ScanMask(t, 0, Outside) == seq(|t|, _ => false)
  {
    var c := |l| + 1;
    var e := c + 2 + |u|;
    LabelPositions(l, u, t);
    UrlPositions(l, u, t);
    LinkScanCopies(t, 0, c, e);
    assert ScanMask(t, e + 1, Outside) == [];
    assert seq(e + 1, _ => false) + [] == seq(|t|, _ => false);
  }

  lemma LabelPositions(l: string, u: string, t: string)
    requires t == "[" + l + "](" + u + ")"
    requires forall p :: 0 <= p < |l| ==> l[p] !in {'`', '*', '_', ']'}
    ensures t[0] == '[' && t[|l| + 1] == ']' && t[|l| + 2] == '('
    ensures forall p :: 0 < p < |l| + 1 ==> t[p] != '`' && t[p] != '*' && t[p] != '_' && t[p] != ']'
  {
    forall p | 0 < p < |l| + 1 ensures t[p] != '`' && t[p] != '*' && t[p] != '_' && t[p] != ']' {
      assert t[p] == l[p - 1];
    }
  }

  lemma UrlPositions(l: string, u: string, t: string)
    requires t == "[" + l + "](" + u + ")"
    requires forall p :: 0 <= p < |u| ==> u[p] !in {'`', '*', '_', '[', ')'}
    ensures |t| == |l| + |u| + 4 && t[|t| - 1] == ')'
    ensures forall p :: |l| + 2 < p < |t| - 1 ==>
              t[p] != '`' && t[p] != '*' && t[p] != '_' && t[p] != '[' && t[p] != ')'
  {
    var c := |l| + 1;
    forall p | c + 1 < p < |t| - 1
      ensures t[p] != '`' && t[p] != '*' && t[p] != '_' && t[p] != '[' && t[p] != ')'
    {
      assert t[p] == u[p - c - 2];
    }
  }

  // ---------------------------------------------------------------------------------------
  // strip_markdown, the fallback `format` would use if escaping failed

  /** `text.replace(['*', '_', '`'], "")`. */
  function RemoveMarkers(s: string): (r: string)
    ensures forall p :: 0 <= p < |r| ==> r[p] != '*' && r[p] != '_' && r[p] != '`'
    ensures forall p :: 0 <= p < |r| ==> r[p] in s
    ensures |r| <= |s|
    decreases |s|
  {
    if s == [] then []
    else (if s[0] in ['*', '_', '`'] then [] else [s[0]]) + RemoveMarkers(s[1..])
  }

  /** Every link `[label](url)` found by the link pattern is replaced by its label. */
  function StripLinks(s: string, i: nat): (r: string)
    requires i <= |s|
    ensures forall p :: 0 <= p < |r| ==> r[p] in s[i..]
    ensures |r| <= |s| - i
    decreases |s| - i
  {
    if i == |s| then []
    else
      match LinkAt(s, i)
      case Some(sp) =>
        var rest := StripLinks(s, sp.end + 1);
        assert forall p :: 0 <= p < |rest| ==> rest[p] in s[i..] by {
          forall p | 0 <= p < |rest| ensures rest[p] in s[i..] {
            var q :| 0 <= q < |s[sp.end + 1..]| && s[sp.end + 1..][q] == rest[p];
            assert s[i..][sp.end + 1 - i + q] == rest[p];
          }
        }
        var linkText := s[i + 1..sp.close];
        assert forall p :: 0 <= p < |linkText| ==> linkText[p] in s[i..] by {
          forall p | 0 <= p < |linkText| ensures linkText[p] in s[i..] {
            assert s[i..][p + 1] == linkText[p];
          }
        }
        linkText + rest
      case None =>
        var rest := StripLinks(s, i + 1);
        assert forall p :: 0 <= p < |rest| ==> rest[p] in s[i..] by {
          forall p | 0 <= p < |rest| ensures rest[p] in s[i..] {
            var q :| 0 <= q < |s[i + 1..]| && s[i + 1..][q] == rest[p];
            assert s[i..][1 + q] == rest[p];
          }
        }
        [s[i]] + rest
  }

  /** `strip_markdown`: no bold, italic or code marker survives, and nothing is added. */
  function StripMarkdown(s: string): (r: string)
    ensures forall p :: 0 <= p < |r| ==> r[p] != '*' && r[p] != '_' && r[p] != '`'
    ensures |r| <= |s|
  {
    var u := RemoveMarkers(s);
    var r := StripLinks(u, 0);
    assert u[0..] == u;
    r
  }

  lemma {:induction false} RemoveMarkersNone(s: string)
    requires forall p :: 0 <= p < |s| ==> s[p] != '*' && s[p] != '_' && s[p] != '`'
    ensures RemoveMarkers(s) == s
    decreases |s|
  {
    if s != [] {
      RemoveMarkersNone(s[1..]);
      assert s == [s[0]] + s[1..];
    }
  }

  lemma {:induction false} StripLinksNoBracket(s: string, i: nat)
    requires i <= |s|
    requires forall p :: i <= p < |s| ==> s[p] != '['
    ensures StripLinks(s, i) == s[i..]
    decreases |s| - i
  {
    if i < |s| {
      StripLinksNoBracket(s, i + 1);
      assert s[i..] == [s[i]] + s[i + 1..];
    }
  }

  /** Removing the markers works character by character: every other character is kept, in
      order. */
  lemma {:induction false} RemoveMarkersAppend(a: string, b: string)
    ensures RemoveMarkers(a + b) == RemoveMarkers(a) + RemoveMarkers(b)
    decreases |a|
  {
    if a == [] {
      assert a + b == b;
    } else {
      RemoveMarkersAppend(a[1..], b);
      assert (a + b)[0] == a[0] && (a + b)[1..] == a[1..] + b;
      var h := if a[0] in ['*', '_', '`'] then [] else [a[0]];
      AppendAssoc(h, RemoveMarkers(a[1..]), RemoveMarkers(b));
    }
  }

  /** A single character is dropped exactly when it is a marker. */
  lemma RemoveMarkersChar(c: char)
    ensures RemoveMarkers([c]) == if c == '*' || c == '_' || c == '`' then [] else [c]
  {
    assert [c][1..] == [];
  }

  /** One step of the link removal: a match at `i` is replaced by its label and the search
      resumes after it; anywhere else the character is kept. */
  lemma StripLinksStep(s: string, i: nat)
    requires i < |s|
    ensures LinkAt(s, i).Some? ==>
              StripLinks(s, i) == s[i + 1..LinkAt(s, i).value.close] + StripLinks(s, LinkAt(s, i).value.end + 1)
    ensures LinkAt(s, i).None? ==> StripLinks(s, i) == [s[i]] + StripLinks(s, i + 1)
  {
  }

  /** A text that is exactly one match of the link pattern strips to its label. */
  lemma StripLinksLoneLink(s: string, j: nat)
    requires |s| > 0 && IsLinkAt(s, 0, j, |s| - 1)
    ensures StripLinks(s, 0) == s[1..j]
  {
    LinkAtMatches(s, 0, j, |s| - 1);
  }

  /** `strip_markdown` on one link `[label](url)` gives the label, when neither the label (which
      holds no ']', as the link pattern demands) nor the URL (which holds no ')') holds a
      marker. */
  lemma StripMarkdownLoneLink(l: string, u: string)
    requires l != [] && forall p :: 0 <= p < |l| ==> l[p] != ']' && l[p] != '*' && l[p] != '_' && l[p] != '`'
    requires u != [] && forall p :: 0 <= p < |u| ==> u[p] != ')' && u[p] != '*' && u[p] != '_' && u[p] != '`'
    ensures StripMarkdown("[" + l + "](" + u + ")") == l
  {
    var t := "[" + l + "](" + u + ")";
    LoneLinkShape(l, u, t);
    LoneLinkNoMarkers(l, u, t);
    RemoveMarkersNone(t);
    StripLinksLoneLink(t, |l| + 1);
    assert t[0..] == t;
  }

  lemma LoneLinkNoMarkers(l: string, u: string, t: string)
    requires t == "[" + l + "](" + u + ")"
    requires forall p :: 0 <= p < |l| ==> l[p] != '*' && l[p] != '_' && l[p] != '`'
    requires forall p :: 0 <= p < |u| ==> u[p] != '*' && u[p] != '_' && u[p] != '`'
    ensures forall p :: 0 <= p < |t| ==> t[p] != '*' && t[p] != '_' && t[p] != '`'
  {
    forall p | 0 <= p < |t| ensures t[p] != '*' && t[p] != '_' && t[p] != '`' {
      if 0 < p < |l| + 1 {
        assert t[p] == l[p - 1];
      } else if |l| + 2 < p < |t| - 1 {
        assert t[p] == u[p - |l| - 3];
      }
    }
  }

  /** Stripping does not undo escaping: on text with a reserved character and none of the
      four markers (for instance "a.b", escaped to "a\\.b"), the inserted backslashes are
      kept, so the original text is not recovered. */
  lemma StripKeepsBackslashes(s: string, k: nat)
    requires forall p :: 0 <= p < |s| ==> s[p] != '`' && s[p] != '*' && s[p] != '_' && s[p] != '['
    requires k < |s| && IsReserved(s[k])
    ensures StripMarkdown(MarkdownEscaped(s)) == MarkdownEscaped(s)
    ensures StripMarkdown(MarkdownEscaped(s)) != s
  {
    var e := MarkdownEscaped(s);
    EscapePlain(s);
    EscapeInsertsOnlyBackslashes(s);
    InsertedChars(s, e);
    assert forall p :: 0 <= p < |e| ==> e[p] != '`' && e[p] != '*' && e[p] != '_' && e[p] != '[' by {
      forall p | 0 <= p < |e| ensures e[p] != '`' && e[p] != '*' && e[p] != '_' && e[p] != '[' {
        if e[p] in s {
          var q :| 0 <= q < |s| && s[q] == e[p];
        }
      }
    }
    RemoveMarkersNone(e);
    StripLinksNoBracket(e, 0);
    assert e[0..] == e;
    RenderGrows(s, MaskIn(s, ReservedSet), k);
  }
}
