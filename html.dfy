/** HTML entity escaping (`escape_html` in src/formatter.rs): the three characters the
    pattern `[<>&]` matches are replaced by their entities in one left-to-right pass. */
module Html {
  import opened Text

  /** The replacement written for one character. */
  function Entity(c: char): (r: string)
    ensures c == '<' ==> r == "&lt;"
    ensures c == '>' ==> r == "&gt;"
    ensures c == '&' ==> r == "&amp;"
    ensures c != '<' && c != '>' && c != '&' ==> r == [c]
  {
    if c == '<' then "&lt;" else if c == '>' then "&gt;" else if c == '&' then "&amp;" else [c]
  }

  /** The characters an entity may add besides the character itself. */
  const EntityChars: set<char> := {'&', ';', 'l', 't', 'g', 'a', 'm', 'p'}

  /** `escape_html`: each character replaced by its entity, in order. */
  function EscapeHtml(s: string): (r: string)
    ensures |r| >= |s|
    decreases |s|
  {
    if s == [] then [] else Entity(s[0]) + EscapeHtml(s[1..])
  }

  /** The escaped text holds no '<' or '>', and every other character it holds comes from the
      input or from an entity. */
  lemma {:induction false} EscapeHtmlSafe(s: string)
    ensures forall k :: 0 <= k < |EscapeHtml(s)| ==> EscapeHtml(s)[k] != '<' && EscapeHtml(s)[k] != '>'
    ensures CharsFrom(EscapeHtml(s), s, EntityChars)
    decreases |s|
  {
    if s != [] {
      var rest := EscapeHtml(s[1..]);
      EscapeHtmlSafe(s[1..]);
      var e := Entity(s[0]);
      var r := e + rest;
      assert EscapeHtml(s) == r;
      assert forall k :: |e| <= k < |r| ==> r[k] == rest[k - |e|];
      forall k | 0 <= k < |r| ensures r[k] != '<' && r[k] != '>' && (r[k] in s || r[k] in EntityChars) {
        if k >= |e| {
          var j := k - |e|;
          if rest[j] in s[1..] {
            var q :| 0 <= q < |s[1..]| && s[1..][q] == rest[j];
            assert s[q + 1] == rest[j];
          }
        } else if e == [s[0]] {
          assert r[k] == s[0];
        }
      }
    }
  }

  /** Decoding of the three entities; any other character is copied. */
  function UnescapeHtml(t: string): string
    decreases |t|
  {
    if t == [] then []
    else if StartsWith(t, "&lt;") then ['<'] + UnescapeHtml(t[4..])
    else if StartsWith(t, "&gt;") then ['>'] + UnescapeHtml(t[4..])
    else if StartsWith(t, "&amp;") then ['&'] + UnescapeHtml(t[5..])
    else [t[0]] + UnescapeHtml(t[1..])
  }

  /** Escaping distributes over concatenation; it is a per-character replacement. */
  lemma {:induction false} EscapeHtmlAppend(a: string, b: string)
    ensures EscapeHtml(a + b) == EscapeHtml(a) + EscapeHtml(b)
    decreases |a|
  {
    if a != [] {
      var h := Entity(a[0]);
      calc {
        EscapeHtml(a + b);
        { assert (a + b)[0] == a[0] && (a + b)[1..] == a[1..] + b; }
        h + EscapeHtml(a[1..] + b);
        { EscapeHtmlAppend(a[1..], b); }
        h + (EscapeHtml(a[1..]) + EscapeHtml(b));
        { AppendAssoc(h, EscapeHtml(a[1..]), EscapeHtml(b)); }
        (h + EscapeHtml(a[1..])) + EscapeHtml(b);
        EscapeHtml(a) + EscapeHtml(b);
      }
    } else {
      assert a + b == b;
    }
  }

  /** Decoding undoes the escape: the replacement loses nothing. */
  lemma {:induction false} UnescapeEscape(s: string)
    ensures UnescapeHtml(EscapeHtml(s)) == s
    decreases |s|
  {
    if s != [] {
      UnescapeEscape(s[1..]);
      assert EscapeHtml(s) == Entity(s[0]) + EscapeHtml(s[1..]);
      UnescapeEntity(s[0], EscapeHtml(s[1..]));
      assert s == [s[0]] + s[1..];
    }
  }

  /** Decoding reads one entity back as its character. */
  lemma UnescapeEntity(c: char, rest: string)
    ensures UnescapeHtml(Entity(c) + rest) == [c] + UnescapeHtml(rest)
  {
    var e := Entity(c);
    var t := e + rest;
    if c == '<' || c == '>' {
      assert t[..4] == e && t[4..] == rest;
    } else if c == '&' {
      assert t[..4] == "&amp" && t[..5] == e && t[5..] == rest;
    } else {
      assert t[0] == c && t[1..] == rest;
      assert !StartsWith(t, "&lt;") && !StartsWith(t, "&gt;") && !StartsWith(t, "&amp;") by {
        assert t[0] != '&';
      }
    }
  }

  /** Text without `<`, `>` and `&` is returned unchanged. */
  lemma {:induction false} EscapeHtmlIdentity(s: string)
    requires forall k :: 0 <= k < |s| ==> s[k] != '<' && s[k] != '>' && s[k] != '&'
    ensures EscapeHtml(s) == s
    decreases |s|
  {
    if s != [] {
      EscapeHtmlIdentity(s[1..]);
      assert s == [s[0]] + s[1..];
    }
  }

  /** Each `<`, `>` or `&` of the input lengthens the output by the size of its entity less
      one; text containing any of them therefore changes. */
  lemma {:induction false} EscapeHtmlChanges(s: string, k: nat)
    requires k < |s| && (s[k] == '<' || s[k] == '>' || s[k] == '&')
    ensures |EscapeHtml(s)| >= |s| + 3
    decreases |s|
  {
    if k > 0 {
      EscapeHtmlChanges(s[1..], k - 1);
    }
  }
}
