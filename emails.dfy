/** E-mail obfuscation (`obfuscate_emails` in src/formatter.rs). Addresses are the matches
    of `\b[A-Za-z0-9._%+-]+@[A-Za-z0-9.-]+\.[A-Za-z]{2,}\b`, found leftmost-first and without
    overlap; each is replaced by its obfuscated form. The matcher below follows the regular
    expression's backtracking order: the local part is taken whole, the domain part gives back
    characters until a '.' followed by at least two letters and a word boundary is found. */
module Emails {
  import opened Errors
  import opened Text

  predicate IsLocalChar(c: char) { IsAlnum(c) || c == '.' || c == '_' || c == '%' || c == '+' || c == '-' }
  predicate IsDomainChar(c: char) { IsAlnum(c) || c == '.' || c == '-' }
  /** A word character for `\b`, restricted to ASCII. */
  predicate IsWordChar(c: char) { IsAlnum(c) || c == '_' }

  /** The three character classes of the pattern. */
  datatype Class = LocalPart | DomainPart | Letters

  predicate InClass(c: char, k: Class)
  {
    match k
    case LocalPart => IsLocalChar(c)
    case DomainPart => IsDomainChar(c)
    case Letters => IsLetter(c)
  }

  /** `\b` at index `i`: a word character on exactly one side. */
  predicate Boundary(s: string, i: nat)
    requires i <= |s|
  {
    (i > 0 && IsWordChar(s[i - 1])) != (i < |s| && IsWordChar(s[i]))
  }

  /** Every character of `s[lo..hi]` belongs to class `k`. */
  predicate AllIn(s: string, lo: nat, hi: nat, k: Class)
    requires lo <= hi <= |s|
  {
    forall p :: lo <= p < hi ==> InClass(s[p], k)
  }

  /** The end of the longest run of class `k` starting at `from`. */
  function RunEnd(s: string, from: nat, k: Class): (e: nat)
    requires from <= |s|
    ensures from <= e <= |s| && AllIn(s, from, e, k)
    ensures e == |s| || !InClass(s[e], k)
    decreases |s| - from
  {
    if from < |s| && InClass(s[from], k) then RunEnd(s, from + 1, k) else from
  }

  /** A run that is all of class `k` and stops at a character outside it is the longest one. */
  lemma RunEndIs(s: string, from: nat, e: nat, k: Class)
    requires from <= e <= |s| && AllIn(s, from, e, k)
    requires e == |s| || !InClass(s[e], k)
    ensures RunEnd(s, from, k) == e
  {
  }

  /** `\.[A-Za-z]{2,}\b` matches at `d`: a dot, then a run of at least two letters that ends
      at a word boundary (inside a letter run there is none, so only the whole run can do). */
  predicate TldAt(s: string, d: nat)
    requires d < |s|
  {
    s[d] == '.' && var g := RunEnd(s, d + 1, Letters); g >= d + 3 && Boundary(s, g)
  }

  /** The rightmost `d` in `[lo, hi)` where the top-level domain matches: the greedy domain part
      gives back one character at a time, so the last such dot is the one chosen. */
  function LastTld(s: string, lo: nat, hi: nat): (r: Option<nat>)
    requires hi <= |s|
    ensures r.Some? ==> lo <= r.value < hi && TldAt(s, r.value)
    ensures r.Some? ==> forall d :: r.value < d < hi ==> !TldAt(s, d)
    ensures r.None? ==> forall d :: lo <= d < hi ==> !TldAt(s, d)
    decreases hi
  {
    if hi <= lo then None
    else if TldAt(s, hi - 1) then Some(hi - 1)
    else LastTld(s, lo, hi - 1)
  }

  /** Where a matched address has its '@', the dot before its top-level domain, and its end. */
  datatype EmailSpan = EmailSpan(at: nat, dot: nat, end: nat)

  /** The match of the address pattern anchored at `i`, if any: its '@', then the dot before
      the top-level domain, then its end, in that order. */
  function EmailAt(s: string, i: nat): (r: Option<EmailSpan>)
    requires i < |s|
    ensures r.Some? ==> i < r.value.at < r.value.dot && r.value.dot + 2 < r.value.end <= |s|
    ensures r.Some? ==> s[r.value.at] == '@' && s[r.value.dot] == '.'
  {
    if !IsLocalChar(s[i]) || !Boundary(s, i) then None
    else
      var a := RunEnd(s, i, LocalPart);
      if a == |s| || s[a] != '@' then None
      else
        var z := RunEnd(s, a + 1, DomainPart);
        match LastTld(s, a + 2, z)
        case None => None
        case Some(d) => Some(EmailSpan(a, d, RunEnd(s, d + 1, Letters)))
  }

  /** The pattern, written as a relation: `s[i..end]` is local part, '@', domain part, '.',
      at least two letters, with word boundaries at both ends. */
  ghost predicate IsEmailMatch(s: string, i: nat, sp: EmailSpan)
  {
    && i < sp.at && sp.at + 1 < sp.dot && sp.dot + 2 < sp.end <= |s|
    && Boundary(s, i) && AllIn(s, i, sp.at, LocalPart) && s[sp.at] == '@'
    && AllIn(s, sp.at + 1, sp.dot, DomainPart) && s[sp.dot] == '.'
    && AllIn(s, sp.dot + 1, sp.end, Letters) && Boundary(s, sp.end)
  }

  /** Every match the scanner reports is a match of the pattern. */
  lemma EmailAtSound(s: string, i: nat)
    requires i < |s| && EmailAt(s, i).Some?
    ensures IsEmailMatch(s, i, EmailAt(s, i).value)
  {
    var sp := EmailAt(s, i).value;
    var z := RunEnd(s, sp.at + 1, DomainPart);
    assert AllIn(s, sp.at + 1, sp.dot, DomainPart) by {
      assert sp.dot < z;
    }
  }

  /** Whenever the pattern matches at `i` the scanner reports a match with the same '@' and a
      top-level-domain dot at least as far right (the greedy choice). */
  lemma EmailAtComplete(s: string, i: nat, sp: EmailSpan)
    requires i < |s| && IsEmailMatch(s, i, sp)
    ensures EmailAt(s, i).Some?
    ensures EmailAt(s, i).value.at == sp.at && EmailAt(s, i).value.dot >= sp.dot
  {
    assert IsLocalChar(s[i]) by { assert InClass(s[i], LocalPart); }
    RunEndIs(s, i, sp.at, LocalPart);
    var z := RunEnd(s, sp.at + 1, DomainPart);
    assert AllIn(s, sp.at + 1, sp.end, DomainPart) by {
      forall p | sp.at + 1 <= p < sp.end ensures InClass(s[p], DomainPart) {
        if p < sp.dot {
          assert InClass(s[p], DomainPart);
        } else if p > sp.dot {
          assert InClass(s[p], Letters);
        }
      }
    }
    assert sp.end == |s| || !InClass(s[sp.end], Letters) by {
      assert InClass(s[sp.end - 1], Letters);
    }
    RunEndIs(s, sp.dot + 1, sp.end, Letters);
    assert TldAt(s, sp.dot);
  }

  /** The number of '@' characters; `str::split('@')` yields one more part than this. */
  function CountAt(s: string): (n: nat)
    ensures n == 0 <==> forall p :: 0 <= p < |s| ==> s[p] != '@'
    decreases |s|
  {
    if s == [] then 0
    else
      var n := CountAt(s[1..]);
      assert forall p :: 1 <= p < |s| ==> s[p] == s[1..][p - 1];
      (if s[0] == '@' then 1 else 0) + n
  }

  lemma {:induction false} CountAtAppend(a: string, b: string)
    ensures CountAt(a + b) == CountAt(a) + CountAt(b)
    decreases |a|
  {
    if a != [] {
      assert (a + b)[0] == a[0] && (a + b)[1..] == a[1..] + b;
      CountAtAppend(a[1..], b);
    } else {
      assert a + b == b;
    }
  }

  /** The index of the first '@', or `|s|` when there is none. */
  function FirstAt(s: string): (r: nat)
    ensures r <= |s| && forall p :: 0 <= p < r ==> s[p] != '@'
    ensures r < |s| ==> s[r] == '@'
    decreases |s|
  {
    if s == [] || s[0] == '@' then 0
    else
      var r := FirstAt(s[1..]);
      assert forall p :: 1 <= p < |s| ==> s[p] == s[1..][p - 1];
      r + 1
  }

  /** The closure applied to each whole match: split at '@'; when there are exactly two parts
      and the username (the first) is longer than three characters, it keeps its first three
      characters and its last one with "..." between; otherwise the match is kept as is. */
  function ObfuscateMatch(email: string): (r: string)
    ensures CharsFrom(r, email, {'.'})
    ensures email != [] ==> r != []
  {
    if CountAt(email) != 1 then email
    else
      var a := FirstAt(email);
      var username := email[..a];
      var domain := email[a + 1..];
      if |username| <= 3 then email
      else username[..3] + "..." + [username[|username| - 1]] + "@" + domain
  }

  /** The obfuscated form of the address `username@domain`. */
  function Obfuscated(username: string, domain: string): (r: string)
    ensures |username| <= 3 ==> r == username + "@" + domain
    ensures |username| > 3 ==> |r| == 8 + |domain|
    ensures |username| > 3 ==> r[..3] == username[..3] && r[3..6] == "..."
    ensures |username| > 3 ==> r[6] == username[|username| - 1] && r[7..] == "@" + domain
  {
    if |username| <= 3 then username + "@" + domain
    else username[..3] + "..." + [username[|username| - 1]] + "@" + domain
  }

  /** A match with a single '@' splits into its username and its domain. */
  lemma SplitMatch(username: string, domain: string)
    requires forall p :: 0 <= p < |username| ==> username[p] != '@'
    requires forall p :: 0 <= p < |domain| ==> domain[p] != '@'
    ensures ObfuscateMatch(username + "@" + domain) == Obfuscated(username, domain)
  {
    var e := username + "@" + domain;
    CountAtAppend(username + "@", domain);
    CountAtAppend(username, "@");
    assert CountAt("@") == 1 by { assert "@"[1..] == []; }
    assert e[|username|] == '@';
    assert FirstAt(e) == |username|;
    assert e[..|username|] == username && e[|username| + 1..] == domain;
  }

  /** One step of the replacement: what is written at `i` and where the search resumes. */
  datatype Replacement = Replacement(piece: string, next: nat)

  function EmailStep(s: string, i: nat): (w: Replacement)
    requires i < |s|
    ensures i < w.next <= |s|
  {
    match EmailAt(s, i)
    case Some(sp) => Replacement(ObfuscateMatch(s[i..sp.end]), sp.end)
    case None => Replacement([s[i]], i + 1)
  }

  function ObfuscateFrom(s: string, i: nat): (r: string)
    requires i <= |s|
    ensures r == [] <==> i == |s|
    decreases |s| - i
  {
    if i == |s| then [] else var w := EmailStep(s, i); w.piece + ObfuscateFrom(s, w.next)
  }

  /** `obfuscate_emails`; only the empty text obfuscates to the empty text. */
  function ObfuscateEmails(s: string): (r: string)
    ensures r == [] <==> s == []
  {
    ObfuscateFrom(s, 0)
  }

  /** Without an '@' there is no address, and the text is returned unchanged. */
  lemma {:induction false} ObfuscateFromNoAt(s: string, i: nat)
    requires i <= |s|
    requires forall p :: 0 <= p < |s| ==> s[p] != '@'
    ensures ObfuscateFrom(s, i) == s[i..]
    decreases |s| - i
  {
    if i < |s| {
      assert EmailAt(s, i).None?;
      ObfuscateFromNoAt(s, i + 1);
      assert s[i..] == [s[i]] + s[i + 1..];
    }
  }

  lemma ObfuscateNoAt(s: string)
    requires forall p :: 0 <= p < |s| ==> s[p] != '@'
    ensures ObfuscateEmails(s) == s
  {
    ObfuscateFromNoAt(s, 0);
    assert s[0..] == s;
  }

  /** The replacement writes only characters of the text and dots. */
  lemma {:induction false} ObfuscateFromChars(s: string, i: nat)
    requires i <= |s|
    ensures CharsFrom(ObfuscateFrom(s, i), s, {'.'})
    decreases |s| - i
  {
    if i < |s| {
      var w := EmailStep(s, i);
      ObfuscateFromChars(s, w.next);
      match EmailAt(s, i)
      case Some(sp) =>
        CharsFromSlice(w.piece, s, i, sp.end, {'.'});
      case None =>
        assert w.piece[0] == s[i];
      CharsFromAppend(w.piece, ObfuscateFrom(s, w.next), s, {'.'});
    }
  }

  lemma ObfuscateChars(s: string)
    ensures CharsFrom(ObfuscateEmails(s), s, {'.'})
  {
    ObfuscateFromChars(s, 0);
  }

  /** A text that is exactly one address `username@domain.tld` (a username of local-part
      characters starting with a word character, a domain of domain characters and a top-level
      domain of at least two letters) becomes its obfuscated form. */
  lemma WholeAddress(username: string, domain: string, tld: string)
    requires username != [] && IsWordChar(username[0])
    requires forall p :: 0 <= p < |username| ==> IsLocalChar(username[p])
    requires domain != [] && forall p :: 0 <= p < |domain| ==> IsDomainChar(domain[p])
    requires |tld| >= 2 && forall p :: 0 <= p < |tld| ==> IsLetter(tld[p])
    ensures ObfuscateEmails(username + "@" + domain + "." + tld) == Obfuscated(username, domain + "." + tld)
  {
    var s := username + "@" + domain + "." + tld;
    var at := |username|;
    var dot := at + 1 + |domain|;
    AddressShape(username, domain, tld, s);
    var sp := EmailSpan(at, dot, |s|);
    EmailAtComplete(s, 0, sp);
    EmailAtSound(s, 0);
    var found := EmailAt(s, 0).value;
    assert found.dot == dot;
    RunEndIs(s, dot + 1, |s|, Letters);
    assert found == sp;
    assert s[0..|s|] == s;
    assert ObfuscateFrom(s, |s|) == [];
    assert ObfuscateEmails(s) == ObfuscateMatch(s) + [];
    SplitMatch(username, domain + "." + tld);
  }

  lemma AddressShape(username: string, domain: string, tld: string, s: string)
    requires s == username + "@" + domain + "." + tld
    requires username != [] && IsWordChar(username[0])
    requires forall p :: 0 <= p < |username| ==> IsLocalChar(username[p])
    requires domain != [] && forall p :: 0 <= p < |domain| ==> IsDomainChar(domain[p])
    requires |tld| >= 2 && forall p :: 0 <= p < |tld| ==> IsLetter(tld[p])
    ensures IsEmailMatch(s, 0, EmailSpan(|username|, |username| + 1 + |domain|, |s|))
    ensures s == username + "@" + (domain + "." + tld)
    ensures forall p :: 0 <= p < |username| ==> username[p] != '@'
    ensures forall p :: 0 <= p < |domain + "." + tld| ==> (domain + "." + tld)[p] != '@'
    ensures forall p :: |username| + 1 + |domain| < p < |s| ==> s[p] == tld[p - |username| - 2 - |domain|]
  {
    var at := |username|;
    var dot := at + 1 + |domain|;
    forall p | 0 <= p < at ensures InClass(s[p], LocalPart) {
      assert s[p] == username[p];
    }
    forall p | at + 1 <= p < dot ensures InClass(s[p], DomainPart) {
      assert s[p] == domain[p - at - 1];
    }
    forall p | dot + 1 <= p < |s| ensures InClass(s[p], Letters) {
      assert s[p] == tld[p - dot - 1];
    }
    assert s[0] == username[0];
    var rest := domain + "." + tld;
    forall p | 0 <= p < |rest| ensures rest[p] != '@' {
      if p < |domain| {
        assert rest[p] == domain[p];
      } else if p > |domain| {
        assert rest[p] == tld[p - |domain| - 1];
      }
    }
  }
}
