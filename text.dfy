/** ASCII text helpers: character classes, lower-casing, substring search and the
    decimal conversions used for `truncate` values and HTTP status codes. */
module Text {
  import opened Errors

  predicate IsDigit(c: char) { '0' <= c <= '9' }
  predicate IsUpper(c: char) { 'A' <= c <= 'Z' }
  predicate IsLower(c: char) { 'a' <= c <= 'z' }
  predicate IsLetter(c: char) { IsUpper(c) || IsLower(c) }
  predicate IsAlnum(c: char) { IsLetter(c) || IsDigit(c) }

  function ToLowerChar(c: char): char
  {
    if IsUpper(c) then (c as int + 32) as char else c
  }

  /** ASCII lower-casing, one character at a time. */
  function ToLower(s: string): (r: string)
    ensures |r| == |s|
    ensures forall k :: 0 <= k < |s| ==> r[k] == ToLowerChar(s[k])
  {
    if s == [] then [] else [ToLowerChar(s[0])] + ToLower(s[1..])
  }

  /** A flag value counts as true when it lower-cases to "true". */
  function IsTrueFlag(v: string): (b: bool)
    ensures b <==> |v| == 4 && forall k :: 0 <= k < 4 ==> v[k] == "true"[k] || v[k] == "TRUE"[k]
  {
    var l := ToLower(v);
    assert |l| == 4 ==> (l == "true" <==> forall k :: 0 <= k < 4 ==> l[k] == "true"[k]);
    l == "true"
  }

  /** Every character of `t` occurs in `s` or belongs to `extra`. */
  predicate CharsFrom(t: string, s: string, extra: set<char>)
  {
    forall k :: 0 <= k < |t| ==> t[k] in s || t[k] in extra
  }

  /** Character provenance composes along a chain of transformations. */
  lemma CharsFromTransitive(u: string, t: string, s: string, e1: set<char>, e2: set<char>)
    requires CharsFrom(t, s, e1) && CharsFrom(u, t, e2)
    ensures CharsFrom(u, s, e1 + e2)
  {
    forall k | 0 <= k < |u| ensures u[k] in s || u[k] in e1 + e2 {
      if u[k] in t {
        var j :| 0 <= j < |t| && t[j] == u[k];
      }
    }
  }

  /** Provenance from a slice is provenance from the whole text. */
  lemma CharsFromSlice(t: string, s: string, i: nat, j: nat, extra: set<char>)
    requires i <= j <= |s| && CharsFrom(t, s[i..j], extra)
    ensures CharsFrom(t, s, extra)
  {
    forall k | 0 <= k < |t| ensures t[k] in s || t[k] in extra {
      if t[k] in s[i..j] {
        var q :| 0 <= q < j - i && s[i..j][q] == t[k];
        assert s[i + q] == t[k];
      }
    }
  }

  lemma CharsFromAppend(a: string, b: string, s: string, extra: set<char>)
    requires CharsFrom(a, s, extra) && CharsFrom(b, s, extra)
    ensures CharsFrom(a + b, s, extra)
  {
    forall k | 0 <= k < |a + b| ensures (a + b)[k] in s || (a + b)[k] in extra {
      if k >= |a| {
        assert (a + b)[k] == b[k - |a|];
      } else {
        assert (a + b)[k] == a[k];
      }
    }
  }

  /** Regrouping a concatenation, stated once for the proofs that need it spelled out. */
  lemma AppendAssoc<T>(a: seq<T>, b: seq<T>, c: seq<T>)
    ensures a + (b + c) == (a + b) + c
  {
  }

  predicate StartsWith(s: string, p: string)
  {
    |p| <= |s| && s[..|p|] == p
  }

  /** `p` occurs in `s` starting at index `i`. */
  predicate OccursAt(s: string, p: string, i: nat)
  {
    i + |p| <= |s| && s[i..i + |p|] == p
  }

  /** Substring search. */
  function Contains(s: string, p: string): (r: bool)
    ensures r <==> exists i: nat :: OccursAt(s, p, i)
    decreases |s|
  {
    if StartsWith(s, p) then
      assert OccursAt(s, p, 0);
      true
    else if s == [] then
      false
    else
      var r := Contains(s[1..], p);
      if r then
        var i: nat :| OccursAt(s[1..], p, i);
        assert s[1..][i..i + |p|] == s[i + 1..i + 1 + |p|];
        assert OccursAt(s, p, i + 1);
        true
      else
        assert forall i: nat :: OccursAt(s, p, i) ==> i >= 1 && OccursAt(s[1..], p, i - 1) by {
          forall i: nat | OccursAt(s, p, i) ensures i >= 1 && OccursAt(s[1..], p, i - 1) {
            assert s[1..][i - 1..i - 1 + |p|] == s[i..i + |p|];
          }
        }
        false
  }

  /** An occurrence in the tail of a concatenation is an occurrence in the whole. */
  lemma ContainsInTail(a: string, b: string, p: string)
    requires Contains(b, p)
    ensures Contains(a + b, p)
  {
    var i: nat :| OccursAt(b, p, i);
    assert (a + b)[|a| + i..|a| + i + |p|] == b[i..i + |p|];
    assert OccursAt(a + b, p, |a| + i);
  }

  function DigitChar(d: nat): (c: char)
    requires d < 10
    ensures IsDigit(c) && c as int - '0' as int == d
  {
    ('0' as int + d) as char
  }

  /** Decimal rendering of a natural number, as Rust's `Display` for unsigned integers. */
  function NatToString(n: nat): (r: string)
    ensures |r| >= 1
    ensures forall k :: 0 <= k < |r| ==> IsDigit(r[k])
    decreases n
  {
    if n < 10 then [DigitChar(n)] else NatToString(n / 10) + [DigitChar(n % 10)]
  }

  predicate AllDigits(s: string)
  {
    forall k :: 0 <= k < |s| ==> IsDigit(s[k])
  }

  function DigitsValue(s: string): nat
    requires AllDigits(s)
    decreases |s|
  {
    if s == [] then 0 else DigitsValue(s[..|s| - 1]) * 10 + (s[|s| - 1] as int - '0' as int)
  }

  /** The largest `usize` on a 64-bit target. */
  const UsizeMax: nat := 0xFFFF_FFFF_FFFF_FFFF

  /** Rust's `str::parse::<usize>`: an optional leading '+', then at least one decimal digit,
      and a value that fits in 64 bits; anything else is an error (here `None`). */
  function ParseUsize(s: string): (r: Option<nat>)
    ensures r.Some? ==> r.value <= UsizeMax
    ensures r.Some? ==> |s| >= 1
    ensures var d := if |s| > 1 && s[0] == '+' then s[1..] else s;
            r.Some? <==> d != [] && AllDigits(d) && DigitsValue(d) <= UsizeMax
    ensures var d := if |s| > 1 && s[0] == '+' then s[1..] else s;
            r.Some? ==> AllDigits(d) && r.value == DigitsValue(d)
  {
    var digits := if |s| > 1 && s[0] == '+' then s[1..] else s;
    if digits == [] || !AllDigits(digits) then None
    else
      var v := DigitsValue(digits);
      if v <= UsizeMax then Some(v) else None
  }

  lemma {:induction false} DigitsValueOfNatToString(n: nat)
    ensures DigitsValue(NatToString(n)) == n
    decreases n
  {
    if n >= 10 {
      DigitsValueOfNatToString(n / 10);
      var s := NatToString(n / 10) + [DigitChar(n % 10)];
      assert s[..|s| - 1] == NatToString(n / 10);
    }
  }

  /** A character that is neither a digit nor the leading '+' makes the parse fail, so
      "-5", "5x" and " 5" give `None`; so do "" and a lone "+". */
  lemma ParseRejects(s: string, k: nat)
    requires k < |s| && !IsDigit(s[k]) && !(k == 0 && s[k] == '+')
    ensures ParseUsize(s) == None
    ensures ParseUsize("") == None && ParseUsize("+") == None
  {
    if |s| > 1 && s[0] == '+' {
      assert s[1..][k - 1] == s[k];
    }
  }

  lemma {:induction false} DigitsValueLeadingZero(d: string)
    requires AllDigits(d)
    ensures AllDigits("0" + d) && DigitsValue("0" + d) == DigitsValue(d)
    decreases |d|
  {
    if d != [] {
      var z := "0" + d;
      assert z[..|z| - 1] == "0" + d[..|d| - 1];
      DigitsValueLeadingZero(d[..|d| - 1]);
    }
  }

  /** Leading zeros do not change the value: "007" parses as "7" does. */
  lemma ParseLeadingZero(d: string)
    requires d != [] && AllDigits(d)
    ensures ParseUsize("0" + d) == ParseUsize(d)
  {
    DigitsValueLeadingZero(d);
  }

  /** A leading '+' in front of digits is accepted and ignored: "+7" parses as "7" does. */
  lemma ParsePlus(d: string)
    requires AllDigits(d)
    ensures ParseUsize("+" + d) == ParseUsize(d)
  {
    if d != [] {
      assert ("+" + d)[1..] == d;
    }
  }

  /** One more than the largest `usize` does not parse. */
  lemma ParseOverflow()
    ensures ParseUsize(NatToString(UsizeMax + 1)) == None
  {
    var s := NatToString(UsizeMax + 1);
    DigitsValueOfNatToString(UsizeMax + 1);
    assert IsDigit(s[0]);
  }

  /** Rendering a number and parsing it back gives the number. */
  lemma ParseNatToString(n: nat)
    requires n <= UsizeMax
    ensures ParseUsize(NatToString(n)) == Some(n)
  {
    DigitsValueOfNatToString(n);
  }
}
