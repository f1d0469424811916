/**
 `validateEmail`: a string is accepted when it is non-empty and matches
 `^[^\s@]+@[^\s@]+\.[^\s@]+$`. The regular expression is restated as
 `MatchesEmailRegex` (the positions of the `@` and of a `.` after it), and
 the executable predicate, which locates the first `@`, is proved to agree
 with it.
 */
module Validation {
  import opened Js

  /** A character of the class `[^\s@]`. */
  predicate IsAddressChar(c: char) {
    !IsWhitespace(c) && c != '@'
  }

  predicate AllAddressChars(s: string) {
    forall k :: 0 <= k < |s| ==> IsAddressChar(s[k])
  }

  /** A `.` that is neither the first nor the last character. */
  predicate HasInnerDot(s: string) {
    exists k :: 0 < k < |s| - 1 && s[k] == '.'
  }

  /** The regular expression, position by position: `s[..i]` is `[^\s@]+`,
      `s[i]` is `@`, `s[i+1..d]` is `[^\s@]+`, `s[d]` is `.`, and `s[d+1..]`
      is `[^\s@]+`. */
  ghost predicate MatchesEmailRegex(s: string) {
    exists i, d :: 0 < i && i + 1 < d < |s| - 1 && s[i] == '@' && s[d] == '.'
      && AllAddressChars(s[..i]) && AllAddressChars(s[i + 1..d]) && AllAddressChars(s[d + 1..])
  }

  /** The first occurrence of `c`. */
  function IndexOf(s: string, c: char): (r: Option<nat>)
    ensures r.None? <==> c !in s
    ensures r.Some? ==> r.value < |s| && s[r.value] == c && c !in s[..r.value]
  {
    if s == [] then None
    else if s[0] == c then Some(0)
    else
      match IndexOf(s[1..], c)
      case None => None
      case Some(k) =>
        assert s[..k + 1] == [s[0]] + s[1..][..k];
        Some(k + 1)
  }

  /** The shape check on a string: one `@` after a non-empty local part,
      then a domain with an inner `.`, no whitespace anywhere. */
  function IsEmailShaped(s: string): bool {
    match IndexOf(s, '@')
    case None => false
    case Some(i) => 0 < i && AllAddressChars(s[..i]) && AllAddressChars(s[i + 1..]) && HasInnerDot(s[i + 1..])
  }

  /** `validateEmail`: false for a non-string or empty value, otherwise the
      regular-expression test. */
  function ValidateEmail(email: Unknown): (ok: bool)
    ensures email.NonString? || email == Str("") ==> !ok
  {
    match email
    case NonString => false
    case Str(s) => s != "" && IsEmailShaped(s)
  }

  lemma AllAddressCharsSplit(s: string, d: int)
    requires 0 <= d < |s|
    ensures AllAddressChars(s) <==> AllAddressChars(s[..d]) && IsAddressChar(s[d]) && AllAddressChars(s[d + 1..])
  {
    if AllAddressChars(s[..d]) && IsAddressChar(s[d]) && AllAddressChars(s[d + 1..]) {
      forall k | 0 <= k < |s|
        ensures IsAddressChar(s[k])
      {
        if k < d {
          assert s[k] == s[..d][k];
        } else if k > d {
          assert s[k] == s[d + 1..][k - d - 1];
        }
      }
    }
  }

  /** The executable predicate accepts exactly the strings the regular
      expression matches. */
  lemma ValidateEmailMatchesRegex(s: string)
    ensures ValidateEmail(Str(s)) <==> MatchesEmailRegex(s)
  {
    if ValidateEmail(Str(s)) {
      AcceptedMatchesRegex(s);
    }
    if MatchesEmailRegex(s) {
      var i, d :| 0 < i && i + 1 < d < |s| - 1 && s[i] == '@' && s[d] == '.'
        && AllAddressChars(s[..i]) && AllAddressChars(s[i + 1..d]) && AllAddressChars(s[d + 1..]);
      MatchAccepted(s, i, d);
    }
  }

  lemma AcceptedMatchesRegex(s: string)
    requires ValidateEmail(Str(s))
    ensures MatchesEmailRegex(s)
  {
    var i := IndexOf(s, '@').value;
    var dom := s[i + 1..];
    var k :| 0 < k < |dom| - 1 && dom[k] == '.';
    var d := i + 1 + k;
    assert s[d] == '.';
    AllAddressCharsSplit(dom, k);
    assert dom[..k] == s[i + 1..d] && dom[k + 1..] == s[d + 1..];
  }

  lemma MatchAccepted(s: string, i: int, d: int)
    requires 0 < i && i + 1 < d < |s| - 1 && s[i] == '@' && s[d] == '.'
    requires AllAddressChars(s[..i]) && AllAddressChars(s[i + 1..d]) && AllAddressChars(s[d + 1..])
    ensures ValidateEmail(Str(s))
  {
    assert '@' !in s[..i];
    assert '@' in s[..i + 1];
    var j := IndexOf(s, '@').value;
    assert j == i;
    var dom := s[i + 1..];
    var k := d - i - 1;
    assert dom[..k] == s[i + 1..d] && dom[k + 1..] == s[d + 1..] && dom[k] == '.';
    AllAddressCharsSplit(dom, k);
  }

  /** The same acceptance, stated on the two halves around the `@`: the
      local part is non-empty and free of whitespace and `@`, the domain is
      free of whitespace and `@` and has a `.` that is neither its first nor
      its last character. */
  lemma ValidateEmailSplit(local: string, domain: string)
    ensures ValidateEmail(Str(local + "@" + domain)) <==>
      local != [] && AllAddressChars(local) && AllAddressChars(domain) && HasInnerDot(domain)
  {
    var s := local + "@" + domain;
    var n := |local|;
    assert s[..n] == local && s[n] == '@' && s[n + 1..] == domain;
    if ValidateEmail(Str(s)) {
      var i := IndexOf(s, '@').value;
      assert i == n;
    }
    if local != [] && AllAddressChars(local) {
      assert '@' !in s[..n];
      var j := IndexOf(s, '@').value;
      assert j == n;
    }
  }

  /** An accepted address has exactly one `@`, neither first nor last. */
  lemma AcceptedHasOneAt(s: string)
    requires ValidateEmail(Str(s))
    ensures exists i :: 0 < i < |s| - 1 && s[i] == '@'
    ensures forall i, j :: 0 <= i < |s| && 0 <= j < |s| && s[i] == '@' && s[j] == '@' ==> i == j
  {
    var i := IndexOf(s, '@').value;
    var dom := s[i + 1..];
    assert i < |s| - 1 by {
      var k :| 0 < k < |dom| - 1 && dom[k] == '.';
    }
    assert forall j :: 0 <= j < |s| && s[j] == '@' ==> j == i;
  }

  /** An accepted address contains no whitespace. */
  lemma AcceptedHasNoWhitespace(s: string)
    requires ValidateEmail(Str(s))
    ensures forall k :: 0 <= k < |s| ==> !IsWhitespace(s[k])
  {
    var i := IndexOf(s, '@').value;
    forall k | 0 <= k < |s|
      ensures !IsWhitespace(s[k])
    {
      if k < i {
        assert s[k] == s[..i][k];
      } else if k > i {
        assert s[k] == s[i + 1..][k - i - 1];
      }
    }
  }
}
