/**
 * The two email helpers of the backend: the shape check `isValidEmail`
 * (backend/server.js:102-105) and the domain extraction `getDomainFromEmail`
 * (backend/server.js:112-117).
 */
module Email {
  import opened Text

  /** A character of the class `[^\s@]`. */
  predicate IsAddressChar(c: char) {
    !IsSpace(c) && c != '@'
  }

  predicate AllAddressChars(s: string) {
    forall i :: 0 <= i < |s| ==> IsAddressChar(s[i])
  }

  /** `s` has a `.` that is neither its first nor its last character. */
  predicate HasInnerDot(s: string) {
    exists i :: 0 < i < |s| - 1 && s[i] == '.'
  }

  /** Everything after the first `@` (all of `s` when there is none). */
  function DomainPart(s: string): string {
    if '@' in s then s[IndexOf(s, '@') + 1..] else s
  }

  /**
   * The language of the regular expression `^[^\s@]+@[^\s@]+\.[^\s@]+$`:
   * an `@` at `at` and a `.` at `dot` split `s` into three non-empty runs of
   * `[^\s@]` characters, and every other character is in `[^\s@]` too.
   */
  ghost predicate MatchesEmailPattern(s: string) {
    exists at, dot ::
      && 0 < at && at + 1 < dot && dot + 1 < |s|
      && s[at] == '@' && s[dot] == '.'
      && (forall k :: 0 <= k < |s| && k != at ==> IsAddressChar(s[k]))
  }

  /**
   * `isValidEmail`, read as a scan: a non-empty local part of `[^\s@]`
   * before the first `@`, and after it a domain part of `[^\s@]` holding an
   * inner `.`.
   */
  function IsValidEmail(s: string): bool {
    var at := IndexOf(s, '@');
    && 0 < at < |s|
    && AllAddressChars(s[..at])
    && AllAddressChars(s[at + 1..])
    && HasInnerDot(s[at + 1..])
  }

  /** The scan accepts exactly the strings the regular expression matches. */
  lemma ValidEmailMatchesPattern(s: string)
    ensures IsValidEmail(s) <==> MatchesEmailPattern(s)
  {
    var at := IndexOf(s, '@');
    if IsValidEmail(s) {
      var d := s[at + 1..];
      var i :| 0 < i < |d| - 1 && d[i] == '.';
      var dot := at + 1 + i;
      assert s[dot] == '.';
      forall k | 0 <= k < |s| && k != at ensures IsAddressChar(s[k]) {
        if k < at { assert s[k] == s[..at][k]; } else { assert s[k] == d[k - at - 1]; }
      }
      assert MatchesEmailPattern(s);
    }
    if MatchesEmailPattern(s) {
      var a, dot :| && 0 < a && a + 1 < dot && dot + 1 < |s|
                    && s[a] == '@' && s[dot] == '.'
                    && (forall k :: 0 <= k < |s| && k != a ==> IsAddressChar(s[k]));
      assert at <= a;
      assert !IsAddressChar(s[at]);
      assert at == a;
      var d := s[at + 1..];
      assert d[dot - at - 1] == '.';
      assert HasInnerDot(d);
    }
  }

  /**
   * The features of a well-formed address: one `@`, no white space, a
   * non-empty local part, and a domain part with an inner `.`.
   */
  predicate HasEmailFeatures(s: string) {
    && '@' in s
    && (forall k :: 0 <= k < |s| && k != IndexOf(s, '@') ==> s[k] != '@')
    && (forall k :: 0 <= k < |s| ==> !IsSpace(s[k]))
    && IndexOf(s, '@') > 0
    && HasInnerDot(DomainPart(s))
  }

  lemma AddressCharsOfSlice(s: string, lo: nat, hi: nat)
    requires lo <= hi <= |s|
    requires forall k :: lo <= k < hi ==> IsAddressChar(s[k])
    ensures AllAddressChars(s[lo..hi])
  {
    forall j | 0 <= j < hi - lo ensures IsAddressChar(s[lo..hi][j]) {
      assert s[lo..hi][j] == s[lo + j];
    }
  }

  /** `isValidEmail` accepts exactly the strings with the features of a well-formed address. */
  lemma ValidEmailShape(s: string)
    ensures IsValidEmail(s) <==> HasEmailFeatures(s)
  {
    var at := IndexOf(s, '@');
    if IsValidEmail(s) {
      forall k | 0 <= k < |s| && k != at ensures IsAddressChar(s[k]) {
        if k < at { assert s[k] == s[..at][k]; } else { assert s[k] == s[at + 1..][k - at - 1]; }
      }
      assert HasEmailFeatures(s);
    }
    if HasEmailFeatures(s) {
      assert forall k :: 0 <= k < |s| && k != at ==> IsAddressChar(s[k]);
      AddressCharsOfSlice(s, 0, at);
      AddressCharsOfSlice(s, at + 1, |s|);
      assert s[at + 1..|s|] == s[at + 1..];
    }
  }

  /**
   * `getDomainFromEmail`: nothing for an empty string or one without `@`;
   * otherwise the lower-cased text between the first `@` and the next `@`
   * (or the end), or nothing when that text is empty.
   */
  function GetDomainFromEmail(s: string): (r: Option<string>)
    ensures '@' !in s ==> r == None
    ensures '@' in s ==>
              var rest := s[IndexOf(s, '@') + 1..];
              var piece := rest[..IndexOf(rest, '@')];
              r == if piece == [] then None else Some(ToLower(piece))
    ensures r.Some? ==> r.value != [] && IsLowerCase(r.value) && '@' !in r.value
  {
    if s == [] || '@' !in s then
      None
    else
      var piece := Split(s, '@')[1];
      SplitSecond(s, '@');
      var lowered := ToLower(piece);
      assert '@' !in lowered by {
        forall i | 0 <= i < |piece| ensures lowered[i] != '@' {
          assert piece[i] != '@';
        }
      }
      if lowered == [] then None else Some(lowered)
  }

  /** For a valid email the domain is the whole domain part, lower-cased, and still has its inner dot. */
  lemma ValidEmailDomain(s: string)
    requires IsValidEmail(s)
    ensures GetDomainFromEmail(s) == Some(ToLower(DomainPart(s)))
    ensures HasInnerDot(ToLower(DomainPart(s)))
  {
    var at := IndexOf(s, '@');
    var rest := s[at + 1..];
    assert '@' !in rest by {
      forall j | 0 <= j < |rest| ensures rest[j] != '@' {
        assert IsAddressChar(rest[j]);
      }
    }
    assert rest[..|rest|] == rest;
    var i :| 0 < i < |rest| - 1 && rest[i] == '.';
    assert ToLower(rest)[i] == '.';
  }

  /** The example of `a@x.com`: the address is valid and its domain part is `x.com`. */
  lemma ExampleAddressValid(s: string)
    requires s == "a@x.com"
    ensures IsValidEmail(s)
    ensures DomainPart(s) == "x.com" && IsLowerCase(DomainPart(s))
  {
    assert s == ['a'] + ['@'] + "x.com";
    assert IndexOf(s, '@') == 1 by { assert s[0] != '@'; }
    var d := s[2..];
    assert d == ['x', '.', 'c', 'o', 'm'];
    assert AllAddressChars(s[..1]) by { VisibleIsNotSpace('a'); }
    assert AllAddressChars(d) by {
      VisibleIsNotSpace('x'); VisibleIsNotSpace('.'); VisibleIsNotSpace('c');
      VisibleIsNotSpace('o'); VisibleIsNotSpace('m');
    }
    assert HasInnerDot(d) by { assert d[1] == '.'; }
    assert IsLowerCase(d);
  }
}
