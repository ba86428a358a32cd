/**
 * The JavaScript string operations the backend relies on: the `\s` character
 * class, `trim`, `toLowerCase`, `split` on one character, `includes`, and the
 * case-insensitive end-of-string match of a regular expression such as
 * `/\.com$/i`.
 */
module Text {

  datatype Option<T> = None | Some(value: T)

  /** The characters `\s` matches in a JavaScript regular expression; `trim` removes the same set. */
  predicate IsSpace(c: char) {
    || c == ' ' || c == '\t' || c == '\n' || c == '\r'
    || c == '\U{000B}' || c == '\U{000C}' || c == '\U{00A0}' || c == '\U{1680}'
    || ('\U{2000}' <= c <= '\U{200A}')
    || c == '\U{2028}' || c == '\U{2029}' || c == '\U{202F}' || c == '\U{205F}'
    || c == '\U{3000}' || c == '\U{FEFF}'
  }

  /** No visible ASCII character is white space. */
  lemma VisibleIsNotSpace(c: char)
    requires '!' <= c <= '~'
    ensures !IsSpace(c)
  {
  }

  predicate IsUpperAscii(c: char) {
    'A' <= c <= 'Z'
  }

  function LowerChar(c: char): (d: char)
    ensures !IsUpperAscii(d)
    ensures IsUpperAscii(c) ==> d as int == c as int + 32
    ensures !IsUpperAscii(c) ==> d == c
  {
    if IsUpperAscii(c) then (c as int + 32) as char else c
  }

  /** `toLowerCase`, on the ASCII letters. */
  function ToLower(s: string): (r: string)
    ensures |r| == |s|
    ensures forall i :: 0 <= i < |s| ==> r[i] == LowerChar(s[i])
  {
    seq(|s|, i requires 0 <= i < |s| => LowerChar(s[i]))
  }

  predicate IsLowerCase(s: string) {
    forall i :: 0 <= i < |s| ==> !IsUpperAscii(s[i])
  }

  /** Lower-casing changes exactly the strings that have an upper-case letter; so it is idempotent. */
  lemma ToLowerFixesLowerCase(s: string)
    ensures ToLower(s) == s <==> IsLowerCase(s)
    ensures ToLower(ToLower(s)) == ToLower(s)
  {
    if IsLowerCase(s) {
      assert forall i :: 0 <= i < |s| ==> ToLower(s)[i] == s[i];
    }
    var t := ToLower(s);
    assert IsLowerCase(t);
    assert forall i :: 0 <= i < |t| ==> ToLower(t)[i] == t[i];
  }

  /** Every character of `s` is white space (so the empty string is blank too). */
  predicate IsBlank(s: string) {
    forall i :: 0 <= i < |s| ==> IsSpace(s[i])
  }

  /** Neither end of `s` is white space. */
  predicate IsTrimmed(s: string) {
    s == [] || (!IsSpace(s[0]) && !IsSpace(s[|s| - 1]))
  }

  function TrimStart(s: string): (r: string)
    ensures |r| <= |s| && r == s[|s| - |r|..]
    ensures r == [] || !IsSpace(r[0])
    ensures forall i :: 0 <= i < |s| - |r| ==> IsSpace(s[i])
  {
    if s != [] && IsSpace(s[0]) then
      var r := TrimStart(s[1..]);
      assert s[1..][|s| - 1 - |r|..] == s[|s| - |r|..];
      r
    else s
  }

  function TrimEnd(s: string): (r: string)
    ensures r <= s
    ensures r == [] || !IsSpace(r[|r| - 1])
    ensures forall i :: |r| <= i < |s| ==> IsSpace(s[i])
  {
    if s != [] && IsSpace(s[|s| - 1]) then TrimEnd(s[..|s| - 1]) else s
  }

  /** What `TrimStart` cuts off is white space. */
  lemma TrimStartCutsBlank(s: string)
    ensures IsBlank(s[..|s| - |TrimStart(s)|])
  {
    var a := |s| - |TrimStart(s)|;
    forall i | 0 <= i < a ensures IsSpace(s[..a][i]) { }
  }

  /** What `TrimEnd` cuts off is white space. */
  lemma TrimEndCutsBlank(t: string)
    ensures IsBlank(t[|TrimEnd(t)|..])
  {
    var k := |TrimEnd(t)|;
    forall i | 0 <= i < |t| - k ensures IsSpace(t[k..][i]) {
      assert t[k..][i] == t[k + i];
    }
  }

  /** A prefix `r` of a suffix `t` of `s` is a slice of `s`, and what follows it in `t` is the rest of `s`. */
  lemma PrefixOfSuffix(s: string, t: string, r: string)
    requires |t| <= |s| && t == s[|s| - |t|..] && r <= t
    ensures r == s[|s| - |t|..|s| - |t| + |r|]
    ensures s[|s| - |t| + |r|..] == t[|r|..]
  {
  }

  /**
   * `trim`: the result is `s` with the white space at both ends cut off and
   * nothing else, so nothing is left at either end, and it is empty exactly
   * when `s` is blank.
   */
  function Trim(s: string): (r: string)
    ensures IsTrimmed(r)
    ensures r == [] <==> IsBlank(s)
    ensures exists a, b :: 0 <= a <= b <= |s| && r == s[a..b] && IsBlank(s[..a]) && IsBlank(s[b..])
  {
    var t := TrimStart(s);
    var r := TrimEnd(t);
    TrimStartCutsBlank(s);
    TrimEndCutsBlank(t);
    PrefixOfSuffix(s, t, r);
    assert r != [] ==> r[0] == t[0];
    assert r == [] ==> t == [];
    r
  }

  /** Lower-casing keeps white space where it is, so a trimmed string stays trimmed. */
  lemma ToLowerKeepsTrimmed(s: string)
    requires IsTrimmed(s)
    ensures IsTrimmed(ToLower(s)) && IsLowerCase(ToLower(s))
  {
    if s != [] {
      assert !IsSpace(s[0]) && !IsSpace(s[|s| - 1]);
      assert !IsUpperAscii(s[0]) ==> ToLower(s)[0] == s[0];
      assert !IsUpperAscii(s[|s| - 1]) ==> ToLower(s)[|s| - 1] == s[|s| - 1];
    }
  }

  /** The index of the first `c` in `s`, or `|s|` when there is none (`indexOf`, with -1 read as `|s|`). */
  function IndexOf(s: string, c: char): (i: nat)
    ensures i <= |s|
    ensures i < |s| ==> s[i] == c
    ensures c !in s[..i]
    ensures i == |s| <==> c !in s
  {
    if s == [] then 0
    else if s[0] == c then 0
    else
      var j := IndexOf(s[1..], c);
      assert s[..j + 1] == [s[0]] + s[1..][..j];
      1 + j
  }

  /** The pieces joined back with `sep` between them (the inverse of `Split`). */
  function Join(parts: seq<string>, sep: char): string {
    if parts == [] then ""
    else if |parts| == 1 then parts[0]
    else parts[0] + [sep] + Join(parts[1..], sep)
  }

  /**
   * `s.split(sep)` for a one-character separator: at least one piece, no
   * piece holds the separator, and joining the pieces gives `s` back.
   */
  function Split(s: string, sep: char): (parts: seq<string>)
    ensures |parts| >= 1
    ensures forall i :: 0 <= i < |parts| ==> sep !in parts[i]
    ensures Join(parts, sep) == s
    ensures parts[0] == s[..IndexOf(s, sep)]
    ensures sep in s <==> |parts| >= 2
    decreases |s|
  {
    var i := IndexOf(s, sep);
    if i == |s| then
      [s]
    else
      var rest := Split(s[i + 1..], sep);
      assert s == s[..i] + [sep] + s[i + 1..];
      [s[..i]] + rest
  }

  /** The second piece of a split, when the separator occurs, is what lies between its first and second occurrences. */
  lemma SplitSecond(s: string, sep: char)
    requires sep in s
    ensures var rest := s[IndexOf(s, sep) + 1..];
            Split(s, sep)[1] == rest[..IndexOf(rest, sep)]
  {
  }

  /** Equal after lower-casing both sides (the `i` flag of a regular expression, on ASCII letters). */
  predicate EqualsIgnoreCase(a: string, b: string) {
    |a| == |b| && ToLower(a) == ToLower(b)
  }

  /** `s` ends with `suffix` when case is ignored (a `/suffix$/i` test). */
  predicate EndsWithIgnoreCase(s: string, suffix: string) {
    |suffix| <= |s| && EqualsIgnoreCase(s[|s| - |suffix|..], suffix)
  }

  /** A longer case-insensitive suffix implies every shorter one it ends with. */
  lemma EndsWithIgnoreCaseTrans(s: string, longer: string, shorter: string)
    requires EndsWithIgnoreCase(s, longer)
    requires |shorter| <= |longer| && longer[|longer| - |shorter|..] == shorter
    ensures EndsWithIgnoreCase(s, shorter)
  {
    var a := s[|s| - |shorter|..];
    var b := s[|s| - |longer|..];
    assert a == b[|longer| - |shorter|..];
    forall i | 0 <= i < |shorter| ensures ToLower(a)[i] == ToLower(shorter)[i] {
      assert ToLower(b)[|longer| - |shorter| + i] == ToLower(longer)[|longer| - |shorter| + i];
    }
  }

  /**
   * `s.replace(/suffix$/i, '')`: removes one case-insensitive occurrence of
   * `suffix` at the end of `s`, or leaves `s` as it is when it does not end
   * with it.
   */
  function StripSuffixIgnoreCase(s: string, suffix: string): (r: string)
    requires suffix != []
    ensures r <= s
    ensures r == s <==> !EndsWithIgnoreCase(s, suffix)
    ensures r != s ==> |r| + |suffix| == |s| && EqualsIgnoreCase(s[|r|..], suffix)
  {
    if EndsWithIgnoreCase(s, suffix) then s[..|s| - |suffix|] else s
  }
}
