/**
 Shared vocabulary for the two string-processing cores: an `Option` type for the
 values that Python and Swift represent with `None` / `nil`, character classes,
 and the ASCII case folding used by case-insensitive comparisons.
 */
module Base {

  /** A value that may be absent: Swift's `T?`, Python's `None`. */
  datatype Option<+T> = None | Some(value: T) {

    /** Swift's `x ?? default`. */
    function GetOr(default: T): (r: T) {
      match this
      case Some(v) => v
      case None => default
    }
  }

  predicate IsAsciiUpper(c: char) {
    'A' <= c <= 'Z'
  }

  predicate IsAsciiLower(c: char) {
    'a' <= c <= 'z'
  }

  /** The class `[A-Z]` under `(?i)`: an ASCII letter of either case. */
  predicate IsAsciiLetter(c: char) {
    IsAsciiUpper(c) || IsAsciiLower(c)
  }

  /** Lower-case mapping restricted to ASCII: upper-case letters move to
      their lower-case partner, every other character is left alone. */
  function Lower(c: char): (r: char)
    ensures IsAsciiUpper(c) ==> IsAsciiLower(r) && r as int - c as int == 'a' as int - 'A' as int
    ensures !IsAsciiUpper(c) ==> r == c
  {
    if IsAsciiUpper(c) then (c as int + ('a' as int - 'A' as int)) as char else c
  }

  /** `s.lowercased()` restricted to ASCII. */
  function LowerString(s: string): (r: string)
    ensures |r| == |s|
    ensures forall i :: 0 <= i < |s| ==> r[i] == Lower(s[i])
  {
    if s == [] then [] else [Lower(s[0])] + LowerString(s[1..])
  }

  /** The two strings are equal when case is ignored. */
  predicate FoldEq(a: string, b: string) {
    |a| == |b| && forall i :: 0 <= i < |a| ==> Lower(a[i]) == Lower(b[i])
  }

  /** Two keyword lists that differ only in the case of their letters. */
  predicate FoldEqAll(a: seq<string>, b: seq<string>) {
    |a| == |b| && forall i :: 0 <= i < |a| ==> FoldEq(a[i], b[i])
  }

  /** Python's `str.isspace()` for a single character: the characters
      `str.strip()` removes when called without arguments. */
  predicate IsSpace(c: char) {
    || '\t' <= c <= '\r'
    || '\U{1C}' <= c <= ' '
    || c == '\U{85}'
    || c == '\U{A0}'
    || c == '\U{1680}'
    || '\U{2000}' <= c <= '\U{200A}'
    || c == '\U{2028}'
    || c == '\U{2029}'
    || c == '\U{202F}'
    || c == '\U{205F}'
    || c == '\U{3000}'
  }

  /** Every character of `s` is whitespace (vacuously so for `""`). */
  predicate IsBlank(s: string) {
    forall i :: 0 <= i < |s| ==> IsSpace(s[i])
  }

  /** Case folding never turns a letter into a non-letter or vice versa, and
      never touches whitespace or newlines. */
  lemma FoldPreservesClasses(c: char, d: char)
    requires Lower(c) == Lower(d)
    ensures IsAsciiLetter(c) <==> IsAsciiLetter(d)
    ensures IsSpace(c) <==> IsSpace(d)
    ensures c == '\n' <==> d == '\n'
  {
  }

  /** `lowercased()` comparison against a lower-case word is the same as
      case-insensitive equality with it. */
  lemma LowerStringIsFold(s: string, t: string)
    requires LowerString(t) == t
    ensures LowerString(s) == t <==> FoldEq(s, t)
  {
    if FoldEq(s, t) {
      assert forall i :: 0 <= i < |s| ==> LowerString(s)[i] == t[i] by {
        forall i | 0 <= i < |s| ensures LowerString(s)[i] == t[i] {
          assert Lower(t[i]) == LowerString(t)[i];
        }
      }
    }
    if LowerString(s) == t {
      forall i | 0 <= i < |s| ensures Lower(s[i]) == Lower(t[i]) {
        assert Lower(t[i]) == LowerString(t)[i];
        assert Lower(s[i]) == t[i];
      }
    }
  }
}
