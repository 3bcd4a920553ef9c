/** Character classes and the Kotlin string helpers the plugin relies on
    (`isBlank`, `split`, `replace`, `substringBefore`, `uppercase`, ...). */
module Text {

  /** Kotlin's `Char.isWhitespace()` on the JVM: `Character.isWhitespace`
      or `Character.isSpaceChar`. */
  predicate IsWhitespace(c: char) {
    || c == '\t' || c == '\n' || c == '\U{000B}' || c == '\U{000C}' || c == '\r'
    || ('\U{001C}' <= c <= '\U{001F}') || c == ' ' || c == '\U{00A0}' || c == '\U{1680}'
    || ('\U{2000}' <= c <= '\U{200A}') || c == '\U{2028}' || c == '\U{2029}'
    || c == '\U{202F}' || c == '\U{205F}' || c == '\U{3000}'
  }

  /** Kotlin's `isBlank()` (and `isNullOrBlank()` once a missing attribute is ""). */
  predicate IsBlank(s: string) {
    forall i | 0 <= i < |s| :: IsWhitespace(s[i])
  }

  /** The characters Java's regex `.` refuses to match (no DOTALL, no UNIX_LINES). */
  predicate IsLineTerminator(c: char) {
    c == '\n' || c == '\r' || c == '\U{0085}' || c == '\U{2028}' || c == '\U{2029}'
  }

  predicate NoLineTerminator(s: string) {
    forall i | 0 <= i < |s| :: !IsLineTerminator(s[i])
  }

  /** `\d` in a Java regex without UNICODE_CHARACTER_CLASS. */
  predicate IsDigit(c: char) { '0' <= c <= '9' }

  /** `[a-z]` in a Java regex. */
  predicate IsLowerLetter(c: char) { 'a' <= c <= 'z' }

  predicate IsUpperLetter(c: char) { 'A' <= c <= 'Z' }

  function UpperChar(c: char): (r: char)
    ensures IsLowerLetter(c) ==> IsUpperLetter(r)
    ensures !IsLowerLetter(c) ==> r == c
  {
    if IsLowerLetter(c) then (c as int - 32) as char else c
  }

  function LowerChar(c: char): (r: char)
    ensures IsUpperLetter(c) ==> IsLowerLetter(r)
    ensures !IsUpperLetter(c) ==> r == c
  {
    if IsUpperLetter(c) then (c as int + 32) as char else c
  }

  /** `uppercase()`, restricted to ASCII: only 'a'..'z' are mapped. */
  function Upper(s: string): (r: string)
    ensures |r| == |s|
    ensures forall i | 0 <= i < |s| :: r[i] == UpperChar(s[i])
  {
    if s == [] then [] else [UpperChar(s[0])] + Upper(s[1..])
  }

  /** ASCII lower-casing, as `java.util.Locale` applies to a language. */
  function Lower(s: string): (r: string)
    ensures |r| == |s|
    ensures forall i | 0 <= i < |s| :: r[i] == LowerChar(s[i])
  {
    if s == [] then [] else [LowerChar(s[0])] + Lower(s[1..])
  }

  /** `translatable.equals("false", ignoreCase = true)`: Java's equalsIgnoreCase
      compares the upper-case forms, so the long s 'ſ' (U+017F) matches 's'. */
  predicate IsFalseIgnoringCase(s: string) {
    && |s| == 5
    && (s[0] == 'f' || s[0] == 'F')
    && (s[1] == 'a' || s[1] == 'A')
    && (s[2] == 'l' || s[2] == 'L')
    && (s[3] == 's' || s[3] == 'S' || s[3] == '\U{017F}')
    && (s[4] == 'e' || s[4] == 'E')
  }

  predicate IsSeparator(c: char) { c == '-' || c == '_' }

  predicate NoSeparator(s: string) {
    forall i | 0 <= i < |s| :: !IsSeparator(s[i])
  }

  /** Index of the first '-' or '_' in `s`, or |s| when there is none. */
  function FirstSeparator(s: string): (i: nat)
    ensures i <= |s|
    ensures NoSeparator(s[..i])
    ensures i < |s| ==> IsSeparator(s[i])
  {
    if s == [] then 0
    else if IsSeparator(s[0]) then 0
    else 1 + FirstSeparator(s[1..])
  }

  /** `split('-', '_')`: every separator cuts, empty pieces are kept. */
  function SplitOnSeparators(s: string): (parts: seq<string>)
    ensures |parts| >= 1
    ensures forall j | 0 <= j < |parts| :: NoSeparator(parts[j])
    decreases |s|
  {
    var i := FirstSeparator(s);
    if i == |s| then [s] else [s[..i]] + SplitOnSeparators(s[i + 1..])
  }

  lemma SplitWithoutSeparator(s: string)
    requires NoSeparator(s)
    ensures SplitOnSeparators(s) == [s]
  {
    FirstSeparatorAbsent(s);
  }

  lemma {:induction false} FirstSeparatorAbsent(s: string)
    requires NoSeparator(s)
    ensures FirstSeparator(s) == |s|
  {
    if s != [] {
      FirstSeparatorAbsent(s[1..]);
    }
  }

  lemma {:induction false} FirstSeparatorAt(a: string, c: char, b: string)
    requires NoSeparator(a) && IsSeparator(c)
    ensures FirstSeparator(a + [c] + b) == |a|
  {
    if a != [] {
      assert (a + [c] + b)[1..] == a[1..] + [c] + b;
      FirstSeparatorAt(a[1..], c, b);
    }
  }

  /** Splitting `a` + separator + `b` yields `a` and then the pieces of `b`. */
  lemma SplitAtSeparator(a: string, c: char, b: string)
    requires NoSeparator(a) && IsSeparator(c)
    ensures SplitOnSeparators(a + [c] + b) == [a] + SplitOnSeparators(b)
  {
    var s := a + [c] + b;
    FirstSeparatorAt(a, c, b);
    assert s[..|a|] == a;
    assert s[|a| + 1..] == b;
  }

  /** `parts.getOrElse(i) { "" }`. */
  function PartOrEmpty(parts: seq<string>, i: nat): string {
    if i < |parts| then parts[i] else ""
  }

  /** `replace(x.toString(), "")` for a single character x. */
  function RemoveChar(s: string, x: char): (r: string)
    ensures x !in r
    ensures |r| <= |s|
    ensures x !in s ==> r == s
  {
    if s == [] then []
    else if s[0] == x then RemoveChar(s[1..], x)
    else [s[0]] + RemoveChar(s[1..], x)
  }

  /** `substringBefore(c)` and `split(c, limit = 2).first()`: the text before
      the first `c`, or all of `s` when `c` does not occur. */
  function SubstringBefore(s: string, c: char): (r: string)
    ensures r <= s
    ensures c !in r
    ensures c !in s ==> r == s
    ensures |r| < |s| ==> s[|r|] == c
  {
    if s == [] then []
    else if s[0] == c then []
    else [s[0]] + SubstringBefore(s[1..], c)
  }

  /** `substringAfterLast('.', "")`, which is what `File.extension` returns for a name. */
  function Extension(name: string): (r: string)
    ensures '.' !in r
    ensures '.' !in name ==> r == ""
    ensures '.' in name ==> |r| < |name| && name[|name| - |r| - 1] == '.' && name[|name| - |r|..] == r
  {
    if name == [] then []
    else if name[|name| - 1] == '.' then []
    else
      var init := name[..|name| - 1];
      if '.' in init then
        var r := Extension(init) + [name[|name| - 1]];
        assert name[|name| - |r| - 1] == init[|init| - |r| + 1 - 1];
        assert name[|name| - |r|..] == init[|init| - |r| + 1..] + [name[|name| - 1]];
        r
      else
        assert '.' !in name by {
          assert name == init + [name[|name| - 1]];
        }
        []
  }
}
