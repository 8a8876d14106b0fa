/**
 * String helpers with the PHP semantics the access-control layer relies on:
 * `lcfirst`, `ucfirst`, prefix tests, `explode("-", ...)`, the ctype_alpha test
 * behind Assert::alpha, and the truthiness of strings.
 * Case mapping is ASCII only.
 */
module Text {

  import opened Wrappers

  predicate IsUpper(c: char) { 'A' <= c <= 'Z' }

  predicate IsLower(c: char) { 'a' <= c <= 'z' }

  /** A letter in the C locale, as ctype_alpha sees it. */
  predicate IsLetter(c: char) { IsUpper(c) || IsLower(c) }

  /** A word character of PCRE's `\w` without the Unicode flag. */
  predicate IsWordChar(c: char) { IsLetter(c) || ('0' <= c <= '9') || c == '_' }

  function ToLower(c: char): (r: char)
    ensures IsUpper(c) ==> IsLower(r) && r as int == c as int + 32
    ensures !IsUpper(c) ==> r == c
  {
    if IsUpper(c) then (c as int + 32) as char else c
  }

  function ToUpper(c: char): (r: char)
    ensures IsLower(c) ==> IsUpper(r) && r as int == c as int - 32
    ensures !IsLower(c) ==> r == c
  {
    if IsLower(c) then (c as int - 32) as char else c
  }

  /** PHP `lcfirst`: only the first character changes, and only an upper-case one. */
  function LcFirst(s: string): (r: string)
    ensures |r| == |s|
    ensures |s| > 0 ==> r[1..] == s[1..] && r[0] == ToLower(s[0])
  {
    if s == [] then s else [ToLower(s[0])] + s[1..]
  }

  /** PHP `ucfirst`. */
  function UcFirst(s: string): (r: string)
    ensures |r| == |s|
    ensures |s| > 0 ==> r[1..] == s[1..] && r[0] == ToUpper(s[0])
  {
    if s == [] then s else [ToUpper(s[0])] + s[1..]
  }

  predicate StartsWith(s: string, prefix: string)
  {
    |prefix| <= |s| && s[..|prefix|] == prefix
  }

  /** ctype_alpha: non-empty and letters only (Webmozart's Assert::alpha). */
  predicate IsAlpha(s: string)
  {
    |s| > 0 && forall i :: 0 <= i < |s| ==> IsLetter(s[i])
  }

  /** PHP truthiness of a string: "" and "0" are false, everything else true. */
  predicate Truthy(s: string)
  {
    s != "" && s != "0"
  }

  /** Truthiness of a nullable string (null is false). */
  predicate TruthyOpt(s: Option<string>)
  {
    s.Some? && Truthy(s.value)
  }

  /** PHP `explode(sep, s)`: the pieces between separators, at least one piece. */
  function Split(s: string, sep: char): (pieces: seq<string>)
    ensures |pieces| >= 1
    ensures forall k :: 0 <= k < |pieces| ==> sep !in pieces[k]
    decreases |s|
  {
    if s == [] then [""]
    else
      var rest := Split(s[1..], sep);
      if s[0] == sep then [""] + rest
      else [[s[0]] + rest[0]] + rest[1..]
  }

  /** PHP `implode(sep, pieces)`: the inverse of Split. */
  function Join(pieces: seq<string>, sep: char): string
    requires |pieces| >= 1
  {
    if |pieces| == 1 then pieces[0] else pieces[0] + [sep] + Join(pieces[1..], sep)
  }

  /** explode followed by implode gives the name back. */
  lemma {:induction false} JoinSplit(s: string, sep: char)
    ensures Join(Split(s, sep), sep) == s
    decreases |s|
  {
    if s != [] {
      var rest := Split(s[1..], sep);
      JoinSplit(s[1..], sep);
      if s[0] == sep {
        assert Split(s, sep) == [""] + rest;
        assert ([""] + rest)[1..] == rest;
      } else {
        var pieces := [[s[0]] + rest[0]] + rest[1..];
        assert Split(s, sep) == pieces;
        if |rest| == 1 {
          assert pieces == [[s[0]] + rest[0]];
        } else {
          assert pieces[1..] == rest[1..];
          assert Join(rest, sep) == rest[0] + [sep] + Join(rest[1..], sep);
        }
      }
    }
  }
}
