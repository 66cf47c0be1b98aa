/** The string operations the services apply to free text: Java's `String.trim()`, which
    removes every leading and trailing character at or below U+0020, and lower-casing. */
module Text {

  predicate IsSpace(c: char) { c <= ' ' }

  predicate AllSpace(s: string) { forall i :: 0 <= i < |s| ==> IsSpace(s[i]) }

  /** `s` has no removable character at either end. */
  predicate IsTrimmed(s: string) { s == [] || (!IsSpace(s[0]) && !IsSpace(s[|s| - 1])) }

  /** `s` without its leading spaces: what is removed is all space, and what remains does
      not start with a space. */
  function TrimStart(s: string): (r: string)
    ensures |r| <= |s| && r == s[|s| - |r|..]
    ensures forall i :: 0 <= i < |s| - |r| ==> IsSpace(s[i])
    ensures r == [] || !IsSpace(r[0])
  {
    if |s| > 0 && IsSpace(s[0]) then TrimStart(s[1..]) else s
  }

  /** `s` without its trailing spaces. */
  function TrimEnd(s: string): (r: string)
    ensures |r| <= |s| && r == s[..|r|]
    ensures forall i :: |r| <= i < |s| ==> IsSpace(s[i])
    ensures r == [] || !IsSpace(r[|r| - 1])
  {
    if |s| > 0 && IsSpace(s[|s| - 1]) then TrimEnd(s[..|s| - 1]) else s
  }

  /** Java's `s.trim()`. */
  function Trim(s: string): (r: string)
    ensures IsTrimmed(r)
    ensures |r| <= |s|
  {
    TrimEnd(TrimStart(s))
  }

  lemma TrimOfTrimmed(s: string)
    requires IsTrimmed(s)
    ensures Trim(s) == s
  {
  }

  /** Trimming is idempotent. */
  lemma TrimIdempotent(s: string)
    ensures Trim(Trim(s)) == Trim(s)
  {
    TrimOfTrimmed(Trim(s));
  }

  lemma {:induction false} TrimEndAppendSpaces(s: string, w: string)
    requires AllSpace(w)
    ensures TrimEnd(s + w) == TrimEnd(s)
  {
    if |w| > 0 {
      assert (s + w)[..|s + w| - 1] == s + w[..|w| - 1];
      TrimEndAppendSpaces(s, w[..|w| - 1]);
    } else {
      assert s + w == s;
    }
  }

  lemma {:induction false} TrimStartAppend(s: string, w: string)
    requires !AllSpace(s)
    ensures TrimStart(s + w) == TrimStart(s) + w
  {
    if IsSpace(s[0]) {
      assert (s + w)[1..] == s[1..] + w;
      assert !AllSpace(s[1..]) by {
        var i :| 0 <= i < |s| && !IsSpace(s[i]);
        assert s[1..][i - 1] == s[i];
      }
      TrimStartAppend(s[1..], w);
    }
  }

  /** Spaces appended to a text do not survive trimming. */
  lemma TrimAppendSpaces(s: string, w: string)
    requires AllSpace(w)
    ensures Trim(s + w) == Trim(s)
  {
    if AllSpace(s) {
      assert AllSpace(s + w);
      assert TrimStart(s + w) == [] && TrimStart(s) == [];
    } else {
      TrimStartAppend(s, w);
      TrimEndAppendSpaces(TrimStart(s), w);
    }
  }

  lemma {:induction false} TrimStartSpaces(pre: string, t: string)
    requires AllSpace(pre)
    ensures TrimStart(pre + t) == TrimStart(t)
  {
    if |pre| > 0 {
      assert (pre + t)[1..] == pre[1..] + t;
      TrimStartSpaces(pre[1..], t);
    } else {
      assert pre + t == t;
    }
  }

  /** A word between runs of spaces trims to the word. */
  lemma PaddedTrim(pre: string, w: string, post: string)
    requires AllSpace(pre) && AllSpace(post) && w != [] && IsTrimmed(w)
    ensures Trim(pre + w + post) == w
  {
    assert pre + w + post == pre + (w + post);
    TrimStartSpaces(pre, w + post);
    assert (w + post)[0] == w[0];
    assert TrimStart(w + post) == w + post;
    TrimEndAppendSpaces(w, post);
  }

  /** ASCII upper case to lower case; every other character is kept. */
  function LowerChar(c: char): (d: char)
    ensures IsSpace(d) == IsSpace(c)
    ensures !('A' <= d <= 'Z')
  {
    if 'A' <= c <= 'Z' then (c as int + 32) as char else c
  }

  /** `s.toLowerCase()`, for the ASCII letters. */
  function ToLower(s: string): (r: string)
    ensures |r| == |s|
    ensures forall i :: 0 <= i < |r| ==> !('A' <= r[i] <= 'Z')
  {
    seq(|s|, i requires 0 <= i < |s| => LowerChar(s[i]))
  }

  /** Lower-casing keeps the positions of spaces, so it keeps a trimmed text trimmed. */
  lemma ToLowerKeepsTrimmed(s: string)
    requires IsTrimmed(s)
    ensures IsTrimmed(ToLower(s))
  {
    if s != [] {
      assert ToLower(s)[0] == LowerChar(s[0]);
      assert ToLower(s)[|s| - 1] == LowerChar(s[|s| - 1]);
    }
  }

  /** A lower-cased text holds no upper-case letter, so lower-casing it again changes nothing. */
  lemma ToLowerIdempotent(s: string)
    ensures ToLower(ToLower(s)) == ToLower(s)
  {
  }

  predicate StartsWith(s: string, prefix: string) { |prefix| <= |s| && s[..|prefix|] == prefix }

  predicate EndsWith(s: string, suffix: string) { |suffix| <= |s| && s[|s| - |suffix|..] == suffix }

  /** `part` occurs in `s` (Java's `s.contains(part)`). */
  predicate Contains(s: string, part: string) {
    StartsWith(s, part) || (|s| > 0 && Contains(s[1..], part))
  }
}
