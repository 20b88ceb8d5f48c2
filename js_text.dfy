/** The two pieces of JavaScript string behaviour the quiz relies on:
    `String.prototype.toLowerCase`, restricted to ASCII letters, and the
    character set that `String.prototype.trim` strips. */
module JsText {

  /** `toLowerCase` of one character: only 'A'..'Z' change. */
  function LowerChar(c: char): char
  {
    if 'A' <= c <= 'Z' then (c as int + 32) as char else c
  }

  /** `toLowerCase` of a string, character by character. */
  function Lower(s: string): (r: string)
    ensures |r| == |s|
    ensures forall i :: 0 <= i < |s| ==> r[i] == LowerChar(s[i])
  {
    if s == [] then [] else [LowerChar(s[0])] + Lower(s[1..])
  }

  /** Folding never produces a space from anything but a space. */
  lemma LowerCharOfSpace(c: char)
    ensures LowerChar(c) == ' ' <==> c == ' '
  {
  }

  /** The characters `trim` removes: ECMAScript WhiteSpace (tab, vertical
      tab, form feed, space, no-break space, byte-order mark and the
      space separators of Unicode category Zs) and LineTerminator
      (line feed, carriage return, line and paragraph separators). */
  predicate IsTrimmable(c: char)
  {
    || c == '\t' || c == '\U{000B}' || c == '\U{000C}' || c == ' '
    || c == '\U{00A0}' || c == '\U{FEFF}'
    || c == '\U{1680}' || '\U{2000}' <= c <= '\U{200A}'
    || c == '\U{202F}' || c == '\U{205F}' || c == '\U{3000}'
    || c == '\n' || c == '\r' || c == '\U{2028}' || c == '\U{2029}'
  }

  /** Every character of `s` is one that `trim` removes. */
  predicate AllTrimmable(s: string)
  {
    forall k :: 0 <= k < |s| ==> IsTrimmable(s[k])
  }

  /** The first position at or after `i` that `trim` keeps, or |s|. */
  function SkipForward(s: string, i: nat): (n: nat)
    requires i <= |s|
    ensures i <= n <= |s|
    ensures forall k :: i <= k < n ==> IsTrimmable(s[k])
    ensures n == |s| || !IsTrimmable(s[n])
    decreases |s| - i
  {
    if i < |s| && IsTrimmable(s[i]) then SkipForward(s, i + 1) else i
  }

  /** The end of what `trim` keeps before position `j`, or 0. */
  function SkipBackward(s: string, j: nat): (n: nat)
    requires j <= |s|
    ensures n <= j
    ensures forall k :: n <= k < j ==> IsTrimmable(s[k])
    ensures n == 0 || !IsTrimmable(s[n - 1])
  {
    if j > 0 && IsTrimmable(s[j - 1]) then SkipBackward(s, j - 1) else j
  }

  /** Leading trimmable characters removed: what is cut off is all
      trimmable, and what is kept does not start with a trimmable one. */
  function TrimStart(s: string): (r: string)
    ensures |r| <= |s| && r == s[|s| - |r|..]
    ensures AllTrimmable(s[..|s| - |r|])
    ensures r == [] || !IsTrimmable(r[0])
    ensures r == [] <==> AllTrimmable(s)
  {
    var n := SkipForward(s, 0);
    assert n < |s| ==> s[n..][0] == s[n];
    s[n..]
  }

  /** Trailing trimmable characters removed: what is cut off is all
      trimmable, and what is kept does not end with a trimmable one. */
  function TrimEnd(s: string): (r: string)
    ensures |r| <= |s| && r == s[..|r|]
    ensures AllTrimmable(s[|r|..])
    ensures r == [] || !IsTrimmable(r[|r| - 1])
    ensures r == [] <==> AllTrimmable(s)
  {
    var n := SkipBackward(s, |s|);
    assert forall k :: 0 <= k < |s| - n ==> s[n..][k] == s[n + k];
    s[..n]
  }

  /** `trim`: both ends stripped. Nothing longer than the input comes
      out, and what comes out neither starts nor ends with a trimmable
      character. */
  function Trim(s: string): (r: string)
    ensures |r| <= |s|
    ensures r == [] || (!IsTrimmable(r[0]) && !IsTrimmable(r[|r| - 1]))
  {
    var t := TrimStart(s);
    var r := TrimEnd(t);
    assert r != [] ==> r[0] == t[0];
    r
  }

  /** `!s.trim()` holds exactly when every character of `s` is trimmable
      (in particular for the empty string). */
  lemma {:induction false} TrimEmptyIffBlank(s: string)
    ensures Trim(s) == [] <==> AllTrimmable(s)
  {
    var t := TrimStart(s);
    if t == [] {
      assert Trim(s) == [];
    } else {
      assert !IsTrimmable(t[0]);
      assert TrimEnd(t) != [];
      assert t[0] == s[|s| - |t|];
    }
  }

  /** What trimming keeps is a slice of the input whose two ends are not
      trimmable, and everything cut off either side is trimmable. */
  lemma {:induction false} TrimIsInnerSlice(s: string)
    ensures var r := Trim(s);
      && (exists i, j :: 0 <= i <= j <= |s| && r == s[i..j] && AllTrimmable(s[..i]) && AllTrimmable(s[j..]))
      && (r == [] || (!IsTrimmable(r[0]) && !IsTrimmable(r[|r| - 1])))
  {
    var t := TrimStart(s);
    var r := TrimEnd(t);
    var i := |s| - |t|;
    var j := i + |r|;
    assert r == s[i..j];
    assert AllTrimmable(s[..i]);
    assert AllTrimmable(s[j..]) by {
      forall k | 0 <= k < |s| - j
        ensures IsTrimmable(s[j..][k])
      {
        assert s[j..][k] == t[|r| + k];
      }
    }
    assert 0 <= i <= j <= |s| && r == s[i..j] && AllTrimmable(s[..i]) && AllTrimmable(s[j..]);
    if r != [] {
      assert r[0] == t[0];
    }
  }
}
