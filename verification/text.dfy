/**
 * The part of ECMAScript's `String.prototype.trim` that the roster form
 * relies on: stripping leading and trailing white space and line terminators.
 */
module Text {

  /**
   * ECMAScript WhiteSpace (TAB, VT, FF, SP, NBSP, ZWNBSP and every
   * space separator of Unicode category Zs) and LineTerminator (LF, CR,
   * LS, PS) code points.
   */
  predicate IsWhiteSpace(c: char) {
    || c == '\t' || c == '\U{000B}' || c == '\U{000C}' || c == ' '
    || c == '\U{00A0}' || c == '\U{FEFF}' || c == '\U{1680}'
    || ('\U{2000}' <= c <= '\U{200A}')
    || c == '\U{202F}' || c == '\U{205F}' || c == '\U{3000}'
    || c == '\n' || c == '\r' || c == '\U{2028}' || c == '\U{2029}'
  }

  /** Every character of `s` is white space (vacuously true of ""). */
  predicate AllWhiteSpace(s: string) {
    forall i :: 0 <= i < |s| ==> IsWhiteSpace(s[i])
  }

  /** `s` with its leading white space removed: a suffix of `s` that does not start with white space. */
  function TrimStart(s: string): (r: string)
    ensures |r| <= |s| && r == s[|s| - |r|..]
    ensures AllWhiteSpace(s[..|s| - |r|])
    ensures |r| > 0 ==> !IsWhiteSpace(r[0])
  {
    if |s| > 0 && IsWhiteSpace(s[0]) then
      var r := TrimStart(s[1..]);
      forall i | 0 <= i < |s| - |r| ensures IsWhiteSpace(s[i]) {
        if i > 0 {
          assert s[i] == s[1..][..|s| - 1 - |r|][i - 1];
        }
      }
      r
    else s
  }

  /** `s` with its trailing white space removed: a prefix of `s` that does not end with white space. */
  function TrimEnd(s: string): (r: string)
    ensures |r| <= |s| && r == s[..|r|]
    ensures AllWhiteSpace(s[|r|..])
    ensures |r| > 0 ==> !IsWhiteSpace(r[|r| - 1])
  {
    if |s| > 0 && IsWhiteSpace(s[|s| - 1]) then
      var r := TrimEnd(s[..|s| - 1]);
      assert s[..|s| - 1][|r|..] == s[|r|..|s| - 1];
      r
    else s
  }

  /**
   * `String.prototype.trim`: the slice of `s` left after both ends lose
   * their white space; everything cut off is white space.
   */
  function Trim(s: string): (r: string)
    ensures exists a, b :: 0 <= a <= b <= |s| && r == s[a..b]
                           && AllWhiteSpace(s[..a]) && AllWhiteSpace(s[b..])
    ensures |r| > 0 ==> !IsWhiteSpace(r[0]) && !IsWhiteSpace(r[|r| - 1])
  {
    var t := TrimStart(s);
    var r := TrimEnd(t);
    var a := |s| - |t|;
    var b := a + |r|;
    assert r == s[a..b];
    assert AllWhiteSpace(s[b..]) by {
      assert t[|r|..] == s[b..];
    }
    assert AllWhiteSpace(s[..a]);
    r
  }

  /** A name is blank, and so falsy after trimming, exactly when it consists of white space only. */
  predicate IsBlank(s: string)
    ensures IsBlank(s) <==> AllWhiteSpace(s)
  {
    var r := Trim(s);
    if r == [] then
      assert forall i :: 0 <= i < |s| ==> IsWhiteSpace(s[i]) by {
        var a, b :| 0 <= a <= b <= |s| && r == s[a..b] && AllWhiteSpace(s[..a]) && AllWhiteSpace(s[b..]);
        forall i | 0 <= i < |s| ensures IsWhiteSpace(s[i]) {
          if i < a { assert s[..a][i] == s[i]; } else { assert s[b..][i - b] == s[i]; }
        }
      }
      true
    else
      assert !IsWhiteSpace(r[0]);
      false
  }
}
