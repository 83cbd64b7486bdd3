/** JavaScript strings as the server sees them: sequences of UTF-16 code units,
    so that `s.length` is `|s|`, and `String.prototype.trim` over the
    ECMAScript WhiteSpace and LineTerminator code points. */
module JsText {

  /** One UTF-16 code unit. */
  newtype CodeUnit = x: int | 0 <= x < 0x1_0000

  /** A JavaScript string value. */
  type JsString = seq<CodeUnit>

  /** The code units of a string literal of this model (all of them are ASCII);
      a character outside the Basic Multilingual Plane becomes U+FFFD. */
  function Lit(s: string): (r: JsString)
    ensures |r| == |s|
  {
    seq(|s|, i requires 0 <= i < |s| =>
      if s[i] as int < 0x1_0000 then s[i] as int as CodeUnit else 0xFFFD)
  }

  /** WhiteSpace or LineTerminator in the sense of ECMAScript: TAB, VT, FF,
      SPACE, NBSP, ZWNBSP, the other Zs code points, LF, CR, LS and PS. */
  predicate IsWhiteSpace(c: CodeUnit) {
    || c == 0x09 || c == 0x0B || c == 0x0C || c == 0x20 || c == 0xA0 || c == 0xFEFF
    || c == 0x1680 || (0x2000 <= c <= 0x200A) || c == 0x202F || c == 0x205F || c == 0x3000
    || c == 0x0A || c == 0x0D || c == 0x2028 || c == 0x2029
  }

  predicate AllWhiteSpace(s: JsString) {
    forall k :: 0 <= k < |s| ==> IsWhiteSpace(s[k])
  }

  /** Scanning forward from `i`, the index of the first code unit that is not
      white space, or `|s|` when there is none. */
  function SkipLeading(s: JsString, i: nat): (n: nat)
    requires i <= |s|
    ensures i <= n <= |s|
    ensures forall k :: i <= k < n ==> IsWhiteSpace(s[k])
    ensures n < |s| ==> !IsWhiteSpace(s[n])
    decreases |s| - i
  {
    if i < |s| && IsWhiteSpace(s[i]) then SkipLeading(s, i + 1) else i
  }

  /** Scanning backward from `j`, the end of the last code unit before `j`
      that is not white space, or 0 when there is none. */
  function SkipTrailing(s: JsString, j: nat): (n: nat)
    requires j <= |s|
    ensures n <= j
    ensures forall k :: n <= k < j ==> IsWhiteSpace(s[k])
    ensures n > 0 ==> !IsWhiteSpace(s[n - 1])
    decreases j
  {
    if j > 0 && IsWhiteSpace(s[j - 1]) then SkipTrailing(s, j - 1) else j
  }

  /** `s.trim()`: the text between the leading and the trailing white space. */
  function Trim(s: JsString): (r: JsString)
    ensures |r| <= |s|
  {
    var i, j := SkipLeading(s, 0), SkipTrailing(s, |s|);
    if i < j then s[i..j] else []
  }

  /** `s.trim()` is a slice `s[i..j]` of the input with only white space
      outside it, and it neither starts nor ends with white space. */
  lemma TrimIsInnerSlice(s: JsString)
    ensures exists i, j :: 0 <= i <= j <= |s| && Trim(s) == s[i..j]
                           && (forall k :: 0 <= k < i ==> IsWhiteSpace(s[k]))
                           && (forall k :: j <= k < |s| ==> IsWhiteSpace(s[k]))
    ensures Trim(s) != [] ==> !IsWhiteSpace(Trim(s)[0]) && !IsWhiteSpace(Trim(s)[|Trim(s)| - 1])
  {
    var i, j := SkipLeading(s, 0), SkipTrailing(s, |s|);
    if i < j {
      assert Trim(s) == s[i..j];
      assert Trim(s)[0] == s[i] && Trim(s)[|Trim(s)| - 1] == s[j - 1];
    } else {
      assert i == |s|;
      assert Trim(s) == s[|s|..|s|];
    }
  }

  /** `s.trim().length === 0` exactly when every code unit of `s` is white space. */
  lemma TrimEmptyIffAllWhiteSpace(s: JsString)
    ensures Trim(s) == [] <==> AllWhiteSpace(s)
  {
    var i, j := SkipLeading(s, 0), SkipTrailing(s, |s|);
    if i < j {
      assert |s[i..j]| > 0 && !IsWhiteSpace(s[i]);
    }
  }
}
