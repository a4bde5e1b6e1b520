/**
 * The two string primitives the variant rules rely on: `String.prototype.trim`
 * and `String.prototype.toLowerCase`, on strings as sequences of characters.
 */
module Text {

  /** The characters `trim` removes: ECMAScript's WhiteSpace and LineTerminator code points. */
  predicate IsWhitespace(c: char)
  {
    var n := c as int;
    (0x09 <= n <= 0x0D) || n == 0x20 || n == 0xA0 || n == 0x1680 || (0x2000 <= n <= 0x200A)
    || n == 0x2028 || n == 0x2029 || n == 0x202F || n == 0x205F || n == 0x3000 || n == 0xFEFF
  }

  predicate AllWhitespace(s: string)
  {
    forall i :: 0 <= i < |s| ==> IsWhitespace(s[i])
  }

  /** The first position at or after `i` that is not whitespace, or `|s|` when there is none. */
  function StartIndex(s: string, i: nat): (r: nat)
    requires i <= |s|
    ensures i <= r <= |s|
    decreases |s| - i
  {
    if i < |s| && IsWhitespace(s[i]) then StartIndex(s, i + 1) else i
  }

  /** The end of `s[..j]` once its trailing whitespace is dropped. */
  function EndIndex(s: string, j: nat): (r: nat)
    requires j <= |s|
    ensures r <= j
  {
    if j > 0 && IsWhitespace(s[j - 1]) then EndIndex(s, j - 1) else j
  }

  /** `s.trim()`: the part of `s` between its leading and its trailing whitespace. */
  function Trim(s: string): (r: string)
    ensures |r| <= |s|
  {
    var a, b := StartIndex(s, 0), EndIndex(s, |s|);
    if a < b then s[a..b] else []
  }

  /** `StartIndex` skips only whitespace and stops at a non-whitespace character. */
  lemma {:induction false} StartIndexSpec(s: string, i: nat)
    requires i <= |s|
    ensures forall k :: i <= k < StartIndex(s, i) ==> IsWhitespace(s[k])
    ensures StartIndex(s, i) < |s| ==> !IsWhitespace(s[StartIndex(s, i)])
    decreases |s| - i
  {
    if i < |s| && IsWhitespace(s[i]) {
      StartIndexSpec(s, i + 1);
    }
  }

  /** `EndIndex` drops only whitespace and stops after a non-whitespace character. */
  lemma {:induction false} EndIndexSpec(s: string, j: nat)
    requires j <= |s|
    ensures forall k :: EndIndex(s, j) <= k < j ==> IsWhitespace(s[k])
    ensures EndIndex(s, j) > 0 ==> !IsWhitespace(s[EndIndex(s, j) - 1])
  {
    if j > 0 && IsWhitespace(s[j - 1]) {
      EndIndexSpec(s, j - 1);
    }
  }

  /**
   * The trimmed string is the infix `s[a..a + |Trim(s)|]` with only whitespace
   * before and after it, and (when not empty) it starts and ends with a
   * character that is not whitespace.
   */
  lemma TrimSpec(s: string)
    ensures var r, a := Trim(s), StartIndex(s, 0);
      a + |r| <= |s| && r == s[a..a + |r|] &&
      AllWhitespace(s[..a]) && AllWhitespace(s[a + |r|..]) &&
      (r == [] || (!IsWhitespace(r[0]) && !IsWhitespace(r[|r| - 1])))
  {
    var a, b := StartIndex(s, 0), EndIndex(s, |s|);
    StartIndexSpec(s, 0);
    EndIndexSpec(s, |s|);
    assert AllWhitespace(s[..a]) by {
      forall k | 0 <= k < a ensures IsWhitespace(s[..a][k]) {
        assert s[..a][k] == s[k];
      }
    }
  }

  /** Trimming leaves nothing exactly when every character is whitespace. */
  lemma TrimBlank(s: string)
    ensures Trim(s) == [] <==> AllWhitespace(s)
  {
    var a, b := StartIndex(s, 0), EndIndex(s, |s|);
    StartIndexSpec(s, 0);
    EndIndexSpec(s, |s|);
    if a < b {
      assert !IsWhitespace(s[a]);
    }
  }

  /** Trimming twice is trimming once. */
  lemma TrimIdempotent(s: string)
    ensures Trim(Trim(s)) == Trim(s)
  {
    var t := Trim(s);
    TrimSpec(s);
    if t != [] {
      assert StartIndex(t, 0) == 0;
      assert EndIndex(t, |t|) == |t|;
    }
  }

  /** The lower-case mapping of one character: ASCII and Latin-1 capitals. */
  function LowerChar(c: char): (r: char)
    ensures 'A' <= c <= 'Z' ==> r as int == c as int + 32
    ensures 0xC0 <= c as int <= 0xDE && c as int != 0xD7 ==> r as int == c as int + 32
    ensures !('A' <= c <= 'Z') && !(0xC0 <= c as int <= 0xDE && c as int != 0xD7) ==> r == c
  {
    var n := c as int;
    if 'A' <= c <= 'Z' || (0xC0 <= n <= 0xDE && n != 0xD7) then (n + 32) as char else c
  }

  /** `s.toLowerCase()`: character by character, so the length is kept. */
  function Lower(s: string): (r: string)
    ensures |r| == |s|
    ensures forall i :: 0 <= i < |s| ==> r[i] == LowerChar(s[i])
  {
    seq(|s|, i requires 0 <= i < |s| => LowerChar(s[i]))
  }

  /** Only the empty string lower-cases to the empty string. */
  lemma LowerEmpty(s: string)
    ensures Lower(s) == [] <==> s == []
  {
    assert |Lower(s)| == |s|;
  }
}
