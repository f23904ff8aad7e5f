/** The three JavaScript string methods the search filter calls: String.prototype.trim,
    String.prototype.toLowerCase and String.prototype.includes. */
module JsString {

  /** The characters trim removes: ECMAScript's WhiteSpace and LineTerminator
      (tab, line feed, vertical tab, form feed, carriage return, the Unicode space
      separators, the line and paragraph separators and the byte order mark). */
  predicate IsTrimmable(c: char) {
    var n := c as int;
    (0x09 <= n <= 0x0D) || n == 0x20 || n == 0xA0 || n == 0x1680 || (0x2000 <= n <= 0x200A)
    || n == 0x2028 || n == 0x2029 || n == 0x202F || n == 0x205F || n == 0x3000 || n == 0xFEFF
  }

  /** Every character of `s` is one trim removes (the empty string included). */
  predicate IsBlank(s: string) {
    forall i :: 0 <= i < |s| ==> IsTrimmable(s[i])
  }

  /** Drops the longest trimmable prefix: what is left is a suffix of `s` that does
      not start with a trimmable character, and everything dropped was trimmable. */
  function TrimStart(s: string): (r: string)
    ensures |r| <= |s| && r == s[|s| - |r|..]
    ensures r != [] ==> !IsTrimmable(r[0])
    ensures IsBlank(s[..|s| - |r|])
  {
    if s != [] && IsTrimmable(s[0]) then TrimStart(s[1..]) else s
  }

  /** Drops the longest trimmable suffix: what is left is a prefix of `s` that does
      not end with a trimmable character, and everything dropped was trimmable. */
  function TrimEnd(s: string): (r: string)
    ensures |r| <= |s| && r == s[..|r|]
    ensures r != [] ==> !IsTrimmable(r[|r| - 1])
    ensures IsBlank(s[|r|..])
  {
    if s != [] && IsTrimmable(s[|s| - 1]) then
      var r := TrimEnd(s[..|s| - 1]);
      assert s[|r|..] == s[..|s| - 1][|r|..] + [s[|s| - 1]];
      r
    else s
  }

  /** String.prototype.trim. */
  function Trim(s: string): string {
    TrimEnd(TrimStart(s))
  }

  /** `!s.trim()` holds exactly for the strings made only of trimmable characters. */
  lemma TrimEmptyIffBlank(s: string)
    ensures Trim(s) == [] <==> IsBlank(s)
  {
  }

  /** String.prototype.toLowerCase, restricted to ASCII letters. */
  function ToLower(c: char): char {
    if 'A' <= c <= 'Z' then (c as int + 32) as char else c
  }

  /** The lowered string has no capital ASCII letter left, and each character is
      either kept or is a capital replaced by its small letter. */
  function ToLowerCase(s: string): (r: string)
    ensures |r| == |s|
    ensures forall i :: 0 <= i < |r| ==> !('A' <= r[i] <= 'Z')
    ensures forall i :: 0 <= i < |r| ==>
              r[i] == s[i] || ('A' <= s[i] <= 'Z' && r[i] as int == s[i] as int + 32)
  {
    seq(|s|, i requires 0 <= i < |s| => ToLower(s[i]))
  }

  predicate StartsWith(s: string, prefix: string) {
    |prefix| <= |s| && s[..|prefix|] == prefix
  }

  /** `needle` occurs in `s` starting at index `i`. */
  predicate OccursAt(s: string, needle: string, i: int) {
    0 <= i <= |s| - |needle| && s[i..i + |needle|] == needle
  }

  /** String.prototype.includes: `needle` occurs in `s` at some position. */
  predicate Includes(s: string, needle: string)
    decreases |s|
  {
    StartsWith(s, needle) || (s != [] && Includes(s[1..], needle))
  }

  /** `Includes` finds an occurrence exactly when one exists. */
  lemma {:induction false} IncludesIff(s: string, needle: string)
    ensures Includes(s, needle) <==> exists i :: OccursAt(s, needle, i)
  {
    var n := |needle|;
    if StartsWith(s, needle) {
      assert OccursAt(s, needle, 0);
    } else if s != [] {
      IncludesIff(s[1..], needle);
      if exists i :: OccursAt(s, needle, i) {
        var i :| OccursAt(s, needle, i);
        if i == 0 {
          assert false;
        }
        assert s[1..][i - 1..i - 1 + n] == s[i..i + n];
        assert OccursAt(s[1..], needle, i - 1);
      }
      if Includes(s[1..], needle) {
        var j :| OccursAt(s[1..], needle, j);
        forall k | 0 <= k < n ensures s[j + 1..j + 1 + n][k] == needle[k] {
          calc {
            s[j + 1..j + 1 + n][k];
            s[j + 1 + k];
            s[1..][j + k];
            s[1..][j..j + n][k];
          }
        }
        assert s[j + 1..j + 1 + n] == needle;
        assert OccursAt(s, needle, j + 1);
      }
    }
  }

  /** A string that includes a non-empty needle contains the needle's first character. */
  lemma {:induction false} IncludesFirstChar(s: string, needle: string)
    requires needle != [] && Includes(s, needle)
    ensures needle[0] in s
  {
    if StartsWith(s, needle) {
      assert s[0] == s[..|needle|][0];
    } else {
      IncludesFirstChar(s[1..], needle);
    }
  }

  /** A non-empty needle whose first character is missing from `s` is not included. */
  lemma NotIncludedWithoutFirstChar(s: string, needle: string)
    requires needle != [] && needle[0] !in s
    ensures !Includes(s, needle)
  {
    if Includes(s, needle) {
      IncludesFirstChar(s, needle);
    }
  }
}
