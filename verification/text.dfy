/**
 The three string primitives the widget relies on, as ECMAScript defines them
 for `String.prototype.trim`, `String.prototype.toLowerCase` and
 `String.prototype.includes`. `trim` uses the exact ECMAScript set of white
 space and line terminator code points; `toLowerCase` is approximated by its
 ASCII part (A-Z to a-z, every other character unchanged).
 */
module Text {

  /** ECMAScript WhiteSpace and LineTerminator code points: what `trim` strips. */
  predicate IsSpace(c: char) {
    || c == ' ' || c == '\t' || c == '\n' || c == '\r'
    || c == '\U{000B}' || c == '\U{000C}' || c == '\U{00A0}' || c == '\U{1680}'
    || ('\U{2000}' <= c && c <= '\U{200A}')
    || c == '\U{2028}' || c == '\U{2029}' || c == '\U{202F}' || c == '\U{205F}'
    || c == '\U{3000}' || c == '\U{FEFF}'
  }

  /** Every character of `s` is white space (vacuously true of the empty string). */
  predicate AllSpace(s: string) {
    forall i :: 0 <= i < |s| ==> IsSpace(s[i])
  }

  /** `s` with its leading white space removed. */
  function TrimStart(s: string): (r: string)
    ensures |r| <= |s| && r == s[|s| - |r|..]
    ensures forall i :: 0 <= i < |s| - |r| ==> IsSpace(s[i])
    ensures r == [] || !IsSpace(r[0])
  {
    if |s| > 0 && IsSpace(s[0]) then TrimStart(s[1..]) else s
  }

  /** `s` with its trailing white space removed. */
  function TrimEnd(s: string): (r: string)
    ensures |r| <= |s| && r == s[..|r|]
    ensures forall i :: |r| <= i < |s| ==> IsSpace(s[i])
    ensures r == [] || !IsSpace(r[|r| - 1])
  {
    if |s| > 0 && IsSpace(s[|s| - 1]) then TrimEnd(s[..|s| - 1]) else s
  }

  /** `r` sits at offset `a` of `s` and everything around it is white space. */
  ghost predicate StrippedAt(s: string, a: int, r: string) {
    && 0 <= a && a + |r| <= |s|
    && s[a..a + |r|] == r
    && AllSpace(s[..a]) && AllSpace(s[a + |r|..])
  }

  /** A string stripped of white space to nothing was white space throughout. */
  lemma StrippedAllSpace(s: string, a: int, r: string)
    requires StrippedAt(s, a, r)
    requires r == [] || !IsSpace(r[0])
    ensures r == [] <==> AllSpace(s)
  {
    if r == [] {
      forall i | 0 <= i < |s|
        ensures IsSpace(s[i])
      {
        if i < a {
          assert s[..a][i] == s[i];
        } else {
          assert s[a..][i - a] == s[i];
        }
      }
    } else {
      assert s[a..a + |r|][0] == s[a];
    }
  }

  /**
   A suffix `t` of `s` after white space, cut down to a prefix `r` of `t`
   before white space, is `s` stripped at offset `|s| - |t|`.
   */
  lemma StripJoin(s: string, t: string, r: string)
    requires |t| <= |s| && t == s[|s| - |t|..]
    requires forall i :: 0 <= i < |s| - |t| ==> IsSpace(s[i])
    requires |r| <= |t| && r == t[..|r|]
    requires forall i :: |r| <= i < |t| ==> IsSpace(t[i])
    ensures StrippedAt(s, |s| - |t|, r)
  {
    var a := |s| - |t|;
    assert s[a..a + |r|] == r;
    assert AllSpace(s[..a]) by {
      forall i | 0 <= i < a
        ensures IsSpace(s[..a][i])
      {
        assert s[..a][i] == s[i];
      }
    }
    var u := s[a + |r|..];
    assert AllSpace(u) by {
      forall i | 0 <= i < |u|
        ensures IsSpace(u[i])
      {
        assert u[i] == t[|r| + i];
      }
    }
  }

  /** `String.prototype.trim`. */
  function Trim(s: string): (r: string)
    ensures r == [] <==> AllSpace(s)
    ensures r != [] ==> !IsSpace(r[0]) && !IsSpace(r[|r| - 1])
    ensures exists a :: StrippedAt(s, a, r)
  {
    var t := TrimStart(s);
    var r := TrimEnd(t);
    StripJoin(s, t, r);
    assert r == [] || r[0] == t[0];
    StrippedAllSpace(s, |s| - |t|, r);
    r
  }

  /** ASCII lower-casing of one character. */
  function LowerChar(c: char): char {
    if 'A' <= c && c <= 'Z' then (c as int + 32) as char else c
  }

  /** `String.prototype.toLowerCase`, restricted to ASCII letters. */
  function Lower(s: string): (r: string)
    ensures |r| == |s|
  {
    seq(|s|, i requires 0 <= i < |s| => LowerChar(s[i]))
  }

  /**
   A character that is not an ASCII letter occurs in `Lower(s)` iff it occurs
   in `s`. This holds for the ASCII lower-casing modelled here, not for full
   Unicode `toLowerCase` (which maps, say, 'Σ' to 'σ').
   */
  lemma LowerKeepsNonLetter(s: string, c: char)
    requires !('A' <= c && c <= 'Z') && !('a' <= c && c <= 'z')
    ensures c in Lower(s) <==> c in s
  {
    if c in s {
      var k :| 0 <= k < |s| && s[k] == c;
      assert Lower(s)[k] == c;
    }
    if c in Lower(s) {
      var k :| 0 <= k < |s| && Lower(s)[k] == c;
      assert s[k] == c;
    }
  }

  /** `n` occurs in `h` starting at index `i`. */
  ghost predicate OccursAt(h: string, n: string, i: int) {
    0 <= i && i + |n| <= |h| && h[i..i + |n|] == n
  }

  /** `n` occurs in `h` at some offset. */
  ghost predicate Occurs(h: string, n: string) {
    exists i :: OccursAt(h, n, i)
  }

  /** `String.prototype.includes`: `n` occurs in `h` at some offset (checked left to right). */
  predicate Includes(h: string, n: string)
    decreases |h|
  {
    n <= h || (|h| > 0 && Includes(h[1..], n))
  }

  /** `Includes` is exactly "occurs at some offset". */
  lemma {:induction false} IncludesIff(h: string, n: string)
    ensures Includes(h, n) <==> Occurs(h, n)
    decreases |h|
  {
    if n <= h {
      assert OccursAt(h, n, 0);
    } else if |h| == 0 {
      forall i | OccursAt(h, n, i) ensures false {
      }
    } else {
      IncludesIff(h[1..], n);
      forall i | OccursAt(h[1..], n, i) ensures OccursAt(h, n, i + 1) {
        assert h[1..][i..i + |n|] == h[i + 1..i + 1 + |n|];
      }
      forall i | OccursAt(h, n, i) ensures OccursAt(h[1..], n, i - 1) {
        assert i != 0;
        assert h[1..][i - 1..i - 1 + |n|] == h[i..i + |n|];
      }
    }
  }

  /** Every string includes the empty string. */
  lemma IncludesEmpty(h: string)
    ensures Includes(h, [])
  {
  }

  /** Every string includes itself. */
  lemma IncludesSelf(h: string)
    ensures Includes(h, h)
  {
  }

  /** A needle holding a character the haystack lacks is not included. */
  lemma CharAbsentNotIncluded(h: string, n: string, c: char)
    requires c in n && c !in h
    ensures !Includes(h, n)
  {
    IncludesIff(h, n);
  }
}
