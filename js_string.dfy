/**
  * Strings as the extension's TypeScript compares and searches them: the
  * relational operators `<` and `>` on strings, and `RegExp.prototype.test`
  * for a pattern made only of literal characters.
  */
module JsString {

  // ---------------------------------------------------------------------------
  // Ordering
  // ---------------------------------------------------------------------------

  /**
    * Where `c` falls in code-unit order. A character below U+D800 is its own
    * code unit; one above U+FFFF leads with a surrogate (U+D800 to U+DBFF), so
    * it comes after those, ordered by value; one from U+E000 to U+FFFF comes
    * after every surrogate and is moved above all of them.
    */
  function UnitKey(c: char): (k: int)
    ensures c as int < 0xE000 ==> k == c as int
    ensures 0xE000 <= c as int < 0x1_0000 ==> k > 0x10_FFFF
  {
    if 0xE000 <= c as int < 0x1_0000 then c as int + 0x11_0000 else c as int
  }

  /**
    * `s < t`: lexicographic order on UTF-16 code units, a proper prefix being
    * smaller (`Utf16Order` proves it is that order on `Utf16`). A character
    * above U+FFFF is compared through its leading surrogate, so it sorts before
    * the characters from U+E000 to U+FFFF although its scalar value is larger.
    */
  predicate Less(s: string, t: string)
  {
    if |s| == 0 then |t| > 0
    else if |t| == 0 then false
    else if s[0] != t[0] then UnitKey(s[0]) < UnitKey(t[0])
    else Less(s[1..], t[1..])
  }

  /** `!(s > t)`: the pairs a comparator answering 1 only for `s > t` leaves in place. */
  predicate LessEq(s: string, t: string)
  {
    !Less(t, s)
  }

  lemma {:induction false} LessIrreflexive(s: string)
    ensures !Less(s, s)
  {
    if |s| > 0 {
      LessIrreflexive(s[1..]);
    }
  }

  lemma {:induction false} LessAsymmetric(s: string, t: string)
    ensures Less(s, t) ==> !Less(t, s)
  {
    if |s| > 0 && |t| > 0 && s[0] == t[0] {
      LessAsymmetric(s[1..], t[1..]);
    }
  }

  lemma {:induction false} LessTrichotomy(s: string, t: string)
    ensures Less(s, t) || s == t || Less(t, s)
  {
    if |s| > 0 && |t| > 0 {
      if s[0] == t[0] {
        LessTrichotomy(s[1..], t[1..]);
        if s[1..] == t[1..] {
          assert s == [s[0]] + s[1..] && t == [t[0]] + t[1..];
        }
      } else {
        assert UnitKey(s[0]) != UnitKey(t[0]);
      }
    }
  }

  lemma {:induction false} LessTransitive(s: string, t: string, u: string)
    requires Less(s, t) && Less(t, u)
    ensures Less(s, u)
  {
    if |s| > 0 && |t| > 0 && |u| > 0 && s[0] == t[0] && t[0] == u[0] {
      LessTransitive(s[1..], t[1..], u[1..]);
    }
  }

  // ---------------------------------------------------------------------------
  // The order is code-unit order
  // ---------------------------------------------------------------------------

  /**
    * The UTF-16 code units JavaScript stores for one character: the character
    * itself below U+10000, otherwise its surrogate pair.
    */
  function Units(c: char): (u: seq<int>)
    ensures 1 <= |u| <= 2 && (|u| == 1 <==> c as int < 0x1_0000)
    ensures forall k :: 0 <= k < |u| ==> 0 <= u[k] < 0x1_0000
    ensures |u| == 1 ==> !(0xD800 <= u[0] < 0xDC00)
    ensures |u| == 2 ==> 0xD800 <= u[0] < 0xDC00 && 0xDC00 <= u[1] < 0xE000
  {
    if c as int < 0x1_0000 then [c as int]
    else
      var v := c as int - 0x1_0000;
      [0xD800 + v / 0x400, 0xDC00 + v % 0x400]
  }

  /** The code units of a string, as JavaScript holds it. */
  function Utf16(s: string): (u: seq<int>)
    ensures |s| <= |u| <= 2 * |s|
  {
    if |s| == 0 then [] else Units(s[0]) + Utf16(s[1..])
  }

  /** Lexicographic order on code-unit sequences, a proper prefix being smaller. */
  predicate UnitsLess(s: seq<int>, t: seq<int>)
  {
    if |s| == 0 then |t| > 0
    else if |t| == 0 then false
    else if s[0] != t[0] then s[0] < t[0]
    else UnitsLess(s[1..], t[1..])
  }

  /** A common prefix does not decide the order. */
  lemma {:induction false} UnitsLessCommonPrefix(p: seq<int>, x: seq<int>, y: seq<int>)
    ensures UnitsLess(p + x, p + y) == UnitsLess(x, y)
  {
    if |p| > 0 {
      UnitsLessCommonPrefix(p[1..], x, y);
      assert (p + x)[1..] == p[1..] + x && (p + y)[1..] == p[1..] + y;
    } else {
      assert p + x == x && p + y == y;
    }
  }

  /**
    * Two different characters: their code units differ within the shorter of
    * the two encodings, so what follows them does not decide the order, and
    * the key orders them as their code units do.
    */
  lemma UnitsLessFirstChar(c: char, d: char, x: seq<int>, y: seq<int>)
    requires c != d
    ensures UnitsLess(Units(c) + x, Units(d) + y) == (UnitKey(c) < UnitKey(d))
  {
    var uc, ud := Units(c), Units(d);
    var p, q := uc + x, ud + y;
    assert p[0] == uc[0] && q[0] == ud[0];
    if c as int >= 0x1_0000 && d as int >= 0x1_0000 {
      var v, w := c as int - 0x1_0000, d as int - 0x1_0000;
      assert v == 0x400 * (v / 0x400) + v % 0x400;
      assert w == 0x400 * (w / 0x400) + w % 0x400;
      if uc[0] == ud[0] {
        assert p[1..][0] == uc[1] && q[1..][0] == ud[1];
        assert uc[1] != ud[1];
      }
    }
  }

  /** `Less` is lexicographic order on the strings' UTF-16 code units. */
  lemma {:induction false} Utf16Order(s: string, t: string)
    ensures Less(s, t) == UnitsLess(Utf16(s), Utf16(t))
  {
    if |s| > 0 && |t| > 0 {
      if s[0] == t[0] {
        Utf16Order(s[1..], t[1..]);
        UnitsLessCommonPrefix(Units(s[0]), Utf16(s[1..]), Utf16(t[1..]));
      } else {
        UnitsLessFirstChar(s[0], t[0], Utf16(s[1..]), Utf16(t[1..]));
      }
    }
  }

  /**
    * The order differs from the order of scalar values: an emoji (U+1F600) comes
    * before a fullwidth tilde (U+FF5E), as JavaScript places them.
    */
  lemma SurrogateOrder()
    ensures Less("\U{1F600}", "\U{FF5E}")
    ensures "\U{FF5E}"[0] < "\U{1F600}"[0]
    ensures Utf16("\U{1F600}") == [0xD83D, 0xDE00] && Utf16("\U{FF5E}") == [0xFF5E]
  {
    assert Utf16("\U{1F600}") == Units("\U{1F600}"[0]) + Utf16([]);
    assert Utf16("\U{FF5E}") == Units("\U{FF5E}"[0]) + Utf16([]);
  }

  lemma LessImpliesLessEq(s: string, t: string)
    requires Less(s, t)
    ensures LessEq(s, t)
  {
    LessAsymmetric(s, t);
  }

  lemma LessEqReflexive(s: string)
    ensures LessEq(s, s)
  {
    LessIrreflexive(s);
  }

  lemma LessEqTransitive(s: string, t: string, u: string)
    requires LessEq(s, t) && LessEq(t, u)
    ensures LessEq(s, u)
  {
    if Less(u, s) {
      LessTrichotomy(s, t);
      if Less(s, t) {
        LessTransitive(u, s, t);
      }
    }
  }

  // ---------------------------------------------------------------------------
  // Literal-pattern search
  // ---------------------------------------------------------------------------

  /**
    * The character the regular-expression matcher compares. With the `i` flag
    * (and without `u`) JavaScript folds both sides to upper case but never maps a
    * non-ASCII character to an ASCII one, so for a pattern of ASCII letters
    * folding A-Z alone gives the same matches.
    */
  function Canon(c: char, ignoreCase: bool): (r: char)
  {
    if ignoreCase && 'A' <= c <= 'Z' then (c as int + 32) as char else c
  }

  /** The pattern matches `s` starting at index `i`. */
  predicate MatchesAt(s: string, pat: string, i: nat, ignoreCase: bool)
    requires i + |pat| <= |s|
  {
    forall k :: 0 <= k < |pat| ==> Canon(s[i + k], ignoreCase) == Canon(pat[k], ignoreCase)
  }

  /** `new RegExp(pat, ignoreCase ? "i" : "").test(s)`, scanning start positions left to right. */
  predicate Test(s: string, pat: string, ignoreCase: bool)
    decreases |s|
  {
    |pat| <= |s| && (MatchesAt(s, pat, 0, ignoreCase) || Test(s[1..], pat, ignoreCase))
  }

  /** `new RegExp(pat + "$", flags).test(s)`: the pattern matches at the very end of `s`. */
  predicate TestAtEnd(s: string, pat: string, ignoreCase: bool)
  {
    |pat| <= |s| && MatchesAt(s, pat, |s| - |pat|, ignoreCase)
  }

  /** The scan finds a match exactly when the pattern occurs somewhere in `s`. */
  lemma {:induction false} TestIffOccurs(s: string, pat: string, ignoreCase: bool)
    ensures Test(s, pat, ignoreCase) <==>
            exists i: nat :: i + |pat| <= |s| && MatchesAt(s, pat, i, ignoreCase)
    decreases |s|
  {
    if |pat| <= |s| && !MatchesAt(s, pat, 0, ignoreCase) {
      TestIffOccurs(s[1..], pat, ignoreCase);
      if Test(s[1..], pat, ignoreCase) {
        var i: nat :| i + |pat| <= |s[1..]| && MatchesAt(s[1..], pat, i, ignoreCase);
        assert MatchesAt(s, pat, i + 1, ignoreCase) by {
          forall k | 0 <= k < |pat|
            ensures Canon(s[i + 1 + k], ignoreCase) == Canon(pat[k], ignoreCase)
          {
            assert s[i + 1 + k] == s[1..][i + k];
          }
        }
      }
      if exists i: nat :: i + |pat| <= |s| && MatchesAt(s, pat, i, ignoreCase) {
        var i: nat :| i + |pat| <= |s| && MatchesAt(s, pat, i, ignoreCase);
        assert MatchesAt(s[1..], pat, i - 1, ignoreCase) by {
          forall k | 0 <= k < |pat|
            ensures Canon(s[1..][i - 1 + k], ignoreCase) == Canon(pat[k], ignoreCase)
          {
            assert s[1..][i - 1 + k] == s[i + k];
          }
        }
      }
    } else if |pat| <= |s| {
      assert MatchesAt(s, pat, 0, ignoreCase);
    }
  }
}
