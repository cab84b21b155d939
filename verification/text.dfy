/** The string operations the stores compare with: `toLowerCase`,
    `toUpperCase`, `trim` and `includes`.

    Case conversion is modelled on the ASCII letters only; `trim` strips the
    full set of characters ECMAScript classes as WhiteSpace or LineTerminator. */
module Text {

  predicate IsAsciiUpper(c: char)
  {
    'A' <= c <= 'Z'
  }

  predicate IsAsciiLower(c: char)
  {
    'a' <= c <= 'z'
  }

  function LowerChar(c: char): char
  {
    if IsAsciiUpper(c) then (c as int + 32) as char else c
  }

  function UpperChar(c: char): char
  {
    if IsAsciiLower(c) then (c as int - 32) as char else c
  }

  /** `String.prototype.toLowerCase`. */
  function Lower(s: string): (r: string)
    ensures |r| == |s|
    ensures forall i :: 0 <= i < |s| ==> r[i] == LowerChar(s[i])
  {
    seq(|s|, i requires 0 <= i < |s| => LowerChar(s[i]))
  }

  /** `String.prototype.toUpperCase`. */
  function Upper(s: string): (r: string)
    ensures |r| == |s|
    ensures forall i :: 0 <= i < |s| ==> r[i] == UpperChar(s[i])
  {
    seq(|s|, i requires 0 <= i < |s| => UpperChar(s[i]))
  }

  /** Upper-casing leaves no lower-case letter behind. */
  lemma UpperHasNoLower(s: string)
    ensures forall i :: 0 <= i < |Upper(s)| ==> !IsAsciiLower(Upper(s)[i])
  {
    forall i | 0 <= i < |s|
      ensures !IsAsciiLower(Upper(s)[i])
    {
      assert Upper(s)[i] == UpperChar(s[i]);
    }
  }

  /** A string with no lower-case letter is its own upper-case form. */
  lemma UpperOfUpper(s: string)
    requires forall i :: 0 <= i < |s| ==> !IsAsciiLower(s[i])
    ensures Upper(s) == s
  {
  }

  /** Upper-casing forgets whatever case the letters had. */
  lemma UpperOfLower(s: string)
    ensures Upper(Lower(s)) == Upper(s)
  {
  }

  /** The characters `String.prototype.trim` removes: ECMAScript WhiteSpace
      (TAB, VT, FF, SP, NBSP, ZWNBSP and category Zs) and LineTerminator
      (LF, CR, LS, PS). */
  predicate IsTrimmable(c: char)
  {
    || c == '\t' || c == '\n' || c == '\U{B}' || c == '\U{C}' || c == '\r'
    || c == ' ' || c == '\U{A0}' || c == '\U{1680}'
    || ('\U{2000}' <= c <= '\U{200A}')
    || c == '\U{2028}' || c == '\U{2029}' || c == '\U{202F}' || c == '\U{205F}'
    || c == '\U{3000}' || c == '\U{FEFF}'
  }

  /** Upper-casing neither creates nor removes a blank. */
  lemma UpperCharKeepsBlank(c: char)
    ensures IsTrimmable(UpperChar(c)) <==> IsTrimmable(c)
  {
    if IsAsciiLower(c) {
      assert IsAsciiUpper(UpperChar(c));
    }
  }

  /** Upper-casing keeps a string's ends free of blanks. */
  lemma UpperKeepsBlankEnds(s: string)
    requires s != [] ==> !IsTrimmable(s[0]) && !IsTrimmable(s[|s| - 1])
    ensures Upper(s) != [] ==> !IsTrimmable(Upper(s)[0]) && !IsTrimmable(Upper(s)[|s| - 1])
  {
    if s != [] {
      UpperCharKeepsBlank(s[0]);
      UpperCharKeepsBlank(s[|s| - 1]);
    }
  }

  predicate AllTrimmable(s: string)
  {
    forall i :: 0 <= i < |s| ==> IsTrimmable(s[i])
  }

  function TrimStart(s: string): (r: string)
    ensures |r| <= |s| && r == s[|s| - |r|..]
    ensures AllTrimmable(s[..|s| - |r|])
    ensures r != [] ==> !IsTrimmable(r[0])
  {
    if s != [] && IsTrimmable(s[0]) then
      var r := TrimStart(s[1..]);
      BlankPrefixGrows(s, r);
      r
    else s
  }

  /** A blank first character joins the blank prefix cut off the rest. */
  lemma BlankPrefixGrows(s: string, r: string)
    requires s != [] && IsTrimmable(s[0])
    requires |r| <= |s| - 1 && r == s[1..][|s| - 1 - |r|..]
    requires AllTrimmable(s[1..][..|s| - 1 - |r|])
    ensures r == s[|s| - |r|..] && AllTrimmable(s[..|s| - |r|])
  {
    var k := |s| - |r|;
    assert s[1..][k - 1..] == s[k..];
    forall i | 0 <= i < k
      ensures IsTrimmable(s[..k][i])
    {
      if i > 0 {
        assert s[..k][i] == s[1..][..k - 1][i - 1];
      }
    }
  }

  function TrimEnd(s: string): (r: string)
    ensures |r| <= |s| && r == s[..|r|]
    ensures AllTrimmable(s[|r|..])
    ensures r != [] ==> !IsTrimmable(r[|r| - 1])
  {
    if s != [] && IsTrimmable(s[|s| - 1]) then
      var r := TrimEnd(s[..|s| - 1]);
      BlankSuffixGrows(s, r);
      r
    else s
  }

  /** A blank last character joins the blank suffix cut off the rest. */
  lemma BlankSuffixGrows(s: string, r: string)
    requires s != [] && IsTrimmable(s[|s| - 1])
    requires |r| <= |s| - 1 && r == s[..|s| - 1][..|r|]
    requires AllTrimmable(s[..|s| - 1][|r|..])
    ensures r == s[..|r|] && AllTrimmable(s[|r|..])
  {
    assert s[..|s| - 1][..|r|] == s[..|r|];
    forall i | |r| <= i < |s|
      ensures IsTrimmable(s[i])
    {
      if i < |s| - 1 {
        assert s[i] == s[..|s| - 1][|r|..][i - |r|];
      }
    }
  }

  /** `String.prototype.trim`: the middle slice of `s` left after removing
      every leading and trailing trimmable character. */
  function Trim(s: string): (r: string)
    ensures exists i, j ::
      (0 <= i <= j <= |s| && r == s[i..j] && AllTrimmable(s[..i]) && AllTrimmable(s[j..]))
    ensures r != [] ==> !IsTrimmable(r[0]) && !IsTrimmable(r[|r| - 1])
  {
    var t := TrimStart(s);
    var r := TrimEnd(t);
    PrefixOfSuffix(s, t, r);
    r
  }

  /** Cutting a blank prefix and then a blank suffix leaves a middle slice
      with blank ends on both sides. */
  lemma PrefixOfSuffix(s: string, t: string, r: string)
    requires |t| <= |s| && t == s[|s| - |t|..] && AllTrimmable(s[..|s| - |t|])
    requires t != [] ==> !IsTrimmable(t[0])
    requires |r| <= |t| && r == t[..|r|] && AllTrimmable(t[|r|..])
    requires r != [] ==> !IsTrimmable(r[|r| - 1])
    ensures exists i, j ::
      (0 <= i <= j <= |s| && r == s[i..j] && AllTrimmable(s[..i]) && AllTrimmable(s[j..]))
    ensures r != [] ==> !IsTrimmable(r[0]) && !IsTrimmable(r[|r| - 1])
  {
    var i := |s| - |t|;
    assert r == s[i..i + |r|];
    assert s[i + |r|..] == t[|r|..];
    assert r != [] ==> r[0] == t[0];
  }

  /** Trimming and upper-casing commute: `s.toUpperCase().trim()` and
      `s.trim().toUpperCase()` are the same string. */
  lemma TrimUpperCommute(s: string)
    ensures Trim(Upper(s)) == Upper(Trim(s))
  {
    TrimStartUpper(s);
    TrimEndUpper(TrimStart(s));
  }

  lemma {:induction false} TrimStartUpper(s: string)
    ensures TrimStart(Upper(s)) == Upper(TrimStart(s))
  {
    if s != [] {
      var u := Upper(s);
      UpperCharKeepsBlank(s[0]);
      assert u[0] == UpperChar(s[0]);
      if IsTrimmable(s[0]) {
        assert u[1..] == Upper(s[1..]);
        TrimStartUpper(s[1..]);
      }
    }
  }

  lemma {:induction false} TrimEndUpper(s: string)
    ensures TrimEnd(Upper(s)) == Upper(TrimEnd(s))
  {
    if s != [] {
      var u := Upper(s);
      UpperCharKeepsBlank(s[|s| - 1]);
      assert u[|s| - 1] == UpperChar(s[|s| - 1]);
      if IsTrimmable(s[|s| - 1]) {
        assert u[..|s| - 1] == Upper(s[..|s| - 1]);
        TrimEndUpper(s[..|s| - 1]);
      }
    }
  }

  /** A value whose ends are not trimmable survives any padding. */
  lemma {:induction false} TrimPadded(pre: string, x: string, post: string)
    requires AllTrimmable(pre) && AllTrimmable(post)
    requires x != [] && !IsTrimmable(x[0]) && !IsTrimmable(x[|x| - 1])
    ensures Trim(pre + x + post) == x
  {
    TrimStartPadded(pre, x + post);
    assert pre + x + post == pre + (x + post);
    TrimEndPadded(x, post);
  }

  lemma {:induction false} TrimStartPadded(pre: string, s: string)
    requires AllTrimmable(pre) && s != [] && !IsTrimmable(s[0])
    ensures TrimStart(pre + s) == s
  {
    if pre != [] {
      assert (pre + s)[1..] == pre[1..] + s;
      TrimStartPadded(pre[1..], s);
    } else {
      assert pre + s == s;
    }
  }

  lemma {:induction false} TrimEndPadded(s: string, post: string)
    requires AllTrimmable(post) && s != [] && !IsTrimmable(s[|s| - 1])
    ensures TrimEnd(s + post) == s
  {
    if post != [] {
      var shorter := post[..|post| - 1];
      assert (s + post)[..|s + post| - 1] == s + shorter;
      TrimEndPadded(s, shorter);
    } else {
      assert s + post == s;
    }
  }

  /** `needle` occurs in `hay` starting at index `i`. */
  predicate OccursAt(hay: string, needle: string, i: int)
  {
    0 <= i <= |hay| - |needle| && hay[i..i + |needle|] == needle
  }

  /** `String.prototype.includes`: `needle` occurs somewhere in `hay`. */
  function Contains(hay: string, needle: string): (r: bool)
    ensures r <==> exists i :: OccursAt(hay, needle, i)
  {
    if |needle| > |hay| then false
    else if hay[..|needle|] == needle then
      assert OccursAt(hay, needle, 0);
      true
    else
      var found := Contains(hay[1..], needle);
      assert found ==> exists i :: OccursAt(hay, needle, i) by {
        if found {
          var i :| OccursAt(hay[1..], needle, i);
          assert hay[1..][i..i + |needle|] == hay[i + 1..i + 1 + |needle|];
          assert OccursAt(hay, needle, i + 1);
        }
      }
      assert (exists i :: OccursAt(hay, needle, i)) ==> found by {
        if exists i :: OccursAt(hay, needle, i) {
          var i :| OccursAt(hay, needle, i);
          assert i != 0;
          assert hay[1..][i - 1..i - 1 + |needle|] == hay[i..i + |needle|];
          assert OccursAt(hay[1..], needle, i - 1);
        }
      }
      found
  }

  /** Every string includes the empty string, so an empty query matches everything. */
  lemma ContainsEmpty(hay: string)
    ensures Contains(hay, "")
  {
    assert OccursAt(hay, "", 0);
  }
}
