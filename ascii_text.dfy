/**
 * The three pieces of Python text handling that the reply parser relies on,
 * restricted to ASCII: `str.strip()` with no argument, `str.lower()`, and the
 * regular-expression classes `\s` and `\w` of a `str` pattern.
 *
 * Python's whitespace (for both `strip()` and `\s`) is, within ASCII, the
 * space, the controls 0x09-0x0D (tab, newline, vertical tab, form feed,
 * carriage return) and the separators 0x1C-0x1F. A word character (`\w`) is,
 * within ASCII, a letter, a digit or the underscore.
 */
module AsciiText {

  predicate IsSpace(c: char) {
    c == ' ' || ('\t' <= c <= '\r') || ('\U{1C}' <= c <= '\U{1F}')
  }

  predicate IsWordChar(c: char) {
    ('a' <= c <= 'z') || ('A' <= c <= 'Z') || ('0' <= c <= '9') || c == '_'
  }

  predicate AllSpace(s: string) {
    forall k :: 0 <= k < |s| ==> IsSpace(s[k])
  }

  predicate AllWord(s: string) {
    forall k :: 0 <= k < |s| ==> IsWordChar(s[k])
  }

  /** No character is both whitespace and a word character. */
  lemma SpaceIsNotWord(c: char)
    ensures !(IsSpace(c) && IsWordChar(c))
  {
  }

  /** ASCII lower-casing of one character; every other character is left alone. */
  function ToLower(c: char): (d: char)
    ensures IsSpace(d) <==> IsSpace(c)
    ensures IsWordChar(d) <==> IsWordChar(c)
    ensures !('A' <= d <= 'Z')
    ensures !('A' <= c <= 'Z') ==> d == c
  {
    if 'A' <= c <= 'Z' then (c as int - 'A' as int + 'a' as int) as char else c
  }

  /** `s.lower()`: lower-cases every character in place. */
  function Lower(s: string): (r: string)
    ensures |r| == |s|
  {
    if s == [] then [] else [ToLower(s[0])] + Lower(s[1..])
  }

  /** Lower-casing works character by character. */
  lemma {:induction false} LowerAt(s: string, k: nat)
    requires k < |s|
    ensures Lower(s)[k] == ToLower(s[k])
  {
    if k > 0 {
      LowerAt(s[1..], k - 1);
    }
  }

  /** Drops the leading whitespace: what is left is a suffix of `s` that is empty or starts with a non-space. */
  function TrimStart(s: string): (r: string)
    ensures |r| <= |s| && r == s[|s| - |r|..]
    ensures AllSpace(s[..|s| - |r|])
    ensures r == [] || !IsSpace(r[0])
  {
    if s != [] && IsSpace(s[0]) then
      var r := TrimStart(s[1..]);
      assert s[..|s| - |r|] == [s[0]] + s[1..][..|s| - 1 - |r|];
      r
    else
      s
  }

  /** Drops the trailing whitespace: what is left is a prefix of `s` that is empty or ends with a non-space. */
  function TrimEnd(s: string): (r: string)
    ensures |r| <= |s| && r == s[..|r|]
    ensures AllSpace(s[|r|..])
    ensures r == [] || !IsSpace(r[|r| - 1])
  {
    if s != [] && IsSpace(s[|s| - 1]) then
      var r := TrimEnd(s[..|s| - 1]);
      assert s[|r|..] == s[..|s| - 1][|r|..] + [s[|s| - 1]];
      r
    else
      s
  }

  /** A split of `s` into whitespace, a core that neither starts nor ends with whitespace, and whitespace. */
  predicate IsStripOf(s: string, a: nat, r: string)
  {
    a + |r| <= |s| && s == s[..a] + r + s[a + |r|..]
    && AllSpace(s[..a]) && AllSpace(s[a + |r|..])
    && (r == [] || (!IsSpace(r[0]) && !IsSpace(r[|r| - 1])))
  }

  /** `s.strip()`. */
  function Strip(s: string): (r: string)
    ensures IsStripOf(s, |s| - |TrimStart(s)|, r)
  {
    StripSplits(s);
    TrimEnd(TrimStart(s))
  }

  lemma StripSplits(s: string)
    ensures IsStripOf(s, |s| - |TrimStart(s)|, TrimEnd(TrimStart(s)))
  {
    var t := TrimStart(s);
    SplitOfParts(s, |s| - |t|, t, TrimEnd(t));
  }

  /** Whitespace, then a suffix `t` of `s` whose prefix `r` is followed by whitespace only, is a strip split. */
  lemma SplitOfParts(s: string, a: nat, t: string, r: string)
    requires a <= |s| && t == s[a..] && |r| <= |t| && r == t[..|r|]
    requires AllSpace(s[..a]) && AllSpace(t[|r|..])
    requires r == [] || (!IsSpace(r[0]) && !IsSpace(r[|r| - 1]))
    ensures IsStripOf(s, a, r)
  {
    var post := t[|r|..];
    assert t == r + post;
    assert s == s[..a] + t;
    assert post == s[a + |r|..];
  }

  lemma {:induction false} TrimStartOfPadded(a: string, x: string)
    requires AllSpace(a)
    requires x == [] || !IsSpace(x[0])
    ensures TrimStart(a + x) == x
    decreases |a|
  {
    if a != [] {
      assert (a + x)[1..] == a[1..] + x;
      TrimStartOfPadded(a[1..], x);
    } else {
      assert a + x == x;
    }
  }

  lemma {:induction false} TrimEndOfPadded(x: string, b: string)
    requires AllSpace(b)
    requires x == [] || !IsSpace(x[|x| - 1])
    ensures TrimEnd(x + b) == x
    decreases |b|
  {
    if b != [] {
      assert (x + b)[..|x + b| - 1] == x + b[..|b| - 1];
      TrimEndOfPadded(x, b[..|b| - 1]);
    } else {
      assert x + b == x;
    }
  }

  /** The stripped core of a string is unique: any split into whitespace, core and whitespace gives the same core. */
  lemma StripIsUnique(a: string, r: string, b: string)
    requires AllSpace(a) && AllSpace(b)
    requires r == [] || (!IsSpace(r[0]) && !IsSpace(r[|r| - 1]))
    ensures Strip(a + r + b) == r
  {
    if r == [] {
      assert a + r + b == a + b;
      TrimStartOfPadded(a + b, []);
      assert a + b + [] == a + b;
      TrimEndOfPadded([], []);
    } else {
      assert a + r + b == a + (r + b);
      TrimStartOfPadded(a, r + b);
      TrimEndOfPadded(r, b);
    }
  }

  lemma AllSpaceOfConcat(x: string, y: string)
    requires AllSpace(x) && AllSpace(y)
    ensures AllSpace(x + y)
  {
    forall k | 0 <= k < |x + y|
      ensures IsSpace((x + y)[k])
    {
      if k < |x| { assert (x + y)[k] == x[k]; } else { assert (x + y)[k] == y[k - |x|]; }
    }
  }

  lemma StripOfRegrouped(ws1: string, pre: string, r: string, post: string, ws2: string)
    requires AllSpace(ws1) && AllSpace(pre) && AllSpace(post) && AllSpace(ws2)
    requires r == [] || (!IsSpace(r[0]) && !IsSpace(r[|r| - 1]))
    ensures Strip(ws1 + (pre + r + post) + ws2) == r
  {
    assert ws1 + (pre + r + post) + ws2 == (ws1 + pre) + r + (post + ws2);
    AllSpaceOfConcat(ws1, pre);
    AllSpaceOfConcat(post, ws2);
    StripIsUnique(ws1 + pre, r, post + ws2);
  }

  /** Surrounding whitespace never changes what `strip()` returns. */
  lemma StripIgnoresPadding(ws1: string, s: string, ws2: string)
    requires AllSpace(ws1) && AllSpace(ws2)
    ensures Strip(ws1 + s + ws2) == Strip(s)
  {
    var r := Strip(s);
    var a := |s| - |TrimStart(s)|;
    StripOfRegrouped(ws1, s[..a], r, s[a + |r|..], ws2);
  }

  /** A string without upper-case letters is its own lower-case form. */
  lemma {:induction false} LowerOfLowerCase(s: string)
    requires forall k :: 0 <= k < |s| ==> !('A' <= s[k] <= 'Z')
    ensures Lower(s) == s
  {
    if s != [] {
      LowerOfLowerCase(s[1..]);
    }
  }

  /** `Lower(s)` is the one string that lower-cases `s` character by character. */
  lemma LowerIs(s: string, r: string)
    requires |r| == |s|
    requires forall k :: 0 <= k < |s| ==> r[k] == ToLower(s[k])
    ensures Lower(s) == r
  {
    forall k | 0 <= k < |s| ensures Lower(s)[k] == r[k] {
      LowerAt(s, k);
    }
  }

  /** A string that neither starts nor ends with whitespace is its own stripped form. */
  lemma StripOfTrimmed(s: string)
    requires s == [] || (!IsSpace(s[0]) && !IsSpace(s[|s| - 1]))
    ensures Strip(s) == s
  {
    StripIsUnique([], s, []);
    assert [] + s + [] == s;
  }

  lemma {:induction false} LowerOfConcat(x: string, y: string)
    ensures Lower(x + y) == Lower(x) + Lower(y)
  {
    if x == [] {
      assert x + y == y;
    } else {
      assert (x + y)[1..] == x[1..] + y;
      LowerOfConcat(x[1..], y);
    }
  }

  lemma LowerOfAllSpace(s: string)
    requires AllSpace(s)
    ensures AllSpace(Lower(s))
  {
    forall k | 0 <= k < |s| ensures IsSpace(Lower(s)[k]) {
      LowerAt(s, k);
    }
  }

  /** Stripping and lower-casing commute, since lower-casing maps whitespace to whitespace and nothing else to it. */
  lemma LowerStripCommute(s: string)
    ensures Lower(Strip(s)) == Strip(Lower(s))
  {
    var r := Strip(s);
    var a := |s| - |TrimStart(s)|;
    var pre, post := s[..a], s[a + |r|..];
    LowerOfConcat(pre + r, post);
    LowerOfConcat(pre, r);
    LowerOfAllSpace(pre);
    LowerOfAllSpace(post);
    if r != [] {
      LowerAt(r, 0);
      LowerAt(r, |r| - 1);
    }
    StripIsUnique(Lower(pre), Lower(r), Lower(post));
  }
}
