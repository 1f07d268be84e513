/**
 Character-level string helpers with the meaning Python's `str` methods give them:
 `strip()` with no argument, `upper()` and `replace(c, '')`.
 */
module Text {

  /** Python's `str.isspace` on one character: the Unicode white-space code points. */
  predicate IsSpace(c: char)
  {
    var n := c as int;
    || 0x09 <= n <= 0x0D
    || 0x1C <= n <= 0x20
    || n == 0x85 || n == 0xA0 || n == 0x1680
    || 0x2000 <= n <= 0x200A
    || n == 0x2028 || n == 0x2029 || n == 0x202F || n == 0x205F || n == 0x3000
  }

  predicate AllSpace(s: string)
  {
    forall i :: 0 <= i < |s| ==> IsSpace(s[i])
  }

  predicate NoSpace(s: string)
  {
    forall i :: 0 <= i < |s| ==> !IsSpace(s[i])
  }

  /**
   The information separators U+001C..U+001F. `str.isspace` counts them as
   white space, but `float()` trims only ASCII white space (after mapping
   non-ASCII white space to a blank), so for `float()` they are ordinary characters.
   */
  predicate IsSeparator(c: char)
  {
    0x1C <= c as int <= 0x1F
  }

  predicate NoSeparator(s: string)
  {
    forall i :: 0 <= i < |s| ==> !IsSeparator(s[i])
  }

  /** A concatenation is free of separators exactly when both parts are. */
  lemma NoSeparatorConcat(a: string, b: string)
    ensures NoSeparator(a + b) <==> NoSeparator(a) && NoSeparator(b)
  {
    if NoSeparator(a + b) {
      forall i | 0 <= i < |a| ensures !IsSeparator(a[i]) {
        assert a[i] == (a + b)[i];
      }
      forall i | 0 <= i < |b| ensures !IsSeparator(b[i]) {
        assert b[i] == (a + b)[|a| + i];
      }
    }
  }

  predicate IsDigit(c: char)
  {
    '0' <= c <= '9'
  }

  predicate HasDigit(s: string)
  {
    exists c :: c in s && IsDigit(c)
  }

  /** Removes leading white space (`str.lstrip()`). */
  function LStrip(s: string): (r: string)
    ensures |r| <= |s|
    decreases |s|
  {
    if |s| > 0 && IsSpace(s[0]) then LStrip(s[1..]) else s
  }

  /** Removes trailing white space (`str.rstrip()`). */
  function RStrip(s: string): (r: string)
    ensures |r| <= |s|
    decreases |s|
  {
    if |s| > 0 && IsSpace(s[|s| - 1]) then RStrip(s[..|s| - 1]) else s
  }

  /** `LStrip` keeps a suffix, drops only white space, and leaves no white space in front. */
  lemma {:induction false} LStripSpec(s: string)
    ensures LStrip(s) == s[|s| - |LStrip(s)|..]
    ensures AllSpace(s[..|s| - |LStrip(s)|])
    ensures |LStrip(s)| > 0 ==> !IsSpace(LStrip(s)[0])
    decreases |s|
  {
    if |s| > 0 && IsSpace(s[0]) {
      LStripSpec(s[1..]);
      var r := LStrip(s[1..]);
      assert s[..|s| - |r|] == [s[0]] + s[1..][..|s| - 1 - |r|];
    }
  }

  /** `RStrip` keeps a prefix, drops only white space, and leaves no white space at the end. */
  lemma {:induction false} RStripSpec(s: string)
    ensures RStrip(s) == s[..|RStrip(s)|]
    ensures AllSpace(s[|RStrip(s)|..])
    ensures |RStrip(s)| > 0 ==> !IsSpace(RStrip(s)[|RStrip(s)| - 1])
    decreases |s|
  {
    if |s| > 0 && IsSpace(s[|s| - 1]) {
      RStripSpec(s[..|s| - 1]);
      var r := RStrip(s[..|s| - 1]);
      assert s[|r|..] == s[..|s| - 1][|r|..] + [s[|s| - 1]];
    }
  }

  /** The white space in front of the first other character: what `LStrip` removes. */
  function LeadingSpace(s: string): string
    decreases |s|
  {
    if |s| > 0 && IsSpace(s[0]) then [s[0]] + LeadingSpace(s[1..]) else []
  }

  /** A text is its leading white space followed by what `LStrip` keeps. */
  lemma {:induction false} LeadingSpaceSpec(s: string)
    ensures AllSpace(LeadingSpace(s))
    ensures s == LeadingSpace(s) + LStrip(s)
    decreases |s|
  {
    if |s| > 0 && IsSpace(s[0]) {
      LeadingSpaceSpec(s[1..]);
      assert s == [s[0]] + s[1..];
    }
  }

  /** Removes white space at both ends (`str.strip()`). */
  function Strip(s: string): string
  {
    LStrip(RStrip(s))
  }

  /** ASCII upper-casing of one character. */
  function UpperChar(c: char): char
  {
    if 'a' <= c <= 'z' then (c as int - 'a' as int + 'A' as int) as char else c
  }

  /** `str.upper()` restricted to ASCII letters. */
  function Upper(s: string): string
  {
    seq(|s|, i requires 0 <= i < |s| => UpperChar(s[i]))
  }

  /** `str.replace(c, '')`: deletes every occurrence of `c`. */
  function Delete(s: string, c: char): (r: string)
    ensures |r| <= |s|
  {
    if |s| == 0 then []
    else (if s[0] == c then [] else [s[0]]) + Delete(s[1..], c)
  }

  /** `Delete` removes every `c`, keeps every other character as often as it occurs, and adds none. */
  lemma {:induction false} DeleteSpec(s: string, c: char)
    ensures c !in Delete(s, c)
    ensures forall x :: x in Delete(s, c) ==> x in s
    ensures forall x :: x != c ==> multiset(Delete(s, c))[x] == multiset(s)[x]
    decreases |s|
  {
    if |s| > 0 {
      DeleteSpec(s[1..], c);
      assert s == [s[0]] + s[1..];
      var head: string := if s[0] == c then [] else [s[0]];
      assert multiset(Delete(s, c)) == multiset(head) + multiset(Delete(s[1..], c));
      assert multiset(s) == multiset([s[0]]) + multiset(s[1..]);
    }
  }

  // ---------------------------------------------------------------------
  // Algebra of the helpers
  // ---------------------------------------------------------------------

  lemma UpperAppend(a: string, b: string)
    ensures Upper(a + b) == Upper(a) + Upper(b)
  {
  }

  lemma UpperKeepsSpace(c: char)
    ensures IsSpace(UpperChar(c)) <==> IsSpace(c)
  {
  }

  lemma {:induction false} DeleteAppend(a: string, b: string, c: char)
    ensures Delete(a + b, c) == Delete(a, c) + Delete(b, c)
    decreases |a|
  {
    if |a| == 0 {
      assert a + b == b;
    } else {
      assert (a + b)[1..] == a[1..] + b;
      DeleteAppend(a[1..], b, c);
    }
  }

  lemma {:induction false} DeleteAbsent(s: string, c: char)
    requires c !in s
    ensures Delete(s, c) == s
    decreases |s|
  {
    if |s| > 0 {
      assert s == [s[0]] + s[1..];
      DeleteAbsent(s[1..], c);
    }
  }

  /** Upper-casing and deleting a character that upper-casing neither creates nor changes commute. */
  lemma {:induction false} DeleteUpper(s: string, c: char)
    requires UpperChar(c) == c
    requires forall x :: UpperChar(x) == c ==> x == c
    ensures Delete(Upper(s), c) == Upper(Delete(s, c))
    decreases |s|
  {
    if |s| > 0 {
      assert Upper(s) == [UpperChar(s[0])] + Upper(s[1..]);
      DeleteUpper(s[1..], c);
      assert Upper(s)[1..] == Upper(s[1..]);
      UpperAppend(if s[0] == c then [] else [s[0]], Delete(s[1..], c));
    }
  }

  lemma {:induction false} LStripSpaces(w: string, s: string)
    requires AllSpace(w)
    ensures LStrip(w + s) == LStrip(s)
    decreases |w|
  {
    if |w| > 0 {
      assert (w + s)[1..] == w[1..] + s;
      LStripSpaces(w[1..], s);
    } else {
      assert w + s == s;
    }
  }

  lemma {:induction false} RStripSpaces(s: string, w: string)
    requires AllSpace(w)
    ensures RStrip(s + w) == RStrip(s)
    decreases |w|
  {
    if |w| > 0 {
      assert (s + w)[..|s + w| - 1] == s + w[..|w| - 1];
      RStripSpaces(s, w[..|w| - 1]);
    } else {
      assert s + w == s;
    }
  }

  lemma LStripNoLeadingSpace(s: string)
    requires |s| == 0 || !IsSpace(s[0])
    ensures LStrip(s) == s
  {
  }

  lemma RStripNoTrailingSpace(s: string)
    requires |s| == 0 || !IsSpace(s[|s| - 1])
    ensures RStrip(s) == s
  {
  }

  /** Trailing white space can be stripped past a leading non-space character. */
  lemma {:induction false} RStripAfterHead(c: char, s: string)
    requires !IsSpace(c)
    ensures RStrip([c] + s) == [c] + RStrip(s)
    decreases |s|
  {
    if |s| > 0 && IsSpace(s[|s| - 1]) {
      assert ([c] + s)[..|[c] + s| - 1] == [c] + s[..|s| - 1];
      RStripAfterHead(c, s[..|s| - 1]);
    }
  }

  /** Leading white space does not change the fully stripped string. */
  lemma {:induction false} StripLeadingSpaces(w: string, s: string)
    requires AllSpace(w)
    ensures Strip(w + s) == Strip(s)
    decreases |s|
  {
    if |s| == 0 {
      assert w + s == w;
      assert RStrip(w) == [] by { RStripSpaces([], w); assert [] + w == w; }
    } else if IsSpace(s[|s| - 1]) {
      assert (w + s)[..|w + s| - 1] == w + s[..|s| - 1];
      StripLeadingSpaces(w, s[..|s| - 1]);
    } else {
      LStripSpaces(w, s);
    }
  }

  /**
   `Strip` keeps a contiguous middle part of the text: everything cut off in
   front and behind is white space, and what is kept neither starts nor ends with it.
   */
  lemma StripSpec(s: string)
    ensures |Strip(s)| <= |RStrip(s)| <= |s|
    ensures Strip(s) == s[|RStrip(s)| - |Strip(s)|..|RStrip(s)|]
    ensures AllSpace(s[..|RStrip(s)| - |Strip(s)|])
    ensures AllSpace(s[|RStrip(s)|..])
    ensures |Strip(s)| > 0 ==> !IsSpace(Strip(s)[0]) && !IsSpace(Strip(s)[|Strip(s)| - 1])
  {
    var r := RStrip(s);
    RStripSpec(s);
    LStripSpec(r);
    var k := |r| - |Strip(s)|;
    assert s[..k] == r[..k];
    assert s[k..|r|] == r[k..];
    if |Strip(s)| > 0 {
      assert Strip(s)[|Strip(s)| - 1] == r[|r| - 1];
    }
  }

  /** White space at both ends does not change the stripped string. */
  lemma StripSurroundingSpaces(w1: string, s: string, w2: string)
    requires AllSpace(w1) && AllSpace(w2)
    ensures Strip(w1 + s + w2) == Strip(s)
  {
    RStripSpaces(w1 + s, w2);
    RStripSpaces(s, w2);
    StripLeadingSpaces(w1, s);
  }

  lemma {:induction false} RStripUpper(s: string)
    ensures RStrip(Upper(s)) == Upper(RStrip(s))
    decreases |s|
  {
    if |s| > 0 {
      UpperKeepsSpace(s[|s| - 1]);
      assert Upper(s)[..|s| - 1] == Upper(s[..|s| - 1]);
      RStripUpper(s[..|s| - 1]);
    }
  }

  lemma {:induction false} LStripUpper(s: string)
    ensures LStrip(Upper(s)) == Upper(LStrip(s))
    decreases |s|
  {
    if |s| > 0 {
      UpperKeepsSpace(s[0]);
      assert Upper(s)[1..] == Upper(s[1..]);
      LStripUpper(s[1..]);
    }
  }

  /** Stripping and upper-casing commute. */
  lemma StripUpper(s: string)
    ensures Strip(Upper(s)) == Upper(Strip(s))
  {
    RStripUpper(s);
    LStripUpper(RStrip(s));
  }

  lemma StripNoSpace(s: string)
    requires NoSpace(s)
    ensures Strip(s) == s
  {
    RStripNoTrailingSpace(s);
    LStripNoLeadingSpace(s);
  }
}
