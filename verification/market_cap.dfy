/**
 The market-cap column parser of the dashboard's home page (`parse_market_cap`):
 it turns a data-set cell such as `"$911.47B"` into a number of billions of dollars.
 */
module MarketCap {
  import opened Wrappers
  import opened Text
  import opened FloatLiteral

  /** A cell of the `Market Cap` column: missing (NaN/None), a number, or text. */
  datatype Cell = Missing | Number(x: real) | Str(s: string)

  const Billion: real := 1_000_000_000.0

  /** Magnitude suffix letters, checked in this order. */
  predicate IsSuffix(c: char)
  {
    c == 'T' || c == 'B' || c == 'M' || c == 'K'
  }

  /** The dollar multiplier of a suffix letter. */
  function Multiplier(c: char): real
    requires IsSuffix(c)
  {
    match c
    case 'T' => 1_000_000_000_000.0
    case 'B' => 1_000_000_000.0
    case 'M' => 1_000_000.0
    case 'K' => 1_000.0
  }

  /** Removes at most one trailing magnitude letter and reports its multiplier (1 when none). */
  function SplitSuffix(v: string): (r: (string, real))
    ensures r.0 <= v
    ensures |r.0| == |v| - 1 <==> |v| > 0 && IsSuffix(v[|v| - 1])
    ensures |v| > 0 && IsSuffix(v[|v| - 1]) ==> r.1 == Multiplier(v[|v| - 1])
    ensures !(|v| > 0 && IsSuffix(v[|v| - 1])) ==> r == (v, 1.0)
  {
    if |v| > 0 && IsSuffix(v[|v| - 1]) then (v[..|v| - 1], Multiplier(v[|v| - 1]))
    else (v, 1.0)
  }

  /** The suffix-and-number tail of the parser, after `$` signs are gone. */
  function Scale(v: string): Option<real>
  {
    var split := SplitSuffix(v);
    var number := ParseFloat(split.0);
    if number.None? then None else Some(InBillions(number.value, split.1))
  }

  /** A number of units of `multiplier` dollars, expressed in billions of dollars. */
  function InBillions(x: real, multiplier: real): real
  {
    x * multiplier / Billion
  }

  /** `parse_market_cap`: the cell's value in billions of dollars, or `None`. */
  function Parse(c: Cell): (r: Option<real>)
    ensures c.Missing? ==> r == None
    ensures c.Number? ==> r.Some? && r.value * Billion == c.x
  {
    match c
    case Missing => None
    case Number(x) => Some(x / Billion)
    case Str(s) =>
      var v := Upper(Strip(s));
      if v == "" || v == "-" then None else Scale(Delete(v, '$'))
  }

  // ---------------------------------------------------------------------
  // Helper facts
  // ---------------------------------------------------------------------

  lemma ScaleNeedsDigit(v: string)
    requires Scale(v).Some?
    ensures HasDigit(v)
  {
    var rest := SplitSuffix(v).0;
    ParseFloatNeedsDigit(rest);
    var c :| c in rest && IsDigit(c);
    assert c in v by {
      var i :| 0 <= i < |rest| && rest[i] == c;
      assert v[i] == c;
    }
  }

  lemma UpperKeepsDigits(s: string)
    requires HasDigit(Upper(s))
    ensures HasDigit(s)
  {
    var c :| c in Upper(s) && IsDigit(c);
    var i :| 0 <= i < |s| && Upper(s)[i] == c;
    assert s[i] in s && IsDigit(s[i]);
  }

  /** Text that normalisation leaves alone: no white space, no `$`, no lower-case letter. */
  predicate Clean(t: string)
  {
    forall i :: 0 <= i < |t| ==> !IsSpace(t[i]) && t[i] != '$' && UpperChar(t[i]) == t[i]
  }

  lemma CleanAppend(t: string, u: string)
    requires Clean(t) && Clean(u)
    ensures Clean(t + u)
  {
  }

  /** Clean text reaches `Scale` unchanged. */
  lemma ParseClean(t: string)
    requires Clean(t)
    requires t != "" && t != "-"
    ensures Parse(Str(t)) == Scale(t)
  {
    assert NoSpace(t);
    StripNoSpace(t);
    assert Upper(t) == t;
    assert '$' !in t;
    DeleteAbsent(t, '$');
  }

  lemma SpellIsClean(n: Literal)
    requires WellFormed(n)
    ensures Clean(Spell(n))
    ensures |Spell(n)| > 0 && !IsSuffix(Spell(n)[|Spell(n)| - 1])
    ensures Spell(n) != "-"
  {
    SpellChars(n);
    var t := Spell(n);
    forall i | 0 <= i < |t| ensures !IsSpace(t[i]) && t[i] != '$' && UpperChar(t[i]) == t[i] {
      assert t[i] in t;
    }
    assert t[|t| - 1] in t;
    var c :| c in t && IsDigit(c);
  }

  lemma SplitSuffixPrefixed(w: string, d: string)
    requires |d| > 0
    ensures SplitSuffix(w + d) == (w + SplitSuffix(d).0, SplitSuffix(d).1)
  {
    assert (w + d)[|w + d| - 1] == d[|d| - 1];
    assert (w + d)[..|w + d| - 1] == w + d[..|d| - 1];
  }

  /** Text without a digit has no value. */
  lemma ScaleNone(d: string)
    requires !HasDigit(d)
    ensures Scale(d) == None
  {
    if Scale(d).Some? {
      ScaleNeedsDigit(d);
    }
  }

  lemma ScaleLeadingSpaces(w: string, d: string)
    requires AllSpace(w) && NoSeparator(w)
    ensures Scale(w + d) == Scale(d)
  {
    if |d| > 0 {
      SplitSuffixPrefixed(w, d);
      ParseLeadingSpaces(w, SplitSuffix(d).0);
    } else {
      assert w + d == w;
      assert !HasDigit(w) by {
        forall c | c in w ensures !IsDigit(c) {
          var i :| 0 <= i < |w| && w[i] == c;
        }
      }
      ScaleNone(w);
      ScaleNone(d);
    }
  }

  /** A separator in white space in front of the number leaves `float` nothing to read. */
  lemma ScaleSeparated(w: string, d: string)
    requires AllSpace(w) && !NoSeparator(w)
    ensures Scale(w + d) == None
  {
    if |d| > 0 {
      SplitSuffixPrefixed(w, d);
      ParseSeparatedSpaces(w, SplitSuffix(d).0);
    } else {
      assert w + d == w;
      assert !HasDigit(w) by {
        forall c | c in w ensures !IsDigit(c) {
          var i :| 0 <= i < |w| && w[i] == c;
        }
      }
      ScaleNone(w);
    }
  }

  // ---------------------------------------------------------------------
  // Properties of the parser
  // ---------------------------------------------------------------------

  /** Only text holding a digit has a value: blank, `-`, `N/A` or a lone `$` yield `None`. */
  lemma ParseNeedsDigit(s: string)
    requires Parse(Str(s)).Some?
    ensures HasDigit(s)
  {
    var v := Upper(Strip(s));
    ScaleNeedsDigit(Delete(v, '$'));
    DeleteSpec(v, '$');
    var c :| c in Delete(v, '$') && IsDigit(c);
    assert HasDigit(v);
    UpperKeepsDigits(Strip(s));
    var e :| e in Strip(s) && IsDigit(e);
    StripChars(s);
    assert e in s;
  }

  /** Surrounding white space does not change the result. */
  lemma SpaceInsensitive(w1: string, s: string, w2: string)
    requires AllSpace(w1) && AllSpace(w2)
    ensures Parse(Str(w1 + s + w2)) == Parse(Str(s))
  {
    StripSurroundingSpaces(w1, s, w2);
  }

  /** Letter case does not change the result: `911.47b` and `911.47B` agree. */
  lemma CaseInsensitive(s: string, t: string)
    requires Upper(s) == Upper(t)
    ensures Parse(Str(s)) == Parse(Str(t))
  {
    StripUpper(s);
    StripUpper(t);
  }

  /** Trimming and upper-casing keep a leading `$` at the front. */
  lemma DollarStrip(s: string)
    ensures Upper(Strip("$" + s)) == "$" + Upper(RStrip(s))
  {
    var r := RStrip(s);
    RStripAfterHead('$', s);
    LStripNoLeadingSpace("$" + r);
    assert Strip("$" + s) == "$" + r;
    UpperAppend("$", r);
    assert Upper("$") == "$";
  }

  /** Deleting the `$` signs of `"$" + Upper(r)` leaves the leading white space of `r` in front. */
  lemma DollarDelete(r: string) returns (w: string)
    ensures w == LeadingSpace(r) && AllSpace(w)
    ensures Delete("$" + Upper(r), '$') == w + Delete(Upper(LStrip(r)), '$')
  {
    DeleteAppend("$", Upper(r), '$');
    assert Delete("$", '$') == [];
    var l := LStrip(r);
    LStripSpec(r);
    w := r[..|r| - |l|];
    assert r == w + l;
    LeadingSpaceSpec(r);
    assert w == LeadingSpace(r);
    UpperAppend(w, l);
    assert Upper(w) == w;
    DeleteAppend(w, Upper(l), '$');
    assert forall i :: 0 <= i < |w| ==> w[i] != '$';
    assert '$' !in w;
    DeleteAbsent(w, '$');
  }

  /** After normalisation a leading `$` leaves only white space in front of what `s` normalises to. */
  lemma DollarPrefixNormal(s: string) returns (w: string)
    ensures w == LeadingSpace(RStrip(s)) && AllSpace(w)
    ensures Delete(Upper(Strip("$" + s)), '$') == w + Delete(Upper(Strip(s)), '$')
    ensures |Upper(Strip("$" + s))| > 0 && Upper(Strip("$" + s))[0] == '$'
  {
    DollarStrip(s);
    w := DollarDelete(RStrip(s));
  }

  lemma DashHasNoDigit()
    ensures !HasDigit("-")
  {
    assert forall c :: c in "-" ==> c == '-';
  }

  /** The two texts the parser turns away up front would be rejected by `Scale` anyway. */
  lemma GuardRedundant(v: string)
    requires v == "" || v == "-"
    ensures Scale(Delete(v, '$')) == None
  {
    DeleteAbsent(v, '$');
    DashHasNoDigit();
    ScaleNone(v);
  }

  /**
   Behind a leading `$` the up-front guard never fires: what reaches `Scale`
   is the white space between the `$` and the first other character, followed
   by what `s` normalises to.
   */
  lemma DollarParse(s: string)
    ensures Parse(Str("$" + s)) == Scale(LeadingSpace(RStrip(s)) + Delete(Upper(Strip(s)), '$'))
  {
    var w := DollarPrefixNormal(s);
  }

  /**
   Behind a leading `$` followed by white space without separators, the rest
   is scaled as `s` would be.
   */
  lemma DollarSkipsGuard(s: string)
    requires NoSeparator(LeadingSpace(RStrip(s)))
    ensures Parse(Str("$" + s)) == Scale(Delete(Upper(Strip(s)), '$'))
  {
    DollarParse(s);
    LeadingSpaceSpec(RStrip(s));
    ScaleLeadingSpaces(LeadingSpace(RStrip(s)), Delete(Upper(Strip(s)), '$'));
  }

  /**
   A leading `$` is ignored unless a separator stands in the white space
   between it and the number.
   */
  lemma LeadingDollarIgnored(s: string)
    requires NoSeparator(LeadingSpace(RStrip(s)))
    ensures Parse(Str("$" + s)) == Parse(Str(s))
  {
    DollarSkipsGuard(s);
    var v := Upper(Strip(s));
    if v == "" || v == "-" {
      GuardRedundant(v);
    }
  }

  /**
   A separator between a leading `$` and the number makes the cell no number:
   once the `$` is gone it is no longer at the end, so trimming leaves it in place.
   */
  lemma LeadingDollarBeforeSeparator(s: string)
    requires !NoSeparator(LeadingSpace(RStrip(s)))
    ensures Parse(Str("$" + s)) == None
  {
    DollarParse(s);
    LeadingSpaceSpec(RStrip(s));
    ScaleSeparated(LeadingSpace(RStrip(s)), Delete(Upper(Strip(s)), '$'));
  }

  /** In text without white space every `$` is ignored, wherever it stands. */
  lemma DollarsIgnored(s: string)
    requires NoSpace(s)
    ensures Parse(Str(s)) == Parse(Str(Delete(s, '$')))
  {
    var s' := Delete(s, '$');
    DeleteSpec(s, '$');
    DeleteSpec(Upper(s), '$');
    assert NoSpace(s') by {
      forall i | 0 <= i < |s'| ensures !IsSpace(s'[i]) {
        assert s'[i] in s';
        var j :| 0 <= j < |s| && s[j] == s'[i];
      }
    }
    StripNoSpace(s);
    StripNoSpace(s');
    var v := Upper(s);
    var v' := Upper(s');
    DeleteUpper(s, '$');
    assert Delete(v, '$') == v';
    DeleteAbsent(v', '$');
    if v == "" || v == "-" {
      DeleteAbsent(v, '$');
    } else if v' == "" || v' == "-" {
      DashHasNoDigit();
      ScaleNone(v');
    }
  }

  /**
   A separator in front of a number is trimmed away, but behind a `$` it
   makes the same number unreadable.
   */
  lemma SeparatorAfterDollar(c: char, n: Literal)
    requires IsSeparator(c) && WellFormed(n)
    ensures Parse(Str([c] + Spell(n))) == Some(Value(n) / Billion)
    ensures Parse(Str("$" + [c] + Spell(n))) == None
  {
    assert AllSpace([c]) && AllSpace([]);
    SpaceInsensitive([c], Spell(n), []);
    assert [c] + Spell(n) + [] == [c] + Spell(n);
    PlainLiteral(n);
    SeparatorLeads(c, n);
    LeadingDollarBeforeSeparator([c] + Spell(n));
    assert "$" + [c] + Spell(n) == "$" + ([c] + Spell(n));
  }

  /** The separator in front of a literal is the first character of its leading white space. */
  lemma SeparatorLeads(c: char, n: Literal)
    requires IsSeparator(c) && WellFormed(n)
    ensures !NoSeparator(LeadingSpace(RStrip([c] + Spell(n))))
  {
    var s := [c] + Spell(n);
    SpellChars(n);
    assert !IsSpace(s[|s| - 1]) by {
      assert s[|s| - 1] in Spell(n);
    }
    RStripNoTrailingSpace(s);
    assert LeadingSpace(s)[0] == c;
  }

  /** A plain number of dollars is reported in billions. */
  lemma PlainLiteral(n: Literal)
    requires WellFormed(n)
    ensures Parse(Str(Spell(n))) == Some(Value(n) / Billion)
  {
    SpellIsClean(n);
    ParseClean(Spell(n));
    ParseSpelledBare(n);
  }

  /** Text already in normal form reaches `Scale` unchanged once an upper-case magnitude letter follows it. */
  lemma CleanSuffixed(t: string, c: char)
    requires Clean(t) && IsSuffix(c)
    ensures Parse(Str(t + [c])) == Scale(t + [c])
    ensures SplitSuffix(t + [c]) == (t, Multiplier(c))
  {
    var u := t + [c];
    CleanAppend(t, [c]);
    assert u[|u| - 1] == c;
    ParseClean(u);
    assert u[..|u| - 1] == t;
  }

  /** The case of the letter after normal-form text does not matter. */
  lemma UpperSuffixed(t: string, c: char)
    requires Clean(t)
    ensures Parse(Str(t + [c])) == Parse(Str(t + [UpperChar(c)]))
  {
    assert Upper(t) == t;
    UpperAppend(t, [c]);
    UpperAppend(t, [UpperChar(c)]);
    assert Upper([c]) == Upper([UpperChar(c)]);
    CaseInsensitive(t + [c], t + [UpperChar(c)]);
  }

  /**
   A magnitude letter of either case after normal-form text scales the number
   the text denotes by that letter's multiplier, and rejects what `float()` rejects.
   */
  lemma Suffixed(t: string, c: char, letter: char)
    requires Clean(t) && UpperChar(c) == letter && IsSuffix(letter)
    ensures ParseFloat(t).None? ==> Parse(Str(t + [c])) == None
    ensures ParseFloat(t).Some? ==>
              Parse(Str(t + [c])) == Some(InBillions(ParseFloat(t).value, Multiplier(letter)))
  {
    UpperSuffixed(t, c);
    CleanSuffixed(t, letter);
  }

  lemma InBillionsScales(x: real)
    ensures InBillions(x, Multiplier('T')) == x * 1000.0
    ensures InBillions(x, Multiplier('B')) == x
    ensures InBillions(x, Multiplier('M')) == x / 1000.0
    ensures InBillions(x, Multiplier('K')) == x / 1_000_000.0
  {
  }

  /** The arithmetic of the four suffix lemmas, over an abstract number and result. */
  lemma ScaledBy(p: Option<real>, r: Option<real>, letter: char)
    requires IsSuffix(letter)
    requires p.None? ==> r == None
    requires p.Some? ==> r == Some(InBillions(p.value, Multiplier(letter)))
    ensures p.None? ==> r == None
    ensures p.Some? && letter == 'T' ==> r.Some? && r.value == p.value * 1000.0
    ensures p.Some? && letter == 'B' ==> r.Some? && r.value == p.value
    ensures p.Some? && letter == 'M' ==> r.Some? && r.value == p.value / 1000.0
    ensures p.Some? && letter == 'K' ==> r.Some? && r.value == p.value / 1_000_000.0
  {
    if p.Some? {
      InBillionsScales(p.value);
    }
  }

  /** `T` (or `t`) counts trillions: the value in billions is 1000 times the number. */
  lemma TrillionsSuffix(t: string, c: char)
    requires Clean(t) && UpperChar(c) == 'T'
    ensures ParseFloat(t).None? ==> Parse(Str(t + [c])) == None
    ensures ParseFloat(t).Some? ==>
              Parse(Str(t + [c])).Some? && Parse(Str(t + [c])).value == ParseFloat(t).value * 1000.0
  {
    Suffixed(t, c, 'T');
    ScaledBy(ParseFloat(t), Parse(Str(t + [c])), 'T');
  }

  /** `B` (or `b`) counts billions: the value is the number itself. */
  lemma BillionsSuffix(t: string, c: char)
    requires Clean(t) && UpperChar(c) == 'B'
    ensures ParseFloat(t).None? ==> Parse(Str(t + [c])) == None
    ensures ParseFloat(t).Some? ==>
              Parse(Str(t + [c])).Some? && Parse(Str(t + [c])).value == ParseFloat(t).value
  {
    Suffixed(t, c, 'B');
    ScaledBy(ParseFloat(t), Parse(Str(t + [c])), 'B');
  }

  /** `M` (or `m`) counts millions: the value in billions is the number over 1000. */
  lemma MillionsSuffix(t: string, c: char)
    requires Clean(t) && UpperChar(c) == 'M'
    ensures ParseFloat(t).None? ==> Parse(Str(t + [c])) == None
    ensures ParseFloat(t).Some? ==>
              Parse(Str(t + [c])).Some? && Parse(Str(t + [c])).value == ParseFloat(t).value / 1000.0
  {
    Suffixed(t, c, 'M');
    ScaledBy(ParseFloat(t), Parse(Str(t + [c])), 'M');
  }

  /** `K` (or `k`) counts thousands: the value in billions is the number over a million. */
  lemma ThousandsSuffix(t: string, c: char)
    requires Clean(t) && UpperChar(c) == 'K'
    ensures ParseFloat(t).None? ==> Parse(Str(t + [c])) == None
    ensures ParseFloat(t).Some? ==>
              Parse(Str(t + [c])).Some? && Parse(Str(t + [c])).value == ParseFloat(t).value / 1_000_000.0
  {
    Suffixed(t, c, 'K');
    ScaledBy(ParseFloat(t), Parse(Str(t + [c])), 'K');
  }

  lemma ScaleRejects(t: string)
    requires ParseFloat(SplitSuffix(t).0) == None
    ensures Scale(t) == None
  {
  }

  lemma TwoLettersClean(n: Literal, a: char, b: char)
    requires WellFormed(n) && IsSuffix(a) && IsSuffix(b)
    ensures Clean(Spell(n) + [a, b])
  {
    SpellIsClean(n);
  }

  lemma TwoLettersSplit(n: Literal, a: char, b: char)
    requires IsSuffix(b)
    ensures SplitSuffix(Spell(n) + [a, b]).0 == Spell(n) + [a]
  {
    var t := Spell(n) + [a, b];
    assert t[..|t| - 1] == Spell(n) + [a];
  }

  lemma LetterEndRejected(n: Literal, a: char)
    requires WellFormed(n) && IsSuffix(a)
    ensures ParseFloat(Spell(n) + [a]) == None
  {
    SpellIsClean(n);
    assert NoSpace(Spell(n) + [a]);
    ParseFloatRejectsForeign(Spell(n) + [a], a);
  }

  lemma CleanDoubleSuffix(n: Literal, a: char, b: char)
    requires WellFormed(n) && IsSuffix(a) && IsSuffix(b)
    ensures Parse(Str(Spell(n) + [a, b])) == None
  {
    TwoLettersClean(n, a, b);
    ParseClean(Spell(n) + [a, b]);
    TwoLettersSplit(n, a, b);
    LetterEndRejected(n, a);
    ScaleRejects(Spell(n) + [a, b]);
  }

  /** Only one magnitude letter is removed: `5BB` is rejected. */
  lemma SecondSuffixRejected(n: Literal, a: char, b: char)
    requires WellFormed(n) && IsSuffix(UpperChar(a)) && IsSuffix(UpperChar(b))
    ensures Parse(Str(Spell(n) + [a, b])) == None
  {
    var t := Spell(n) + [UpperChar(a), UpperChar(b)];
    assert Upper(Spell(n) + [a, b]) == Upper(t) by {
      SpellIsClean(n);
      UpperAppend(Spell(n), [a, b]);
      UpperAppend(Spell(n), [UpperChar(a), UpperChar(b)]);
    }
    CaseInsensitive(Spell(n) + [a, b], t);
    CleanDoubleSuffix(n, UpperChar(a), UpperChar(b));
  }

  // ---------------------------------------------------------------------
  // Worked examples
  // ---------------------------------------------------------------------

  /** A literal followed by a `B` of either case is that many billions. */
  lemma LiteralBillions(n: Literal, c: char, s: string)
    requires WellFormed(n) && UpperChar(c) == 'B' && s == Spell(n) + [c]
    ensures Parse(Str(s)) == Some(Value(n))
  {
    SpellIsClean(n);
    ParseSpelledBare(n);
    BillionsSuffix(Spell(n), c);
  }

  lemma ExampleBillions(s: string)
    requires s == "911.47B"
    ensures Parse(Str(s)) == Some(911.47)
  {
    assert "911.47" + ['B'] == s;
    ExampleLiteral();
    LiteralBillions(Literal(Unsigned, "911", true, "47"), 'B', s);
  }

  lemma ExampleLowerCase(s: string)
    requires s == "911.47b"
    ensures Parse(Str(s)) == Some(911.47)
  {
    assert "911.47" + ['b'] == s;
    ExampleLiteral();
    LiteralBillions(Literal(Unsigned, "911", true, "47"), 'b', s);
  }

  lemma ExampleDollar(s: string, t: string)
    requires s == "$911.47B" && t == "911.47B"
    ensures Parse(Str(s)) == Some(911.47)
  {
    assert "$" + t == s;
    assert RStrip(t) == t && t[0] == '9';
    LeadingDollarIgnored(t);
    ExampleBillions(t);
    assert Parse(Str(s)) == Parse(Str(t));
  }

  lemma ExampleSpaced(s: string, t: string)
    requires s == " 911.47b " && t == "911.47b"
    ensures Parse(Str(s)) == Parse(Str(t))
  {
    assert " " + t + " " == s;
    assert AllSpace(" ");
    SpaceInsensitive(" ", t, " ");
  }

  /** `"$911.47B"` and `" 911.47b "` are both 911.47 billion. */
  lemma ExampleMarketCaps()
    ensures Parse(Str("$911.47B")) == Some(911.47)
    ensures Parse(Str(" 911.47b ")) == Some(911.47)
  {
    ExampleDollar("$911.47B", "911.47B");
    ExampleLowerCase("911.47b");
    ExampleSpaced(" 911.47b ", "911.47b");
  }

  lemma FiveBillions(s: string)
    requires s == "5B"
    ensures Parse(Str(s)) == Some(5.0)
  {
    var n := Literal(Unsigned, "5", false, "");
    assert Spell(n) + ['B'] == s;
    assert Value(n) == 5.0 by {
      assert "5"[..0] == "";
    }
    LiteralBillions(n, 'B', s);
  }

  lemma ExampleTrailingSpace(s: string, t: string)
    requires s == "5B " && t == "5B"
    ensures Parse(Str(s)) == Parse(Str(t))
  {
    assert "" + t + " " == s;
    assert AllSpace("") && AllSpace(" ");
    SpaceInsensitive("", t, " ");
  }

  /** Inside `"5B $"` the space is not at either end, so it survives trimming. */
  lemma SpacedDollarNormalForm()
    ensures Delete(Upper(Strip("5B $")), '$') == "5B "
  {
    RStripNoTrailingSpace("5B $");
    LStripNoLeadingSpace("5B $");
    assert Upper("5B $") == "5B $";
    DeleteAppend("5B ", "$", '$');
    DeleteAbsent("5B ", '$');
    assert Delete("$", '$') == "";
    assert "5B " + "$" == "5B $";
  }

  /** `"5B "` still ends in a space, so no suffix is found and `5B` is not a number. */
  lemma SpacedSuffixRejected()
    ensures Scale("5B ") == None
  {
    assert SplitSuffix("5B ") == ("5B ", 1.0);
    assert AllSpace("") && AllSpace(" ");
    StripSurroundingSpaces("", "5B", " ");
    assert "" + "5B" + " " == "5B ";
    assert NoSpace("5B");
    ParseFloatRejectsForeign("5B", 'B');
    ScaleRejects("5B ");
  }

  /**
   Trimming happens before `$` signs are deleted: a space followed by a
   trailing `$` is no longer at the end once the `$` is gone, so `"5B $"` is
   rejected although `"5B "` parses.
   */
  lemma TrailingDollarAfterSpace()
    ensures Parse(Str("5B ")) == Some(5.0)
    ensures Parse(Str("5B $")) == None
  {
    FiveBillions("5B");
    ExampleTrailingSpace("5B ", "5B");
    SpacedDollarNormalForm();
    SpacedSuffixRejected();
  }
}
