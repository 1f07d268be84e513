/**
 The decimal part of Python's `float(str)` grammar: optional white space, an optional
 sign, digits with an optional fractional part, optional white space. Exponents,
 `inf`/`nan` and digit-group underscores are not part of this grammar.
 */
module FloatLiteral {
  import opened Wrappers
  import opened Text

  datatype Sign = Unsigned | Plus | Minus

  /** A decimal literal split into its parts: `-12.50` is `Literal(Minus, "12", true, "50")`. */
  datatype Literal = Literal(sign: Sign, whole: string, point: bool, fraction: string)

  predicate AllDigits(s: string)
  {
    forall i :: 0 <= i < |s| ==> IsDigit(s[i])
  }

  /** The literals Python accepts: `5`, `5.`, `.5`, `+5.25`; not `.`, `-` or the empty string. */
  predicate WellFormed(n: Literal)
  {
    && AllDigits(n.whole)
    && AllDigits(n.fraction)
    && (n.point || n.fraction == [])
    && (|n.whole| > 0 || |n.fraction| > 0)
  }

  /** Characters a literal may contain. */
  predicate LiteralChar(c: char)
  {
    IsDigit(c) || c == '.' || c == '+' || c == '-'
  }

  function SignText(s: Sign): string
  {
    match s
    case Unsigned => ""
    case Plus => "+"
    case Minus => "-"
  }

  /** The text of a literal. */
  function Spell(n: Literal): string
  {
    SignText(n.sign) + Magnitude(n)
  }

  /** The unsigned part of a literal's spelling. */
  function Magnitude(n: Literal): string
  {
    n.whole + (if n.point then "." + n.fraction else "")
  }

  /** Position of the first `c` in `s`, or `|s|` when there is none. */
  function IndexOf(s: string, c: char): (i: nat)
    ensures i <= |s|
    ensures i < |s| ==> s[i] == c
    ensures forall j :: 0 <= j < i ==> s[j] != c
  {
    if |s| == 0 then 0
    else if s[0] == c then 0
    else 1 + IndexOf(s[1..], c)
  }

  /** Separates an optional leading sign from the rest of the text. */
  function SplitSign(t: string): (r: (Sign, string))
    ensures t == SignText(r.0) + r.1
  {
    if |t| > 0 && t[0] == '+' then (Plus, t[1..])
    else if |t| > 0 && t[0] == '-' then (Minus, t[1..])
    else (Unsigned, t)
  }

  /** Reads unsigned text as whole digits, then fraction digits after the first point. */
  function SplitPoint(sign: Sign, body: string): Literal
  {
    var i := IndexOf(body, '.');
    if i < |body| then Literal(sign, body[..i], true, body[i + 1..])
    else Literal(sign, body, false, [])
  }

  /** Splits `t` into a literal when it is one. */
  function Scan(t: string): Option<Literal>
  {
    var (sign, body) := SplitSign(t);
    var n := SplitPoint(sign, body);
    if WellFormed(n) then Some(n) else None
  }

  /** `10^k`. */
  function Pow10(k: nat): (r: nat)
    ensures r >= 1
  {
    if k == 0 then 1 else 10 * Pow10(k - 1)
  }

  function DigitValue(c: char): nat
    requires IsDigit(c)
  {
    c as int - '0' as int
  }

  /** The integer a digit string denotes, most significant digit first. */
  function DigitsValue(s: string): (r: nat)
    requires AllDigits(s)
    ensures r < Pow10(|s|)
  {
    if |s| == 0 then 0
    else 10 * DigitsValue(s[..|s| - 1]) + DigitValue(s[|s| - 1])
  }

  /** The number the digits after a decimal point denote: `0.d1d2...`. */
  function FractionValue(s: string): (r: real)
    requires AllDigits(s)
    ensures 0.0 <= r < 1.0
  {
    if |s| == 0 then 0.0
    else (DigitValue(s[0]) as real + FractionValue(s[1..])) / 10.0
  }

  /** The exact number a well-formed literal denotes. */
  function Value(n: Literal): real
    requires WellFormed(n)
  {
    var magnitude := DigitsValue(n.whole) as real + FractionValue(n.fraction);
    if n.sign == Minus then -magnitude else magnitude
  }

  /**
   `float(t)` for decimal text: `None` stands for the `ValueError` Python raises.
   `float` trims the white space that `Strip` removes except the separators
   U+001C..U+001F, which it keeps and then cannot read, wherever they stand.
   */
  function ParseFloat(t: string): Option<real>
  {
    if !NoSeparator(t) then None
    else
      var n := Scan(Strip(t));
      if n.None? then None
      else
        ScanSound(Strip(t));
        Some(Value(n.value))
  }

  // ---------------------------------------------------------------------
  // Properties of the grammar
  // ---------------------------------------------------------------------

  /** A spelled literal is made of literal characters only and holds a digit. */
  lemma SpellChars(n: Literal)
    requires WellFormed(n)
    ensures forall c :: c in Spell(n) ==> LiteralChar(c)
    ensures HasDigit(Spell(n))
  {
    var s := Spell(n);
    var k := |SignText(n.sign)|;
    if |n.whole| > 0 {
      assert s[k] == n.whole[0];
    } else {
      assert s[k + 1] == n.fraction[0];
    }
  }

  /** Every character of the stripped text is a character of the text. */
  lemma StripChars(t: string)
    ensures forall c :: c in Strip(t) ==> c in t
  {
    var r := RStrip(t);
    var s := LStrip(r);
    RStripSpec(t);
    LStripSpec(r);
    forall c | c in s ensures c in t {
      var i :| 0 <= i < |s| && s[i] == c;
      assert t[|r| - |s| + i] == c;
    }
  }

  /** Only text holding a digit is a number. */
  lemma ParseFloatNeedsDigit(t: string)
    requires ParseFloat(t).Some?
    ensures HasDigit(t)
  {
    ScanSound(Strip(t));
    SpellChars(Scan(Strip(t)).value);
    StripChars(t);
  }

  /** Text without white space that holds a character foreign to literals is not a number. */
  lemma ParseFloatRejectsForeign(t: string, c: char)
    requires NoSpace(t) && c in t && !LiteralChar(c)
    ensures ParseFloat(t) == None
  {
    StripNoSpace(t);
    if Scan(t).Some? {
      ScanChars(t);
    }
  }

  /** A separator anywhere in the text, even at either end, makes it no number. */
  lemma ParseFloatRejectsSeparator(t: string, i: nat)
    requires i < |t| && IsSeparator(t[i])
    ensures ParseFloat(t) == None
  {
  }

  /** What `Scan` accepts is the spelling of a well-formed literal. */
  lemma ScanSound(t: string)
    requires Scan(t).Some?
    ensures WellFormed(Scan(t).value) && Spell(Scan(t).value) == t
  {
    var (sign, body) := SplitSign(t);
    var n := SplitPoint(sign, body);
    MagnitudeOfSplit(sign, body);
  }

  /** Splitting at the first point loses nothing. */
  lemma MagnitudeOfSplit(sign: Sign, body: string)
    ensures Magnitude(SplitPoint(sign, body)) == body
  {
    var i := IndexOf(body, '.');
    if i < |body| {
      assert body == body[..i] + "." + body[i + 1..];
    }
  }

  /** Text that `Scan` accepts consists of literal characters only. */
  lemma ScanChars(t: string)
    requires Scan(t).Some?
    ensures forall c :: c in t ==> LiteralChar(c)
  {
    ScanSound(t);
    SpellChars(Scan(t).value);
  }

  lemma SplitSignSpell(n: Literal)
    requires WellFormed(n)
    ensures SplitSign(Spell(n)) == (n.sign, Magnitude(n))
  {
    var t := Spell(n);
    var tail := Magnitude(n);
    assert t == SignText(n.sign) + tail;
    if n.sign == Unsigned {
      assert t == tail;
      assert |n.whole| > 0 ==> tail[0] == n.whole[0];
      assert |n.whole| == 0 ==> tail[0] == '.';
    } else {
      assert t[0] == SignText(n.sign)[0];
      assert t[1..] == tail;
    }
  }

  lemma SplitPointMagnitude(n: Literal)
    requires WellFormed(n)
    ensures SplitPoint(n.sign, Magnitude(n)) == n
  {
    var tail := Magnitude(n);
    assert IndexOf(tail, '.') == |n.whole| by {
      if n.point {
        assert tail[|n.whole|] == '.';
      } else {
        assert forall j :: 0 <= j < |tail| ==> tail[j] != '.';
      }
    }
    if n.point {
      assert tail[..|n.whole|] == n.whole;
      assert tail[|n.whole| + 1..] == n.fraction;
    } else {
      assert tail == n.whole;
    }
  }

  /** Scanning the spelling of a well-formed literal gives the literal back. */
  lemma ScanSpell(n: Literal)
    requires WellFormed(n)
    ensures Scan(Spell(n)) == Some(n)
  {
    SplitSignSpell(n);
    SplitPointMagnitude(n);
  }

  /** Spelling and scanning are inverse: a text is accepted exactly when it spells a literal. */
  lemma ScanIffSpelled(t: string, n: Literal)
    ensures Scan(t) == Some(n) <==> WellFormed(n) && Spell(n) == t
  {
    if WellFormed(n) && Spell(n) == t {
      ScanSpell(n);
    }
    if Scan(t) == Some(n) {
      ScanSound(t);
    }
  }

  /** `float` accepts the spelling of a literal and returns its exact value. */
  lemma ParseSpelledBare(n: Literal)
    requires WellFormed(n)
    ensures ParseFloat(Spell(n)) == Some(Value(n))
  {
    SpellChars(n);
    assert NoSpace(Spell(n)) && NoSeparator(Spell(n)) by {
      forall i | 0 <= i < |Spell(n)| ensures !IsSpace(Spell(n)[i]) && !IsSeparator(Spell(n)[i]) {
        assert Spell(n)[i] in Spell(n);
      }
    }
    StripNoSpace(Spell(n));
    ScanSpell(n);
  }

  /**
   `float` accepts a literal with white space other than the separators around
   it and returns its exact value.
   */
  lemma ParseSpelled(w1: string, n: Literal, w2: string)
    requires WellFormed(n) && AllSpace(w1) && AllSpace(w2)
    requires NoSeparator(w1) && NoSeparator(w2)
    ensures ParseFloat(w1 + Spell(n) + w2) == Some(Value(n))
  {
    StripSurroundingSpaces(w1, Spell(n), w2);
    ParseSpelledBare(n);
    NoSeparatorConcat(w1, Spell(n));
    NoSeparatorConcat(w1 + Spell(n), w2);
  }

  /** Leading white space without separators never changes what `float` returns. */
  lemma ParseLeadingSpaces(w: string, t: string)
    requires AllSpace(w) && NoSeparator(w)
    ensures ParseFloat(w + t) == ParseFloat(t)
  {
    StripLeadingSpaces(w, t);
    NoSeparatorConcat(w, t);
  }

  /** A separator in the leading white space makes any text no number. */
  lemma ParseSeparatedSpaces(w: string, t: string)
    requires !NoSeparator(w)
    ensures ParseFloat(w + t) == None
  {
    NoSeparatorConcat(w, t);
  }

  /** The literal `911.47`. */
  lemma ExampleLiteral()
    ensures WellFormed(Literal(Unsigned, "911", true, "47"))
    ensures Spell(Literal(Unsigned, "911", true, "47")) == "911.47"
    ensures Value(Literal(Unsigned, "911", true, "47")) == 911.47
  {
    var a := Literal(Unsigned, "911", true, "47");
    assert DigitsValue("911") == 911 by {
      assert "911"[..2] == "91" && "91"[..1] == "9" && "9"[..0] == "";
    }
    assert FractionValue("47") == 0.47 by {
      assert "47"[1..] == "7" && "7"[1..] == "";
    }
  }

  lemma ParseExampleFraction()
    ensures ParseFloat("911.47") == Some(911.47)
  {
    ExampleLiteral();
    ParseSpelledBare(Literal(Unsigned, "911", true, "47"));
  }

  lemma ParseExampleSpaced()
    ensures ParseFloat(" -5. ") == Some(-5.0)
  {
    var b := Literal(Minus, "5", true, "");
    assert Value(b) == -5.0 by {
      assert "5"[..0] == "";
    }
    assert ParseFloat(" -5. ") == Some(Value(b)) by {
      assert Spell(b) == "-5.";
      assert " " + Spell(b) + " " == " -5. ";
      assert NoSeparator(" ") by {
        assert " "[0] == ' ';
      }
      ParseSpelled(" ", b, " ");
    }
  }

  lemma ParseExampleEmpty()
    ensures ParseFloat("") == None
  {
    if ParseFloat("").Some? {
      ParseFloatNeedsDigit("");
    }
  }

  lemma ParseExampleSignOnly()
    ensures ParseFloat("-") == None
  {
    assert !HasDigit("-") by {
      assert forall c :: c in "-" ==> c == '-';
    }
    if ParseFloat("-").Some? {
      ParseFloatNeedsDigit("-");
    }
  }

  lemma ParseExamplePointOnly()
    ensures ParseFloat(".") == None
  {
    assert !HasDigit(".") by {
      assert forall c :: c in "." ==> c == '.';
    }
    if ParseFloat(".").Some? {
      ParseFloatNeedsDigit(".");
    }
  }
}
