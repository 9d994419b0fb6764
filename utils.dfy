/**
 * The two string helpers of utils.py: `clean_text`, which deletes a fixed
 * set of currency and separator characters, and `extract_numeric`, which
 * keeps only digits and dots and parses what is left, mapping every
 * failure to `None`.
 */
module Utils {
  import opened Wrappers
  import opened PyText

  /** The sentinel the scraper uses for "nothing found". */
  const NotAvailable := "N/A"

  /** The character class `[â‚¹$,]` of `clean_text`: the three characters
      a UTF-8 rupee sign becomes when it is read as Windows-1252
      (U+00E2, U+201A, U+00B9), the dollar sign and the comma. */
  predicate IsSymbol(c: char) {
    c == '\U{E2}' || c == '\U{201A}' || c == '\U{B9}' || c == '$' || c == ','
  }

  predicate NoSymbol(s: string) {
    forall i :: 0 <= i < |s| ==> !IsSymbol(s[i])
  }

  /** `re.sub(r"[â‚¹$,]", "", s)`. */
  function RemoveSymbols(s: string): (r: string)
    ensures NoSymbol(r)
    ensures |r| <= |s|
    decreases |s|
  {
    if |s| == 0 then ""
    else (if IsSymbol(s[0]) then "" else [s[0]]) + RemoveSymbols(s[1..])
  }

  /** Deletion works character by character: on a concatenation it is the
      concatenation of the two deletions. */
  lemma {:induction false} RemoveSymbolsAppend(a: string, b: string)
    ensures RemoveSymbols(a + b) == RemoveSymbols(a) + RemoveSymbols(b)
    decreases |a|
  {
    if |a| == 0 {
      assert a + b == b;
    } else {
      assert (a + b)[1..] == a[1..] + b;
      RemoveSymbolsAppend(a[1..], b);
    }
  }

  /** Text without any of the five characters is kept whole, in order. */
  lemma {:induction false} RemoveSymbolsKeeps(s: string)
    requires NoSymbol(s)
    ensures RemoveSymbols(s) == s
    decreases |s|
  {
    if |s| > 0 {
      RemoveSymbolsKeeps(s[1..]);
      assert s == [s[0]] + s[1..];
    }
  }

  /** `clean_text(text)`; `None` stands for Python's `None`. */
  function CleanText(text: Option<string>): (r: string)
    ensures text.None? || text.value == "" ==> r == NotAvailable
    ensures NoSymbol(r) && NoEdgeSpace(r)
  {
    if text.None? || text.value == "" then NotAvailable
    else Strip(RemoveSymbols(text.value))
  }

  /** Cleaning cleaned text changes nothing, unless the first cleaning left
      the empty string (which the second turns into "N/A"). */
  lemma CleanTextIdempotent(text: Option<string>)
    requires CleanText(text) != ""
    ensures CleanText(Some(CleanText(text))) == CleanText(text)
  {
    CleanTextKeeps(CleanText(text));
  }

  /** The empty string and "N/A" are different outcomes: blank or
      symbol-only text cleans to "", only missing text gives "N/A". */
  lemma CleanTextBlank(s: string)
    requires s != "" && AllSpace(RemoveSymbols(s))
    ensures CleanText(Some(s)) == ""
  {
    StripEmptyIff(RemoveSymbols(s));
  }

  /** Every character outside the five is kept, in order: text that has
      none of them and no surrounding whitespace comes back unchanged. */
  lemma CleanTextKeeps(s: string)
    requires s != "" && NoSymbol(s) && NoEdgeSpace(s)
    ensures CleanText(Some(s)) == s
  {
    RemoveSymbolsKeeps(s);
    StripOf([], s, []);
    assert [] + s + [] == s;
  }

  lemma NoSymbolAppend(a: string, b: string)
    requires NoSymbol(a) && NoSymbol(b)
    ensures NoSymbol(a + b)
  {
    forall i | 0 <= i < |a + b| ensures !IsSymbol((a + b)[i]) {
      if i < |a| { assert (a + b)[i] == a[i]; } else { assert (a + b)[i] == b[i - |a|]; }
    }
  }

  /** The rupee sign mis-decoded as the three Windows-1252 characters
      U+00E2 U+201A U+00B9 is deleted. */
  lemma CleanTextDropsMisdecodedRupee(t: string)
    requires t != "" && NoSymbol(t) && NoEdgeSpace(t)
    ensures CleanText(Some("\U{E2}\U{201A}\U{B9}" + t)) == t
  {
    var m := "\U{E2}\U{201A}\U{B9}";
    RemoveSymbolsAppend(m, t);
    assert RemoveSymbols(m) == "";
    RemoveSymbolsKeeps(t);
    assert RemoveSymbols(m + t) == t;
    CleanTextKeeps(t);
  }

  /** A correctly decoded rupee sign (U+20B9) is not in the class and is
      kept. */
  lemma CleanTextKeepsRupee(t: string)
    requires NoSymbol(t) && NoEdgeSpace(t)
    ensures CleanText(Some("\U{20B9}" + t)) == "\U{20B9}" + t
  {
    NoSymbolAppend("\U{20B9}", t);
    CleanTextKeeps("\U{20B9}" + t);
  }

  /** A character `extract_numeric` keeps: `[\d.]`, with ASCII digits. */
  predicate IsNumeral(c: char) {
    IsDigit(c) || c == '.'
  }

  predicate AllNumeral(s: string) {
    forall i :: 0 <= i < |s| ==> IsNumeral(s[i])
  }

  /** `re.sub(r"[^\d.]", "", s)`. */
  function Sanitize(s: string): (r: string)
    ensures AllNumeral(r)
    ensures |r| <= |s|
    decreases |s|
  {
    if |s| == 0 then ""
    else (if IsNumeral(s[0]) then [s[0]] else "") + Sanitize(s[1..])
  }

  /** Sanitising works character by character, so its result is the
      in-order subsequence of the input's digits and dots. */
  lemma {:induction false} SanitizeAppend(a: string, b: string)
    ensures Sanitize(a + b) == Sanitize(a) + Sanitize(b)
    decreases |a|
  {
    if |a| == 0 {
      assert a + b == b;
    } else {
      var head := if IsNumeral(a[0]) then [a[0]] else "";
      assert (a + b)[0] == a[0];
      assert (a + b)[1..] == a[1..] + b;
      assert Sanitize(a + b) == head + Sanitize(a[1..] + b);
      SanitizeAppend(a[1..], b);
      assert Sanitize(a) == head + Sanitize(a[1..]);
      assert head + (Sanitize(a[1..]) + Sanitize(b)) == (head + Sanitize(a[1..])) + Sanitize(b);
    }
  }

  /** A string of digits and dots is its own sanitised form. */
  lemma {:induction false} SanitizeKeeps(s: string)
    requires AllNumeral(s)
    ensures Sanitize(s) == s
    decreases |s|
  {
    if |s| > 0 {
      SanitizeKeeps(s[1..]);
      assert s == [s[0]] + s[1..];
    }
  }

  lemma SanitizeIdempotent(s: string)
    ensures Sanitize(Sanitize(s)) == Sanitize(s)
  {
    SanitizeKeeps(Sanitize(s));
  }

  predicate HasDigit(s: string) {
    exists i :: 0 <= i < |s| && IsDigit(s[i])
  }

  function DotCount(s: string): nat
    decreases |s|
  {
    if |s| == 0 then 0 else (if s[0] == '.' then 1 else 0) + DotCount(s[1..])
  }

  /** The index of the first `c` in `s`, or `|s|` when there is none. */
  function IndexOf(s: string, c: char): (k: nat)
    ensures k <= |s|
    ensures k < |s| ==> s[k] == c
    ensures forall i :: 0 <= i < k ==> s[i] != c
    decreases |s|
  {
    if |s| == 0 then 0 else if s[0] == c then 0 else 1 + IndexOf(s[1..], c)
  }

  /** What Python's `float()` accepts among strings of digits and dots:
      digits, or digits, a dot and digits with at least one digit on
      either side. */
  predicate FloatLiteral(v: string) {
    var k := IndexOf(v, '.');
    if k == |v| then |v| > 0 && AllDigits(v)
    else |v| >= 2 && AllDigits(v[..k]) && AllDigits(v[k + 1..])
  }

  /** The value `extract_numeric` returns: an integer, or the exact decimal
      `mantissa / 10^scale` that the source's float approximates. */
  datatype Number = Int(value: nat) | Float(mantissa: nat, scale: nat)

  /** `extract_numeric(val, is_float)`. */
  function ExtractNumeric(val: string, isFloat: bool): (r: Option<Number>)
    ensures r.Some? ==> (r.value.Float? <==> isFloat)
  {
    var v := Sanitize(val);
    if !FloatLiteral(v) then None
    else
      var k := IndexOf(v, '.');
      var whole := v[..k];
      var fraction := if k < |v| then v[k + 1..] else "";
      assert AllDigits(whole) by {
        forall i | 0 <= i < |whole| ensures IsDigit(whole[i]) {
          assert whole[i] == v[i];
        }
      }
      if isFloat then
        AllDigitsAppend(whole, fraction);
        Some(Float(DigitsValue(whole + fraction), |fraction|))
      else Some(Int(DigitsValue(whole)))
  }

  lemma {:induction false} DotCountAppend(a: string, b: string)
    ensures DotCount(a + b) == DotCount(a) + DotCount(b)
    decreases |a|
  {
    if |a| == 0 {
      assert a + b == b;
    } else {
      assert (a + b)[1..] == a[1..] + b;
      DotCountAppend(a[1..], b);
    }
  }

  lemma {:induction false} DotCountZero(s: string)
    ensures DotCount(s) == 0 <==> forall i :: 0 <= i < |s| ==> s[i] != '.'
    decreases |s|
  {
    if |s| > 0 {
      DotCountZero(s[1..]);
      assert forall i :: 1 <= i < |s| ==> s[i] == s[1..][i - 1];
    }
  }

  /** Among strings of digits and dots, Python's `float()` succeeds exactly
      when there is at least one digit and at most one dot. */
  lemma FloatLiteralIff(v: string)
    requires AllNumeral(v)
    ensures FloatLiteral(v) <==> HasDigit(v) && DotCount(v) <= 1
  {
    DotCountZero(v);
    if IndexOf(v, '.') < |v| {
      FloatLiteralWithDot(v);
    } else if |v| > 0 {
      assert IsDigit(v[0]);
    }
  }

  /** The case with a first dot: the literal is valid exactly when no dot
      follows it and a digit stands on either side. */
  lemma FloatLiteralWithDot(v: string)
    requires AllNumeral(v) && IndexOf(v, '.') < |v|
    ensures FloatLiteral(v) <==> HasDigit(v) && DotCount(v) <= 1
  {
    var k := IndexOf(v, '.');
    DotParts(v);
    if HasDigit(v) && DotCount(v) <= 1 {
      var j :| 0 <= j < |v| && IsDigit(v[j]);
      assert j != k;
    }
    if FloatLiteral(v) {
      if k > 0 {
        assert IsDigit(v[0]) by { assert v[0] == v[..k][0]; }
      } else {
        assert IsDigit(v[1]) by { assert v[1] == v[k + 1..][0]; }
      }
    }
  }

  /** Around the first dot at `k`: the text before it is digits, the dot
      counts once, and the text after it is digits exactly when it holds
      no further dot. */
  lemma DotParts(v: string)
    requires AllNumeral(v) && IndexOf(v, '.') < |v|
    ensures AllDigits(v[..IndexOf(v, '.')])
    ensures DotCount(v) == 1 + DotCount(v[IndexOf(v, '.') + 1..])
    ensures AllDigits(v[IndexOf(v, '.') + 1..]) <==> DotCount(v[IndexOf(v, '.') + 1..]) == 0
  {
    var k := IndexOf(v, '.');
    var after := v[k + 1..];
    DotCountSplit(v, k);
    NumeralsBefore(v, k);
    NumeralsAfter(v, k);
    assert DotCount(v) == 1 + DotCount(after);
  }

  /** The dots of `v` are those before position `k`, the one at `k` and
      those after it. */
  lemma DotCountSplit(v: string, k: nat)
    requires k < |v| && v[k] == '.'
    ensures DotCount(v) == DotCount(v[..k]) + 1 + DotCount(v[k + 1..])
  {
    assert v == v[..k] + ([v[k]] + v[k + 1..]);
    DotCountAppend(v[..k], [v[k]] + v[k + 1..]);
    DotCountAppend([v[k]], v[k + 1..]);
    assert DotCount([v[k]]) == 1;
  }

  /** Before the first dot there are only digits. */
  lemma NumeralsBefore(v: string, k: nat)
    requires AllNumeral(v) && k == IndexOf(v, '.') && k < |v|
    ensures AllDigits(v[..k]) && DotCount(v[..k]) == 0
  {
    var before := v[..k];
    assert forall i :: 0 <= i < |before| ==> before[i] == v[i];
    DotCountZero(before);
  }

  /** After it, digits exactly when there is no further dot. */
  lemma NumeralsAfter(v: string, k: nat)
    requires AllNumeral(v) && k < |v|
    ensures AllDigits(v[k + 1..]) <==> DotCount(v[k + 1..]) == 0
  {
    var after := v[k + 1..];
    assert forall i :: 0 <= i < |after| ==> after[i] == v[k + 1 + i];
    assert forall i :: 0 <= i < |after| ==> IsNumeral(after[i]);
    DotCountZero(after);
  }

  /** `extract_numeric` returns `None` exactly when the sanitised string
      has no digit or has two or more dots; it never returns 0 for a
      string without digits ("", "N/A", "."). */
  lemma ExtractNumericNoneIff(val: string, isFloat: bool)
    ensures ExtractNumeric(val, isFloat) == None
        <==> !HasDigit(Sanitize(val)) || DotCount(Sanitize(val)) >= 2
  {
    FloatLiteralIff(Sanitize(val));
  }

  lemma DivOfShift(q: nat, p: nat, r: nat)
    requires p >= 1 && r < p
    ensures (q * p + r) / p == q
  {
    var x := q * p + r;
    var d, m := x / p, x % p;
    assert d * p + m == x;
    assert (d - q) * p == r - m;
    if d > q {
      MulAtLeast(d - q, p);
    } else if d < q {
      MulAtLeast(q - d, p);
    }
  }

  lemma MulAtLeast(a: int, p: int)
    requires a >= 1 && p >= 0
    ensures a * p >= p
  {
  }

  /** Integer mode truncates the value that float mode reads: both succeed
      together, and the integer is the float's integer part. */
  lemma ExtractNumericTruncates(val: string)
    ensures ExtractNumeric(val, false).Some? <==> ExtractNumeric(val, true).Some?
    ensures ExtractNumeric(val, false).Some? ==>
      var f := ExtractNumeric(val, true).value;
      ExtractNumeric(val, false).value.value == f.mantissa / Pow10(f.scale)
  {
    var v := Sanitize(val);
    if FloatLiteral(v) {
      var k := IndexOf(v, '.');
      var whole := v[..k];
      var fraction := if k < |v| then v[k + 1..] else "";
      assert AllDigits(whole) by {
        forall i | 0 <= i < |whole| ensures IsDigit(whole[i]) { assert whole[i] == v[i]; }
      }
      DigitsValueAppend(whole, fraction);
      DivOfShift(DigitsValue(whole), Pow10(|fraction|), DigitsValue(fraction));
    }
  }

  /** Surrounding text without digits or dots does not reach the parser. */
  lemma SanitizeAround(prefix: string, core: string, suffix: string)
    requires AllNumeral(core)
    requires Sanitize(prefix) == "" && Sanitize(suffix) == ""
    ensures Sanitize(prefix + core + suffix) == core
  {
    SanitizeKeeps(core);
    SanitizeAppend(prefix, core);
    SanitizeAppend(prefix + core, suffix);
    assert "" + core + "" == core;
  }

  /** A sanitised string of digits alone reads as their value. */
  lemma ReadsDigits(val: string, w: string)
    requires Sanitize(val) == w && |w| > 0 && AllDigits(w)
    ensures ExtractNumeric(val, false) == Some(Int(DigitsValue(w)))
  {
    assert forall i :: 0 <= i < |w| ==> w[i] != '.' by {
      forall i | 0 <= i < |w| ensures w[i] != '.' { assert IsDigit(w[i]); }
    }
    assert w[..|w|] == w;
  }

  /** A sanitised string `w.f` reads as `w` in integer mode and as the
      decimal `wf / 10^|f|` in float mode. */
  lemma ReadsDecimal(val: string, w: string, f: string)
    requires Sanitize(val) == w + "." + f && AllDigits(w) && AllDigits(f)
    requires |w| + |f| >= 1
    ensures ExtractNumeric(val, false) == Some(Int(DigitsValue(w)))
    ensures ExtractNumeric(val, true) == Some(Float(DigitsValue(w + f), |f|))
  {
    var v := w + "." + f;
    assert v[|w|] == '.';
    assert forall i :: 0 <= i < |w| ==> v[i] == w[i];
    assert IndexOf(v, '.') == |w|;
    assert v[..|w|] == w;
    assert v[|w| + 1..] == f;
  }

  /** Printing a number inside text free of digits and dots and extracting
      it in integer mode gives the number back. */
  lemma ExtractNumericOfDecimal(n: nat, prefix: string, suffix: string)
    requires Sanitize(prefix) == "" && Sanitize(suffix) == ""
    ensures ExtractNumeric(prefix + DecimalString(n) + suffix, false) == Some(Int(n))
  {
    var d := DecimalString(n);
    DecimalStringRoundTrip(n);
    SanitizeAround(prefix, d, suffix);
    ReadsDigits(prefix + d + suffix, d);
  }

  /** With digits after a dot, integer mode still gives the digits before
      it: the fraction is truncated, never rounded. */
  lemma ExtractNumericOfFraction(n: nat, fraction: string, prefix: string, suffix: string)
    requires AllDigits(fraction)
    requires Sanitize(prefix) == "" && Sanitize(suffix) == ""
    ensures ExtractNumeric(prefix + DecimalString(n) + "." + fraction + suffix, false) == Some(Int(n))
  {
    var d := DecimalString(n);
    DecimalStringRoundTrip(n);
    SanitizeDecimal(d, fraction, prefix, suffix);
    ReadsDecimal(prefix + d + "." + fraction + suffix, d, fraction);
  }

  /** A decimal written inside text free of digits and dots sanitises to
      itself. */
  lemma SanitizeDecimal(d: string, fraction: string, prefix: string, suffix: string)
    requires AllDigits(d) && AllDigits(fraction)
    requires Sanitize(prefix) == "" && Sanitize(suffix) == ""
    ensures Sanitize(prefix + d + "." + fraction + suffix) == d + "." + fraction
  {
    var t := d + "." + fraction;
    assert AllNumeral(t) by {
      forall i | 0 <= i < |t| ensures IsNumeral(t[i]) {
        if i < |d| { assert t[i] == d[i]; }
        else if i > |d| { assert t[i] == fraction[i - |d| - 1]; }
      }
    }
    assert prefix + d + "." + fraction + suffix == prefix + t + suffix;
    SanitizeAround(prefix, t, suffix);
  }

  /** A thousands separator is dropped. */
  lemma ExampleThousands()
    ensures ExtractNumeric("1,299", false) == Some(Int(1299))
  {
    assert Sanitize("1,299") == "1299";
    assert DecimalString(1299) == "1299";
    DecimalStringRoundTrip(1299);
    ReadsDigits("1,299", "1299");
  }

  /** A fraction is truncated toward the integer part. */
  lemma ExampleTruncate()
    ensures ExtractNumeric("4.5", false) == Some(Int(4))
    ensures ExtractNumeric("4.5", true) == Some(Float(45, 1))
  {
    assert Sanitize("4.5") == "4" + "." + "5";
    assert "4" + "5" == "45";
    assert DecimalString(4) == "4" && DecimalString(45) == "45";
    DecimalStringRoundTrip(4);
    DecimalStringRoundTrip(45);
    ReadsDecimal("4.5", "4", "5");
  }

  /** A leading dot: the missing integer part reads as 0. */
  lemma ExampleLeadingDot()
    ensures ExtractNumeric(".5", false) == Some(Int(0))
  {
    assert Sanitize(".5") == ".5";
    assert ".5" == "" + "." + "5";
    ReadsDecimal(".5", "", "5");
  }

  /** A trailing dot: the missing fraction reads as nothing. */
  lemma ExampleTrailingDot()
    ensures ExtractNumeric("5.", false) == Some(Int(5))
  {
    assert Sanitize("5.") == "5.";
    assert "5." == "5" + "." + "";
    assert DecimalString(5) == "5";
    DecimalStringRoundTrip(5);
    ReadsDecimal("5.", "5", "");
  }

  /** The sentinel and other digit-free strings give `None`. */
  lemma ExampleNone()
    ensures ExtractNumeric("", false) == None
    ensures ExtractNumeric("N/A", false) == None
    ensures ExtractNumeric(".", false) == None
  {
    assert Sanitize("N/A") == "";
    assert Sanitize(".") == ".";
  }

  /** A string with two dots gives `None`. */
  lemma ExampleTwoDots()
    ensures ExtractNumeric("1.2.3", false) == None
  {
    assert Sanitize("1.2.3") == "1.2.3";
    assert DotCount("1.2.3") == 2;
    ExtractNumericNoneIff("1.2.3", false);
  }
}
