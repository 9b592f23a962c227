/**
 * The string logic behind picking a unique layer name: the trailing-number
 * regular expression `(\d+)$`, Qt's whitespace trimming and integer
 * conversion, and the resulting "stem N+1" name.
 */
module LayerNames {
  import opened Common
  import opened NumericText

  /** `QChar::isSpace`: the ASCII controls \t..\r, space, NEL, NBSP and the
    * Unicode separator categories Zs, Zl and Zp. */
  predicate IsQtSpace(c: char)
  {
    c == ' ' || ('\t' <= c <= '\r') || c == '\U{85}' || c == '\U{A0}' || c == '\U{1680}'
    || ('\U{2000}' <= c <= '\U{200A}') || c == '\U{2028}' || c == '\U{2029}'
    || c == '\U{202F}' || c == '\U{205F}' || c == '\U{3000}'
  }

  /** The text without its leading whitespace: everything dropped is a
    * space, and what is kept starts with a non-space. */
  function TrimStart(s: string): (r: string)
    ensures |r| <= |s| && r == s[|s| - |r|..]
    ensures forall i :: 0 <= i < |s| - |r| ==> IsQtSpace(s[i])
    ensures r == [] || !IsQtSpace(r[0])
  {
    if s != [] && IsQtSpace(s[0]) then TrimStart(s[1..]) else s
  }

  /** The text without its trailing whitespace: everything dropped is a
    * space, and what is kept ends with a non-space. */
  function TrimEnd(s: string): (r: string)
    ensures |r| <= |s| && r == s[..|r|]
    ensures forall i :: |r| <= i < |s| ==> IsQtSpace(s[i])
    ensures r == [] || !IsQtSpace(r[|r| - 1])
  {
    if s != [] && IsQtSpace(s[|s| - 1]) then TrimEnd(s[..|s| - 1]) else s
  }

  /** The number of leading whitespace characters of `s`: all of them are
    * spaces, and the text after them is what `TrimStart` keeps. */
  function LeadingSpaces(s: string): (a: nat)
    ensures a <= |s| && TrimStart(s) == s[a..]
    ensures forall i :: 0 <= i < a ==> IsQtSpace(s[i])
  {
    |s| - |TrimStart(s)|
  }

  /** `QString::trimmed`: whitespace removed from both ends.  The result is
    * the slice of `s` that starts after the leading spaces, and everything
    * outside that slice is a space. */
  function Trimmed(s: string): (r: string)
    ensures |r| <= |s|
    ensures LeadingSpaces(s) + |r| <= |s|
    ensures r == s[LeadingSpaces(s)..LeadingSpaces(s) + |r|]
    ensures forall i :: 0 <= i < LeadingSpaces(s) ==> IsQtSpace(s[i])
    ensures forall i :: LeadingSpaces(s) + |r| <= i < |s| ==> IsQtSpace(s[i])
  {
    TrimEndOfSuffix(s, LeadingSpaces(s));
    TrimEnd(TrimStart(s))
  }

  /** Trimming the end of the suffix `s[a..]` keeps a slice of `s` starting
    * at `a` and drops only spaces after it. */
  lemma TrimEndOfSuffix(s: string, a: nat)
    requires a <= |s|
    ensures a + |TrimEnd(s[a..])| <= |s|
    ensures TrimEnd(s[a..]) == s[a..a + |TrimEnd(s[a..])|]
    ensures forall i :: a + |TrimEnd(s[a..])| <= i < |s| ==> IsQtSpace(s[i])
  {
    var u := s[a..];
    var r := TrimEnd(u);
    forall i | a + |r| <= i < |s|
      ensures IsQtSpace(s[i])
    {
      assert s[i] == u[i - a];
    }
    assert r == s[a..a + |r|] by {
      assert forall j :: 0 <= j < |r| ==> r[j] == u[j] == s[a + j];
    }
  }

  lemma TrimmedEnds(s: string)
    ensures Trimmed(s) == [] || (!IsQtSpace(Trimmed(s)[0]) && !IsQtSpace(Trimmed(s)[|Trimmed(s)| - 1]))
  {
    var u := TrimStart(s);
    var t := TrimEnd(u);
    if t != [] {
      assert t[0] == u[0];
    }
  }

  /** The text `$` is matched against: PCRE's `$` also matches just before a
    * final newline, so a single trailing '\n' is set aside. */
  function RegexSubject(s: string): (r: string)
    ensures r == s || (r + "\n" == s)
  {
    if |s| > 0 && s[|s| - 1] == '\n' then s[..|s| - 1] else s
  }

  /** The length of the run of ASCII digits that ends `s`. */
  function TrailingDigitCount(s: string): (n: nat)
    ensures n <= |s|
    ensures forall i :: |s| - n <= i < |s| ==> IsDigit(s[i])
    ensures n < |s| ==> !IsDigit(s[|s| - n - 1])
  {
    if s == [] || !IsDigit(s[|s| - 1]) then 0 else 1 + TrailingDigitCount(s[..|s| - 1])
  }

  /** Whether `(\d+)$` matches `s`. */
  predicate HasSuffixNumber(s: string) { TrailingDigitCount(RegexSubject(s)) > 0 }

  /** `capturedStart()`: where the leftmost match, and so the whole digit run, begins. */
  function MatchStart(s: string): nat
  {
    |RegexSubject(s)| - TrailingDigitCount(RegexSubject(s))
  }

  /** `captured(1)`: the digit run itself. */
  function Captured(s: string): (d: string)
    ensures AllDigits(d) && |d| == TrailingDigitCount(RegexSubject(s))
  {
    var r := RegexSubject(s);
    r[|r| - TrailingDigitCount(r)..]
  }

  /** `QString::toInt` of a digit string: its value, or 0 when it does not fit in an int. */
  function ToInt(d: string): (v: nat)
    requires AllDigits(d)
    ensures v <= INT_MAX
    ensures v == DecimalValue(d) || v == 0
  {
    if DecimalValue(d) <= INT_MAX then DecimalValue(d) else 0
  }

  /** The base name with its trailing number (if any) stripped and then trimmed. */
  function Stem(basename: string): (stem: string)
    ensures |stem| <= |basename|
    ensures !HasSuffixNumber(basename) ==> stem == basename
  {
    if HasSuffixNumber(basename) then Trimmed(basename[..MatchStart(basename)]) else basename
  }

  predicate StartsWith(s: string, prefix: string) { |prefix| <= |s| && s[..|prefix|] == prefix }

  /** The number a title contributes to the search: its trailing number when it
    * has one and starts with the stem. */
  function Contribution(title: string, stem: string): Option<nat>
  {
    if HasSuffixNumber(title) && StartsWith(title, stem) then Some(ToInt(Captured(title))) else None
  }

  /** The running maximum over `titles`, starting from 0. */
  function MaxSuffix(titles: seq<string>, stem: string): nat
  {
    if titles == [] then 0
    else
      var c := Contribution(titles[|titles| - 1], stem);
      var m := MaxSuffix(titles[..|titles| - 1], stem);
      if c.Some? then Max(m, c.value) else m
  }

  /** The maximum bounds every contribution, fits in an int, and is either 0 or
    * the contribution of some title. */
  lemma {:induction false} MaxSuffixIsMaximum(titles: seq<string>, stem: string)
    ensures MaxSuffix(titles, stem) <= INT_MAX
    ensures forall k :: 0 <= k < |titles| && Contribution(titles[k], stem).Some? ==>
      Contribution(titles[k], stem).value <= MaxSuffix(titles, stem)
    ensures MaxSuffix(titles, stem) == 0 ||
      exists k :: 0 <= k < |titles| && Contribution(titles[k], stem) == Some(MaxSuffix(titles, stem))
  {
    if titles != [] {
      var n := |titles| - 1;
      var init := titles[..n];
      var c := Contribution(titles[n], stem);
      var m := MaxSuffix(init, stem);
      assert MaxSuffix(titles, stem) == if c.Some? then Max(m, c.value) else m;
      MaxSuffixIsMaximum(init, stem);
      assert c.Some? ==> c.value <= INT_MAX;
      var max := MaxSuffix(titles, stem);
      assert m <= max;
      assert c.Some? ==> c.value <= max;
      forall k | 0 <= k < |titles| && Contribution(titles[k], stem).Some?
        ensures Contribution(titles[k], stem).value <= max
      {
        if k < n {
          assert Contribution(init[k], stem).value <= m;
        } else {
          assert k == n;
        }
      }
      if MaxSuffix(titles, stem) != 0 {
        if c.Some? && MaxSuffix(titles, stem) == c.value {
          assert Contribution(titles[n], stem) == Some(MaxSuffix(titles, stem));
        } else {
          var k :| 0 <= k < |init| && Contribution(init[k], stem) == Some(m);
          assert Contribution(titles[k], stem) == Some(m);
        }
      }
    }
  }

  /** One more title extends the running maximum by its contribution. */
  lemma MaxSuffixStep(titles: seq<string>, k: nat, stem: string)
    requires k < |titles|
    ensures Contribution(titles[k], stem).Some? ==>
      MaxSuffix(titles[..k + 1], stem) == Max(MaxSuffix(titles[..k], stem), Contribution(titles[k], stem).value)
    ensures Contribution(titles[k], stem).None? ==>
      MaxSuffix(titles[..k + 1], stem) == MaxSuffix(titles[..k], stem)
  {
    InitOfPrefix(titles, k);
  }

  /** `suffix + 1` on a 32-bit `int`: past INT_MAX it wraps to INT_MIN. */
  function NextSuffix(m: nat): (n: int)
    ensures m <= INT_MAX ==> n == (m + 1 + 0x8000_0000) % 0x1_0000_0000 - 0x8000_0000
  {
    if m >= INT_MAX then -0x8000_0000 else m + 1
  }

  /** `"%2 %1".arg(suffix + 1).arg(basename)`: the stem, a space and the next
    * number, printed as a signed `int`. */
  function AvailableName(basename: string, titles: seq<string>): (name: string)
    ensures |name| > |Stem(basename)| + 1 && name[..|Stem(basename)| + 1] == Stem(basename) + " "
  {
    var stem := Stem(basename);
    stem + " " + SignedDecimal(NextSuffix(MaxSuffix(titles, stem)))
  }

  lemma {:induction false} TrailingDigitsOfAppend(p: string, digits: string)
    requires AllDigits(digits)
    requires |p| > 0 && !IsDigit(p[|p| - 1])
    ensures TrailingDigitCount(p + digits) == |digits|
  {
    if digits != [] {
      var s := p + digits;
      assert s[..|s| - 1] == p + digits[..|digits| - 1];
      TrailingDigitsOfAppend(p, digits[..|digits| - 1]);
    }
  }

  /** A generated name carries exactly the new number as its trailing number. */
  lemma NameSuffix(stem: string, n: nat)
    ensures HasSuffixNumber(stem + " " + Decimal(n))
    ensures Captured(stem + " " + Decimal(n)) == Decimal(n)
  {
    var d := Decimal(n);
    var s := (stem + " ") + d;
    assert s == stem + " " + d;
    assert s[|s| - 1] == d[|d| - 1];
    assert RegexSubject(s) == s;
    TrailingDigitsOfAppend(stem + " ", d);
    assert s[|s| - |d|..] == d;
  }

  /** A generated name starts with its stem. */
  lemma StartsWithStem(stem: string, d: string)
    ensures StartsWith(stem + " " + d, stem)
  {
    assert (stem + " " + d)[..|stem|] == stem;
  }

  /** A title equal to the generated name would contribute the new number. */
  lemma GeneratedContribution(stem: string, n: nat)
    requires 0 < n <= INT_MAX
    ensures Contribution(stem + " " + Decimal(n), stem) == Some(n)
  {
    var d := Decimal(n);
    var name := stem + " " + d;
    NameSuffix(stem, n);
    StartsWithStem(stem, d);
    assert ToInt(Captured(name)) == n by {
      DecimalRoundTrip(n);
    }
  }

  /** As long as the next number fits in an int, the generated name equals no
    * existing title: that title would start with the stem and contribute a
    * number above the maximum. */
  lemma NameIsFresh(basename: string, titles: seq<string>)
    requires MaxSuffix(titles, Stem(basename)) < INT_MAX
    ensures forall k :: 0 <= k < |titles| ==> titles[k] != AvailableName(basename, titles)
  {
    var stem := Stem(basename);
    var m := MaxSuffix(titles, stem);
    NameBelowWrap(stem, m);
    FreshForStem(stem, titles);
  }

  /** Below INT_MAX the next number is printed without a sign. */
  lemma NameBelowWrap(stem: string, m: nat)
    requires m < INT_MAX
    ensures stem + " " + SignedDecimal(NextSuffix(m)) == stem + " " + Decimal(m + 1)
  {
    assert NextSuffix(m) == m + 1;
  }

  /** The freshness argument for a given stem: every title contributes at
    * most the maximum, while the new name would contribute one more. */
  lemma FreshForStem(stem: string, titles: seq<string>)
    requires MaxSuffix(titles, stem) < INT_MAX
    ensures forall k :: 0 <= k < |titles| ==>
      titles[k] != stem + " " + Decimal(MaxSuffix(titles, stem) + 1)
  {
    var m := MaxSuffix(titles, stem);
    var name := stem + " " + Decimal(m + 1);
    GeneratedContribution(stem, m + 1);
    MaxSuffixIsMaximum(titles, stem);
    forall k | 0 <= k < |titles|
      ensures titles[k] != name
    {
      var c := Contribution(titles[k], stem);
      assert c.Some? ==> c.value <= m;
      assert c != Some(m + 1);
    }
  }

  /** Once some title carries the number INT_MAX, the next number wraps and
    * the generated name ends in a negative number. */
  lemma WrappedName(basename: string, titles: seq<string>)
    requires MaxSuffix(titles, Stem(basename)) == INT_MAX
    ensures AvailableName(basename, titles) == Stem(basename) + " -" + Decimal(0x8000_0000)
  {
    var stem := Stem(basename);
    var d := Decimal(0x8000_0000);
    assert NextSuffix(INT_MAX) == -0x8000_0000;
    assert SignedDecimal(-0x8000_0000) == "-" + d;
    SpaceMinus(stem, d);
  }

  /** A space and then a minus sign spell the same as the two together. */
  lemma SpaceMinus(stem: string, d: string)
    ensures stem + " " + ("-" + d) == stem + " -" + d
  {
    assert " " + "-" == " -";
  }

  /** A plain title without a number does not count, so a second "Layer" is
    * named "Layer 1". */
  lemma SecondLayerName()
    ensures AvailableName("Layer", ["Layer"]) == "Layer 1"
  {
    assert TrailingDigitCount("Layer") == 0;
    assert Stem("Layer") == "Layer";
    assert Contribution("Layer", "Layer") == None;
    assert MaxSuffix(["Layer"], "Layer") == 0 by {
      assert ["Layer"][..0] == [];
    }
    assert NextSuffix(0) == 1;
  }

  /** A base name "p N" loses its number and the space before it. */
  lemma StemOfNumbered(p: string, digits: string)
    requires |p| > 0 && !IsQtSpace(p[0]) && !IsQtSpace(p[|p| - 1]) && !IsDigit(p[|p| - 1])
    requires |digits| > 0 && AllDigits(digits)
    ensures Stem(p + " " + digits) == p
  {
    var s := (p + " ") + digits;
    assert s == p + " " + digits;
    assert s[|s| - 1] == digits[|digits| - 1];
    assert RegexSubject(s) == s;
    TrailingDigitsOfAppend(p + " ", digits);
    assert MatchStart(s) == |p| + 1;
    assert s[..|p| + 1] == p + " ";
    assert TrimStart(p + " ") == p + " ";
    assert (p + " ")[..|p|] == p;
    assert TrimEnd(p + " ") == TrimEnd(p);
  }

}
