/**
 * The few Python string built-ins the services rely on: `str()` of an int,
 * `int()` of a decimal text, `str.strip()`, `str.lower()` and the substring
 * test `pat in s`.
 */
module Text {
  import opened Wrappers

  predicate IsDigit(c: char) { '0' <= c <= '9' }

  predicate AllDigits(s: string) { forall i :: 0 <= i < |s| ==> IsDigit(s[i]) }

  function DigitChar(d: nat): (c: char)
    requires d < 10
    ensures IsDigit(c)
  {
    (48 + d) as char
  }

  function DigitValue(c: char): (d: nat)
    requires IsDigit(c)
    ensures d < 10 && DigitChar(d) == c
  {
    c as int - 48
  }

  // ---------------------------------------------------------------------------
  // str(n)

  /** Decimal text of a non-negative integer, with no leading zero. */
  function NatToString(n: nat): (s: string)
    ensures |s| > 0 && AllDigits(s)
    ensures s[0] == '0' <==> n == 0
  {
    if n < 10 then [DigitChar(n)] else NatToString(n / 10) + [DigitChar(n % 10)]
  }

  /** Python's `str(n)` for an int: a minus sign before the digits of a negative number. */
  function IntToString(n: int): (s: string)
    ensures |s| > 0
    ensures s[0] == '-' <==> n < 0
    ensures n >= 0 ==> AllDigits(s)
  {
    if n < 0 then "-" + NatToString(-n) else NatToString(n)
  }

  /** The value of a string of decimal digits (leading zeros allowed). */
  function DigitsValue(s: string): nat
    requires AllDigits(s)
  {
    if s == [] then 0 else DigitsValue(s[..|s| - 1]) * 10 + DigitValue(s[|s| - 1])
  }

  lemma {:induction false} NatToStringRoundTrip(n: nat)
    ensures DigitsValue(NatToString(n)) == n
  {
    if n >= 10 {
      var s := NatToString(n);
      assert s[..|s| - 1] == NatToString(n / 10);
      NatToStringRoundTrip(n / 10);
    }
  }

  /** Distinct integers have distinct texts. */
  lemma IntToStringInjective(a: int, b: int)
    requires IntToString(a) == IntToString(b)
    ensures a == b
  {
    ParseIntOfIntToString(a);
    ParseIntOfIntToString(b);
  }

  /** Distinct numbers have distinct decimal texts. */
  lemma NatToStringInjective(a: nat, b: nat)
    requires NatToString(a) == NatToString(b)
    ensures a == b
  {
    NatToStringRoundTrip(a);
    NatToStringRoundTrip(b);
  }

  // ---------------------------------------------------------------------------
  // int(text)

  /** The digit part `int()` accepts: digits, with single underscores only between digits. */
  predicate IsDigitGroup(s: string) {
    && |s| > 0
    && IsDigit(s[0])
    && IsDigit(s[|s| - 1])
    && (forall i :: 0 <= i < |s| ==> IsDigit(s[i]) || s[i] == '_')
    && (forall i :: 0 <= i < |s| - 1 ==> s[i] == '_' ==> s[i + 1] != '_')
  }

  function DropUnderscores(s: string): (r: string)
    requires forall i :: 0 <= i < |s| ==> IsDigit(s[i]) || s[i] == '_'
    ensures AllDigits(r)
    ensures |r| <= |s|
    ensures AllDigits(s) ==> r == s
  {
    if s == [] then [] else (if s[0] == '_' then [] else [s[0]]) + DropUnderscores(s[1..])
  }

  /** The texts `int()` accepts in base 10: an optional sign, then a digit group. */
  predicate IsIntLiteral(s: string) {
    IsDigitGroup(s) || (|s| > 0 && (s[0] == '+' || s[0] == '-') && IsDigitGroup(s[1..]))
  }

  /**
   * Python's `int(text)` in base 10 on a text with no surrounding whitespace:
   * an optional sign, then a digit group; `None` stands for the ValueError.
   */
  function ParseInt(s: string): (r: Option<int>)
    ensures r.Some? <==> IsIntLiteral(s)
    ensures r.Some? ==> |s| > 0 && IsDigit(s[|s| - 1])
    ensures r.Some? && r.value < 0 ==> s[0] == '-'
    ensures r.Some? ==> forall i :: 0 <= i < |s| ==> IsDigit(s[i]) || s[i] == '_' || (i == 0 && (s[i] == '+' || s[i] == '-'))
    ensures r.Some? && IsDigitGroup(s) ==> r.value == DigitsValue(DropUnderscores(s))
    ensures r.Some? && !IsDigitGroup(s) ==> r.value == (if s[0] == '-' then -1 else 1) * DigitsValue(DropUnderscores(s[1..]))
  {
    if |s| > 0 && (s[0] == '+' || s[0] == '-') then
      var body := s[1..];
      if IsDigitGroup(body) then
        var v: int := DigitsValue(DropUnderscores(body));
        Some(if s[0] == '-' then -v else v)
      else
        None
    else if IsDigitGroup(s) then
      Some(DigitsValue(DropUnderscores(s)))
    else
      None
  }

  /** A leading zero does not change the value `int()` reads: `int("05") == 5`. */
  lemma LeadingZeroIgnored(s: string)
    requires IsDigitGroup(s)
    ensures IsDigitGroup("0" + s) && ParseInt("0" + s) == ParseInt(s)
  {
    var z := "0" + s;
    assert z[1..] == s;
    assert IsDigitGroup(z);
    assert DropUnderscores(z) == "0" + DropUnderscores(s);
    DigitsValueLeadingZero(DropUnderscores(s));
  }

  lemma {:induction false} DigitsValueLeadingZero(t: string)
    requires AllDigits(t)
    ensures DigitsValue("0" + t) == DigitsValue(t)
  {
    var z := "0" + t;
    if t == [] {
      assert z[..|z| - 1] == [];
    } else {
      assert z[..|z| - 1] == "0" + t[..|t| - 1];
      DigitsValueLeadingZero(t[..|t| - 1]);
    }
  }

  /** An underscore between two digit groups does not change the value: `int("1_0") == 10`. */
  lemma UnderscoreIgnored(a: string, b: string)
    requires IsDigitGroup(a) && IsDigitGroup(b)
    ensures ParseInt(a + "_" + b) == ParseInt(a + b)
  {
    DigitGroupsJoin(a, b);
    var ub := "_" + b;
    assert a + "_" + b == a + ub;
    DropUnderscoresAppend(a, ub);
    assert ub[1..] == b;
    assert DropUnderscores(ub) == DropUnderscores(b);
    DropUnderscoresAppend(a, b);
    assert DropUnderscores(a + ub) == DropUnderscores(a + b);
  }

  /** Two digit groups, joined directly or by one underscore, form a digit group. */
  lemma DigitGroupsJoin(a: string, b: string)
    requires IsDigitGroup(a) && IsDigitGroup(b)
    ensures IsDigitGroup(a + b) && IsDigitGroup(a + "_" + b)
  {
    var ab, aub := a + b, a + "_" + b;
    forall i | 0 <= i < |ab| - 1 && ab[i] == '_' ensures ab[i + 1] != '_' {
      if i < |a| {
        assert ab[i] == a[i];
        if i < |a| - 1 { assert ab[i + 1] == a[i + 1]; }
      } else {
        assert ab[i + 1] == b[i + 1 - |a|];
      }
    }
    forall i | 0 <= i < |aub| - 1 && aub[i] == '_' ensures aub[i + 1] != '_' {
      if i < |a| {
        assert aub[i] == a[i];
        if i < |a| - 1 { assert aub[i + 1] == a[i + 1]; }
      } else {
        assert aub[i + 1] == b[i - |a|];
      }
    }
  }

  lemma {:induction false} DropUnderscoresAppend(a: string, b: string)
    requires forall i :: 0 <= i < |a| ==> IsDigit(a[i]) || a[i] == '_'
    requires forall i :: 0 <= i < |b| ==> IsDigit(b[i]) || b[i] == '_'
    ensures DropUnderscores(a + b) == DropUnderscores(a) + DropUnderscores(b)
  {
    if a == [] {
      assert a + b == b;
    } else {
      assert (a + b)[1..] == a[1..] + b;
      DropUnderscoresAppend(a[1..], b);
    }
  }

  /** A plus sign keeps the value and a minus sign negates it: `int("+5") == 5`, `int("-0") == 0`. */
  lemma SignedParse(s: string)
    requires IsDigitGroup(s)
    ensures ParseInt("+" + s) == ParseInt(s)
    ensures ParseInt("-" + s).Some? && ParseInt("-" + s).value == -ParseInt(s).value
  {
    assert ("+" + s)[1..] == s && ("-" + s)[1..] == s;
  }

  /** `int(str(n)) == n`. */
  lemma ParseIntOfIntToString(n: int)
    ensures ParseInt(IntToString(n)) == Some(n)
  {
    var m: nat := if n < 0 then -n else n;
    var d := NatToString(m);
    NatToStringRoundTrip(m);
    assert IsDigitGroup(d);
    if n < 0 {
      assert IntToString(n)[1..] == d;
    }
  }

  // ---------------------------------------------------------------------------
  // strip(), lower(), `in`

  /** The characters Python's `str.isspace()` accepts, which `str.strip()` removes. */
  predicate IsSpace(c: char) {
    var k := c as int;
    || k == 32 || 9 <= k <= 13 || 28 <= k <= 31 || k == 0x85 || k == 0xA0 || k == 0x1680
    || 0x2000 <= k <= 0x200A || k == 0x2028 || k == 0x2029 || k == 0x202F || k == 0x205F
    || k == 0x3000
  }

  predicate AllSpaces(s: string) { forall i :: 0 <= i < |s| ==> IsSpace(s[i]) }

  /** True when `s` neither starts nor ends with whitespace. */
  predicate IsTrimmed(s: string) { s == [] || (!IsSpace(s[0]) && !IsSpace(s[|s| - 1])) }

  function TrimStart(s: string): (r: string)
    ensures |r| <= |s| && r == s[|s| - |r|..]
    ensures r == [] || !IsSpace(r[0])
  {
    if s != [] && IsSpace(s[0]) then TrimStart(s[1..]) else s
  }

  function TrimEnd(s: string): (r: string)
    ensures |r| <= |s| && r == s[..|r|]
    ensures r == [] || !IsSpace(r[|r| - 1])
  {
    if s != [] && IsSpace(s[|s| - 1]) then TrimEnd(s[..|s| - 1]) else s
  }

  /** Python's `s.strip()`. */
  function Strip(s: string): (r: string)
    ensures IsTrimmed(r)
    ensures |r| <= |s|
  {
    TrimEnd(TrimStart(s))
  }

  lemma {:induction false} TrimStartRemovesSpaces(s: string)
    ensures forall i :: 0 <= i < |s| - |TrimStart(s)| ==> IsSpace(s[i])
  {
    if s != [] && IsSpace(s[0]) {
      TrimStartRemovesSpaces(s[1..]);
    }
  }

  lemma {:induction false} TrimEndRemovesSpaces(s: string)
    ensures forall i :: |TrimEnd(s)| <= i < |s| ==> IsSpace(s[i])
  {
    if s != [] && IsSpace(s[|s| - 1]) {
      TrimEndRemovesSpaces(s[..|s| - 1]);
    }
  }

  /** Stripping only removes whitespace: every other character of the text is kept. */
  lemma StripKeepsNonSpace(s: string, k: nat)
    requires k < |s| && !IsSpace(s[k])
    ensures s[k] in Strip(s)
  {
    var t := TrimStart(s);
    TrimStartRemovesSpaces(s);
    TrimEndRemovesSpaces(t);
    var j := k - (|s| - |t|);
    assert t[j] == s[k];
    var u := TrimEnd(t);
    assert j < |u|;
    assert u[j] == s[k];
  }

  lemma {:induction false} TrimStartPadded(pad: string, t: string)
    requires AllSpaces(pad)
    requires t == [] || !IsSpace(t[0])
    ensures TrimStart(pad + t) == t
  {
    if pad != [] {
      assert (pad + t)[1..] == pad[1..] + t;
      TrimStartPadded(pad[1..], t);
    } else {
      assert pad + t == t;
    }
  }

  lemma {:induction false} TrimEndPadded(t: string, pad: string)
    requires AllSpaces(pad)
    requires t == [] || !IsSpace(t[|t| - 1])
    ensures TrimEnd(t + pad) == t
  {
    if pad != [] {
      assert (t + pad)[..|t + pad| - 1] == t + pad[..|pad| - 1];
      TrimEndPadded(t, pad[..|pad| - 1]);
    } else {
      assert t + pad == t;
    }
  }

  /** Stripping removes exactly the surrounding whitespace of a text. */
  lemma StripPadded(before: string, t: string, after: string)
    requires AllSpaces(before) && AllSpaces(after) && IsTrimmed(t)
    ensures Strip(before + t + after) == t
  {
    var x := before + t + after;
    if t == [] {
      assert x == (before + after) + [];
      TrimStartPadded(before + after, []);
    } else {
      assert x == before + (t + after);
      TrimStartPadded(before, t + after);
      TrimEndPadded(t, after);
    }
  }

  lemma StripIdempotent(s: string)
    ensures Strip(Strip(s)) == Strip(s)
  {
  }

  function LowerChar(c: char): char {
    if 'A' <= c <= 'Z' then (c as int + 32) as char else c
  }

  /** Python's `s.lower()` on ASCII letters; other characters are kept. */
  function Lower(s: string): (r: string)
    ensures |r| == |s|
    ensures forall i :: 0 <= i < |s| ==> !('A' <= r[i] <= 'Z')
    ensures forall i :: 0 <= i < |s| && !('A' <= s[i] <= 'Z') ==> r[i] == s[i]
    ensures forall i :: 0 <= i < |s| && 'A' <= s[i] <= 'Z' ==> r[i] as int == s[i] as int + 32
  {
    seq(|s|, i requires 0 <= i < |s| => LowerChar(s[i]))
  }

  predicate OccursAt(s: string, pat: string, i: int) {
    0 <= i && i + |pat| <= |s| && s[i..i + |pat|] == pat
  }

  /** Python's `pat in s` for two strings. */
  predicate Contains(s: string, pat: string)
    decreases |s|
  {
    |pat| <= |s| && (s[..|pat|] == pat || (|s| > 0 && Contains(s[1..], pat)))
  }

  /** `Contains` holds exactly when the pattern occurs at some position. */
  lemma {:induction false} ContainsIff(s: string, pat: string)
    ensures Contains(s, pat) <==> exists i :: OccursAt(s, pat, i)
    decreases |s|
  {
    if |pat| <= |s| && |s| > 0 {
      ContainsIff(s[1..], pat);
      if s[..|pat|] == pat {
        assert OccursAt(s, pat, 0);
      }
      if Contains(s[1..], pat) {
        var i :| OccursAt(s[1..], pat, i);
        assert s[i + 1..i + 1 + |pat|] == s[1..][i..i + |pat|];
        assert OccursAt(s, pat, i + 1);
      }
      if i :| OccursAt(s, pat, i) {
        if i > 0 {
          assert s[1..][i - 1..i - 1 + |pat|] == s[i..i + |pat|];
          assert OccursAt(s[1..], pat, i - 1);
        } else {
          assert s[..|pat|] == s[0..|pat|];
        }
      }
    } else if |pat| <= |s| {
      assert s == [] && pat == [];
      assert OccursAt(s, pat, 0);
    }
  }
}
