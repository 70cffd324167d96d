/**
 * The Python string operations the scraper relies on: `str.strip()`,
 * `str.replace(c, '')`, `str.isdigit()` with `int()`, `str.lower()`,
 * substring `in`, and `float()` on a decimal string.
 */
module PyText {
  import opened Wrappers

  /** The characters for which Python's `str.isspace()` holds. */
  predicate IsSpace(c: char) {
    || c == ' '
    || ('\t' <= c <= '\r')
    || ('\U{1C}' <= c <= '\U{1F}')
    || c == '\U{85}' || c == '\U{A0}' || c == '\U{1680}'
    || ('\U{2000}' <= c <= '\U{200A}')
    || c == '\U{2028}' || c == '\U{2029}' || c == '\U{202F}'
    || c == '\U{205F}' || c == '\U{3000}'
  }

  /** Which whitespace a strip removes. `str.strip()` removes every
      `str.isspace()` character. `float()` first turns non-ASCII whitespace
      into spaces and then strips only space and `\t\n\v\f\r`, so the
      ASCII separators U+001C to U+001F are not whitespace to it. */
  datatype Spaces = StrSpaces | FloatSpaces

  predicate IsSpaceIn(w: Spaces, c: char) {
    IsSpace(c) && (w == FloatSpaces ==> !('\U{1C}' <= c <= '\U{1F}'))
  }

  ghost predicate AllSpaceIn(w: Spaces, s: string) {
    forall k :: 0 <= k < |s| ==> IsSpaceIn(w, s[k])
  }

  /** Every character is `str.isspace()` whitespace. */
  ghost predicate AllSpace(s: string) {
    AllSpaceIn(StrSpaces, s)
  }

  /** Drops leading whitespace: the result is a suffix of `s` that is empty
      or starts with a non-space character. */
  function TrimStart(w: Spaces, s: string): (r: string)
    ensures |r| <= |s| && r == s[|s| - |r|..]
    ensures r == [] || !IsSpaceIn(w, r[0])
  {
    if |s| > 0 && IsSpaceIn(w, s[0]) then TrimStart(w, s[1..]) else s
  }

  /** What TrimStart drops is whitespace. */
  lemma {:induction false} TrimStartDropsSpace(w: Spaces, s: string)
    ensures AllSpaceIn(w, s[..|s| - |TrimStart(w, s)|])
  {
    if |s| > 0 && IsSpaceIn(w, s[0]) {
      TrimStartDropsSpace(w, s[1..]);
      var n := |s| - |TrimStart(w, s)|;
      assert s[..n] == [s[0]] + s[1..][..n - 1];
    }
  }

  /** Drops trailing whitespace: the result is a prefix of `s` that is empty
      or ends with a non-space character. */
  function TrimEnd(w: Spaces, s: string): (r: string)
    ensures |r| <= |s| && r == s[..|r|]
    ensures r == [] || !IsSpaceIn(w, r[|r| - 1])
  {
    if |s| > 0 && IsSpaceIn(w, s[|s| - 1]) then TrimEnd(w, s[..|s| - 1]) else s
  }

  /** What TrimEnd drops is whitespace. */
  lemma {:induction false} TrimEndDropsSpace(w: Spaces, s: string)
    ensures AllSpaceIn(w, s[|TrimEnd(w, s)|..])
  {
    if |s| > 0 && IsSpaceIn(w, s[|s| - 1]) {
      TrimEndDropsSpace(w, s[..|s| - 1]);
      var n := |TrimEnd(w, s)|;
      assert s[n..] == s[..|s| - 1][n..] + [s[|s| - 1]];
    }
  }

  /** Whitespace removed from both ends. */
  function StripIn(w: Spaces, s: string): (r: string)
    ensures |r| <= |s|
    ensures r == [] || (!IsSpaceIn(w, r[0]) && !IsSpaceIn(w, r[|r| - 1]))
  {
    var t := TrimStart(w, s);
    var r := TrimEnd(w, t);
    assert r != [] ==> r[0] == t[0];
    r
  }

  /** Python's `s.strip()`. */
  function Strip(s: string): string {
    StripIn(StrSpaces, s)
  }

  /** The strip `float()` applies to its argument. */
  function FloatStrip(s: string): string {
    StripIn(FloatSpaces, s)
  }

  /** Only a blank string strips to nothing. */
  lemma StripEmptyIffBlank(w: Spaces, s: string)
    ensures StripIn(w, s) == [] <==> AllSpaceIn(w, s)
  {
    var t := TrimStart(w, s);
    var i := |s| - |t|;
    if StripIn(w, s) == [] {
      TrimEndDropsSpace(w, t);
      assert t == [];
      TrimStartDropsSpace(w, s);
      assert s[..i] == s;
    } else {
      assert StripIn(w, s)[0] == t[0] == s[i];
    }
  }

  /** Strip keeps exactly a contiguous run of `s`. */
  lemma StripIsInnerSlice(w: Spaces, s: string)
    ensures StripIn(w, s) == s[|s| - |TrimStart(w, s)|..|s| - |TrimStart(w, s)| + |StripIn(w, s)|]
  {
    var t := TrimStart(w, s);
    var i := |s| - |t|;
    assert t == s[i..];
  }

  /** Strip removes characters and never introduces one. */
  lemma StripKeepsCharacters(w: Spaces, s: string)
    ensures forall x :: x in StripIn(w, s) ==> x in s
  {
    StripIsInnerSlice(w, s);
  }

  lemma {:induction false} TrimStartPadded(w: Spaces, pad: string, x: string)
    requires AllSpaceIn(w, pad) && (x == [] || !IsSpaceIn(w, x[0]))
    ensures TrimStart(w, pad + x) == x
  {
    if pad == [] {
      assert pad + x == x;
    } else {
      assert (pad + x)[1..] == pad[1..] + x;
      assert (pad + x)[0] == pad[0];
      TrimStartPadded(w, pad[1..], x);
    }
  }

  lemma {:induction false} TrimEndPadded(w: Spaces, x: string, pad: string)
    requires AllSpaceIn(w, pad) && (x == [] || !IsSpaceIn(w, x[|x| - 1]))
    ensures TrimEnd(w, x + pad) == x
  {
    if pad == [] {
      assert x + pad == x;
    } else {
      var pad' := pad[..|pad| - 1];
      assert (x + pad)[..|x + pad| - 1] == x + pad';
      assert (x + pad)[|x + pad| - 1] == pad[|pad| - 1];
      TrimEndPadded(w, x, pad');
    }
  }

  /** Strip undoes padding: whitespace added around a string that neither
      starts nor ends with whitespace is exactly what it removes. */
  lemma StripRemovesPadding(w: Spaces, pad: string, x: string, pad': string)
    requires AllSpaceIn(w, pad) && AllSpaceIn(w, pad')
    requires x == [] || (!IsSpaceIn(w, x[0]) && !IsSpaceIn(w, x[|x| - 1]))
    ensures StripIn(w, pad + x + pad') == x
  {
    if x == [] {
      assert pad + x + pad' == pad + pad';
      assert AllSpaceIn(w, pad + pad');
      StripEmptyIffBlank(w, pad + pad');
    } else {
      assert pad + x + pad' == pad + (x + pad');
      TrimStartPadded(w, pad, x + pad');
      TrimEndPadded(w, x, pad');
    }
  }

  /** Stripping twice is stripping once. */
  lemma StripIdempotent(w: Spaces, s: string)
    ensures StripIn(w, StripIn(w, s)) == StripIn(w, s)
  {
    StripRemovesPadding(w, [], StripIn(w, s), []);
    assert [] + StripIn(w, s) + [] == StripIn(w, s);
  }

  /** Python's `s.replace(c, '')` for a one-character `c`: every occurrence of
      `c` is removed and every other character kept. */
  function RemoveChar(s: string, c: char): (r: string)
    ensures |r| <= |s|
    ensures c !in r
    ensures forall x :: x != c ==> (x in r <==> x in s)
    ensures c !in s ==> r == s
  {
    if s == [] then []
    else (if s[0] == c then [] else [s[0]]) + RemoveChar(s[1..], c)
  }

  /** Removal works piecewise, so the kept characters stay in their order. */
  lemma {:induction false} RemoveCharAppend(a: string, b: string, c: char)
    ensures RemoveChar(a + b, c) == RemoveChar(a, c) + RemoveChar(b, c)
  {
    if a == [] {
      assert a + b == b;
    } else {
      var h: string := if a[0] == c then [] else [a[0]];
      RemoveCharAppend(a[1..], b, c);
      calc {
        RemoveChar(a + b, c);
        { assert (a + b)[0] == a[0] && (a + b)[1..] == a[1..] + b; }
        h + RemoveChar(a[1..] + b, c);
        h + (RemoveChar(a[1..], c) + RemoveChar(b, c));
        (h + RemoveChar(a[1..], c)) + RemoveChar(b, c);
      }
    }
  }

  predicate IsDigit(c: char) {
    '0' <= c <= '9'
  }

  predicate AllDigits(s: string) {
    forall k :: 0 <= k < |s| ==> IsDigit(s[k])
  }

  /** Python's `s.isdigit()`, restricted to ASCII digits: false on "". */
  predicate IsDigits(s: string) {
    |s| > 0 && AllDigits(s)
  }

  function Pow10(n: nat): (p: nat)
    ensures p >= 1
  {
    if n == 0 then 1 else 10 * Pow10(n - 1)
  }

  /** Python's `int(s)` on a string of ASCII digits: the decimal value,
      which has at most `|s|` digits. */
  function DigitsValue(s: string): (v: nat)
    requires AllDigits(s)
    ensures v < Pow10(|s|)
  {
    if s == [] then 0
    else DigitsValue(s[..|s| - 1]) * 10 + (s[|s| - 1] as int - '0' as int)
  }

  /** Positional notation: the value of a concatenation. */
  lemma {:induction false} DigitsValueAppend(a: string, b: string)
    requires AllDigits(a) && AllDigits(b)
    ensures AllDigits(a + b)
    ensures DigitsValue(a + b) == DigitsValue(a) * Pow10(|b|) + DigitsValue(b)
  {
    assert AllDigits(a + b) by {
      forall k | 0 <= k < |a + b| ensures IsDigit((a + b)[k]) {
        if k < |a| { assert (a + b)[k] == a[k]; } else { assert (a + b)[k] == b[k - |a|]; }
      }
    }
    if b == [] {
      assert a + b == a;
    } else {
      var b' := b[..|b| - 1];
      var d := b[|b| - 1] as int - '0' as int;
      assert (a + b)[..|a + b| - 1] == a + b';
      assert (a + b)[|a + b| - 1] == b[|b| - 1];
      DigitsValueAppend(a, b');
      var x, y, p := DigitsValue(a), DigitsValue(b'), Pow10(|b'|);
      assert DigitsValue(a + b) == DigitsValue(a + b') * 10 + d;
      assert DigitsValue(a + b) == (x * p + y) * 10 + d;
      assert DigitsValue(b) == y * 10 + d;
      assert Pow10(|b|) == p * 10;
      Distribute(x, p, y);
    }
  }

  lemma Distribute(x: int, p: int, y: int)
    ensures (x * p + y) * 10 == x * (p * 10) + y * 10
  {
  }

  /** Leading zeros do not change the value. */
  lemma LeadingZeroIgnored(s: string)
    requires AllDigits(s)
    ensures AllDigits("0" + s) && DigitsValue("0" + s) == DigitsValue(s)
  {
    DigitsValueAppend("0", s);
  }

  function LowerChar(c: char): char {
    if 'A' <= c <= 'Z' then (c as int - 'A' as int + 'a' as int) as char else c
  }

  /** Python's `s.lower()` on ASCII letters: same length, no upper-case ASCII
      letter left, every other character unchanged. */
  function Lower(s: string): (r: string)
    ensures |r| == |s|
    ensures forall k :: 0 <= k < |r| ==> !('A' <= r[k] <= 'Z')
    ensures forall k :: 0 <= k < |r| && !('A' <= s[k] <= 'Z') ==> r[k] == s[k]
    ensures forall k :: 0 <= k < |r| && 'A' <= s[k] <= 'Z' ==> r[k] as int == s[k] as int + 32
  {
    if s == [] then [] else [LowerChar(s[0])] + Lower(s[1..])
  }

  /** Lower-casing twice is lower-casing once. */
  lemma {:induction false} LowerIdempotent(s: string)
    ensures Lower(Lower(s)) == Lower(s)
  {
    if s != [] {
      LowerIdempotent(s[1..]);
    }
  }

  /** Python's `pat in s`, searched from the left. */
  function Contains(s: string, pat: string): (b: bool)
    ensures b ==> |pat| <= |s|
    ensures pat == [] ==> b
    decreases |s|
  {
    if |s| < |pat| then false
    else s[..|pat|] == pat || (|s| > 0 && Contains(s[1..], pat))
  }

  ghost predicate OccursAt(s: string, pat: string, i: int) {
    0 <= i <= |s| - |pat| && s[i..i + |pat|] == pat
  }

  /** `Contains` holds exactly when `pat` occurs at some offset of `s`. */
  lemma {:induction false} ContainsIff(s: string, pat: string)
    ensures Contains(s, pat) <==> exists i :: OccursAt(s, pat, i)
    decreases |s|
  {
    if |s| >= |pat| {
      if |s| > 0 {
        ContainsIff(s[1..], pat);
      }
      if Contains(s, pat) {
        if s[..|pat|] == pat {
          assert OccursAt(s, pat, 0);
        } else {
          var i :| OccursAt(s[1..], pat, i);
          assert s[i + 1..i + 1 + |pat|] == s[1..][i..i + |pat|];
          assert OccursAt(s, pat, i + 1);
        }
      } else {
        forall i | 0 <= i <= |s| - |pat| ensures !OccursAt(s, pat, i) {
          if i == 0 {
            assert s[i..i + |pat|] == s[..|pat|];
          } else {
            assert s[i..i + |pat|] == s[1..][i - 1..i - 1 + |pat|];
            assert !OccursAt(s[1..], pat, i - 1);
          }
        }
      }
    }
  }

  /** The first index of `c` in `s`, or `|s|` when there is none. */
  function IndexOf(s: string, c: char): (i: nat)
    ensures i <= |s|
    ensures forall k :: 0 <= k < i ==> s[k] != c
    ensures i < |s| ==> s[i] == c
  {
    if s == [] then 0
    else if s[0] == c then 0
    else 1 + IndexOf(s[1..], c)
  }

  /** The value of the digits after a decimal point: "25" is 0.25. */
  function FractionValue(f: string): (v: real)
    requires AllDigits(f)
    ensures 0.0 <= v <= 1.0
  {
    if f == [] then 0.0
    else ((f[0] as int - '0' as int) as real + FractionValue(f[1..])) / 10.0
  }

  /** `x` shifted `n` decimal places to the left: `x` times 10 to the `n`. */
  function Shifted(x: real, n: nat): real {
    if n == 0 then x else 10.0 * Shifted(x, n - 1)
  }

  /** Shifting distributes over a sum. */
  lemma {:induction false} ShiftedAdd(x: real, y: real, n: nat)
    ensures Shifted(x + y, n) == Shifted(x, n) + Shifted(y, n)
  {
    if n > 0 {
      ShiftedAdd(x, y, n - 1);
    }
  }

  /** Shifting a tenth one place further gives the unshifted value. */
  lemma {:induction false} ShiftedTenth(x: real, n: nat)
    ensures Shifted(x / 10.0, n + 1) == Shifted(x, n)
  {
    if n > 0 {
      ShiftedTenth(x, n - 1);
    }
  }

  /** A leading digit is worth its value shifted past the digits after it. */
  lemma {:induction false} DigitsValuePrepend(c: char, g: string)
    requires IsDigit(c) && AllDigits(g)
    ensures AllDigits([c] + g)
    ensures DigitsValue([c] + g) as real == Shifted((c as int - '0' as int) as real, |g|) + DigitsValue(g) as real
  {
    var s := [c] + g;
    assert AllDigits(s) by {
      forall k | 0 <= k < |s| ensures IsDigit(s[k]) {
        if k > 0 { assert s[k] == g[k - 1]; }
      }
    }
    if g == [] {
      assert s[..0] == [];
    } else {
      var g' := g[..|g| - 1];
      assert s[..|s| - 1] == [c] + g';
      assert s[|s| - 1] == g[|g| - 1];
      DigitsValuePrepend(c, g');
    }
  }

  /** Positional notation after the point: the digits of `f` shifted left
      by `|f|` places are the integer they spell. */
  lemma {:induction false} FractionValueShifted(f: string)
    requires AllDigits(f)
    ensures Shifted(FractionValue(f), |f|) == DigitsValue(f) as real
  {
    if f != [] {
      var c, f' := f[0], f[1..];
      var d := (c as int - '0' as int) as real;
      FractionValueShifted(f');
      assert FractionValue(f) == (d + FractionValue(f')) / 10.0;
      ShiftedTenth(d + FractionValue(f'), |f'|);
      ShiftedAdd(d, FractionValue(f'), |f'|);
      assert f == [c] + f';
      DigitsValuePrepend(c, f');
    }
  }

  /** The texts an unsigned decimal may be: digits and at most one '.', with
      at least one digit. */
  ghost predicate IsUnsignedDecimal(t: string) {
    && (forall k :: 0 <= k < |t| ==> IsDigit(t[k]) || t[k] == '.')
    && (forall j, k :: 0 <= j < k < |t| && t[j] == '.' ==> t[k] != '.')
    && (exists k :: 0 <= k < |t| && IsDigit(t[k]))
  }

  /** The stripped texts `float` accepts: an unsigned decimal, with one
      leading sign or without. */
  ghost predicate IsFloatText(t: string) {
    || IsUnsignedDecimal(t)
    || (|t| > 0 && (t[0] == '+' || t[0] == '-') && IsUnsignedDecimal(t[1..]))
  }

  /** The value of the decimal text `w.f`. */
  function DecimalValue(w: string, f: string): real
    requires AllDigits(w) && AllDigits(f)
  {
    DigitsValue(w) as real + FractionValue(f)
  }

  /** An unsigned decimal: digits with at most one '.', at least one digit. */
  function ParseUnsigned(t: string): (r: Option<real>)
    ensures r.Some? ==> r.value >= 0.0
    ensures r.Some? ==> exists k :: 0 <= k < |t| && IsDigit(t[k])
  {
    var i := IndexOf(t, '.');
    if i == |t| then
      if IsDigits(t) then Some(DigitsValue(t) as real) else None
    else
      var whole, frac := t[..i], t[i + 1..];
      if |whole| + |frac| > 0 && AllDigits(whole) && AllDigits(frac) then
        assert |whole| > 0 ==> t[0] == whole[0];
        assert |whole| == 0 ==> t[i + 1] == frac[0];
        Some(DecimalValue(whole, frac))
      else None
  }

  /** ParseUnsigned accepts exactly the unsigned decimals. */
  lemma ParseUnsignedAccepts(t: string)
    ensures ParseUnsigned(t).Some? <==> IsUnsignedDecimal(t)
  {
    var i := IndexOf(t, '.');
    if i == |t| {
      if IsUnsignedDecimal(t) {
        assert AllDigits(t) by {
          forall k | 0 <= k < |t| ensures IsDigit(t[k]) {
            assert t[k] != '.';
          }
        }
      }
    } else {
      var whole, frac := t[..i], t[i + 1..];
      if ParseUnsigned(t).Some? {
        forall k | 0 <= k < |t| ensures IsDigit(t[k]) || t[k] == '.' {
          if k < i { assert t[k] == whole[k]; }
          else if k > i { assert t[k] == frac[k - i - 1]; }
        }
        forall k | i < k < |t| ensures IsDigit(t[k]) {
          assert t[k] == frac[k - i - 1];
        }
      }
      if IsUnsignedDecimal(t) {
        forall k | 0 <= k < |whole| ensures IsDigit(whole[k]) {
          assert whole[k] == t[k];
        }
        forall k | 0 <= k < |frac| ensures IsDigit(frac[k]) {
          assert frac[k] == t[k + i + 1];
        }
        var k :| 0 <= k < |t| && IsDigit(t[k]);
        assert k < i || k > i;
      }
    }
  }

  /** Python's `float(s)` on decimal strings: surrounding whitespace is
      ignored, one leading sign is allowed, and the rest must be an
      unsigned decimal. Any other string makes `float` raise, here `None`. */
  function ParseFloat(s: string): (r: Option<real>)
    ensures r.Some? && r.value < 0.0 ==> '-' in s
  {
    var t := FloatStrip(s);
    if |t| > 0 && (t[0] == '+' || t[0] == '-') then
      match ParseUnsigned(t[1..])
      case Some(v) =>
        if t[0] == '-' then StripKeepsCharacters(FloatSpaces, s); Some(-v) else Some(v)
      case None => None
    else
      ParseUnsigned(t)
  }

  /** `float` accepts a text exactly when, stripped, it is a decimal with an
      optional sign. */
  lemma ParseFloatAccepts(s: string)
    ensures ParseFloat(s).Some? <==> IsFloatText(FloatStrip(s))
  {
    var t := FloatStrip(s);
    if |t| > 0 && (t[0] == '+' || t[0] == '-') {
      ParseUnsignedAccepts(t[1..]);
      assert !IsUnsignedDecimal(t);
    } else {
      ParseUnsignedAccepts(t);
    }
  }

  /** The value a sign text gives to a magnitude. */
  function Signed(sign: string, v: real): real {
    if sign == "-" then -v else v
  }

  predicate IsSign(sign: string) {
    sign == "" || sign == "+" || sign == "-"
  }

  /** A whole number parses to its value. */
  lemma ParseUnsignedOfDigits(d: string)
    requires IsDigits(d)
    ensures ParseUnsigned(d) == Some(DigitsValue(d) as real)
  {
    assert IndexOf(d, '.') == |d|;
  }

  /** A number with a point parses to its whole part plus its fraction. */
  lemma ParseUnsignedOfDecimal(w: string, f: string)
    requires AllDigits(w) && AllDigits(f) && |w| + |f| > 0
    ensures ParseUnsigned(w + "." + f) == Some(DecimalValue(w, f))
    ensures var u := w + "." + f; IsDigit(u[0]) || u[0] == '.'
  {
    var u := w + "." + f;
    var i := IndexOf(u, '.');
    assert i == |w| by {
      assert u[|w|] == '.';
      assert forall k :: 0 <= k < |w| ==> u[k] == w[k];
    }
    assert u[..i] == w;
    assert u[i + 1..] == f;
    assert ParseUnsigned(u).Some?;
    assert ParseUnsigned(u).value == DecimalValue(w, f);
  }

  /** What the sign does once the text is stripped. */
  lemma ParseFloatOfSigned(s: string, sign: string, u: string)
    requires IsSign(sign) && FloatStrip(s) == sign + u
    requires |u| > 0 && (IsDigit(u[0]) || u[0] == '.')
    ensures ParseUnsigned(u).None? ==> ParseFloat(s).None?
    ensures ParseUnsigned(u).Some? ==> ParseFloat(s) == Some(Signed(sign, ParseUnsigned(u).value))
  {
    var t := FloatStrip(s);
    if sign == "" {
      assert t == u;
      assert !(t[0] == '+' || t[0] == '-');
      assert ParseFloat(s) == ParseUnsigned(u);
    } else {
      assert t[0] == sign[0] && t[1..] == u;
      assert t[0] == '-' <==> sign == "-";
    }
  }

  /** A text with a non-space at both ends keeps them under `float`'s strip. */
  lemma FloatPadding(pad: string, x: string, pad': string)
    requires AllSpaceIn(FloatSpaces, pad) && AllSpaceIn(FloatSpaces, pad')
    requires |x| > 0 && !IsSpace(x[0]) && !IsSpace(x[|x| - 1])
    ensures FloatStrip(pad + x + pad') == x
  {
    StripRemovesPadding(FloatSpaces, pad, x, pad');
  }

  /** An integer, with an optional sign and whitespace around it, parses to
      its signed value. */
  lemma ParseFloatOfDigits(pad: string, sign: string, d: string, pad': string)
    requires AllSpaceIn(FloatSpaces, pad) && AllSpaceIn(FloatSpaces, pad')
    requires IsSign(sign) && IsDigits(d)
    ensures ParseFloat(pad + sign + d + pad') == Some(Signed(sign, DigitsValue(d) as real))
  {
    var x := sign + d;
    assert IsDigit(d[0]) && IsDigit(d[|d| - 1]);
    assert x[|x| - 1] == d[|d| - 1];
    assert x[0] == if sign == "" then d[0] else sign[0];
    assert pad + sign + d + pad' == pad + x + pad';
    FloatPadding(pad, x, pad');
    ParseUnsignedOfDigits(d);
    ParseFloatOfSigned(pad + sign + d + pad', sign, d);
  }

  /** A decimal with a point, an optional sign and whitespace around it
      parses to its signed value: the whole part plus the fraction. */
  lemma ParseFloatOfDecimal(pad: string, sign: string, w: string, f: string, pad': string)
    requires AllSpaceIn(FloatSpaces, pad) && AllSpaceIn(FloatSpaces, pad')
    requires IsSign(sign) && AllDigits(w) && AllDigits(f) && |w| + |f| > 0
    ensures ParseFloat(pad + sign + w + "." + f + pad') ==
      Some(Signed(sign, DecimalValue(w, f)))
  {
    RegroupDecimal(pad, sign, w, f, pad');
    ParseFloatOfRegrouped(pad + sign + w + "." + f + pad', pad, sign, w, f, pad');
  }

  /** ParseFloatOfDecimal with the text's parts grouped as strip sees them. */
  lemma ParseFloatOfRegrouped(s: string, pad: string, sign: string, w: string, f: string, pad': string)
    requires s == pad + (sign + (w + "." + f)) + pad'
    requires AllSpaceIn(FloatSpaces, pad) && AllSpaceIn(FloatSpaces, pad')
    requires IsSign(sign) && AllDigits(w) && AllDigits(f) && |w| + |f| > 0
    ensures ParseFloat(s) == Some(Signed(sign, DecimalValue(w, f)))
  {
    DecimalHasNoSpaceAtEnds(sign, w, f);
    FloatPadding(pad, sign + (w + "." + f), pad');
    ParseFloatOfStrippedDecimal(s, sign, w, f);
  }

  /** A text that strips to a signed decimal parses to its signed value. */
  lemma ParseFloatOfStrippedDecimal(s: string, sign: string, w: string, f: string)
    requires IsSign(sign) && AllDigits(w) && AllDigits(f) && |w| + |f| > 0
    requires FloatStrip(s) == sign + (w + "." + f)
    ensures ParseFloat(s) == Some(Signed(sign, DecimalValue(w, f)))
  {
    ParseUnsignedOfDecimal(w, f);
    ParseFloatOfValue(s, sign, w + "." + f, DecimalValue(w, f));
  }

  /** A text that strips to a sign and an accepted magnitude parses to the
      signed magnitude. */
  lemma ParseFloatOfValue(s: string, sign: string, u: string, v: real)
    requires IsSign(sign) && FloatStrip(s) == sign + u
    requires |u| > 0 && (IsDigit(u[0]) || u[0] == '.') && ParseUnsigned(u) == Some(v)
    ensures ParseFloat(s) == Some(Signed(sign, v))
  {
    ParseFloatOfSigned(s, sign, u);
  }

  /** A signed decimal text neither starts nor ends with white space. */
  lemma DecimalHasNoSpaceAtEnds(sign: string, w: string, f: string)
    requires IsSign(sign) && AllDigits(w) && AllDigits(f)
    ensures var x := sign + (w + "." + f);
      |x| > 0 && !IsSpace(x[0]) && !IsSpace(x[|x| - 1])
  {
    var u := w + "." + f;
    var x := sign + u;
    assert u[0] == if |w| > 0 then w[0] else '.';
    assert u[|u| - 1] == if |f| > 0 then f[|f| - 1] else '.';
    assert x[|x| - 1] == u[|u| - 1];
    assert x[0] == if sign == "" then u[0] else sign[0];
  }

  /** Regrouping the parts of a padded decimal text. */
  lemma RegroupDecimal(pad: string, sign: string, w: string, f: string, pad': string)
    ensures pad + sign + w + "." + f + pad' == pad + (sign + (w + "." + f)) + pad'
  {
    assert sign + w + "." == sign + (w + ".");
    assert sign + w + "." + f == sign + (w + "." + f);
    assert pad + sign + w + "." == pad + (sign + w + ".");
    assert pad + sign + w + "." + f == pad + (sign + w + "." + f);
  }

  /** Neither the empty string nor a blank one is a number. */
  lemma ParseFloatOfBlank(s: string)
    requires AllSpace(s)
    ensures ParseFloat(s) == None
  {
    var t := FloatStrip(s);
    StripKeepsCharacters(FloatSpaces, s);
    assert forall k :: 0 <= k < |t| ==> t[k] in s;
  }

  /** A text that starts with one of the separators U+001C to U+001F is not
      a number: `float` does not strip them, though `str.strip` does. */
  lemma ParseFloatRejectsSeparator(s: string)
    requires |s| > 0 && '\U{1C}' <= s[0] <= '\U{1F}'
    ensures ParseFloat(s) == None
  {
    var t := TrimStart(FloatSpaces, s);
    assert t == s;
    var r := FloatStrip(s);
    StripEmptyIffBlank(FloatSpaces, s);
    assert !IsSpaceIn(FloatSpaces, s[0]);
    assert r != [] && r[0] == s[0];
    ParseFloatAccepts(s);
    assert !IsFloatText(r) by {
      assert !IsDigit(r[0]) && r[0] != '.';
    }
  }
}
