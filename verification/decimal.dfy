/**
  Decimal text for integers: `str(n)` / f-string formatting of a natural
  number, and `int(s)` on a base-10 string.
 */
module Decimal {
  import opened Wrappers
  import opened Text

  predicate IsDigit(c: char) {
    '0' <= c <= '9'
  }

  predicate AllDigits(s: string) {
    forall i :: 0 <= i < |s| ==> IsDigit(s[i])
  }

  function DigitChar(d: nat): (c: char)
    requires d < 10
    ensures IsDigit(c)
  {
    ('0' as int + d) as char
  }

  /** The numeric value of a run of decimal digits (leading zeros allowed). */
  function DigitsValue(s: string): nat
    requires AllDigits(s)
  {
    if s == [] then 0
    else DigitsValue(s[..|s| - 1]) * 10 + (s[|s| - 1] as int - '0' as int)
  }

  /** `str(n)` for a natural number: shortest decimal digits, no sign. */
  function NatToString(n: nat): (s: string)
    ensures |s| >= 1
    ensures AllDigits(s)
    ensures '-' !in s && ',' !in s
  {
    if n < 10 then [DigitChar(n)] else NatToString(n / 10) + [DigitChar(n % 10)]
  }

  lemma {:induction false} DigitsRoundTrip(n: nat)
    ensures DigitsValue(NatToString(n)) == n
  {
    if n >= 10 {
      var s := NatToString(n);
      assert s[..|s| - 1] == NatToString(n / 10);
      DigitsRoundTrip(n / 10);
    }
  }

  /** Distinct numbers print differently, so `_1`, `_2`, ... are distinct names. */
  lemma NatToStringInjective(a: nat, b: nat)
    requires NatToString(a) == NatToString(b)
    ensures a == b
  {
    DigitsRoundTrip(a);
    DigitsRoundTrip(b);
  }

  /**
    `int(s)` for base 10: surrounding whitespace is ignored, one optional sign,
    then at least one ASCII digit; anything else raises ValueError (None here).
   */
  function ParseInt(s: string): (r: Option<int>)
    ensures r.Some? ==> StripSpace(s) != []
    ensures r.Some? && r.value < 0 ==> StripSpace(s)[0] == '-'
  {
    ParseSigned(StripSpace(s))
  }

  /** `int()` once surrounding whitespace is gone: one optional sign, then only digits. */
  function ParseSigned(t: string): (r: Option<int>)
    ensures r.Some? ==> t != []
    ensures r.Some? && r.value < 0 ==> t[0] == '-'
  {
    var signed := |t| > 0 && (t[0] == '-' || t[0] == '+');
    var digits := if signed then t[1..] else t;
    if digits == [] || !AllDigits(digits) then None
    else if signed && t[0] == '-' then Some(0 - DigitsValue(digits) as int)
    else Some(DigitsValue(digits))
  }

  /** A sign `int()` accepts in front of the digits: none, `+` or `-`. */
  predicate IsSignText(sg: string) {
    sg == "" || sg == "+" || sg == "-"
  }

  /** The value of signed digits. */
  function SignedValue(sg: string, ds: string): int
    requires AllDigits(ds)
  {
    if sg == "-" then 0 - DigitsValue(ds) else DigitsValue(ds)
  }

  /**
    Every accepted text: optional whitespace, an optional sign, at least one
    digit (leading zeros allowed), optional whitespace. Its value is the
    digits' value, negated after `-`.
   */
  lemma ParseIntOfForm(pre: string, sg: string, ds: string, post: string)
    requires AllSpace(pre) && AllSpace(post)
    requires IsSignText(sg) && ds != [] && AllDigits(ds)
    ensures ParseInt(pre + sg + ds + post) == Some(SignedValue(sg, ds))
  {
    var t := sg + ds;
    assert t[|t| - 1] == ds[|ds| - 1];
    assert t[0] == if sg == "" then ds[0] else sg[0];
    assert pre + sg + ds + post == pre + t + post;
    StripSpacePadded(pre, t, post);
    SignedOfForm(sg, ds);
  }

  lemma SignedOfForm(sg: string, ds: string)
    requires IsSignText(sg) && ds != [] && AllDigits(ds)
    ensures ParseSigned(sg + ds) == Some(SignedValue(sg, ds))
  {
    var t := sg + ds;
    if sg == "" {
      assert t == ds;
    } else {
      assert t[0] == sg[0] && t[1..] == ds;
    }
  }

  /** Conversely, a text that parses has that form once stripped, and the value it shows. */
  lemma ParseIntShape(s: string)
    requires ParseInt(s).Some?
    ensures exists sg, ds ::
      && StripSpace(s) == sg + ds && IsSignText(sg)
      && ds != [] && AllDigits(ds) && ParseInt(s).value == SignedValue(sg, ds)
  {
    SignedShape(StripSpace(s));
  }

  lemma SignedShape(t: string)
    requires ParseSigned(t).Some?
    ensures exists sg, ds ::
      && t == sg + ds && IsSignText(sg)
      && ds != [] && AllDigits(ds) && ParseSigned(t).value == SignedValue(sg, ds)
  {
    if t[0] == '-' || t[0] == '+' {
      var sg := [t[0]];
      assert t == sg + t[1..];
      assert IsSignText(sg);
    } else {
      assert t == "" + t;
    }
  }

  /** Leading zeros do not change the value of the digits. */
  lemma {:induction false} LeadingZeros(z: string, ds: string)
    requires forall i :: 0 <= i < |z| ==> z[i] == '0'
    requires AllDigits(ds)
    ensures AllDigits(z + ds) && DigitsValue(z + ds) == DigitsValue(ds)
    decreases |ds|, |z|
  {
    var s := z + ds;
    assert AllDigits(s) by {
      assert forall i :: 0 <= i < |s| ==> s[i] == if i < |z| then z[i] else ds[i - |z|];
    }
    if ds == [] {
      assert s == z;
      if z != [] {
        LeadingZeros(z[..|z| - 1], []);
        assert z[..|z| - 1] + [] == s[..|s| - 1];
      }
    } else {
      LeadingZeros(z, ds[..|ds| - 1]);
      assert s[..|s| - 1] == z + ds[..|ds| - 1];
    }
  }

  /** A sign followed by one digit: `+5` is 5 and `-3` is -3. */
  lemma SignedDigit(s: string, c: char, d: nat)
    requires d < 10 && |s| == 2 && s[0] == c && s[1] == DigitChar(d) && (c == '+' || c == '-')
    ensures ParseInt(s) == Some(if c == '-' then 0 - d else d)
  {
    var sg, ds := [s[0]], [s[1]];
    assert s == "" + sg + ds + "";
    assert DigitsValue(ds) == d by {
      assert ds[..0] == [];
    }
    ParseIntOfForm("", sg, ds, "");
  }

  /** Padding and leading zeros are ignored: ` 007 ` is 7. */
  lemma ZeroLed(s: string)
    requires |s| == 5 && s[0] == ' ' && s[1] == '0' && s[2] == '0' && s[3] == '7' && s[4] == ' '
    ensures ParseInt(s) == Some(7)
  {
    var pre, z, seven, post := [s[0]], [s[1], s[2]], [s[3]], [s[4]];
    assert DigitsValue(seven) == 7 by {
      assert seven[..0] == [];
    }
    LeadingZeros(z, seven);
    assert s == pre + "" + (z + seven) + post;
    ParseIntOfForm(pre, "", z + seven, post);
  }

  /** A bare sign is rejected. */
  lemma BareSign(s: string)
    requires |s| == 3 && s[0] == ' ' && s[1] == '-' && s[2] == ' '
    ensures ParseInt(s) == None
  {
    StripSpacePadded(s[..1], s[1..2], s[2..]);
    assert s[..1] + s[1..2] + s[2..] == s;
    assert s[1..2] == ['-'];
  }

  /** A space inside the number is rejected. */
  lemma SpaceInside(s: string)
    requires |s| == 3 && s[0] == '1' && s[1] == ' ' && s[2] == '2'
    ensures ParseInt(s) == None
  {
    StripSpaceKeepsTrimmed(s);
    assert !IsDigit(s[1]);
  }

  lemma ParseIntRoundTrip(n: nat)
    ensures ParseInt(NatToString(n)) == Some(n)
  {
    var s := NatToString(n);
    assert !IsSpace(s[0]) && !IsSpace(s[|s| - 1]);
    assert Strip(s, IsSpace) == s;
    DigitsRoundTrip(n);
  }
}
