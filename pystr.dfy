/** Python's str(int) and str.zfill, as expand_template uses them to
    write the number of each file: str(n).zfill(pad). */
module PyStr {
  import opened Results

  predicate IsDigit(c: char) { '0' <= c <= '9' }

  predicate AllDigits(s: string) { forall k :: 0 <= k < |s| ==> IsDigit(s[k]) }

  function DigitChar(d: nat): (c: char)
    requires d < 10
    ensures IsDigit(c) && c as int - '0' as int == d
  {
    ('0' as int + d) as char
  }

  /** The decimal digits of n, most significant first, without leading zeros. */
  function NatToString(n: nat): (s: string)
    ensures s != [] && AllDigits(s)
    ensures s[0] == '0' ==> n == 0 && s == "0"
    decreases n
  {
    if n < 10 then [DigitChar(n)] else NatToString(n / 10) + [DigitChar(n % 10)]
  }

  /** str(n): a '-' before the digits of |n| when n is negative. It reads
      back as n, and starts with '-' exactly when n is negative. */
  function IntToString(n: int): (r: string)
    ensures r != [] && (r[0] == '-' <==> n < 0)
    ensures ParseInt(r) == Some(n)
  {
    if n < 0 then
      var d := NatToString(-n);
      NatToStringRoundTrip(-n);
      assert ("-" + d)[1..] == d;
      "-" + d
    else
      NatToStringRoundTrip(n);
      NatToString(n)
  }

  function Zeros(k: nat): string
  {
    seq(k, _ => '0')
  }

  /** str.zfill(width): left-fill with '0' up to width characters, keeping a
      leading sign in front of the zeros. A width not above |s| (pad = 0, or a
      negative width) returns s unchanged. */
  function ZFill(s: string, width: int): (r: string)
    ensures |r| == if |s| >= width then |s| else width
    ensures |s| >= width ==> r == s
    ensures s != [] && (s[0] == '+' || s[0] == '-') ==> r[0] == s[0]
    ensures |s| < width && !(s != [] && (s[0] == '+' || s[0] == '-')) ==> forall k :: 0 <= k < width - |s| ==> r[k] == '0'
    ensures |s| < width && !(s != [] && (s[0] == '+' || s[0] == '-')) ==> r[width - |s|..] == s
    ensures |s| < width && s != [] && (s[0] == '+' || s[0] == '-') ==>
              (forall k :: 1 <= k <= width - |s| ==> r[k] == '0') && r[width - |s| + 1..] == s[1..]
  {
    if |s| >= width then s
    else if s != [] && (s[0] == '+' || s[0] == '-') then [s[0]] + Zeros(width - |s|) + s[1..]
    else Zeros(width - |s|) + s
  }

  /** The text expand_template substitutes for %n: it reads back as the
      number itself, is exactly max(len(str(n)), pad) long, and starts with
      '-' exactly when the number is negative. */
  function PaddedNumber(n: int, pad: int): (r: string)
    ensures ParseInt(r) == Some(n)
    ensures |r| == if |IntToString(n)| >= pad then |IntToString(n)| else pad
    ensures r[0] == '-' <==> n < 0
  {
    var s := IntToString(n);
    var z: nat := if |s| < pad then pad - |s| else 0;
    PaddedForm(n, pad, z);
    if n < 0 then
      NegativeReadsBack(-n, z);
      ZFill(s, pad)
    else
      NonNegativeReadsBack(n, z);
      ZFill(s, pad)
  }

  /** str(n).zfill(pad) is the sign of n, then z zeros, then the digits of |n|. */
  lemma PaddedForm(n: int, pad: int, z: nat)
    requires z == if |IntToString(n)| < pad then pad - |IntToString(n)| else 0
    ensures n < 0 ==> ZFill(IntToString(n), pad) == "-" + Zeros(z) + NatToString(-n)
    ensures n >= 0 ==> ZFill(IntToString(n), pad) == Zeros(z) + NatToString(n)
  {
    var s := IntToString(n);
    if |s| >= pad {
      assert Zeros(z) == [];
    } else if n < 0 {
      assert s[1..] == NatToString(-n);
    }
  }

  // ---- An independent reading of decimal text, the partner of str() ----

  /** Value of a string of decimal digits, leading zeros allowed. */
  function DigitsValue(s: string): nat
    requires AllDigits(s)
  {
    if s == [] then 0 else DigitsValue(s[..|s| - 1]) * 10 + (s[|s| - 1] as int - '0' as int)
  }

  /** int(s) for an optional '-' followed by one or more decimal digits. */
  function ParseInt(s: string): Option<int>
  {
    if s != [] && s[0] == '-' then
      if |s| > 1 && AllDigits(s[1..]) then Some(-(DigitsValue(s[1..]) as int)) else None
    else if s != [] && AllDigits(s) then Some(DigitsValue(s))
    else None
  }

  lemma {:induction false} NatToStringRoundTrip(n: nat)
    ensures DigitsValue(NatToString(n)) == n
    decreases n
  {
    if n >= 10 {
      NatToStringRoundTrip(n / 10);
      var s := NatToString(n);
      assert s[..|s| - 1] == NatToString(n / 10);
    }
  }

  lemma {:induction false} ZerosValue(z: nat)
    ensures AllDigits(Zeros(z)) && DigitsValue(Zeros(z)) == 0
  {
    if z > 0 {
      ZerosValue(z - 1);
      assert Zeros(z)[..z - 1] == Zeros(z - 1);
    }
  }

  /** Zeros written in front of decimal digits do not change their value. */
  lemma {:induction false} LeadingZerosKeepValue(z: nat, s: string)
    requires AllDigits(s)
    ensures AllDigits(Zeros(z) + s) && DigitsValue(Zeros(z) + s) == DigitsValue(s)
    decreases |s|
  {
    var t := Zeros(z) + s;
    if s == [] {
      assert t == Zeros(z);
      ZerosValue(z);
    } else {
      LeadingZerosKeepValue(z, s[..|s| - 1]);
      assert t[..|t| - 1] == Zeros(z) + s[..|s| - 1];
    }
  }

  /** "-" followed by zero-padded digits reads back as minus their value. */
  lemma NegativeReadsBack(m: nat, z: nat)
    requires m > 0
    ensures ParseInt("-" + Zeros(z) + NatToString(m)) == Some(-(m as int))
  {
    var d := NatToString(m);
    var r := "-" + Zeros(z) + d;
    NatToStringRoundTrip(m);
    LeadingZerosKeepValue(z, d);
    assert r[1..] == Zeros(z) + d;
  }

  /** Zero-padded digits read back as their value and do not start with '-'. */
  lemma NonNegativeReadsBack(m: nat, z: nat)
    ensures ParseInt(Zeros(z) + NatToString(m)) == Some(m)
    ensures (Zeros(z) + NatToString(m))[0] != '-'
  {
    var d := NatToString(m);
    NatToStringRoundTrip(m);
    LeadingZerosKeepValue(z, d);
    assert IsDigit((Zeros(z) + d)[0]);
  }
}
