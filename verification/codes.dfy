/** The code helpers of library.js: `generateVerificationCode` with its
    random draw made an explicit input, `formatCodeForSpeech`, and the hash
    used to store codes, which is a parameter of the model. */
module Codes {
  import opened PhoneFormat

  /** Width of a generated code. */
  const CODE_LENGTH: nat := 6
  /** The draw is reduced modulo this number. */
  const CODE_MODULUS: nat := 1000000
  /** Three random bytes read as one big-endian unsigned integer. */
  const RANDOM_RANGE: nat := 0x100_0000

  /** The value of `crypto.randomBytes(3).readUIntBE(0, 3)`. */
  type RandomDraw = n: nat | n < RANDOM_RANGE

  /** `hashCode` (SHA-256 in hex) stays abstract: the model takes it as a
      function argument, and where a proof needs distinct codes to have
      distinct digests it says so with this predicate. */
  ghost predicate Injective(hash: string -> string) {
    forall a, b :: hash(a) == hash(b) ==> a == b
  }

  predicate AllDigits(s: string) {
    forall i :: 0 <= i < |s| ==> IsDigit(s[i])
  }

  function DigitChar(d: nat): (c: char)
    requires d < 10
    ensures IsDigit(c)
  {
    ('0' as int + d) as char
  }

  function DigitValue(c: char): (d: nat)
    requires IsDigit(c)
    ensures d < 10
  {
    c as int - '0' as int
  }

  function Pow10(k: nat): (p: nat)
    ensures p >= 1
  {
    if k == 0 then 1 else 10 * Pow10(k - 1)
  }

  /** The number a decimal numeral denotes, most significant digit first;
      the reading direction of `toString` and of a spoken code. */
  function Value(s: string): nat
    requires AllDigits(s)
  {
    if s == [] then 0 else Value(s[..|s| - 1]) * 10 + DigitValue(s[|s| - 1])
  }

  /** `m.toString()` for a non-negative integer: the shortest numeral. */
  function ToDecimal(m: nat): (r: string)
    ensures AllDigits(r) && |r| >= 1
    ensures Value(r) == m
    ensures m > 0 ==> r[0] != '0'
    ensures |r| > 1 ==> Pow10(|r| - 1) <= m
  {
    if m < 10 then
      var r := [DigitChar(m)];
      assert r[..0] == [];
      r
    else
      var prefix := ToDecimal(m / 10);
      var r := prefix + [DigitChar(m % 10)];
      assert r[..|r| - 1] == prefix;
      r
  }

  /** `s.padStart(width, fill)`. */
  function PadStart(s: string, width: nat, fill: char): (r: string)
    ensures |r| == if |s| >= width then |s| else width
    ensures r[|r| - |s|..] == s
    ensures forall i :: 0 <= i < |r| - |s| ==> r[i] == fill
  {
    if |s| >= width then s else seq(width - |s|, _ => fill) + s
  }

  /** `generateVerificationCode`, with the random draw as input: the draw
      modulo one million, written in decimal and padded to six digits. */
  function GenerateCode(n: RandomDraw): (code: string)
    ensures |code| == CODE_LENGTH && AllDigits(code)
    ensures Value(code) == n % CODE_MODULUS
  {
    var m := n % CODE_MODULUS;
    var digits := ToDecimal(m);
    DecimalLengthBound(m, digits);
    var code := PadStart(digits, CODE_LENGTH, '0');
    LeadingZerosKeepValue(code, |code| - |digits|);
    code
  }

  /** `code.split('').join(' ')`: the characters separated by single spaces. */
  function FormatForSpeech(code: string): (r: string)
    ensures |code| == 0 ==> r == ""
    ensures |code| > 0 ==> |r| == 2 * |code| - 1
    ensures forall i :: 0 <= i < |code| ==> r[2 * i] == code[i]
    ensures forall i :: 0 <= i < |r| && i % 2 == 1 ==> r[i] == ' '
  {
    if |code| <= 1 then code
    else
      var rest := FormatForSpeech(code[1..]);
      var r := [code[0], ' '] + rest;
      assert forall i :: 1 <= i < |code| ==> r[2 * i] == rest[2 * (i - 1)];
      assert forall i :: 2 <= i < |r| ==> r[i] == rest[i - 2];
      r
  }

  /** The characters at even positions: what a listener keeps of a spoken code. */
  function EvenPositions(s: string): (r: string)
  {
    if |s| <= 1 then s else [s[0]] + EvenPositions(s[2..])
  }

  // ---------------------------------------------------------------------
  // Lemmas

  lemma {:induction false} Pow10Monotone(j: nat, k: nat)
    requires j <= k
    ensures Pow10(j) <= Pow10(k)
  {
    if j < k {
      Pow10Monotone(j, k - 1);
    }
  }

  /** A number below one million needs at most six digits. */
  lemma DecimalLengthBound(m: nat, digits: string)
    requires m < CODE_MODULUS && digits == ToDecimal(m)
    ensures |digits| <= CODE_LENGTH
  {
    assert Pow10(CODE_LENGTH) == CODE_MODULUS;
    if |digits| > CODE_LENGTH {
      Pow10Monotone(CODE_LENGTH, |digits| - 1);
    }
  }

  /** A leading zero does not change the value of a numeral. */
  lemma {:induction false} LeadingZeroKeepsValue(s: string)
    requires AllDigits(s)
    ensures AllDigits(['0'] + s) && Value(['0'] + s) == Value(s)
  {
    var t := ['0'] + s;
    if s != [] {
      assert t[..|t| - 1] == ['0'] + s[..|s| - 1];
      LeadingZeroKeepsValue(s[..|s| - 1]);
    } else {
      assert t[..0] == [];
    }
  }

  /** Any number of leading zeros leave the value unchanged. */
  lemma {:induction false} LeadingZerosKeepValue(s: string, z: nat)
    requires AllDigits(s) && z <= |s|
    requires forall i :: 0 <= i < z ==> s[i] == '0'
    ensures Value(s) == Value(s[z..])
  {
    if z > 0 {
      LeadingZerosKeepValue(s[1..], z - 1);
      assert s[1..][z - 1..] == s[z..];
      LeadingZeroKeepsValue(s[1..]);
      assert s == ['0'] + s[1..];
    }
  }

  /** The value of an n-digit numeral is below 10^n. */
  lemma {:induction false} ValueBound(s: string)
    requires AllDigits(s)
    ensures Value(s) < Pow10(|s|)
  {
    if s != [] {
      ValueBound(s[..|s| - 1]);
    }
  }

  /** Numerals of equal length and equal value are equal. */
  lemma {:induction false} ValueInjective(a: string, b: string)
    requires AllDigits(a) && AllDigits(b) && |a| == |b|
    requires Value(a) == Value(b)
    ensures a == b
  {
    if a != [] {
      var a', b' := a[..|a| - 1], b[..|b| - 1];
      DigitSplit(Value(a'), DigitValue(a[|a| - 1]), Value(b'), DigitValue(b[|b| - 1]));
      ValueInjective(a', b');
      assert a == a' + [a[|a| - 1]] && b == b' + [b[|b| - 1]];
    }
  }

  /** The last decimal digit and the rest of a number are determined by it. */
  lemma DigitSplit(x: nat, d: nat, y: nat, e: nat)
    requires d < 10 && e < 10 && x * 10 + d == y * 10 + e
    ensures x == y && d == e
  {
  }

  /** Every six-digit code is the result of some draw: the generator reaches
      the whole code space, and the draw equal to the code's value produces it. */
  lemma GenerateCodeCoversAllCodes(code: string)
    requires |code| == CODE_LENGTH && AllDigits(code)
    ensures Value(code) < RANDOM_RANGE
    ensures GenerateCode(Value(code) as RandomDraw) == code
  {
    var v := Value(code);
    assert v < CODE_MODULUS by {
      ValueBound(code);
      assert Pow10(6) == 1000000;
    }
    var g := GenerateCode(v as RandomDraw);
    assert Value(g) == v % CODE_MODULUS == v;
    ValueInjective(g, code);
  }

  /** Draws that differ by a multiple of one million give the same code. */
  lemma GenerateCodePeriodic(n: RandomDraw, k: nat)
    requires n + k * CODE_MODULUS < RANDOM_RANGE
    ensures GenerateCode((n + k * CODE_MODULUS) as RandomDraw) == GenerateCode(n)
  {
    assert (n + k * CODE_MODULUS) % CODE_MODULUS == n % CODE_MODULUS;
  }

  /** The draws whose code has value `v`: `v`, `v + 10^6`, `v + 2 * 10^6`,
      and so on while below 2^24. */
  function Preimages(v: nat): (ds: seq<nat>)
    requires v < CODE_MODULUS
  {
    seq((RANDOM_RANGE - 1 - v) / CODE_MODULUS + 1, j => v + j * CODE_MODULUS)
  }

  /** The modulo reduction is biased: a code whose value is below 777216
      comes from seventeen of the 2^24 draws, any other code from sixteen.
      `Preimages` lists exactly those draws, in increasing order. */
  lemma GenerateCodeBias(code: string)
    requires |code| == CODE_LENGTH && AllDigits(code)
    ensures Value(code) < CODE_MODULUS
    ensures var ds := Preimages(Value(code));
      && (forall j :: 0 <= j < |ds| ==> ds[j] < RANDOM_RANGE && GenerateCode(ds[j] as RandomDraw) == code)
      && (forall i, j :: 0 <= i < j < |ds| ==> ds[i] < ds[j])
      && (forall n: RandomDraw :: GenerateCode(n) == code ==> n in ds)
      && |ds| == if Value(code) < RANDOM_RANGE - 16 * CODE_MODULUS then 17 else 16
  {
    ValueBound(code);
    assert Pow10(6) == CODE_MODULUS;
    var v := Value(code);
    var ds := Preimages(v);
    forall j | 0 <= j < |ds| ensures ds[j] < RANDOM_RANGE && GenerateCode(ds[j] as RandomDraw) == code {
      assert ds[j] == v + j * CODE_MODULUS;
      assert ds[j] % CODE_MODULUS == v;
      ValueInjective(GenerateCode(ds[j] as RandomDraw), code);
    }
    forall n: RandomDraw | GenerateCode(n) == code ensures n in ds {
      var j := n / CODE_MODULUS;
      assert n == v + j * CODE_MODULUS;
      assert ds[j] == n;
    }
  }

  /** Keeping every other character of the spoken form gives the code back. */
  lemma {:induction false} SpeechRoundTrip(code: string)
    ensures EvenPositions(FormatForSpeech(code)) == code
  {
    if |code| > 1 {
      var r := FormatForSpeech(code);
      assert r[2..] == FormatForSpeech(code[1..]);
      SpeechRoundTrip(code[1..]);
      assert code == [code[0]] + code[1..];
    }
  }
}
