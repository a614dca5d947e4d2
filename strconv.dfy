/** The parts of Go's `strconv` package that the memory reader uses: Atoi on a
    64-bit platform, and its inverse FormatInt(n, 10) (Itoa). */
module Strconv {
  import opened Base

  predicate IsDigit(c: char) {
    '0' <= c <= '9'
  }

  /** A non-empty run of decimal digits. */
  predicate IsDigits(s: string) {
    |s| >= 1 && forall i :: 0 <= i < |s| ==> IsDigit(s[i])
  }

  function DigitValue(c: char): nat
    requires IsDigit(c)
  {
    c as int - '0' as int
  }

  function DigitChar(d: nat): (c: char)
    requires d < 10
    ensures IsDigit(c) && DigitValue(c) == d
  {
    ('0' as int + d) as char
  }

  /** The value of a digit string read most significant digit first. */
  function DigitsValue(ds: string): nat
    requires forall i :: 0 <= i < |ds| ==> IsDigit(ds[i])
  {
    if ds == [] then 0
    else DigitsValue(ds[..|ds| - 1]) * 10 + DigitValue(ds[|ds| - 1])
  }

  predicate InInt64(n: int) {
    MIN_INT64 <= n <= MAX_INT64
  }

  /** strconv.Atoi: an optional '+' or '-', then one or more decimal digits
      (no spaces, no underscores, leading zeros allowed), whose value must fit
      in a 64-bit int. Anything else is an error, modelled as None. */
  function Atoi(s: string): (r: Option<int>)
    ensures r.Some? ==> InInt64(r.value)
    ensures r.Some? ==> s != [] && IsDigits(if s[0] == '+' || s[0] == '-' then s[1..] else s)
    ensures s == [] || !(IsDigit(s[0]) || s[0] == '+' || s[0] == '-') ==> r.None?
  {
    if s == [] then None
    else
      var signed := s[0] == '+' || s[0] == '-';
      var digits := if signed then s[1..] else s;
      if !IsDigits(digits) then None
      else
        var magnitude: int := DigitsValue(digits);
        var n := if s[0] == '-' then -magnitude else magnitude;
        if InInt64(n) then Some(n) else None
  }

  /** The value an optional sign and a digit string denote. */
  function SignedValue(sign: string, ds: string): int
    requires forall i :: 0 <= i < |ds| ==> IsDigit(ds[i])
  {
    var magnitude: int := DigitsValue(ds);
    if sign == "-" then -magnitude else magnitude
  }

  /** The converse of Atoi's contract: every optional sign followed by digits is
      accepted with its value when that value fits in 64 bits, leading zeros and
      a '+' included, and rejected when it does not fit. */
  lemma AtoiSignedDigits(sign: string, ds: string)
    requires sign == "" || sign == "+" || sign == "-"
    requires IsDigits(ds)
    ensures InInt64(SignedValue(sign, ds)) ==> Atoi(sign + ds) == Some(SignedValue(sign, ds))
    ensures !InInt64(SignedValue(sign, ds)) ==> Atoi(sign + ds).None?
  {
    var s := sign + ds;
    if sign == "" {
      assert s == ds;
    } else {
      assert s[0] == sign[0] && s[1..] == ds;
    }
  }

  /** Spellings Atoi rejects: a sign without digits, digits followed by letters. */
  lemma AtoiRejects()
    ensures Atoi("-") == None
    ensures Atoi("12abc") == None
  {
    assert "-"[1..] == [];
    assert "12abc"[2] == 'a';
  }

  /** The shortest decimal digits of `k`. */
  function DigitsOf(k: nat): (ds: string)
    ensures IsDigits(ds)
  {
    if k < 10 then [DigitChar(k)] else DigitsOf(k / 10) + [DigitChar(k % 10)]
  }

  /** strconv.Itoa (FormatInt(n, 10)): a '-' for negative values, then the digits. */
  function Itoa(n: int): string {
    if n < 0 then "-" + DigitsOf(-n) else DigitsOf(n)
  }

  lemma {:induction false} DigitsOfValue(k: nat)
    ensures DigitsValue(DigitsOf(k)) == k
  {
    if k >= 10 {
      DigitsOfValue(k / 10);
      var ds := DigitsOf(k);
      assert ds[..|ds| - 1] == DigitsOf(k / 10);
    }
  }

  /** Atoi reads back every 64-bit int that Itoa writes. */
  lemma AtoiItoa(n: int)
    requires InInt64(n)
    ensures Atoi(Itoa(n)) == Some(n)
  {
    var s := Itoa(n);
    if n < 0 {
      DigitsOfValue(-n);
      assert s[1..] == DigitsOf(-n);
    } else {
      DigitsOfValue(n);
    }
  }
}
