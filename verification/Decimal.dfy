/** Unsigned numbers in the decimal system, as strconv prints and parses them: event ids, ports and the
    octets of addresses. */
module Decimal {
  import opened LogStore

  predicate IsDigit(c: char) { '0' <= c <= '9' }

  /** strconv.FormatUint(n, 10) */
  function FormatUint(n: nat): string {
    var digit := [('0' as int + n % 10) as char];
    if n < 10 then digit else FormatUint(n / 10) + digit
  }

  /** The loop of strconv.ParseUint(s, 10, 64), n being the value so far: 0 at a character that is
      no digit, the largest value on overflow. */
  function ParseDigits(s: string, n: nat): nat
    requires n <= MAX_UINT64
    decreases |s|
  {
    if s == "" then n
    else if !IsDigit(s[0]) then 0
    else
      var n' := 10 * n + (s[0] as int - '0' as int);
      if n' > MAX_UINT64 then MAX_UINT64 else ParseDigits(s[1..], n')
  }

  /** The value strconv.ParseUint returns, whose error the callers drop. */
  function ParseUint(s: string): nat {
    ParseDigits(s, 0)
  }

  lemma {:induction false} FormatThenParse(n: nat, rest: string)
    requires n <= MAX_UINT64
    ensures FormatUint(n) != "" && IsDigit(FormatUint(n)[0])
    ensures forall i | 0 <= i < |FormatUint(n)| :: IsDigit(FormatUint(n)[i])
    ensures ParseDigits(FormatUint(n) + rest, 0) == ParseDigits(rest, n)
    decreases n
  {
    var d := ('0' as int + n % 10) as char;
    assert ([d] + rest)[1..] == rest;
    if n >= 10 {
      FormatThenParse(n / 10, [d] + rest);
      assert FormatUint(n) + rest == FormatUint(n / 10) + ([d] + rest);
      assert n == 10 * (n / 10) + n % 10;
    }
  }

  /** Printing and parsing an id gives the id back. */
  lemma IdRoundTrip(n: nat)
    requires n <= MAX_UINT64
    ensures ParseUint(FormatUint(n)) == n
  {
    FormatThenParse(n, "");
    assert FormatUint(n) + "" == FormatUint(n);
  }

  function DigitValue(c: char): int { c as int - '0' as int }

  predicate AllDigits(s: string) {
    forall i | 0 <= i < |s| :: IsDigit(s[i])
  }

  /** The number that digits denote in the decimal system. */
  function DecimalValue(s: string): nat
    requires AllDigits(s)
  {
    if s == "" then 0 else 10 * DecimalValue(s[..|s| - 1]) + DigitValue(s[|s| - 1])
  }

  /** An id is printed as its decimal digits without leading zeros. */
  lemma {:induction false} FormatUintIsDecimal(n: nat)
    ensures AllDigits(FormatUint(n)) && DecimalValue(FormatUint(n)) == n
    ensures FormatUint(n) != "" && (FormatUint(n)[0] == '0' ==> n == 0)
  {
    var s, digit := FormatUint(n), [('0' as int + n % 10) as char];
    if n < 10 {
      assert s[..0] == "";
    } else {
      FormatUintIsDecimal(n / 10);
      assert s[..|s| - 1] == FormatUint(n / 10);
      assert s[0] == FormatUint(n / 10)[0];
    }
  }

  lemma {:induction false} DecimalSplit(s: string, n: nat, v: nat)
    requires AllDigits(s) && n <= MAX_UINT64
    requires v == Shifted(s, n)
    ensures v >= n
    ensures ParseDigits(s, n) == if v > 18446744073709551615 then 18446744073709551615 else v
  {
    if s != "" {
      var n' := 10 * n + DigitValue(s[0]);
      ShiftedGrows(s[1..], n');
      if n' <= MAX_UINT64 { DecimalSplit(s[1..], n', v); }
    }
  }

  /** The digits of s read on from the number n. */
  function Shifted(s: string, n: nat): nat
    requires AllDigits(s)
  {
    if s == "" then n else Shifted(s[1..], 10 * n + DigitValue(s[0]))
  }

  lemma {:induction false} ShiftedGrows(s: string, n: nat)
    requires AllDigits(s)
    ensures Shifted(s, n) >= n
  {
    if s != "" { ShiftedGrows(s[1..], 10 * n + DigitValue(s[0])); }
  }

  lemma {:induction false} ShiftedSnoc(s: string, n: nat)
    requires s != "" && AllDigits(s)
    ensures Shifted(s, n) == 10 * Shifted(s[..|s| - 1], n) + DigitValue(s[|s| - 1])
  {
    if |s| > 1 {
      ShiftedSnoc(s[1..], 10 * n + DigitValue(s[0]));
      assert s[1..][..|s| - 2] == s[..|s| - 1][1..];
    }
  }

  lemma {:induction false} ShiftedIsDecimal(s: string)
    requires AllDigits(s)
    ensures Shifted(s, 0) == DecimalValue(s)
  {
    if s != "" {
      ShiftedSnoc(s, 0);
      ShiftedIsDecimal(s[..|s| - 1]);
    }
  }

  /** Of digits the reader takes the decimal value, or 2^64 - 1 if that is less. */
  lemma ParseUintIsDecimal(s: string)
    requires AllDigits(s)
    ensures ParseUint(s) == if DecimalValue(s) > 18446744073709551615 then 18446744073709551615 else DecimalValue(s)
  {
    ShiftedIsDecimal(s);
    DecimalSplit(s, 0, DecimalValue(s));
  }

  /** And of digits that fit, followed by anything else, nothing. */
  lemma {:induction false} ParseNoNumber(s: string, k: nat, n: nat)
    requires k < |s| && AllDigits(s[..k]) && !IsDigit(s[k])
    requires n <= MAX_UINT64 && Shifted(s[..k], n) <= 18446744073709551615
    ensures ParseDigits(s, n) == 0
    decreases k
  {
    if k > 0 {
      var n' := 10 * n + DigitValue(s[0]);
      assert s[..k][1..] == s[1..][..k - 1];
      ShiftedGrows(s[1..][..k - 1], n');
      ParseNoNumber(s[1..], k - 1, n');
    }
  }
}
