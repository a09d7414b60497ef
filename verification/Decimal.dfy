/** strconv.FormatInt and strconv.ParseInt in base ten, for 64-bit integers. */
module Decimal {
  import opened Options

  const MIN := -0x8000_0000_0000_0000
  const MAX := 0x7fff_ffff_ffff_ffff

  function DigitOf(d: int): char
    requires 0 <= d < 10
  {
    '0' + d as char
  }

  predicate Numeral(s: string) {
    s != "" && forall i | 0 <= i < |s| :: '0' <= s[i] <= '9'
  }

  function Digits(n: nat): (s: string)
    ensures Numeral(s)
  {
    if n < 10 then [DigitOf(n)] else Digits(n / 10) + [DigitOf(n % 10)]
  }

  function ValueOf(s: string): nat
    requires s == "" || Numeral(s)
  {
    if s == "" then 0 else
      var n := |s| - 1;
      10 * ValueOf(s[..n]) + (s[n] - '0') as int
  }

  function FormatInt(n: int): (s: string)
    ensures '.' !in s
  {
    if n < 0 then "-" + Digits(-n) else Digits(n)
  }

  /** A sign is allowed, leading zeros are; a value outside 64 bits is an error. */
  function ParseInt(s: string): Option<int> {
    var signed := s != "" && (s[0] == '-' || s[0] == '+');
    var digits := if signed then s[1..] else s;
    if !Numeral(digits) then None else
      var m: int := ValueOf(digits);
      var v := if signed && s[0] == '-' then -m else m;
      if MIN <= v <= MAX then Some(v) else None
  }

  lemma {:induction false} ValueOfDigits(n: nat)
    ensures ValueOf(Digits(n)) == n
  {
    if n >= 10 {
      ValueOfDigits(n / 10);
      assert Digits(n)[..|Digits(n)| - 1] == Digits(n / 10);
    }
  }

  lemma RoundTrip(n: int)
    requires MIN <= n <= MAX
    ensures ParseInt(FormatInt(n)) == Some(n)
  {
    hide Digits, ValueOf;
    if n < 0 {
      Printed(-n);
      assert ("-" + Digits(-n))[1..] == Digits(-n);
    } else {
      Printed(n);
    }
  }

  lemma Printed(n: nat)
    ensures ValueOf(Digits(n)) == n && Digits(n) != "" && '0' <= Digits(n)[0] <= '9'
  {
    ValueOfDigits(n);
  }

  /** The digits of a number: the last one last, behind those of the number without it; a minus in front of a
      negative number. */
  lemma DigitsAre(n: nat, d: nat)
    requires d < 10
    ensures FormatInt(d) == ["0123456789"[d]]
    ensures var m: int := n;
            m > 0 ==> FormatInt(10 * m + d) == FormatInt(m) + FormatInt(d) && FormatInt(-m) == "-" + FormatInt(m)
  {
    if n > 0 {
      assert (10 * n + d) / 10 == n && (10 * n + d) % 10 == d;
    }
  }
}
