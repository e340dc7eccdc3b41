/** Reading back the natural numbers that `String(n)` writes. */
module Decimals {
  import Json

  function DigitRun(s: string): (k: nat)
    ensures k <= |s| && (forall i | 0 <= i < k :: Json.IsDigit(s[i])) && (k < |s| ==> !Json.IsDigit(s[k]))
  {
    if s == "" || !Json.IsDigit(s[0]) then 0 else 1 + DigitRun(s[1..])
  }

  function Number(digits: string): nat
    requires forall i | 0 <= i < |digits| :: Json.IsDigit(digits[i])
  {
    if digits == "" then 0
    else
      assert Json.IsDigit(digits[|digits| - 1]);
      10 * Number(digits[..|digits| - 1]) + (digits[|digits| - 1] as int - '0' as int)
  }

  lemma {:induction false} NumberOfDecimal(n: nat)
    ensures Number(Json.Decimal(n)) == n
    decreases n
  {
    var d := Json.Decimal(n);
    if n < 10 {
      assert d[..0] == "" && d[0] as int == '0' as int + n;
    } else {
      assert d[..|d| - 1] == Json.Decimal(n / 10);
      NumberOfDecimal(n / 10);
    }
  }

  /** What follows a number ends its digits. */
  lemma DigitsOf(n: nat, tail: string)
    requires tail == "" || !Json.IsDigit(tail[0])
    ensures var s, d := Json.Decimal(n) + tail, Json.Decimal(n);
      DigitRun(s) == |d| && s[..|d|] == d && s[|d|..] == tail && Number(d) == n
  {
    var d := Json.Decimal(n);
    var s := d + tail;
    assert forall i | 0 <= i < |d| :: s[i] == d[i];
    assert tail != "" ==> s[|d|] == tail[0];
    NumberOfDecimal(n);
  }
}
