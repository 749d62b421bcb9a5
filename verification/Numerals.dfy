/** Decimal numerals: what a string of digits says, and what says a number. */
module Numerals {
  predicate IsDigit(c: char) {
    '0' <= c <= '9'
  }

  function ValueOf(c: char): nat
    requires IsDigit(c)
  {
    (c - '0') as nat
  }

  predicate AllDigits(s: string) {
    s == [] || (AllDigits(s[..|s| - 1]) && IsDigit(s[|s| - 1]))
  }

  function Decimal(s: string): nat
    requires AllDigits(s)
  {
    if s == [] then 0 else 10 * Decimal(s[..|s| - 1]) + ValueOf(s[|s| - 1])
  }

  function DigitChar(d: nat): char
    requires d < 10
  {
    '0' + d as char
  }

  lemma DigitsByName(d: nat)
    requires d < 10
    ensures DigitChar(d) == "0123456789"[d]
  {
  }

  /** The usual way to write a number. */
  function Digits(n: nat): string {
    if n < 10 then [DigitChar(n)] else Digits(n / 10) + [DigitChar(n % 10)]
  }

  function Zeros(z: nat): string {
    if z == 0 then [] else ['0'] + Zeros(z - 1)
  }

  lemma {:induction false} DigitAt(s: string, i: nat)
    requires AllDigits(s) && i < |s|
    ensures IsDigit(s[i])
  {
    if i < |s| - 1 { DigitAt(s[..|s| - 1], i); }
  }

  /** Nothing but digits. */
  lemma {:induction false} AllDigitsExactly(s: string)
    ensures AllDigits(s) <==> forall i :: 0 <= i < |s| ==> '0' <= s[i] <= '9'
  {
    if AllDigits(s) {
      forall i | 0 <= i < |s| ensures '0' <= s[i] <= '9' { DigitAt(s, i); }
    } else {
      AllDigitsExactly(s[..|s| - 1]);
    }
  }

  lemma Append(s: string, c: char)
    requires AllDigits(s) && IsDigit(c)
    ensures AllDigits(s + [c]) && Decimal(s + [c]) == 10 * Decimal(s) + ValueOf(c)
  {
    assert (s + [c])[..|s|] == s;
  }

  lemma {:induction false} DigitsRead(n: nat)
    ensures Digits(n) != [] && AllDigits(Digits(n)) && Decimal(Digits(n)) == n
  {
    if n < 10 {
      Append([], DigitChar(n));
      assert [] + [DigitChar(n)] == [DigitChar(n)];
    } else {
      DigitsRead(n / 10);
      Append(Digits(n / 10), DigitChar(n % 10));
    }
  }

  lemma {:induction false} LeadingZero(s: string)
    requires AllDigits(s)
    ensures AllDigits(['0'] + s) && Decimal(['0'] + s) == Decimal(s)
  {
    if s == [] {
      Append([], '0');
      assert ['0'] + s == [] + ['0'];
    } else {
      var front, last := s[..|s| - 1], s[|s| - 1];
      LeadingZero(front);
      Append(['0'] + front, last);
      assert ['0'] + s == (['0'] + front) + [last];
    }
  }

  lemma ZerosInFront(z: nat, s: string)
    ensures Zeros(z) + s == if z == 0 then s else ['0'] + (Zeros(z - 1) + s)
  {
  }

  /** Leading zeros say nothing. */
  lemma {:induction false} LeadingZeros(z: nat, s: string)
    requires AllDigits(s)
    ensures AllDigits(Zeros(z) + s) && Decimal(Zeros(z) + s) == Decimal(s)
  {
    ZerosInFront(z, s);
    if z > 0 {
      LeadingZeros(z - 1, s);
      LeadingZero(Zeros(z - 1) + s);
    }
  }

  lemma {:induction false} ZerosEnd(z: nat)
    ensures Zeros(z) + ['0'] == Zeros(z + 1)
  {
    if z > 0 {
      ZerosEnd(z - 1);
      assert Zeros(z) + ['0'] == ['0'] + (Zeros(z - 1) + ['0']);
    }
  }

  lemma DigitsAppend(n: nat, c: char)
    requires IsDigit(c)
    ensures Digits(10 * n + ValueOf(c)) == if n == 0 then [c] else Digits(n) + [c]
  {
    var m := 10 * n + ValueOf(c);
    assert m / 10 == n && m % 10 == ValueOf(c) && DigitChar(ValueOf(c)) == c;
  }

  /** Every string of digits is leading zeros and the digits of its value. */
  lemma {:induction false} DigitsWritten(s: string) returns (z: nat)
    requires s != [] && AllDigits(s)
    ensures s == Zeros(z) + Digits(Decimal(s))
  {
    var front, last := s[..|s| - 1], s[|s| - 1];
    DigitsAppend(Decimal(front), last);
    if front == [] {
      z := 0;
      assert s == [last];
    } else {
      z := DigitsWritten(front);
      z := LastDigitWritten(z, Decimal(front), last);
      assert s == front + [last];
    }
  }

  lemma LastDigitWritten(z: nat, n: nat, c: char) returns (z': nat)
    requires IsDigit(c)
    ensures (Zeros(z) + Digits(n)) + [c] == Zeros(z') + if n == 0 then [c] else Digits(n) + [c]
  {
    if n == 0 {
      ZerosEnd(z);
      z' := z + 1;
    } else {
      z' := z;
    }
  }
}
