/**
  The percentage text of the statistics route: the share `votes / total * 100`
  rendered as ECMAScript's `Number.prototype.toFixed(1)` renders it. The value
  is computed here with exact rational arithmetic: the rounded value in tenths
  is the integer nearest to `1000 * votes / total`, the larger one on a tie,
  and the text is its decimal digits with a point before the last one.
 */
module Decimal {

  function DigitChar(d: nat): char
    requires d < 10
  {
    ['0', '1', '2', '3', '4', '5', '6', '7', '8', '9'][d]
  }

  predicate IsDigit(c: char) {
    '0' <= c <= '9'
  }

  /** The value of one decimal digit character. */
  function DigitValue(c: char): nat
    requires IsDigit(c)
  {
    (c - '0') as nat
  }

  /** The decimal numeral of `n`: no leading zero unless `n` is zero itself. */
  function Digits(n: nat): (r: seq<char>)
    ensures |r| >= 1
    ensures forall i :: 0 <= i < |r| ==> IsDigit(r[i])
    ensures r[0] == '0' ==> n == 0
    decreases n
  {
    if n < 10 then [DigitChar(n)]
    else Digits(n / 10) + [DigitChar(n % 10)]
  }

  /** The number a string of digits denotes (the reference reading of a numeral). */
  function NumeralValue(s: seq<char>): nat
    requires forall i :: 0 <= i < |s| ==> IsDigit(s[i])
  {
    if |s| == 0 then 0
    else NumeralValue(s[..|s| - 1]) * 10 + DigitValue(s[|s| - 1])
  }

  /** Reading back the numeral of `n` gives `n`. */
  lemma {:induction false} DigitsRoundTrip(n: nat)
    ensures NumeralValue(Digits(n)) == n
    decreases n
  {
    var r := Digits(n);
    if n < 10 {
      assert DigitValue(DigitChar(n)) == n;
    } else {
      DigitsRoundTrip(n / 10);
      assert r[..|r| - 1] == Digits(n / 10);
      assert DigitValue(DigitChar(n % 10)) == n % 10;
    }
  }

  /**
    The shape `toFixed(1)` gives a non-negative number: at least one digit, a
    point, one digit, and no leading zero before the point unless the whole
    part is zero.
   */
  predicate IsTenthsText(r: seq<char>) {
    && |r| >= 3 && r[|r| - 2] == '.'
    && (r[0] == '0' ==> |r| == 3)
    && (forall i :: 0 <= i < |r| && i != |r| - 2 ==> IsDigit(r[i]))
  }

  /** `toFixed(1)` of `tenths / 10` for a non-negative `tenths`. */
  function FormatTenths(tenths: nat): (r: seq<char>)
    ensures IsTenthsText(r)
  {
    var m := Digits(tenths);
    assert Digits(0) == ['0'];
    if |m| == 1 then ['0', '.'] + m
    else m[..|m| - 1] + ['.', m[|m| - 1]]
  }

  /** The number of tenths a text of the shape `FormatTenths` produces denotes. */
  function TenthsValue(r: seq<char>): nat
    requires IsTenthsText(r)
  {
    NumeralValue(r[..|r| - 2]) * 10 + DigitValue(r[|r| - 1])
  }

  /** Formatting is faithful: the text reads back as the number of tenths it was made from. */
  lemma FormatTenthsRoundTrip(tenths: nat)
    ensures TenthsValue(FormatTenths(tenths)) == tenths
  {
    var m := Digits(tenths);
    var r := FormatTenths(tenths);
    DigitsRoundTrip(tenths);
    if |m| == 1 {
      assert r[..|r| - 2] == ['0'];
      assert NumeralValue(['0']) == NumeralValue([]) * 10 + DigitValue('0');
      assert NumeralValue(m) == NumeralValue(m[..0]) * 10 + DigitValue(m[0]);
    } else {
      assert r[..|r| - 2] == m[..|m| - 1];
    }
  }

  /**
    The number of tenths `toFixed(1)` shows for `votes / total * 100`: the
    integer nearest to `1000 * votes / total`, the larger one on a tie.
   */
  function RoundedTenths(votes: nat, total: int): (n: nat)
    requires total > 0
    ensures 2 * total * n <= 2000 * votes + total < 2 * total * (n + 1)
  {
    (2000 * votes + total) / (2 * total)
  }

  /**
    `((votes / total) * 100).toFixed(1)`. A negative share (which a reachable
    store never produces) is shown with a leading minus sign, its magnitude
    rounded as for a positive one.
   */
  function Percentage(votes: int, total: int): (r: seq<char>)
    requires total > 0
    ensures votes >= 0 ==> IsTenthsText(r) && TenthsValue(r) == RoundedTenths(votes, total)
    ensures votes < 0 ==>
      |r| >= 1 && r[0] == '-' && IsTenthsText(r[1..]) && TenthsValue(r[1..]) == RoundedTenths(-votes, total)
  {
    if votes < 0 then
      var magnitude := FormatTenths(RoundedTenths(-votes, total));
      FormatTenthsRoundTrip(RoundedTenths(-votes, total));
      assert (['-'] + magnitude)[1..] == magnitude;
      ['-'] + magnitude
    else
      FormatTenthsRoundTrip(RoundedTenths(votes, total));
      FormatTenths(RoundedTenths(votes, total))
  }

  /** A share of the total is between "0.0" and "100.0", and reaches the ends exactly at none and all. */
  lemma PercentageBounds(votes: nat, total: int)
    requires total > 0 && votes <= total
    ensures 0 <= RoundedTenths(votes, total) <= 1000
    ensures votes == 0 ==> Percentage(votes, total) == "0.0"
    ensures votes == total ==> Percentage(votes, total) == "100.0"
  {
    var n := RoundedTenths(votes, total);
    TenthsAtMostThousand(votes, total, n);
    if votes == 0 {
      TenthsOfNone(total, n);
      assert Digits(0) == ['0'];
    }
    if votes == total {
      TenthsOfAll(total, n);
      assert Digits(1000) == ['1', '0', '0', '0'] by {
        assert Digits(1) == ['1'];
        assert Digits(10) == ['1', '0'];
        assert Digits(100) == ['1', '0', '0'];
      }
    }
  }

  /** Three votes split two to one: "66.7" and "33.3". */
  lemma TwoToOneSplit()
    ensures Percentage(2, 3) == "66.7" && Percentage(1, 3) == "33.3"
  {
    assert RoundedTenths(2, 3) == 667 && RoundedTenths(1, 3) == 333;
    assert Digits(667) == ['6', '6', '7'] by {
      assert Digits(66) == ['6', '6'];
    }
    assert Digits(333) == ['3', '3', '3'] by {
      assert Digits(33) == ['3', '3'];
    }
  }

  lemma TenthsAtMostThousand(votes: nat, total: int, n: nat)
    requires total > 0 && votes <= total
    requires 2 * total * n <= 2000 * votes + total
    ensures n <= 1000
  {
  }

  lemma TenthsOfNone(total: int, n: nat)
    requires total > 0
    requires 2 * total * n <= total
    ensures n == 0
  {
  }

  lemma TenthsOfAll(total: int, n: nat)
    requires total > 0
    requires 2 * total * n <= 2001 * total < 2 * total * (n + 1)
    ensures n == 1000
  {
    TenthsAtMostThousand(total, total, n);
    assert 2001 * total < (2 * n + 2) * total;
    CancelFactor(2001, 2 * n + 2, total);
  }

  /** A positive common factor can be cancelled from a strict inequality. */
  lemma CancelFactor(a: int, b: int, t: int)
    requires t > 0 && a * t < b * t
    ensures a < b
  {
  }
}
