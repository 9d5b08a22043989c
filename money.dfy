/**
 * Amounts of money are integer cents. '$' . number_format($x, 2) renders them
 * with ',' between thousands, '.' before exactly two decimals and a leading
 * '-' for a negative amount.
 */
module Money {
  import opened Wrappers
  import opened Decimal

  function Abs(x: int): nat { if x < 0 then -x else x }

  /** number_format(a / 100, 2) for a non-negative number of cents. */
  function Unsigned2(a: nat): string
  {
    GroupThousands(NatToString(a / 100)) + "." + TwoDigits(a % 100)
  }

  /** number_format(cents / 100, 2). */
  function NumberFormat2(cents: int): string
  {
    (if cents < 0 then "-" else "") + Unsigned2(Abs(cents))
  }

  /** The "$"-prefixed label of getFormattedPriceAttribute and getFormattedAmountAttribute. */
  function FormatMoney(cents: int): string
  {
    "$" + NumberFormat2(cents)
  }

  /**
   * The whole part of number_format: digits and commas, with a ',' exactly at
   * the positions a multiple of four from the end, so one between every
   * group of three digits counted from the right.
   */
  predicate WellGrouped(w: string)
  {
    && |w| >= 1
    && (forall i :: 0 <= i < |w| ==> IsDigit(w[i]) || w[i] == ',')
    && (forall i :: 0 <= i < |w| ==> (w[i] == ',' <==> (|w| - i) % 4 == 0))
  }

  /** Reads "d,ddd.dd" (commas only where number_format puts them) back into cents. */
  function ParseUnsigned2(body: string): Option<nat>
  {
    if |body| < 4 || body[|body| - 3] != '.' || !WellGrouped(body[..|body| - 3]) then None
    else
      var whole := RemoveCommas(body[..|body| - 3]);
      var fraction := body[|body| - 2..];
      if |whole| == 0 || !AllDigits(whole) || !AllDigits(fraction) then None
      else Some(DigitsToNat(whole) * 100 + DigitsToNat(fraction))
  }

  /** Reads a number_format(_, 2) string back into cents. */
  function ParseNumber2(s: string): Option<int>
  {
    if |s| >= 1 && s[0] == '-' then
      match ParseUnsigned2(s[1..])
      case Some(v) => Some(0 - v)
      case None => None
    else
      match ParseUnsigned2(s)
      case Some(v) => Some(v)
      case None => None
  }

  function ParseMoney(s: string): Option<int>
  {
    if |s| >= 1 && s[0] == '$' then ParseNumber2(s[1..]) else None
  }

  /** number_format(a / 100, 2) for a >= 0: the grouped digits of a / 100, a '.', and the two digits of a % 100. */
  predicate GroupedDecimal(body: string, a: nat)
  {
    && |body| >= 4 && body[|body| - 3] == '.'
    && WellGrouped(body[..|body| - 3]) && RemoveCommas(body[..|body| - 3]) == NatToString(a / 100)
    && AllDigits(body[|body| - 2..]) && DigitsToNat(body[|body| - 2..]) == a % 100
  }

  /** The layout of '$' . number_format(cents / 100, 2): '$', a '-' for a negative amount, then the grouped decimal. */
  predicate MoneyLayout(text: string, cents: int)
  {
    && |text| >= 2 && text[0] == '$'
    && if cents < 0 then text[1] == '-' && GroupedDecimal(text[2..], -cents)
       else GroupedDecimal(text[1..], cents)
  }

  lemma Unsigned2Layout(a: nat)
    ensures GroupedDecimal(Unsigned2(a), a)
  {
    var g := GroupThousands(NatToString(a / 100));
    var t := TwoDigits(a % 100);
    var body := g + "." + t;
    assert WellGrouped(g) && RemoveCommas(g) == NatToString(a / 100) by {
      GroupingIsWellGrouped(NatToString(a / 100), g);
    }
    assert body[..|body| - 3] == g;
    assert body[|body| - 2..] == t;
  }

  lemma GroupingIsWellGrouped(s: string, g: string)
    requires |s| >= 1 && Grouping(s, g)
    ensures WellGrouped(g) && RemoveCommas(g) == s
  {
  }

  /** A grouped decimal reads back as the amount it lays out. */
  lemma ParseGrouped(body: string, a: nat)
    requires GroupedDecimal(body, a)
    ensures ParseUnsigned2(body) == Some(a)
  {
    NatToStringRoundTrip(a / 100);
  }

  lemma Unsigned2RoundTrip(a: nat)
    ensures ParseUnsigned2(Unsigned2(a)) == Some(a)
    ensures IsDigit(Unsigned2(a)[0])
  {
    Unsigned2Layout(a);
    ParseGrouped(Unsigned2(a), a);
    var g := GroupThousands(NatToString(a / 100));
    assert Unsigned2(a)[0] == g[0];
  }

  lemma FormatMoneyLayout(cents: int)
    ensures MoneyLayout(FormatMoney(cents), cents)
  {
    var body := Unsigned2(Abs(cents));
    Unsigned2Layout(Abs(cents));
    if cents < 0 {
      assert FormatMoney(cents)[2..] == body;
    } else {
      assert FormatMoney(cents)[1..] == body;
    }
  }

  lemma NumberFormat2RoundTrip(cents: int)
    ensures ParseNumber2(NumberFormat2(cents)) == Some(cents)
  {
    var body := Unsigned2(Abs(cents));
    Unsigned2RoundTrip(Abs(cents));
    if cents < 0 {
      assert NumberFormat2(cents)[1..] == body;
    } else {
      assert NumberFormat2(cents) == body;
    }
  }

  lemma FormatMoneyRoundTrip(cents: int)
    ensures ParseMoney(FormatMoney(cents)) == Some(cents)
  {
    assert FormatMoney(cents)[1..] == NumberFormat2(cents);
    NumberFormat2RoundTrip(cents);
  }

  lemma FormatMoneyInjective(x: int, y: int)
    requires FormatMoney(x) == FormatMoney(y)
    ensures x == y
  {
    FormatMoneyRoundTrip(x);
    FormatMoneyRoundTrip(y);
  }
}
