/**
 * Decimal text: the digit strings that PHP's string interpolation and
 * number_format produce, and parsers that read them back.
 */
module Decimal {
  import opened Wrappers

  predicate IsDigit(c: char) { '0' <= c <= '9' }

  predicate AllDigits(s: string) { forall i :: 0 <= i < |s| ==> IsDigit(s[i]) }

  function DigitValue(c: char): nat
    requires IsDigit(c)
  {
    c as int - '0' as int
  }

  function DigitChar(d: nat): (c: char)
    requires d < 10
    ensures IsDigit(c) && DigitValue(c) == d
  {
    ('0' as int + d) as char
  }

  /** The decimal digits of n, most significant first, with no leading zero. */
  function NatToString(n: nat): (s: string)
    ensures |s| >= 1 && AllDigits(s)
    ensures s[0] == '0' ==> n == 0
    decreases n
  {
    if n < 10 then [DigitChar(n)] else NatToString(n / 10) + [DigitChar(n % 10)]
  }

  /** The value of a digit string (the empty string reads as 0). */
  function DigitsToNat(s: string): nat
    requires AllDigits(s)
  {
    if s == [] then 0 else DigitsToNat(s[..|s| - 1]) * 10 + DigitValue(s[|s| - 1])
  }

  lemma {:induction false} NatToStringRoundTrip(n: nat)
    ensures DigitsToNat(NatToString(n)) == n
  {
    if n >= 10 {
      var s := NatToString(n / 10) + [DigitChar(n % 10)];
      assert s[..|s| - 1] == NatToString(n / 10);
      NatToStringRoundTrip(n / 10);
    }
  }

  /** Reads a non-empty digit string; leading zeros are accepted. */
  function ParseNat(s: string): (r: Option<nat>)
    ensures r.Some? <==> |s| >= 1 && AllDigits(s)
  {
    if |s| >= 1 && AllDigits(s) then Some(DigitsToNat(s)) else None
  }

  lemma ParseNatOfNatToString(n: nat)
    ensures ParseNat(NatToString(n)) == Some(n)
  {
    NatToStringRoundTrip(n);
  }

  /** PHP's rendering of an integer: an optional '-' and the digits of its magnitude. */
  function IntToString(i: int): (s: string)
    ensures ParseInt(s) == Some(i)
  {
    if i < 0 then
      ParseNatOfNatToString(-i);
      assert ("-" + NatToString(-i))[1..] == NatToString(-i);
      "-" + NatToString(-i)
    else
      ParseNatOfNatToString(i);
      NatToString(i)
  }

  function ParseInt(s: string): Option<int>
  {
    if |s| >= 1 && s[0] == '-' then
      match ParseNat(s[1..])
      case Some(n) => Some(0 - n as int)
      case None => None
    else
      match ParseNat(s)
      case Some(n) => Some(n)
      case None => None
  }

  /** Two digits with a leading zero, as in the minutes of "9:05". */
  function TwoDigits(n: nat): (s: string)
    requires n < 100
    ensures |s| == 2 && AllDigits(s) && DigitsToNat(s) == n
  {
    var s := [DigitChar(n / 10), DigitChar(n % 10)];
    assert s[..1] == [DigitChar(n / 10)];
    assert s[..1][..0] == [];
    assert DigitsToNat(s[..1]) == n / 10;
    s
  }

  /** A two-digit string is the TwoDigits rendering of its value. */
  lemma TwoDigitsOfDigits(s: string)
    requires |s| == 2 && AllDigits(s)
    ensures DigitsToNat(s) < 100 && TwoDigits(DigitsToNat(s)) == s
  {
    assert s[..1][..0] == [];
    assert DigitsToNat(s[..1]) == DigitValue(s[0]);
    assert DigitsToNat(s) == DigitValue(s[0]) * 10 + DigitValue(s[1]);
    var t := TwoDigits(DigitsToNat(s));
    assert t[0] == DigitChar(DigitsToNat(s) / 10) && t[1] == DigitChar(DigitsToNat(s) % 10);
  }

  /** The string without its ',' characters. */
  function RemoveCommas(s: string): string
  {
    if s == [] then [] else (if s[0] == ',' then [] else [s[0]]) + RemoveCommas(s[1..])
  }

  lemma {:induction false} RemoveCommasAppend(a: string, b: string)
    ensures RemoveCommas(a + b) == RemoveCommas(a) + RemoveCommas(b)
  {
    if a != [] {
      assert (a + b)[1..] == a[1..] + b;
      RemoveCommasAppend(a[1..], b);
    } else {
      assert a + b == b;
    }
  }

  lemma {:induction false} RemoveCommasOfDigits(s: string)
    requires AllDigits(s)
    ensures RemoveCommas(s) == s
  {
    if s != [] {
      RemoveCommasOfDigits(s[1..]);
    }
  }

  /**
   * r is s with number_format's thousands separator: dropping the commas
   * gives s back, the first digit stays first, and a ',' sits exactly at the
   * positions a multiple of four from the end, one before every group of
   * three digits counted from the right.
   */
  predicate Grouping(s: string, r: string)
  {
    && RemoveCommas(r) == s
    && (|s| >= 1 ==> |r| == |s| + (|s| - 1) / 3 && r[0] == s[0])
    && (forall i :: 0 <= i < |r| ==> IsDigit(r[i]) || r[i] == ',')
    && (forall i :: 0 <= i < |r| ==> (r[i] == ',' <==> (|r| - i) % 4 == 0))
  }

  /** number_format's thousands separator. */
  function GroupThousands(s: string): (r: string)
    requires AllDigits(s)
    ensures Grouping(s, r)
    decreases |s|
  {
    if |s| <= 3 then
      ShortGrouping(s);
      s
    else
      var head, tail := s[..|s| - 3], s[|s| - 3..];
      var g := GroupThousands(head);
      GroupingStep(g, head, tail);
      assert head + tail == s;
      g + "," + tail
  }

  lemma ShortGrouping(s: string)
    requires AllDigits(s) && |s| <= 3
    ensures Grouping(s, s)
  {
    RemoveCommasOfDigits(s);
    ShortGroup(s);
  }

  /** A grouping of head, a ',' and three more digits make a grouping of head + tail. */
  lemma GroupingStep(g: string, head: string, tail: string)
    requires |head| >= 1 && |tail| == 3 && AllDigits(tail) && Grouping(head, g)
    ensures Grouping(head + tail, g + "," + tail)
  {
    GroupStep(g, head, tail);
    GroupLayoutStep(g, |head|, tail);
  }

  /** Up to three digits need no separator. */
  lemma ShortGroup(s: string)
    requires AllDigits(s) && |s| <= 3
    ensures |s| >= 1 ==> (|s| - 1) / 3 == 0
    ensures forall i :: 0 <= i < |s| ==> (s[i] == ',' <==> (|s| - i) % 4 == 0)
  {
    forall i | 0 <= i < |s|
      ensures s[i] == ',' <==> (|s| - i) % 4 == 0
    {
      assert IsDigit(s[i]) && 1 <= |s| - i <= 3;
    }
  }

  /** The ',' lands four places from the end and the earlier commas keep their distance from it. */
  lemma GroupLayoutStep(g: string, n: nat, tail: string)
    requires n >= 1 && |g| == n + (n - 1) / 3 && |tail| == 3 && AllDigits(tail)
    requires forall i :: 0 <= i < |g| ==> (g[i] == ',' <==> (|g| - i) % 4 == 0)
    ensures |g + "," + tail| == (n + 3) + (n + 2) / 3
    ensures forall i :: 0 <= i < |g + "," + tail| ==> ((g + "," + tail)[i] == ',' <==> (|g + "," + tail| - i) % 4 == 0)
  {
    var r := g + "," + tail;
    assert (n + 2) / 3 == (n - 1) / 3 + 1;
    forall i | 0 <= i < |r|
      ensures r[i] == ',' <==> (|r| - i) % 4 == 0
    {
      if i < |g| {
        assert r[i] == g[i];
        assert |r| - i == (|g| - i) + 4;
      } else if i > |g| {
        assert r[i] == tail[i - |g| - 1];
        assert 1 <= |r| - i <= 3;
      }
    }
  }

  /** Appending a ',' and a digit group to a grouping of head gives a grouping of head + tail. */
  lemma GroupStep(g: string, head: string, tail: string)
    requires RemoveCommas(g) == head && AllDigits(tail)
    requires |g| >= 1 && forall i :: 0 <= i < |g| ==> IsDigit(g[i]) || g[i] == ','
    ensures RemoveCommas(g + "," + tail) == head + tail
    ensures (g + "," + tail)[0] == g[0]
    ensures forall i :: 0 <= i < |g + "," + tail| ==> IsDigit((g + "," + tail)[i]) || (g + "," + tail)[i] == ','
  {
    assert RemoveCommas(g + "," + tail) == head + tail by {
      RemoveCommasAppend(g + ",", tail);
      RemoveCommasAppend(g, ",");
      RemoveCommasOfDigits(tail);
      assert RemoveCommas(",") == [];
    }
    GroupChars(g, tail);
  }

  lemma GroupChars(g: string, tail: string)
    requires AllDigits(tail) && forall i :: 0 <= i < |g| ==> IsDigit(g[i]) || g[i] == ','
    ensures forall i :: 0 <= i < |g + "," + tail| ==> IsDigit((g + "," + tail)[i]) || (g + "," + tail)[i] == ','
  {
    var r := g + "," + tail;
    forall i | 0 <= i < |r|
      ensures IsDigit(r[i]) || r[i] == ','
    {
      if i < |g| { assert r[i] == g[i]; } else if i > |g| { assert r[i] == tail[i - |g| - 1]; }
    }
  }

  /** Index of the first c in s, or |s| when there is none. */
  function IndexOf(s: string, c: char): (k: nat)
    ensures k <= |s|
    ensures k < |s| ==> s[k] == c
    ensures forall i :: 0 <= i < k ==> s[i] != c
  {
    if s == [] then 0 else if s[0] == c then 0 else 1 + IndexOf(s[1..], c)
  }
}
