/** app/Models/Service.php: the active scope and the price and duration labels. */
module ServiceModel {
  import opened Wrappers
  import opened Decimal
  import opened Seqs
  import Money

  /** A services row; price is in cents (the decimal:2 cast). */
  datatype Service = Service(id: int, name: string, description: string, price: int, durationMinutes: int, isActive: bool)

  /** The exists:services,id rule: some row has the id. */
  predicate HasService(services: seq<Service>, id: int)
  {
    exists i :: 0 <= i < |services| && services[i].id == id
  }

  /** Service::findOrFail: the first row with the id, or None (a 404). */
  function FindService(services: seq<Service>, id: int): (r: Option<Service>)
    ensures r.Some? ==> r.value in services && r.value.id == id
    ensures r.None? <==> !HasService(services, id)
  {
    First(services, (s: Service) => s.id == id)
  }

  function ScopeActive(services: seq<Service>): (r: seq<Service>)
    ensures forall s :: s in r <==> s in services && s.isActive
  {
    Filter(services, (s: Service) => s.isActive)
  }

  /** getFormattedPriceAttribute: '$' . number_format(price, 2). */
  function FormattedPrice(s: Service): (text: string)
    ensures Money.ParseMoney(text) == Some(s.price)
    ensures Money.MoneyLayout(text, s.price)
  {
    Money.FormatMoneyRoundTrip(s.price);
    Money.FormatMoneyLayout(s.price);
    Money.FormatMoney(s.price)
  }

  /**
   * intval(d / 60) and d % 60 in PHP: both truncate toward zero, so for a
   * negative d the hours and minutes are both non-positive.
   */
  function DurationParts(d: int): (hm: (int, int))
    ensures hm.0 * 60 + hm.1 == d
    ensures -60 < hm.1 < 60
    ensures d >= 0 ==> hm.0 >= 0 && hm.1 >= 0
    ensures d <= 0 ==> hm.0 <= 0 && hm.1 <= 0
  {
    if d >= 0 then (d / 60, d % 60) else (-((-d) / 60), -((-d) % 60))
  }

  /** getFormattedDurationAttribute: "{h}h {m}m", "{h}h" or "{m}m". */
  function FormattedDuration(d: int): string
  {
    var (h, m) := DurationParts(d);
    DurationLabel(h, m)
  }

  /** The label of h hours and m minutes: the hours part only when h is positive, the minutes part unless h is positive and m is not. */
  function DurationLabel(h: int, m: int): string
  {
    if h > 0 && m > 0 then IntToString(h) + "h " + IntToString(m) + "m"
    else if h > 0 then IntToString(h) + "h"
    else IntToString(m) + "m"
  }

  /** Reads a duration label back into minutes. */
  function ParseDuration(s: string): Option<int>
  {
    if |s| >= 2 && s[|s| - 1] == 'h' then ParseHoursPart(s[..|s| - 1])
    else if |s| >= 2 && s[|s| - 1] == 'm' then ParseMinutesPart(s[..|s| - 1])
    else None
  }

  /** "{h}" before the final 'h'. */
  function ParseHoursPart(body: string): Option<int>
  {
    match ParseNat(body)
    case Some(h) => Some(h * 60)
    case None => None
  }

  /** "{h}h {m}" or "{m}" before the final 'm'. */
  function ParseMinutesPart(body: string): Option<int>
  {
    var k := IndexOf(body, 'h');
    if k < |body| then
      if k + 1 < |body| && body[k + 1] == ' ' then
        match (ParseNat(body[..k]), ParseNat(body[k + 2..]))
        case (Some(h), Some(m)) => Some(h * 60 + m)
        case _ => None
      else None
    else
      match ParseNat(body)
      case Some(m) => Some(m)
      case None => None
  }

  lemma DigitsHaveNoH(s: string)
    requires AllDigits(s)
    ensures IndexOf(s, 'h') == |s|
  {
  }

  lemma {:induction false} HAfterDigits(hs: string, rest: string)
    requires AllDigits(hs) && |rest| >= 1 && rest[0] == 'h'
    ensures IndexOf(hs + rest, 'h') == |hs|
  {
    if hs != [] {
      assert (hs + rest)[1..] == hs[1..] + rest;
      HAfterDigits(hs[1..], rest);
    }
  }

  lemma HoursAndMinutesPart(hs: string, ms: string, body: string)
    requires |hs| >= 1 && AllDigits(hs) && |ms| >= 1 && AllDigits(ms)
    requires body == hs + ("h " + ms)
    ensures ParseMinutesPart(body) == Some(DigitsToNat(hs) * 60 + DigitsToNat(ms))
  {
    LabelShape(hs, ms, body);
    MinutesPartOfSplit(body, |hs|, DigitsToNat(hs), DigitsToNat(ms));
  }

  /** Where "{h}h {m}" splits: the first 'h' right after the hour digits, then a space, then the minute digits. */
  lemma LabelShape(hs: string, ms: string, body: string)
    requires AllDigits(hs) && body == hs + ("h " + ms)
    ensures IndexOf(body, 'h') == |hs| && |hs| + 1 < |body| && body[|hs| + 1] == ' '
    ensures body[..|hs|] == hs && body[|hs| + 2..] == ms
  {
    HAfterDigits(hs, "h " + ms);
  }

  lemma MinutesPartOfSplit(body: string, k: nat, h: nat, m: nat)
    requires IndexOf(body, 'h') == k && k + 1 < |body| && body[k + 1] == ' '
    requires ParseNat(body[..k]) == Some(h) && ParseNat(body[k + 2..]) == Some(m)
    ensures ParseMinutesPart(body) == Some(h * 60 + m)
  {
  }

  /** A label ending in 'm' is read by ParseMinutesPart. */
  lemma MinutesLabel(body: string)
    requires |body| >= 1
    ensures ParseDuration(body + "m") == ParseMinutesPart(body)
  {
    var s := body + "m";
    assert s[..|s| - 1] == body;
  }

  lemma ParseHoursAndMinutes(h: nat, m: nat)
    ensures ParseDuration(NatToString(h) + "h " + NatToString(m) + "m") == Some(h * 60 + m)
  {
    var hs, ms := NatToString(h), NatToString(m);
    NatToStringRoundTrip(h);
    NatToStringRoundTrip(m);
    HoursAndMinutesPart(hs, ms, hs + ("h " + ms));
    AppendLabel(hs, ms);
    MinutesLabel(hs + ("h " + ms));
  }

  lemma AppendLabel(hs: string, ms: string)
    ensures hs + "h " + ms + "m" == hs + ("h " + ms) + "m"
  {
  }

  lemma ParseHours(h: nat)
    ensures ParseDuration(NatToString(h) + "h") == Some(h * 60)
  {
    var s := NatToString(h) + "h";
    ParseNatOfNatToString(h);
    assert s[..|s| - 1] == NatToString(h);
  }

  lemma ParseMinutes(m: nat)
    ensures ParseDuration(NatToString(m) + "m") == Some(m)
  {
    var s := NatToString(m) + "m";
    assert ParseMinutesPart(NatToString(m)) == Some(m) by {
      ParseNatOfNatToString(m);
      DigitsHaveNoH(NatToString(m));
    }
    assert s[..|s| - 1] == NatToString(m);
  }

  /** Non-negative hours and minutes can be read back from their label. */
  lemma DurationLabelRoundTrip(h: nat, m: nat)
    ensures ParseDuration(DurationLabel(h, m)) == Some(h * 60 + m)
  {
    var text := DurationLabel(h, m);
    assert IntToString(h) == NatToString(h) && IntToString(m) == NatToString(m);
    if h > 0 && m > 0 {
      assert text == NatToString(h) + "h " + NatToString(m) + "m";
      ParseHoursAndMinutes(h, m);
    } else if h > 0 {
      assert text == NatToString(h) + "h";
      ParseHours(h);
    } else {
      assert text == NatToString(m) + "m";
      ParseMinutes(m);
    }
  }

  /** A non-negative duration can be read back from its label. */
  lemma FormattedDurationRoundTrip(d: nat)
    ensures ParseDuration(FormattedDuration(d)) == Some(d)
  {
    var hm := DurationParts(d);
    DurationLabelRoundTrip(hm.0, hm.1);
    assert FormattedDuration(d) == DurationLabel(hm.0, hm.1);
  }

  /** The zero duration is shown as "0m" and whole hours without a minutes part. */
  lemma FormattedDurationWholeHours(h: nat)
    ensures FormattedDuration(0) == "0m"
    ensures h > 0 ==> FormattedDuration(h * 60) == NatToString(h) + "h"
  {
    assert NatToString(0) == "0";
    if h > 0 {
      assert DurationParts(h * 60) == (h, 0);
    }
  }

  /** orderBy('name') */
  function ByName(): (le: (Service, Service) -> bool)
    ensures TotalPreorder(le)
    ensures forall a, b :: le(a, b) <==> LexLe(a.name, b.name)
  {
    var le := (a: Service, b: Service) => LexLe(a.name, b.name);
    ByStringKey(le, (s: Service) => s.name);
    le
  }
}
