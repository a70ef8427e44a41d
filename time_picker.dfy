/** The time picker of the compose window: it shows the chosen hour and minute as
    two-digit fields and accepts a typed value only inside the range of its field. */
module TimePicker {
  import opened Wrappers
  import opened Text

  /** One field as the picker shows it: the number's text, padded with zeros on the
      left to two characters. */
  function Field(n: int): (r: string)
    ensures |r| >= 2 && (0 <= n < 100 ==> |r| == 2)
    ensures 0 <= n < 10 ==> r == ['0', DigitChar(n)]
    ensures 10 <= n < 100 ==> r == NatToString(n)
  {
    assert 10 <= n ==> NatToString(n) == NatToString(n / 10) + [DigitChar(n % 10)];
    PadStart(IntToString(n), 2, '0')
  }

  /** The label on the picker's button, `hh:mm`. */
  function DisplayTime(hours: int, minutes: int): (r: string)
    ensures |r| >= 5 && ':' in r
    ensures 0 <= hours < 100 && 0 <= minutes < 100 ==>
      |r| == 5 && r[2] == ':' && r[..2] == Field(hours) && r[3..] == Field(minutes)
  {
    Field(hours) + ":" + Field(minutes)
  }

  /** The value a typed hour sets: a number that parses and lies in 0..23; `None`
      leaves the hour as it was. */
  function HoursChange(input: string): (r: Option<int>)
    ensures r.Some? <==> ParseInt(input, Auto).Some? && 0 <= ParseInt(input, Auto).value <= 23
    ensures r.Some? ==> r == ParseInt(input, Auto)
  {
    InRange(ParseInt(input, Auto), 23)
  }

  /** The value a typed minute sets: a number that parses and lies in 0..59. */
  function MinutesChange(input: string): (r: Option<int>)
    ensures r.Some? <==> ParseInt(input, Auto).Some? && 0 <= ParseInt(input, Auto).value <= 59
    ensures r.Some? ==> r == ParseInt(input, Auto)
  {
    InRange(ParseInt(input, Auto), 59)
  }

  function InRange(value: Option<int>, max: int): Option<int> {
    if value.Some? && 0 <= value.value <= max then value else None
  }

  /** The two-digit text of a number below 100 parses back to that number. */
  lemma FieldParses(n: int)
    requires 0 <= n < 100
    ensures ParseInt(Field(n), Auto) == Some(n)
  {
    if n < 10 {
      var ds := NatToString(n);
      var s := Field(n);
      assert ds == [DigitChar(n)];
      assert s == "0" + ds;
      NatToStringValue(n);
      LeadingZeroValue(ds);
      ParseDigits(s, Auto);
    } else {
      ParseIntToString(n, Auto);
    }
  }

  /** The label is five characters, `hh:mm`, whose two fields read back as the hour
      and the minute. */
  lemma DisplayTimeReadsBack(hours: int, minutes: int)
    requires 0 <= hours <= 23 && 0 <= minutes <= 59
    ensures var d := DisplayTime(hours, minutes);
      |d| == 5 && d[2] == ':' && ParseInt(d[..2], Auto) == Some(hours) && ParseInt(d[3..], Auto) == Some(minutes)
  {
    var d := DisplayTime(hours, minutes);
    assert d[..2] == Field(hours);
    assert d[3..] == Field(minutes);
    FieldParses(hours);
    FieldParses(minutes);
  }

  /** Typing back what a field shows sets the value it already has. */
  lemma FieldReentered(hours: int, minutes: int)
    requires 0 <= hours <= 23 && 0 <= minutes <= 59
    ensures HoursChange(Field(hours)) == Some(hours)
    ensures MinutesChange(Field(minutes)) == Some(minutes)
  {
    FieldParses(hours);
    FieldParses(minutes);
  }
}
