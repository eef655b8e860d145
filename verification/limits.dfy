/**
 * Rate limits: a quantity of hits allowed per unit of time, and the parsing of
 * their textual form "<quantity>/<frequency>".
 */
module Limits {
  import opened Results
  import opened Durations
  import Text

  /** The unit of a rate, as a duration in nanoseconds. */
  newtype Frequency = int

  function Duration(f: Frequency): (d: int)
    ensures d as Frequency == f
  {
    f as int
  }

  /** The default frequencies. `PerDay` is sixty hours, as the source defines it. */
  const PerDay: Frequency := (Hour * 60) as Frequency
  const PerHour: Frequency := Hour as Frequency
  const PerMinute: Frequency := Minute as Frequency

  /** The spellings accepted for each frequency; matching is exact. */
  const DayTokens: set<string> := {"day", "DAY", "d"}
  const HourTokens: set<string> := {"hour", "HOUR", "h"}
  const MinuteTokens: set<string> := {"minute", "MINUTE", "m"}

  const FrequencySuffix: string := " is not a valid frequency for a rate"
  const LimitSuffix: string := " is not a valid limit"
  const QuantitySuffix: string := " is not a valid quantity"

  /** Why a limit or a frequency could not be parsed; each names the offending text. */
  datatype LimitError =
    | InvalidFrequency(text: string)
    | InvalidLimit(text: string)
    | InvalidQuantity(text: string)
  {
    /** The error text: the offending text, then what was wrong with it. */
    function Message(): (m: string)
      ensures |m| > |text| && m[..|text|] == text
      ensures InvalidFrequency? ==> m[|text|..] == FrequencySuffix
      ensures InvalidLimit? ==> m[|text|..] == LimitSuffix
      ensures InvalidQuantity? ==> m[|text|..] == QuantitySuffix
    {
      match this
      case InvalidFrequency(t) => t + FrequencySuffix
      case InvalidLimit(t) => t + LimitSuffix
      case InvalidQuantity(t) => t + QuantitySuffix
    }
  }

  /** The frequency named by `s`, or an error naming `s`. */
  function ParseFrequency(s: string): (r: Result<Frequency, LimitError>)
    ensures r.Ok? <==> s in DayTokens + HourTokens + MinuteTokens
    ensures s in DayTokens ==> r == Ok(PerDay)
    ensures s in HourTokens ==> r == Ok(PerHour)
    ensures s in MinuteTokens ==> r == Ok(PerMinute)
    ensures r.Err? ==> r.error == InvalidFrequency(s)
  {
    if s in DayTokens then Ok(PerDay)
    else if s in HourTokens then Ok(PerHour)
    else if s in MinuteTokens then Ok(PerMinute)
    else Err(InvalidFrequency(s))
  }

  /** "quantity hits per unit". */
  datatype Limit = Limit(unit: Frequency, quantity: int)

  function NewLimit(unit: Frequency, quantity: int): (l: Limit)
    ensures l.unit == unit && l.quantity == quantity
  {
    Limit(unit, quantity)
  }

  /** Parses "<quantity>/<frequency>". The frequency is checked before the quantity. */
  function ParseLimit(s: string): (r: Result<Limit, LimitError>)
    ensures r.Ok? ==> Text.Occurrences(s, '/') == 1
    ensures r.Ok? ==> r.value.unit in {PerDay, PerHour, PerMinute} && Text.InInt64(r.value.quantity)
  {
    var parts := Text.Split(s, '/');
    if |parts| != 2 then Err(InvalidLimit(s))
    else
      match ParseFrequency(parts[1])
      case Err(e) => Err(e)
      case Ok(f) =>
        match Text.Atoi(parts[0])
        case None => Err(InvalidQuantity(parts[0]))
        case Some(q) => Ok(NewLimit(f, q))
  }

  // ---------------------------------------------------------------------------
  // Properties
  // ---------------------------------------------------------------------------

  /** The three frequencies are distinct and ordered as their names suggest. */
  lemma FrequencyOrder()
    ensures 0 < PerMinute < PerHour < PerDay
    ensures PerDay == 60 * PerHour && PerHour == 60 * PerMinute
  {
  }

  /** The three kinds of error give three different texts for the same offending text. */
  lemma MessagesDiffer(t: string)
    ensures InvalidFrequency(t).Message() != InvalidLimit(t).Message()
    ensures InvalidLimit(t).Message() != InvalidQuantity(t).Message()
    ensures InvalidQuantity(t).Message() != InvalidFrequency(t).Message()
  {
    var f, l, q := InvalidFrequency(t).Message(), InvalidLimit(t).Message(), InvalidQuantity(t).Message();
    assert f[|t|..] == FrequencySuffix && l[|t|..] == LimitSuffix && q[|t|..] == QuantitySuffix;
    assert FrequencySuffix[16] == 'f' && LimitSuffix[16] == 'l' && QuantitySuffix[16] == 'q';
  }

  /** Only the listed spellings are accepted: other capitalisations and other units fail. */
  lemma ParseFrequencyCaseSensitive()
    ensures ParseFrequency("Day") == Err(InvalidFrequency("Day"))
    ensures ParseFrequency("Hour") == Err(InvalidFrequency("Hour"))
    ensures ParseFrequency("M") == Err(InvalidFrequency("M"))
    ensures ParseFrequency("week") == Err(InvalidFrequency("week"))
  {
  }

  /** Text with no slash, or with more than one, is not a limit. */
  lemma ParseLimitNeedsOneSlash(s: string)
    requires Text.Occurrences(s, '/') != 1
    ensures ParseLimit(s) == Err(InvalidLimit(s))
  {
  }

  /** The full behaviour on "<a>/<b>": the frequency part is judged first, so a bad
      frequency is reported even when the quantity is also bad. */
  lemma ParseLimitOfParts(a: string, b: string)
    requires '/' !in a && '/' !in b
    ensures ParseFrequency(b).Err? ==> ParseLimit(a + "/" + b) == Err(InvalidFrequency(b))
    ensures ParseFrequency(b).Ok? && Text.Atoi(a).None? ==>
      ParseLimit(a + "/" + b) == Err(InvalidQuantity(a))
    ensures ParseFrequency(b).Ok? && Text.Atoi(a).Some? ==>
      ParseLimit(a + "/" + b) == Ok(NewLimit(ParseFrequency(b).value, Text.Atoi(a).value))
  {
    Text.SplitPair(a, b, '/');
  }

  /** Round trip: printing a 64-bit quantity (negative ones included) and a valid
      frequency token, and parsing the result, gives back that limit. */
  lemma ParseLimitRoundTrip(q: int, token: string)
    requires Text.InInt64(q)
    requires ParseFrequency(token).Ok?
    ensures ParseLimit(Text.Itoa(q) + "/" + token) == Ok(NewLimit(ParseFrequency(token).value, q))
  {
    NoSlashInNumeral(q);
    Text.AtoiItoa(q);
    ParseLimitOfParts(Text.Itoa(q), token);
  }

  /** Leading zeros in the quantity are accepted: "007/h" is seven per hour. */
  lemma ParseLimitLeadingZeros(z: nat, n: nat, token: string)
    requires n <= Text.MaxInt64
    requires ParseFrequency(token).Ok?
    ensures ParseLimit(Text.Zeros(z) + Text.NatDigits(n) + "/" + token)
      == Ok(NewLimit(ParseFrequency(token).value, n))
  {
    var q := Text.Zeros(z) + Text.NatDigits(n);
    Text.AtoiLeadingZeros(z, n);
    NoSlashInDigits(q);
    ParseLimitOfParts(q, token);
  }

  /** A run of digits never contains the separator. */
  lemma NoSlashInDigits(s: string)
    requires Text.AllDigits(s)
    ensures '/' !in s
  {
  }

  /** A quantity outside the 64-bit range is reported as an invalid quantity. */
  lemma ParseLimitQuantityOutOfRange(q: int, token: string)
    requires !Text.InInt64(q)
    requires ParseFrequency(token).Ok?
    ensures ParseLimit(Text.Itoa(q) + "/" + token) == Err(InvalidQuantity(Text.Itoa(q)))
  {
    NoSlashInNumeral(q);
    Text.AtoiOutOfRange(q);
    ParseLimitOfParts(Text.Itoa(q), token);
  }

  /** A numeral never contains the separator. */
  lemma NoSlashInNumeral(q: int)
    ensures '/' !in Text.Itoa(q)
  {
  }

  // The worked examples below spell each input as its quantity, "/" and its frequency.

  /** "100/day" is one hundred hits per (sixty-hour) day. */
  lemma ParseLimitHundredPerDay()
    ensures ParseLimit("100" + "/" + "day") == Ok(Limit(PerDay, 100))
  {
    assert Text.Atoi("100") == Some(100) by {
      assert "100"[..2] == "10" && "10"[..1] == "1" && "1"[..0] == "";
      assert Text.DigitsValue("100") == 100;
    }
    assert ParseFrequency("day") == Ok(PerDay);
    ParseLimitOfParts("100", "day");
  }

  /** "1/WEEK": an unknown unit is reported as an invalid frequency. */
  lemma ParseLimitUnknownUnit()
    ensures ParseLimit("1" + "/" + "WEEK") == Err(InvalidFrequency("WEEK"))
  {
    ParseLimitOfParts("1", "WEEK");
  }

  /** "abc/hour": a non-numeric quantity is reported as an invalid quantity. */
  lemma ParseLimitNonNumeric()
    ensures ParseLimit("abc" + "/" + "hour") == Err(InvalidQuantity("abc"))
  {
    ParseLimitOfParts("abc", "hour");
  }

  /** "abc/week": when both parts are bad, the frequency is the one reported. */
  lemma ParseLimitBothBad()
    ensures ParseLimit("abc" + "/" + "week") == Err(InvalidFrequency("week"))
  {
    assert ParseFrequency("week").Err?;
    ParseLimitOfParts("abc", "week");
  }

  /** "-5/m": a negative quantity is accepted. */
  lemma ParseLimitNegative()
    ensures ParseLimit("-5" + "/" + "m") == Ok(Limit(PerMinute, -5))
  {
    assert Text.Atoi("-5") == Some(-5) by {
      assert "-5"[1..] == "5" && "5"[..0] == "";
      assert Text.DigitsValue("5") == 5;
    }
    ParseLimitOfParts("-5", "m");
  }

  /** "10" and "1/h/x": zero or two slashes make the whole text invalid. */
  lemma ParseLimitWrongShape()
    ensures ParseLimit("10") == Err(InvalidLimit("10"))
    ensures ParseLimit("1/" + "h/" + "x") == Err(InvalidLimit("1/" + "h/" + "x"))
  {
    assert Text.Occurrences("10", '/') == 0;
    ParseLimitNeedsOneSlash("10");
    assert "1/"[1..] == "/" && "/"[1..] == [] && "h/"[1..] == "/" && "x"[1..] == [];
    Text.OccurrencesAppend("1/", "h/", '/');
    Text.OccurrencesAppend("1/" + "h/", "x", '/');
    assert Text.Occurrences("1/" + "h/" + "x", '/') == 2;
    ParseLimitNeedsOneSlash("1/" + "h/" + "x");
  }
}
