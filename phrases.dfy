/** The three greetings the engine composes from word tokens: the date
    greeting, the time greeting and the temperature greeting for one location.
    Each is built step by step, as the program builds its list, by a method
    whose result is stated as a specification function; lemmas then state the
    shape of each greeting and decoders read the greeting's inputs back. */
module Phrases {
  import opened Wrappers
  import opened Text
  import opened NumberWords

  type Hour = h: nat | h < 24
  type Minute = m: nat | m < 60
  type MonthOfYear = m: nat | 1 <= m <= 12 witness 1
  type DayOfMonth = d: nat | 1 <= d <= 31 witness 1

  /** The fields of the current date and time that the greetings read. */
  datatype Moment = Moment(hour: Hour, minute: Minute, month: MonthOfYear, day: DayOfMonth)

  /** The full month names `strftime("%B")` gives in the English locale. */
  const MonthNames: seq<string> :=
    ["January", "February", "March", "April"] +
    ["May", "June", "July", "August"] +
    ["September", "October", "November", "December"]

  // ---------------------------------------------------------------------
  // Date greeting

  /** The time-of-day word: morning before 12, afternoon before 17, evening
      before 20, night after. */
  function PartOfDay(hour: Hour): Token
  {
    if hour < 12 then "morning"
    else if hour < 17 then "afternoon"
    else if hour < 20 then "evening"
    else "night"
  }

  /** The month name in lower case. */
  function MonthToken(month: MonthOfYear): Token
  {
    Lower(MonthNames[month - 1])
  }

  /** The date greeting. */
  function DateMsg(now: Moment): seq<Token>
  {
    ["good", PartOfDay(now.hour), "nana_and_poppy", "today", "is", MonthToken(now.month)]
      + Words(Ordinal(now.day))
  }

  /** Builds the date greeting. */
  method GenerateDateMsg(now: Moment) returns (msg: seq<Token>)
    ensures msg == DateMsg(now)
  {
    msg := ["good"];
    var hour := now.hour;
    if hour < 12 {
      msg := msg + ["morning"];
    } else if hour < 17 {
      msg := msg + ["afternoon"];
    } else if hour < 20 {
      msg := msg + ["evening"];
    } else {
      msg := msg + ["night"];
    }
    assert msg == ["good", PartOfDay(now.hour)];
    msg := msg + ["nana_and_poppy", "today", "is"];
    msg := msg + [Lower(MonthNames[now.month - 1])];
    assert msg == DateMsg(now)[..6];
    var day := now.day;
    var spoken := Replace(Ordinal(day), '-', ' ');
    msg := msg + Split(spoken, ' ');
  }

  /** Exactly one time-of-day word applies to each hour, by the half-open
      ranges [0, 12), [12, 17), [17, 20) and [20, 24). */
  lemma PartOfDayRanges(hour: Hour)
    ensures PartOfDay(hour) == "morning" <==> hour < 12
    ensures PartOfDay(hour) == "afternoon" <==> 12 <= hour < 17
    ensures PartOfDay(hour) == "evening" <==> 17 <= hour < 20
    ensures PartOfDay(hour) == "night" <==> 20 <= hour
    ensures PartOfDay(hour) in ["morning", "afternoon", "evening", "night"]
  {
  }

  /** The date greeting is "good", the time-of-day word, "nana_and_poppy",
      "today", "is", the lower-case month name and the ordinal tokens of the
      day. */
  lemma DateMsgShape(now: Moment)
    ensures |DateMsg(now)| == 6 + |OrdinalTokens(now.day)|
    ensures DateMsg(now)[0] == "good" && DateMsg(now)[1] == PartOfDay(now.hour)
    ensures DateMsg(now)[2..5] == ["nana_and_poppy", "today", "is"]
    ensures DateMsg(now)[5] == Lower(MonthNames[now.month - 1])
    ensures DateMsg(now)[6..] == OrdinalTokens(now.day)
  {
    OrdinalSplits(now.day);
  }

  /** The day's tokens rejoined with blanks give the ordinal's wording with its
      hyphen turned into a blank, and no token holds a blank or a hyphen. */
  lemma DateDayRejoins(now: Moment)
    ensures |DateMsg(now)| >= 7
    ensures Join(DateMsg(now)[6..], ' ') == Replace(Ordinal(now.day), '-', ' ')
    ensures forall i :: 6 <= i < |DateMsg(now)| ==> '-' !in DateMsg(now)[i] && ' ' !in DateMsg(now)[i]
  {
    DateMsgShape(now);
    WordsRejoin(Ordinal(now.day));
    var msg := DateMsg(now);
    forall i | 6 <= i < |msg|
      ensures '-' !in msg[i] && ' ' !in msg[i]
    {
      assert msg[i] == msg[6..][i - 6];
    }
  }

  /** The time-of-day word, the month token and the day, read back from a
      date greeting. */
  function DateValue(msg: seq<Token>): Option<(Token, Token, DayOfMonth)>
  {
    if |msg| < 7 || msg[0] != "good" || msg[2..5] != ["nana_and_poppy", "today", "is"] then None
    else
      match OrdinalValue(msg[6..])
      case None => None
      case Some(d) => if 1 <= d <= 31 then Some((msg[1], msg[5], d)) else None
  }

  /** The date greeting gives back its time-of-day word, its month token and
      its day. */
  lemma DateRoundTrip(now: Moment)
    ensures DateValue(DateMsg(now)) == Some((PartOfDay(now.hour), MonthToken(now.month), now.day))
  {
    DateMsgShape(now);
    OrdinalRoundTrip(now.day);
  }

  /** Two moments with the same date greeting fall in the same part of the
      day and on the same day of the month. */
  lemma DateMsgDeterminesDay(a: Moment, b: Moment)
    requires DateMsg(a) == DateMsg(b)
    ensures a.day == b.day && PartOfDay(a.hour) == PartOfDay(b.hour)
  {
    DateRoundTrip(a);
    DateRoundTrip(b);
  }

  lemma AprilToken()
    ensures MonthToken(4) == "april"
  {
    assert MonthNames[3] == "April";
  }

  lemma TwentySecondTokens()
    ensures OrdinalTokens(22) == ["twenty", "second"]
  {
    assert Spelling(22) == [Ten(0), Unit(2)];
  }

  /** At 08:05 on the 22nd of April the date greeting is "good morning
      nana_and_poppy today is april twenty second": the ordinal
      "twenty-second" is split at its hyphen. */
  lemma DateExample()
    ensures DateMsg(Moment(8, 5, 4, 22)) ==
      ["good", "morning", "nana_and_poppy", "today", "is", "april", "twenty", "second"]
  {
    DateMsgShape(Moment(8, 5, 4, 22));
    AprilToken();
    TwentySecondTokens();
  }

  /** The month token is a word. */
  lemma MonthTokenIsWord(month: MonthOfYear)
    ensures IsWord(MonthToken(month))
  {
    assert IsWord(MonthNames[month - 1]);
    LowerWord(MonthNames[month - 1]);
  }

  lemma DateWords(hour: Hour)
    ensures IsWord("good") && IsWord(PartOfDay(hour))
    ensures IsWord("nana_and_poppy") && IsWord("today") && IsWord("is")
  {
  }

  /** Every token of the date greeting is a word, so it names one clip. */
  lemma DateTokensAreWords(now: Moment)
    ensures AllWords(DateMsg(now))
  {
    var head := ["good", PartOfDay(now.hour), "nana_and_poppy", "today", "is", MonthToken(now.month)];
    DateWords(now.hour);
    MonthTokenIsWord(now.month);
    assert AllWords(head);
    OrdinalSplits(now.day);
    OrdinalTokensAreWords(now.day);
    AllWordsAppend(head, OrdinalTokens(now.day));
  }

  // ---------------------------------------------------------------------
  // Time greeting

  /** The hour on a 12-hour clock: `hour % 12`, with 0 read as 12. */
  function Hour12(hour: Hour): (r: nat)
    ensures 1 <= r <= 12 && r % 12 == hour % 12
  {
    if hour % 12 == 0 then 12 else hour % 12
  }

  function Meridiem(hour: Hour): Token
  {
    if hour > 11 then "pm" else "am"
  }

  /** The minute words: none at minute 0, "oh" and the minute's words for
      minutes 1 to 9, the minute's words otherwise. */
  function MinuteTokens(minute: Minute): seq<Token>
  {
    (if 0 < minute < 10 then ["oh"] else []) + (if minute > 0 then Words(Cardinal(minute)) else [])
  }

  /** The time greeting. The hour's words are appended as one token. */
  function TimeMsg(hour: Hour, minute: Minute): seq<Token>
  {
    ["the_time", "is", Cardinal(Hour12(hour))] + MinuteTokens(minute) + [Meridiem(hour)]
  }

  /** Builds the time greeting. */
  method GenerateTimeMsg(now: Moment) returns (msg: seq<Token>)
    ensures msg == TimeMsg(now.hour, now.minute)
  {
    msg := ["the_time", "is"];
    var hour: nat := now.hour;
    var ampm := "am";
    if hour > 11 {
      ampm := "pm";
    }
    hour := hour % 12;
    if hour == 0 {
      hour := 12;
    }
    assert hour == Hour12(now.hour) && ampm == Meridiem(now.hour);
    msg := msg + [Cardinal(hour)];
    ghost var head := msg;
    assert head == ["the_time", "is", Cardinal(Hour12(now.hour))];
    var minute := now.minute;
    if minute > 0 && minute < 10 {
      msg := msg + ["oh"];
    }
    ghost var oh: seq<Token> := if 0 < minute < 10 then ["oh"] else [];
    assert msg == head + oh;
    if minute > 0 {
      var spoken := Replace(Cardinal(minute), '-', ' ');
      var words := Split(spoken, ' ');
      msg := msg + words;
      AppendAssoc(head, oh, words);
    }
    assert msg == head + MinuteTokens(now.minute);
    msg := msg + [ampm];
  }

  /** Regrouping a three-piece concatenation. The builders call it where they
      append a third piece, so that the regrouping is one named step. */
  lemma AppendAssoc(a: seq<Token>, b: seq<Token>, c: seq<Token>)
    ensures (a + b) + c == a + (b + c)
  {
  }

  /** Hour 0 is spoken as twelve, 13 as one and 23 as eleven. */
  lemma Hour12Examples()
    ensures Hour12(0) == 12 && Hour12(12) == 12 && Hour12(13) == 1 && Hour12(23) == 11
  {
  }

  lemma MinuteTokensShape(minute: Minute)
    ensures minute == 0 ==> MinuteTokens(minute) == []
    ensures 0 < minute < 10 ==> MinuteTokens(minute) == ["oh"] + CardinalTokens(minute)
    ensures minute >= 10 ==> MinuteTokens(minute) == CardinalTokens(minute)
  {
    if minute > 0 {
      CardinalSplits(minute);
    }
  }

  /** The time greeting is "the_time", "is", the 12-hour clock's word, the
      minute tokens and the meridiem, which is "am" exactly when the hour is
      at most 11. */
  lemma TimeMsgShape(hour: Hour, minute: Minute)
    ensures var msg := TimeMsg(hour, minute);
      |msg| == 4 + |MinuteTokens(minute)| &&
      msg[0] == "the_time" && msg[1] == "is" &&
      msg[2] == Units[Hour12(hour)] &&
      msg[3..|msg| - 1] == MinuteTokens(minute) &&
      (msg[|msg| - 1] == "am" <==> hour <= 11) &&
      (msg[|msg| - 1] == "pm" <==> hour > 11)
  {
    UnitCardinal(Hour12(hour));
    var msg := TimeMsg(hour, minute);
    assert msg[3..|msg| - 1] == MinuteTokens(minute);
  }

  lemma TimeWords(hour: Hour)
    ensures IsWord("the_time") && IsWord("is") && IsWord("oh") && IsWord(Meridiem(hour))
  {
  }

  /** Every token of the time greeting is a word, so it names one clip. */
  lemma TimeTokensAreWords(hour: Hour, minute: Minute)
    ensures AllWords(TimeMsg(hour, minute))
  {
    TimeWords(hour);
    UnitCardinal(Hour12(hour));
    var head := ["the_time", "is", Cardinal(Hour12(hour))];
    assert AllWords(head);
    MinuteTokensShape(minute);
    CardinalTokensAreWords(minute);
    assert AllWords(["oh"]);
    if 0 < minute < 10 {
      AllWordsAppend(["oh"], CardinalTokens(minute));
    }
    assert AllWords(MinuteTokens(minute));
    AllWordsAppend(head, MinuteTokens(minute));
    assert AllWords([Meridiem(hour)]);
    AllWordsAppend(head + MinuteTokens(minute), [Meridiem(hour)]);
  }

  lemma MinuteTokensNotMeridiem(minute: Minute)
    ensures forall i :: 0 <= i < |MinuteTokens(minute)| ==>
      MinuteTokens(minute)[i] != "am" && MinuteTokens(minute)[i] != "pm"
  {
    MinuteTokensShape(minute);
    if minute > 0 {
      CardinalTokensAreWords(minute);
    }
  }

  /** "am" or "pm" occurs exactly once in the time greeting: as its last token. */
  lemma MeridiemOnce(hour: Hour, minute: Minute)
    ensures var msg := TimeMsg(hour, minute);
      msg[|msg| - 1] in ["am", "pm"] &&
      forall i :: 0 <= i < |msg| - 1 ==> msg[i] != "am" && msg[i] != "pm"
  {
    TimeMsgShape(hour, minute);
    MinuteTokensNotMeridiem(minute);
    UnitWord(Hour12(hour));
    var msg := TimeMsg(hour, minute);
    forall i | 3 <= i < |msg| - 1
      ensures msg[i] != "am" && msg[i] != "pm"
    {
      assert msg[i] == msg[3..|msg| - 1][i - 3];
    }
  }

  /** "oh" sits right after the hour word exactly for minutes 1 to 9, and
      nowhere else; no minute word is spoken exactly at minute 0. */
  lemma OhRule(hour: Hour, minute: Minute)
    ensures var msg := TimeMsg(hour, minute);
      (msg[3] == "oh" <==> 1 <= minute <= 9) &&
      ("oh" in msg <==> 1 <= minute <= 9) &&
      (|msg| == 4 <==> minute == 0)
  {
    var msg := TimeMsg(hour, minute);
    TimeMsgShape(hour, minute);
    MinuteTokensShape(minute);
    UnitWord(Hour12(hour));
    if minute > 0 {
      CardinalTokensAreWords(minute);
      var c := CardinalTokens(minute);
      assert forall i :: 0 <= i < |c| ==> c[i] != "oh";
      if minute >= 10 {
        assert msg[3] == c[0];
      } else {
        assert msg[3] == "oh";
      }
      forall i | 0 <= i < |msg| && (minute >= 10 || i != 3)
        ensures msg[i] != "oh"
      {
        if 3 <= i < |msg| - 1 {
          assert msg[i] == msg[3..|msg| - 1][i - 3];
        }
      }
    } else {
      assert msg == ["the_time", "is", Units[Hour12(hour)], Meridiem(hour)];
    }
  }

  /** The hour and minute, read back from a time greeting. */
  function TimeValue(msg: seq<Token>): Option<(Hour, Minute)>
  {
    if |msg| < 4 || msg[0] != "the_time" || msg[1] != "is" then None
    else
      var last := msg[|msg| - 1];
      var mid := msg[3..|msg| - 1];
      if last != "am" && last != "pm" then None
      else
        match IndexIn(Units, msg[2])
        case None => None
        case Some(h12) =>
          if !(1 <= h12 <= 12) then None
          else
            var hour := h12 % 12 + (if last == "pm" then 12 else 0);
            match MinuteValue(mid)
            case None => None
            case Some(minute) => Some((hour, minute))
  }

  /** The minute, read back from the minute tokens. */
  function MinuteValue(mid: seq<Token>): Option<Minute>
  {
    if mid == [] then Some(0)
    else if mid[0] == "oh" then
      match CardinalValue(mid[1..])
      case None => None
      case Some(m) => if 1 <= m <= 9 then Some(m) else None
    else
      match CardinalValue(mid)
      case None => None
      case Some(m) => if 10 <= m <= 59 then Some(m) else None
  }

  lemma MinuteRoundTrip(minute: Minute)
    ensures MinuteValue(MinuteTokens(minute)) == Some(minute)
  {
    MinuteTokensShape(minute);
    if minute > 0 {
      CardinalRoundTrip(minute);
      CardinalTokensAreWords(minute);
      if minute < 10 {
        assert MinuteTokens(minute)[1..] == CardinalTokens(minute);
      }
    }
  }

  lemma Hour12Index(hour: Hour)
    ensures IndexIn(Units, Units[Hour12(hour)]) == Some(Hour12(hour))
  {
    UnitsDistinct();
    IndexInDistinct(Units, Hour12(hour));
  }

  /** The 12-hour word and the meridiem give back the hour. */
  lemma HourFromParts(hour: Hour)
    ensures Hour12(hour) % 12 + (if Meridiem(hour) == "pm" then 12 else 0) == hour
  {
  }

  lemma TimeValueOfParts(msg: seq<Token>, hour: Hour, minute: Minute)
    requires |msg| >= 4 && msg[0] == "the_time" && msg[1] == "is"
    requires IndexIn(Units, msg[2]) == Some(Hour12(hour))
    requires msg[|msg| - 1] == Meridiem(hour)
    requires MinuteValue(msg[3..|msg| - 1]) == Some(minute)
    ensures TimeValue(msg) == Some((hour, minute))
  {
    HourFromParts(hour);
  }

  /** The time greeting gives back the hour and the minute it was made from:
      the 12-hour word and the meridiem together determine the hour. */
  lemma TimeRoundTrip(hour: Hour, minute: Minute)
    ensures TimeValue(TimeMsg(hour, minute)) == Some((hour, minute))
  {
    TimeMsgShape(hour, minute);
    MinuteRoundTrip(minute);
    Hour12Index(hour);
    TimeValueOfParts(TimeMsg(hour, minute), hour, minute);
  }

  /** Different times of day have different time greetings. */
  lemma TimeMsgInjective(h1: Hour, m1: Minute, h2: Hour, m2: Minute)
    requires TimeMsg(h1, m1) == TimeMsg(h2, m2)
    ensures h1 == h2 && m1 == m2
  {
    TimeRoundTrip(h1, m1);
    TimeRoundTrip(h2, m2);
  }

  lemma FiveTokens()
    ensures Cardinal(5) == "five" && CardinalTokens(5) == ["five"]
  {
    UnitCardinal(5);
  }

  /** At 08:05 the time greeting is "the_time is eight oh five am". */
  lemma TimeExample()
    ensures TimeMsg(8, 5) == ["the_time", "is", "eight", "oh", "five", "am"]
  {
    MinuteTokensShape(5);
    FiveTokens();
    assert Hour12(8) == 8;
    assert Cardinal(8) == "eight";
  }

  // ---------------------------------------------------------------------
  // Temperature greeting

  /** A rounded Fahrenheit reading, within the range whose wording is modelled. */
  type Reading = t: int | -1000 < t < 1000

  function Magnitude(t: Reading): Small
  {
    if t < 0 then -t else t
  }

  /** The place name passed to the weather lookup: underscores become blanks,
      each word is title-cased, and ", US" is appended. */
  function PlaceName(location: string): string
  {
    Title(Replace(location, '_', ' ')) + ", US"
  }

  /** The temperature words: "minus" and the words of the magnitude for a
      negative reading, the words of the reading otherwise, and exactly
      "minus", "minus" when the lookup failed. */
  function ReadingTokens(reading: Option<Reading>): seq<Token>
  {
    match reading
    case None => ["minus", "minus"]
    case Some(t) => (if t < 0 then ["minus"] else []) + Words(Cardinal(Magnitude(t)))
  }

  /** The temperature greeting for `location`, given what the lookup returned. */
  function TempMsg(location: Token, reading: Option<Reading>): seq<Token>
  {
    ["the_current_temperature_for", location, "is"] + ReadingTokens(reading) + ["degrees"]
  }

  /** Builds the temperature greeting. The weather lookup is the function
      `lookup`, from a place name to the rounded reading, or `None` when the
      lookup fails for any reason. */
  method GenerateTempMsg(lookup: string -> Option<Reading>, location: Token) returns (msg: seq<Token>)
    ensures msg == TempMsg(location, lookup(PlaceName(location)))
  {
    msg := ["the_current_temperature_for", location, "is"];
    var city := Title(Replace(location, '_', ' ')) + ", US";
    var obs := lookup(city);
    if obs.Some? {
      var temp: int := obs.value;
      if temp < 0 {
        msg := msg + ["minus"];
        temp := -temp;
      }
      ghost var sign: seq<Token> := if obs.value < 0 then ["minus"] else [];
      assert msg == ["the_current_temperature_for", location, "is"] + sign;
      assert temp == Magnitude(obs.value);
      var spoken := Replace(Cardinal(temp), '-', ' ');
      var words := Split(spoken, ' ');
      msg := msg + words;
      AppendAssoc(["the_current_temperature_for", location, "is"], sign, words);
    } else {
      msg := msg + ["minus", "minus"];
    }
    assert msg == ["the_current_temperature_for", location, "is"] + ReadingTokens(obs);
    msg := msg + ["degrees"];
  }

  /** The place name keeps the location's length and adds ", US"; position
      `i` is the title-cased location character, with underscores as blanks. */
  lemma PlaceNameShape(location: string)
    ensures |PlaceName(location)| == |location| + 4
    ensures PlaceName(location)[|location|..] == ", US"
    ensures forall i :: 0 <= i < |location| ==>
      PlaceName(location)[i] == TitleAt(Replace(location, '_', ' '), i)
  {
  }

  /** A successful reading gives "minus" first exactly when it is negative,
      and then the tokens of its magnitude. */
  lemma ReadingTokensShape(t: Reading)
    ensures t < 0 ==> ReadingTokens(Some(t)) == ["minus"] + CardinalTokens(Magnitude(t))
    ensures t >= 0 ==> ReadingTokens(Some(t)) == CardinalTokens(Magnitude(t))
    ensures ReadingTokens(Some(t))[0] == "minus" <==> t < 0
  {
    CardinalSplits(Magnitude(t));
    CardinalTokensAreWords(Magnitude(t));
  }

  /** The temperature greeting starts with "the_current_temperature_for", the
      location and "is", ends with "degrees", and holds the reading tokens in
      between. */
  lemma TempMsgShape(location: Token, reading: Option<Reading>)
    ensures var msg := TempMsg(location, reading);
      |msg| == 4 + |ReadingTokens(reading)| &&
      msg[..3] == ["the_current_temperature_for", location, "is"] &&
      msg[3..|msg| - 1] == ReadingTokens(reading) &&
      msg[|msg| - 1] == "degrees"
  {
    var msg := TempMsg(location, reading);
    assert msg[3..|msg| - 1] == ReadingTokens(reading);
  }

  lemma TempWords()
    ensures IsWord("the_current_temperature_for") && IsWord("is")
    ensures IsWord("minus") && IsWord("degrees")
  {
  }

  /** Every token of a temperature greeting for a location that is a word is
      a word, so it names one clip. */
  lemma TempTokensAreWords(location: Token, reading: Option<Reading>)
    requires IsWord(location)
    ensures AllWords(TempMsg(location, reading))
  {
    TempWords();
    var head := ["the_current_temperature_for", location, "is"];
    assert AllWords(head);
    assert AllWords(["minus"]);
    match reading
    case None =>
      assert AllWords(ReadingTokens(reading));
    case Some(t) =>
      ReadingTokensShape(t);
      CardinalTokensAreWords(Magnitude(t));
      if t < 0 {
        AllWordsAppend(["minus"], CardinalTokens(Magnitude(t)));
      }
      assert AllWords(ReadingTokens(reading));
    AllWordsAppend(head, ReadingTokens(reading));
    assert AllWords(["degrees"]);
    AllWordsAppend(head + ReadingTokens(reading), ["degrees"]);
  }

  /** When the lookup fails the greeting ends in exactly "is", "minus",
      "minus", "degrees". */
  lemma TempFailure(location: Token)
    ensures TempMsg(location, None) == ["the_current_temperature_for", location, "is", "minus", "minus", "degrees"]
  {
  }

  /** The reading, read back from the reading tokens. */
  function ReadingValue(mid: seq<Token>): Option<Option<Reading>>
  {
    if mid == ["minus", "minus"] then Some(None)
    else if |mid| >= 1 && mid[0] == "minus" then
      match CardinalValue(mid[1..])
      case None => None
      case Some(m) => if m == 0 then None else var t: Reading := -(m as int); Some(Some(t))
    else
      match CardinalValue(mid)
      case None => None
      case Some(m) => Some(Some(m))
  }

  /** The location and the reading, read back from a temperature greeting. */
  function TempValue(msg: seq<Token>): Option<(Token, Option<Reading>)>
  {
    if |msg| < 4 || msg[0] != "the_current_temperature_for" || msg[2] != "is"
       || msg[|msg| - 1] != "degrees" then None
    else
      match ReadingValue(msg[3..|msg| - 1])
      case None => None
      case Some(r) => Some((msg[1], r))
  }

  lemma ReadingValueNegative(c: seq<Token>, m: Small)
    requires |c| >= 1 && c[0] != "minus" && 0 < m
    requires CardinalValue(c) == Some(m)
    ensures ReadingValue(["minus"] + c) == Some(Some(-(m as int)))
  {
    assert (["minus"] + c)[1..] == c;
    assert (["minus"] + c)[1] == c[0];
  }

  lemma ReadingValueNonNegative(c: seq<Token>, m: Small)
    requires |c| >= 1 && c[0] != "minus"
    requires CardinalValue(c) == Some(m)
    ensures ReadingValue(c) == Some(Some(m as int))
  {
  }

  lemma ReadingRoundTrip(reading: Option<Reading>)
    ensures ReadingValue(ReadingTokens(reading)) == Some(reading)
  {
    match reading
    case None =>
    case Some(t) =>
      ReadingTokensShape(t);
      CardinalRoundTrip(Magnitude(t));
      CardinalTokensAreWords(Magnitude(t));
      if t < 0 {
        ReadingValueNegative(CardinalTokens(Magnitude(t)), Magnitude(t));
      } else {
        ReadingValueNonNegative(CardinalTokens(Magnitude(t)), Magnitude(t));
      }
  }

  /** The temperature greeting gives back its location and what the lookup
      returned; in particular a failed lookup is never heard as a reading. */
  lemma TempRoundTrip(location: Token, reading: Option<Reading>)
    ensures TempValue(TempMsg(location, reading)) == Some((location, reading))
  {
    TempMsgShape(location, reading);
    ReadingRoundTrip(reading);
  }

  /** The failure greeting differs from the greeting of every reading. */
  lemma FailureDistinguishable(location: Token, t: Reading)
    ensures TempMsg(location, None) != TempMsg(location, Some(t))
  {
    TempRoundTrip(location, None);
    TempRoundTrip(location, Some(t));
  }


  lemma SeventyTwoTokens()
    ensures CardinalTokens(72) == ["seventy", "two"]
  {
    assert Spelling(72) == [Ten(5), Unit(2)];
  }

  lemma MinusFiveTokens()
    ensures ReadingTokens(Some(-5)) == ["minus", "five"]
  {
    ReadingTokensShape(-5);
    FiveTokens();
  }

  /** A reading of -5 is spoken "minus five". */
  lemma TempExampleNegative()
    ensures TempMsg("waynesboro", Some(-5)) ==
      ["the_current_temperature_for", "waynesboro", "is", "minus", "five", "degrees"]
  {
    MinusFiveTokens();
  }

  /** A reading of 72 is spoken "seventy two": "seventy-two" is split at its
      hyphen. */
  lemma TempExamplePositive()
    ensures TempMsg("ocean_city", Some(72)) ==
      ["the_current_temperature_for", "ocean_city", "is", "seventy", "two", "degrees"]
  {
    ReadingTokensShape(72);
    SeventyTwoTokens();
  }

  lemma OceanCityBlank()
    ensures Replace("ocean_city", '_', ' ') == "ocean city"
  {
  }

  lemma OceanCityTitle()
    ensures Title("ocean city") == "Ocean City"
  {
    assert Title("ocean city")[0] == TitleAt("ocean city", 0);
  }

  lemma WaynesboroTitle()
    ensures Title("waynesboro") == "Waynesboro"
  {
    assert Title("waynesboro")[0] == TitleAt("waynesboro", 0);
  }

  /** The first location the program greets is looked up as "Waynesboro, US". */
  lemma WaynesboroPlace()
    ensures PlaceName("waynesboro") == "Waynesboro, US"
  {
    ReplaceAbsent("waynesboro", '_', ' ');
    WaynesboroTitle();
  }

  /** The second location is looked up as "Ocean City, US": the underscore
      becomes a blank and each word is capitalised. */
  lemma OceanCityPlace()
    ensures PlaceName("ocean_city") == "Ocean City, US"
  {
    OceanCityBlank();
    OceanCityTitle();
  }
}
