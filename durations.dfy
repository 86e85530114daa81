/**
  The two minute-count renderings of the repository: `formatTime` in src/utils/functions.ts
  ("1 hour and 30 minutes", "0 minutes") and the older `formatTime` in src/utils/stats.ts
  ("1 hour 30 minutes", "0 minute"), which is the one the statistics use. Each has a reader
  that recovers the minute count, so neither rendering maps two counts to the same text.
 */
module Durations {
  import opened Errors
  import opened Decimal

  /**
    JavaScript `a % b` for b > 0, which is a - b * trunc(a / b): the quotient is rounded toward
    zero, so the remainder lies strictly between -b and b and takes the sign of the dividend.
   */
  function JsRem(a: int, b: int): (r: int)
    requires b > 0
    ensures a >= 0 ==> r == a % b && a - r == b * (a / b) && 0 <= r < b
    ensures a < 0 ==> a - r == -(b * ((-a) / b)) && -b < r <= 0
  {
    if a >= 0 then a % b else -((-a) % b)
  }

  /** A unit word, with "s" appended only when the count exceeds one. */
  function Unit(word: string, n: int): string {
    word + (if n > 1 then "s" else "")
  }

  /** `n + " hour" + (n > 1 ? "s" : "")` and its template-literal twin. */
  function Quantity(n: int, word: string): string {
    IntToString(n) + " " + Unit(word, n)
  }

  /** `parts.join(sep)`. */
  function Join(parts: seq<string>, sep: string): string {
    if |parts| == 0 then ""
    else if |parts| == 1 then parts[0]
    else parts[0] + sep + Join(parts[1..], sep)
  }

  /**
    `formatTime` of src/utils/functions.ts: the fixed text "0 minutes" for zero; otherwise the
    non-zero parts among hours and remaining minutes, joined by " and ".
    Math.floor(m / 60) is Dafny's m / 60, since the divisor is positive.
   */
  function FormatTime(minutes: int): (r: string)
    ensures minutes == 0 ==> r == "0 minutes"
    ensures 0 < minutes < 60 ==> r == Quantity(minutes, "minute")
    ensures minutes >= 60 && minutes % 60 == 0 ==> r == Quantity(minutes / 60, "hour")
    ensures minutes >= 60 && minutes % 60 != 0 ==>
      r == Quantity(minutes / 60, "hour") + " and " + Quantity(minutes % 60, "minute")
    ensures minutes < 0 ==> r == ""
  {
    if minutes == 0 then "0 minutes"
    else
      var hours := minutes / 60;
      var mins := JsRem(minutes, 60);
      var parts := (if hours > 0 then [Quantity(hours, "hour")] else [])
                 + (if mins > 0 then [Quantity(mins, "minute")] else []);
      assert |parts| == 2 ==> Join(parts, " and ") == parts[0] + " and " + parts[1];
      Join(parts, " and ")
  }

  /**
    `formatTime` of src/utils/stats.ts: with at least one hour, both the hours and the
    remaining minutes are printed, separated by a space and with no "and", even when the
    remainder is zero; below one hour only the minutes, so zero reads "0 minute".
   */
  function StatsFormatTime(minutes: int): (r: string)
    ensures 0 <= minutes < 60 ==> r == Quantity(minutes, "minute")
    ensures minutes >= 60 ==> r == Quantity(minutes / 60, "hour") + " " + Quantity(minutes % 60, "minute")
  {
    var hours := minutes / 60;
    var remainingMinutes := JsRem(minutes, 60);
    if hours > 0 then Quantity(hours, "hour") + " " + Quantity(remainingMinutes, "minute")
    else Quantity(remainingMinutes, "minute")
  }

  /** The text split at every space, as `s.split(" ")` does. */
  function Words(s: string): (ws: seq<string>)
    ensures |ws| >= 1
  {
    if s == [] then [[]]
    else
      var rest := Words(s[1..]);
      if s[0] == ' ' then [[]] + rest else [[s[0]] + rest[0]] + rest[1..]
  }

  lemma {:induction false} WordsOfWord(a: string)
    requires ' ' !in a
    ensures Words(a) == [a]
  {
    if a != [] {
      WordsOfWord(a[1..]);
      assert [a[0]] + a[1..] == a;
    }
  }

  lemma {:induction false} WordsCons(a: string, b: string)
    requires ' ' !in a
    ensures Words(a + " " + b) == [a] + Words(b)
  {
    var s := a + " " + b;
    if a == [] {
      assert s[1..] == b;
    } else {
      assert s[1..] == a[1..] + " " + b;
      WordsCons(a[1..], b);
      assert [a[0]] + a[1..] == a;
    }
  }

  lemma NoSpaceInNumber(n: int)
    ensures ' ' !in IntToString(n)
  {
  }

  /** The words of `Quantity(n, word) + " " + rest`. */
  lemma QuantityWords(n: int, word: string, rest: string)
    requires ' ' !in word
    ensures Words(Quantity(n, word) + " " + rest) == [IntToString(n), Unit(word, n)] + Words(rest)
  {
    NoSpaceInNumber(n);
    var u := Unit(word, n);
    assert ' ' !in u;
    assert Quantity(n, word) + " " + rest == IntToString(n) + " " + (u + " " + rest);
    WordsCons(IntToString(n), u + " " + rest);
    WordsCons(u, rest);
  }

  lemma QuantityAloneWords(n: int, word: string)
    requires ' ' !in word
    ensures Words(Quantity(n, word)) == [IntToString(n), Unit(word, n)]
  {
    NoSpaceInNumber(n);
    var u := Unit(word, n);
    assert ' ' !in u;
    WordsCons(IntToString(n), u);
    WordsOfWord(u);
  }

  /** A count and its unit word, when the word agrees with the count. */
  function ReadQuantity(num: string, unit: string, word: string): (q: Option<nat>)
    ensures q.Some? ==> unit == Unit(word, q.value)
  {
    match ParseNat(num)
    case Some(n) => if unit == Unit(word, n) then Some(n) else None
    case None => None
  }

  /** Reads the words `FormatTime` produces back into minutes. */
  function ReadDuration(ws: seq<string>): Option<int> {
    if ws == ["0", "minutes"] then Some(0)
    else if |ws| == 2 then
      match ReadQuantity(ws[0], ws[1], "hour")
      case Some(h) => if h > 0 then Some(60 * h) else None
      case None =>
        match ReadQuantity(ws[0], ws[1], "minute")
        case Some(m) => if 0 < m < 60 then Some(m) else None
        case None => None
    else if |ws| == 5 && ws[2] == "and" then
      match (ReadQuantity(ws[0], ws[1], "hour"), ReadQuantity(ws[3], ws[4], "minute"))
      case (Some(h), Some(m)) => if h > 0 && 0 < m < 60 then Some(60 * h + m) else None
      case _ => None
    else None
  }

  /** Reads the words `StatsFormatTime` produces back into minutes. */
  function ReadStatsDuration(ws: seq<string>): Option<int> {
    if |ws| == 2 then
      match ReadQuantity(ws[0], ws[1], "minute")
      case Some(m) => if m < 60 then Some(m) else None
      case None => None
    else if |ws| == 4 then
      match (ReadQuantity(ws[0], ws[1], "hour"), ReadQuantity(ws[2], ws[3], "minute"))
      case (Some(h), Some(m)) => if h > 0 && m < 60 then Some(60 * h + m) else None
      case _ => None
    else None
  }

  lemma ReadQuantityOf(n: nat, word: string)
    ensures ReadQuantity(IntToString(n), Unit(word, n), word) == Some(n)
  {
    ParseNatToString(n);
  }

  lemma HourIsNotMinute(n: int, m: int)
    ensures Unit("hour", n) != Unit("minute", m)
  {
    assert Unit("hour", n)[0] == 'h';
    assert Unit("minute", m)[0] == 'm';
  }

  lemma ZeroTextSplits()
    ensures "0 minutes" == "0" + " " + "minutes"
  {
  }

  lemma MinutesIsOneWord()
    ensures Words("minutes") == ["minutes"]
  {
    WordsOfWord("minutes");
  }

  lemma ZeroText()
    ensures Words("0 minutes") == ["0", "minutes"]
  {
    ZeroTextSplits();
    WordsCons("0", "minutes");
    MinutesIsOneWord();
  }

  lemma ZeroWords()
    ensures Words(FormatTime(0)) == ["0", "minutes"]
  {
    ZeroText();
    assert FormatTime(0) == "0 minutes";
  }

  lemma ZeroRoundTrip()
    ensures ReadDuration(Words(FormatTime(0))) == Some(0)
  {
    ZeroWords();
  }

  lemma MinutesRoundTrip(m: nat)
    requires 0 < m < 60
    ensures ReadDuration(Words(FormatTime(m))) == Some(m)
  {
    QuantityAloneWords(m, "minute");
    var ws := Words(FormatTime(m));
    assert ws == [IntToString(m), Unit("minute", m)];
    ReadQuantityOf(m, "minute");
    ParseNatToString(m);
    assert ReadQuantity(ws[0], ws[1], "hour") == None by {
      HourIsNotMinute(m, m);
    }
  }

  lemma HoursRoundTrip(h: nat)
    requires h > 0
    ensures ReadDuration(Words(FormatTime(60 * h))) == Some(60 * h)
  {
    assert (60 * h) / 60 == h && (60 * h) % 60 == 0;
    QuantityAloneWords(h, "hour");
    var ws := Words(FormatTime(60 * h));
    assert ws == [IntToString(h), Unit("hour", h)];
    ReadQuantityOf(h, "hour");
    assert ws[1] != "minutes" by {
      HourIsNotMinute(h, 2);
    }
  }

  lemma MixedWords(minutes: nat)
    requires minutes >= 60 && minutes % 60 != 0
    ensures var h, m := minutes / 60, minutes % 60;
      Words(FormatTime(minutes)) == [IntToString(h), Unit("hour", h), "and", IntToString(m), Unit("minute", m)]
  {
    var h, m := minutes / 60, minutes % 60;
    var rest := "and" + " " + Quantity(m, "minute");
    assert FormatTime(minutes) == Quantity(h, "hour") + " " + rest;
    QuantityWords(h, "hour", rest);
    WordsCons("and", Quantity(m, "minute"));
    QuantityAloneWords(m, "minute");
  }

  lemma MixedRoundTrip(minutes: nat)
    requires minutes >= 60 && minutes % 60 != 0
    ensures ReadDuration(Words(FormatTime(minutes))) == Some(minutes)
  {
    MixedWords(minutes);
    ReadQuantityOf(minutes / 60, "hour");
    ReadQuantityOf(minutes % 60, "minute");
  }

  /** `FormatTime` loses nothing: its words read back as the minute count. */
  lemma FormatTimeRoundTrip(minutes: nat)
    ensures ReadDuration(Words(FormatTime(minutes))) == Some(minutes)
  {
    if minutes == 0 {
      ZeroRoundTrip();
    } else if minutes < 60 {
      MinutesRoundTrip(minutes);
    } else if minutes % 60 == 0 {
      HoursRoundTrip(minutes / 60);
    } else {
      MixedRoundTrip(minutes);
    }
  }

  /** `StatsFormatTime` loses nothing either, even though it prints a zero remainder. */
  lemma StatsFormatTimeRoundTrip(minutes: nat)
    ensures ReadStatsDuration(Words(StatsFormatTime(minutes))) == Some(minutes)
  {
    var h, m := minutes / 60, minutes % 60;
    if minutes < 60 {
      QuantityAloneWords(minutes, "minute");
      ReadQuantityOf(minutes, "minute");
    } else {
      QuantityWords(h, "hour", Quantity(m, "minute"));
      QuantityAloneWords(m, "minute");
      ReadQuantityOf(h, "hour");
      ReadQuantityOf(m, "minute");
    }
  }

  /** Two different non-negative counts never render alike. */
  lemma FormatTimeInjective(a: nat, b: nat)
    ensures FormatTime(a) == FormatTime(b) <==> a == b
  {
    FormatTimeRoundTrip(a);
    FormatTimeRoundTrip(b);
  }

  lemma StatsFormatTimeInjective(a: nat, b: nat)
    ensures StatsFormatTime(a) == StatsFormatTime(b) <==> a == b
  {
    StatsFormatTimeRoundTrip(a);
    StatsFormatTimeRoundTrip(b);
  }

  /** The two renderings side by side on the same counts. */
  lemma RenderingsAtZero()
    ensures FormatTime(0) == "0 minutes" && StatsFormatTime(0) == "0 minute"
  {
    assert IntToString(0) == "0";
  }

  lemma RenderingsAtOne()
    ensures FormatTime(1) == "1 minute" && StatsFormatTime(1) == "1 minute"
  {
    assert IntToString(1) == "1";
  }

  lemma QuantitiesAtNinety()
    ensures Quantity(1, "hour") == "1 hour" && Quantity(30, "minute") == "30 minutes"
  {
    assert IntToString(30) == "30" by {
      assert NatToString(30) == NatToString(3) + [DigitChar(0)];
    }
    assert IntToString(1) == "1";
  }

  lemma NinetyParts()
    ensures FormatTime(90) == Quantity(1, "hour") + " and " + Quantity(30, "minute")
    ensures StatsFormatTime(90) == Quantity(1, "hour") + " " + Quantity(30, "minute")
  {
    assert 90 / 60 == 1 && 90 % 60 == 30;
  }

  lemma RenderingsAtNinety()
    ensures FormatTime(90) == "1 hour and 30 minutes" && StatsFormatTime(90) == "1 hour 30 minutes"
  {
    QuantitiesAtNinety();
    NinetyParts();
  }

  lemma QuantitiesAtTwoHours()
    ensures Quantity(2, "hour") == "2 hours" && Quantity(0, "minute") == "0 minute"
  {
    assert IntToString(2) == "2";
    assert IntToString(0) == "0";
  }

  lemma RenderingsAtTwoHours()
    ensures FormatTime(120) == "2 hours" && StatsFormatTime(120) == "2 hours 0 minute"
  {
    QuantitiesAtTwoHours();
    assert FormatTime(120) == Quantity(2, "hour");
    assert StatsFormatTime(120) == Quantity(2, "hour") + " " + Quantity(0, "minute");
  }
}
