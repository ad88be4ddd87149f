/** What the translator relies on about the dictionaries: the keys of
    StandardTokens fall into groups told apart by their first letter, so the
    union that defines it keeps every group entry, and neither dictionary has
    an entry for a token that does not start with a letter, which is why
    separators are copied unchanged. */
module DictionaryFacts {
  import opened Dictionaries

  predicate IsLetter(c: char)
  {
    'A' <= c <= 'Z' || 'a' <= c <= 'z'
  }

  // The first letters of each group's keys.

  lemma YearStart(k: string)
    requires k in StandardYear
    ensures |k| > 0 && (k[0] == 'Y' || k[0] == 'y')
  {
  }

  lemma MonthStart(k: string)
    requires k in StandardMonth
    ensures |k| > 0 && (k[0] == 'M' || k[0] == 'm')
  {
  }

  lemma DayStart(k: string)
    requires k in StandardDay
    ensures |k| > 0 && (k[0] == 'D' || k[0] == 'd')
  {
  }

  lemma HourStart(k: string)
    requires k in StandardHour
    ensures |k| > 0 && (k[0] == 'H' || k[0] == 'h')
  {
  }

  lemma MinuteSecondStart(k: string)
    requires k in StandardMinuteSecond
    ensures |k| > 0 && (k[0] == 'm' || k[0] == 's' || k[0] == 'S')
  {
  }

  lemma FractionStart(k: string)
    requires k in StandardFraction
    ensures |k| > 0 && k[0] == 'f'
  {
  }

  lemma FractionUpperStart(k: string)
    requires k in StandardFractionUpper
    ensures |k| > 0 && k[0] == 'F'
  {
  }

  // The same facts read the other way round.

  lemma NotYear(k: string)
    requires |k| > 0 && k[0] != 'Y' && k[0] != 'y'
    ensures k !in StandardYear
  {
  }

  lemma NotMonth(k: string)
    requires |k| > 0 && k[0] != 'M' && k[0] != 'm'
    ensures k !in StandardMonth
  {
  }

  lemma NotDay(k: string)
    requires |k| > 0 && k[0] != 'D' && k[0] != 'd'
    ensures k !in StandardDay
  {
  }

  lemma NotHour(k: string)
    requires |k| > 0 && k[0] != 'H' && k[0] != 'h'
    ensures k !in StandardHour
  {
  }

  lemma NotMinuteSecond(k: string)
    requires |k| > 0 && k[0] != 'm' && k[0] != 's' && k[0] != 'S'
    ensures k !in StandardMinuteSecond
  {
  }

  lemma NotFraction(k: string)
    requires |k| > 0 && k[0] != 'f'
    ensures k !in StandardFraction
  {
  }

  lemma NotFractionUpper(k: string)
    requires |k| > 0 && k[0] != 'F'
    ensures k !in StandardFractionUpper
  {
  }

  lemma NotOther(k: string)
    requires |k| > 0 && k[0] != 'A' && k[0] != 'a' && k[0] != 'z' && k[0] != 'Z'
    requires k[0] != 'O' && k[0] != 'o' && k[0] != 'D'
    ensures k !in StandardOther
  {
  }

  /** The two groups that share a first letter with a later group share no key with it. */
  lemma MonthNotMinuteSecond(k: string)
    requires k in StandardMonth
    ensures k !in StandardMinuteSecond
  {
  }

  lemma DayNotOther(k: string)
    requires k in StandardDay
    ensures k !in StandardOther
  {
  }

  lemma YearMissingLater(k: string)
    requires k in StandardYear
    ensures k !in StandardMonth && k !in StandardDay && k !in StandardHour && k !in StandardMinuteSecond && k !in StandardFraction && k !in StandardFractionUpper && k !in StandardOther
  {
    YearStart(k); NotMonth(k); NotDay(k); NotHour(k); NotMinuteSecond(k); NotFraction(k); NotFractionUpper(k); NotOther(k);
  }

  /** StandardTokens keeps every entry of StandardYear. */
  lemma YearEntry(k: string)
    requires k in StandardYear
    ensures k in StandardTokens && StandardTokens[k] == StandardYear[k]
  {
    YearMissingLater(k);
  }

  // Each group's keys are missing from the groups the union adds after it.

  lemma MonthMissingLater(k: string)
    requires k in StandardMonth
    ensures k !in StandardDay && k !in StandardHour && k !in StandardMinuteSecond && k !in StandardFraction && k !in StandardFractionUpper && k !in StandardOther
  {
    MonthStart(k); NotDay(k); NotHour(k); MonthNotMinuteSecond(k); NotFraction(k); NotFractionUpper(k); NotOther(k);
  }

  /** StandardTokens keeps every entry of StandardMonth. */
  lemma MonthEntry(k: string)
    requires k in StandardMonth
    ensures k in StandardTokens && StandardTokens[k] == StandardMonth[k]
  {
    MonthMissingLater(k);
  }

  lemma DayMissingLater(k: string)
    requires k in StandardDay
    ensures k !in StandardHour && k !in StandardMinuteSecond && k !in StandardFraction && k !in StandardFractionUpper && k !in StandardOther
  {
    DayStart(k); NotHour(k); NotMinuteSecond(k); NotFraction(k); NotFractionUpper(k); DayNotOther(k);
  }

  /** StandardTokens keeps every entry of StandardDay. */
  lemma DayEntry(k: string)
    requires k in StandardDay
    ensures k in StandardTokens && StandardTokens[k] == StandardDay[k]
  {
    DayMissingLater(k);
  }

  lemma HourMissingLater(k: string)
    requires k in StandardHour
    ensures k !in StandardMinuteSecond && k !in StandardFraction && k !in StandardFractionUpper && k !in StandardOther
  {
    HourStart(k); NotMinuteSecond(k); NotFraction(k); NotFractionUpper(k); NotOther(k);
  }

  /** StandardTokens keeps every entry of StandardHour. */
  lemma HourEntry(k: string)
    requires k in StandardHour
    ensures k in StandardTokens && StandardTokens[k] == StandardHour[k]
  {
    HourMissingLater(k);
  }

  lemma MinuteSecondMissingLater(k: string)
    requires k in StandardMinuteSecond
    ensures k !in StandardFraction && k !in StandardFractionUpper && k !in StandardOther
  {
    MinuteSecondStart(k); NotFraction(k); NotFractionUpper(k); NotOther(k);
  }

  /** StandardTokens keeps every entry of StandardMinuteSecond. */
  lemma MinuteSecondEntry(k: string)
    requires k in StandardMinuteSecond
    ensures k in StandardTokens && StandardTokens[k] == StandardMinuteSecond[k]
  {
    MinuteSecondMissingLater(k);
  }

  lemma FractionMissingLater(k: string)
    requires k in StandardFraction
    ensures k !in StandardFractionUpper && k !in StandardOther
  {
    FractionStart(k); NotFractionUpper(k); NotOther(k);
  }

  /** StandardTokens keeps every entry of StandardFraction. */
  lemma FractionEntry(k: string)
    requires k in StandardFraction
    ensures k in StandardTokens && StandardTokens[k] == StandardFraction[k]
  {
    FractionMissingLater(k);
  }

  lemma FractionUpperMissingLater(k: string)
    requires k in StandardFractionUpper
    ensures k !in StandardOther
  {
    FractionUpperStart(k); NotOther(k);
  }

  /** StandardTokens keeps every entry of StandardFractionUpper. */
  lemma FractionUpperEntry(k: string)
    requires k in StandardFractionUpper
    ensures k in StandardTokens && StandardTokens[k] == StandardFractionUpper[k]
  {
    FractionUpperMissingLater(k);
  }

  /** StandardTokens keeps every entry of StandardOther. */
  lemma OtherEntry(k: string)
    requires k in StandardOther
    ensures k in StandardTokens && StandardTokens[k] == StandardOther[k]
  {
  }

  lemma MissingFromGroups(k: string)
    requires |k| > 0 && !IsLetter(k[0])
    ensures k !in StandardYear && k !in StandardMonth && k !in StandardDay && k !in StandardHour && k !in StandardMinuteSecond && k !in StandardFraction && k !in StandardFractionUpper && k !in StandardOther
  {
    NotYear(k); NotMonth(k); NotDay(k); NotHour(k); NotMinuteSecond(k); NotFraction(k); NotFractionUpper(k); NotOther(k);
  }

  /** StandardTokens has no entry for a token that starts with anything but
      a letter. */
  lemma StandardLacksNonLetters(k: string)
    requires |k| > 0 && !IsLetter(k[0])
    ensures k !in StandardTokens
  {
    MissingFromGroups(k);
  }

  /** Nor has StrictTokens. */
  lemma StrictLacksNonLetters(k: string)
    requires |k| > 0 && !IsLetter(k[0])
    ensures k !in StrictTokens
  {
  }
}
