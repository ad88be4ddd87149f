/** The two token dictionaries decode.go ships for Translate: exact token
    text to the layout element of Go's time package. */
module Dictionaries {

  /** StrictTokens: few entries, meant for the strict predicate. */
  const StrictTokens: map<string, string> :=
    map[
      "YY" := "06",
      "YYYY" := "2006",
      "M" := "1",
      "MM" := "01",
      "MMM" := "Jan",
      "MMMM" := "January",
      "D" := "2",
      "DD" := "02",
      "HH" := "15",
      "hh" := "03",
      "mm" := "04",
      "ss" := "05",
      "f" := "9",
      "ff" := "99",
      "fff" := "999",
      "ffff" := "9999",
      "fffff" := "99999",
      "ffffff" := "999999",
      "fffffff" := "9999999",
      "ffffffff" := "99999999",
      "fffffffff" := "999999999",
      "A" := "PM",
      "a" := "pm",
      "z" := "-07",
      "zz" := "-0700",
      "zzz" := "-7:00",
      "Z" := "-07",
      "ZZ" := "-0700",
      "ZZZ" := "-7:00"
    ]

  /** StandardTokens: case variants of each element and fractional seconds
      of one to nine digits, written as the union of eight groups with
      disjoint keys, in the order decode.go lists them. */
  const StandardTokens: map<string, string> :=
    StandardYear + StandardMonth + StandardDay + StandardHour
      + StandardMinuteSecond + StandardFraction + StandardFractionUpper + StandardOther

  /** StandardTokens' entries for years. */
  const StandardYear: map<string, string> :=
    map[
      "yyyy" := "2006",
      "yy" := "06",
      "YYYY" := "2006",
      "YY" := "06",
      "Yyyy" := "2006",
      "Yy" := "06"
    ]

  /** StandardTokens' entries for months. */
  const StandardMonth: map<string, string> :=
    map[
      "M" := "1",
      "MM" := "01",
      "MMM" := "Jan",
      "Mmm" := "Jan",
      "mmm" := "Jan",
      "MMMM" := "January",
      "Mmmm" := "January",
      "mmmm" := "January"
    ]

  /** StandardTokens' entries for days of the month. */
  const StandardDay: map<string, string> :=
    map[
      "D" := "2",
      "DD" := "02",
      "Dd" := "02",
      "d" := "2",
      "dd" := "02"
    ]

  /** StandardTokens' entries for hours. */
  const StandardHour: map<string, string> :=
    map[
      "h" := "3",
      "H" := "3",
      "hh" := "03",
      "HH" := "15",
      "Hh" := "15"
    ]

  /** StandardTokens' entries for minutes and seconds. */
  const StandardMinuteSecond: map<string, string> :=
    map[
      "m" := "4",
      "mm" := "04",
      "s" := "5",
      "ss" := "05",
      "S" := "5",
      "SS" := "05",
      "Ss" := "05"
    ]

  /** StandardTokens' entries for fractional seconds written with f. */
  const StandardFraction: map<string, string> :=
    map[
      "f" := "9",
      "ff" := "99",
      "fff" := "999",
      "ffff" := "9999",
      "fffff" := "99999",
      "ffffff" := "999999",
      "fffffff" := "9999999",
      "ffffffff" := "99999999",
      "fffffffff" := "999999999"
    ]

  /** StandardTokens' entries for fractional seconds written with F. */
  const StandardFractionUpper: map<string, string> :=
    map[
      "F" := "9",
      "FF" := "99",
      "FFF" := "999",
      "FFFF" := "9999",
      "FFFFF" := "99999",
      "FFFFFF" := "999999",
      "FFFFFFF" := "9999999",
      "FFFFFFFF" := "99999999",
      "FFFFFFFFF" := "999999999",
      "Ff" := "99",
      "Fff" := "999",
      "Ffff" := "9999",
      "Fffff" := "99999",
      "Ffffff" := "999999",
      "Fffffff" := "9999999",
      "Ffffffff" := "99999999",
      "Fffffffff" := "999999999"
    ]

  /** StandardTokens' entries for AM/PM, zones and the day name. */
  const StandardOther: map<string, string> :=
    map[
      "A" := "PM",
      "a" := "pm",
      "z" := "-07",
      "zz" := "-0700",
      "zzz" := "-7:00",
      "Z" := "-07",
      "ZZ" := "-0700",
      "ZZZ" := "-7:00",
      "Zz" := "-0700",
      "Zzz" := "-7:00",
      "O" := "MST",
      "o" := "mst",
      "Day" := "Monday"
    ]
}
