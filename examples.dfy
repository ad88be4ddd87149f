/** The end-to-end cases of decode_test.go: each pattern, read with the
    default predicate and translated with StandardTokens, gives the expected
    Go layout. A case is proved by cutting the pattern into the pieces the
    tokenizer must find, each with the text expected in its place, and
    checking the cut: every piece is chained, neighbouring pieces are not,
    and the dictionary maps each piece to its expected text. */
module TranslationExamples {
  import opened GoStrings
  import opened Predicates
  import opened Scanner
  import opened Chains
  import opened TokenizerProperties
  import opened Dictionaries
  import opened DictionaryFacts

  /** Text without NUL whose UTF-8 encoding has one byte per rune. */
  predicate Ascii(s: string)
  {
    forall k :: 0 <= k < |s| ==> 0 < s[k] as int < 0x80
  }

  /** The low byte of a rune; for an ASCII rune, its encoding. */
  function Byte(c: char): (b: byte)
    ensures c as int < 0x100 ==> b as int == c as int
  {
    (c as int % 0x100) as byte
  }

  /** The bytes `strings.NewReader(s)` delivers, for an ASCII string `s`. */
  function Bytes(s: string): (bs: seq<byte>)
    ensures |bs| == |s|
    ensures Ascii(s) ==> Runes(bs) == s && NoNul(bs)
  {
    seq(|s|, k requires 0 <= k < |s| => Byte(s[k]))
  }

  lemma BytesAppend(a: string, b: string)
    ensures Bytes(a + b) == Bytes(a) + Bytes(b)
    ensures Ascii(a + b) ==> Ascii(a) && Ascii(b)
  {
    assert forall k :: 0 <= k < |a + b| ==> (a + b)[k] == if k < |a| then a[k] else b[k - |a|];
    if Ascii(a + b) {
      assert forall k :: 0 <= k < |b| ==> b[k] == (a + b)[|a| + k];
    }
  }

  /** A pattern cut into pieces, each with the text Translate should write for it. */
  datatype Pieces = End | Piece(text: string, out: string, rest: Pieces)

  function Input(ps: Pieces): string
  {
    match ps
    case End => ""
    case Piece(t, _, r) => t + Input(r)
  }

  function Output(ps: Pieces): string
  {
    match ps
    case End => ""
    case Piece(_, o, r) => o + Output(r)
  }

  /** `p` lets every byte of `t` continue the token its predecessor is in. */
  predicate TextChained(t: string, p: Check)
  {
    |t| < 2 || (p(Byte(t[0]), Byte(t[1])) && TextChained(t[1..], p))
  }

  /** Every piece is a non-empty chain of `p`, and `p` fails across every
      seam. */
  predicate WellCut(ps: Pieces, p: Check)
  {
    match ps
    case End => true
    case Piece(t, _, r) =>
      && t != "" && TextChained(t, p)
      && WellCut(r, p)
      && (r.Piece? ==> r.text != "" && !p(Byte(t[|t| - 1]), Byte(r.text[0])))
  }

  /** `dict` replaces every piece by its expected text, or has no entry for
      it and the expected text is the piece itself. */
  predicate Replaces(ps: Pieces, dict: map<string, string>)
  {
    match ps
    case End => true
    case Piece(t, o, r) => (if t in dict then dict[t] == o else t == o) && Replaces(r, dict)
  }

  /** The bytes of the pieces. */
  function PartsOf(ps: Pieces): (parts: seq<seq<byte>>)
  {
    match ps
    case End => []
    case Piece(t, _, r) => [Bytes(t)] + PartsOf(r)
  }

  lemma {:induction false} TextChainedBytes(t: string, p: Check)
    requires TextChained(t, p)
    ensures Chained(Bytes(t), p)
  {
    if |t| >= 2 {
      TextChainedBytes(t[1..], p);
      assert Bytes(t)[1..] == Bytes(t[1..]);
      forall m | 0 < m < |t|
        ensures p(Bytes(t)[m - 1], Bytes(t)[m])
      {
        if m > 1 {
          assert Bytes(t)[m - 1] == Bytes(t[1..])[m - 2] && Bytes(t)[m] == Bytes(t[1..])[m - 1];
        }
      }
    }
  }

  /** A well cut pattern is split by its pieces into maximal runs. */
  lemma {:induction false} WellCutMaximal(ps: Pieces, p: Check)
    requires WellCut(ps, p)
    ensures MaximalRuns(PartsOf(ps), Bytes(Input(ps)), p)
  {
    match ps
    case End =>
    case Piece(t, _, r) =>
      WellCutMaximal(r, p);
      BytesAppend(t, Input(r));
      TextChainedBytes(t, p);
      if r.Piece? {
        assert PartsOf(r)[0] == Bytes(r.text);
      }
      MaximalRunsCons(Bytes(t), PartsOf(r), Bytes(Input(r)), p);
  }

  lemma {:induction false} ReplacesOutput(ps: Pieces, dict: map<string, string>)
    requires Ascii(Input(ps)) && Replaces(ps, dict)
    ensures Translated(RunTokens(PartsOf(ps)), dict) == Output(ps)
  {
    match ps
    case End =>
      assert RunTokens([]) == [];
    case Piece(t, _, r) =>
      BytesAppend(t, Input(r));
      ReplacesOutput(r, dict);
      RunTokensCons(Bytes(t), PartsOf(r));
      var ts := RunTokens(PartsOf(ps));
      assert ts[0].Type == t;
      assert ts[1..] == RunTokens(PartsOf(r));
  }

  /** Translate of a well cut pattern writes the expected text of each piece
      in order, and trims the white space around the result. */
  lemma TranslationOfPieces(ps: Pieces, p: Check, dict: map<string, string>)
    requires SentinelSafe(p) && Ascii(Input(ps)) && WellCut(ps, p) && Replaces(ps, dict)
    ensures Translation(Source(Bytes(Input(ps)), false), p, 0, dict) == Returns(TrimSpace(Output(ps)), Nil)
  {
    WellCutMaximal(ps, p);
    var s := Bytes(Input(ps));
    RunsCharacterized(PartsOf(ps), s, p);
    TranslationOfRuns(s, p, dict);
    ReplacesOutput(ps, dict);
  }

  /** A case of decode_test.go: the pattern `input`, cut into `ps`, read
      with the default predicate and translated with StandardTokens. */
  lemma TranslationOfCase(ps: Pieces, input: string, output: string)
    requires Ascii(input) && Input(ps) == input && WellCut(ps, CheckNextPartOfToken)
    requires Replaces(ps, StandardTokens)
    requires Output(ps) == output && (output == [] || (!IsSpace(output[0]) && !IsSpace(output[|output| - 1])))
    ensures Translation(Source(Bytes(input), false), CheckNextPartOfToken, 0, StandardTokens) == Returns(output, Nil)
  {
    DefaultIsSentinelSafe();
    TranslationOfPieces(ps, CheckNextPartOfToken, StandardTokens);
    TrimSpaceUnchanged(output);
  }

  // StandardTokens' entries for the tokens of the cases, one group at a time.

  lemma YearKeys()
    ensures "YYYY" in StandardYear && StandardYear["YYYY"] == "2006"
    ensures "YY" in StandardYear && StandardYear["YY"] == "06"
    ensures "Yyyy" in StandardYear && StandardYear["Yyyy"] == "2006"
  {
  }

  lemma YearLookups()
    ensures "YYYY" in StandardTokens && StandardTokens["YYYY"] == "2006"
    ensures "YY" in StandardTokens && StandardTokens["YY"] == "06"
    ensures "Yyyy" in StandardTokens && StandardTokens["Yyyy"] == "2006"
  {
    YearKeys();
    YearEntry("YYYY"); YearEntry("YY"); YearEntry("Yyyy");
  }

  lemma MonthKeys()
    ensures "MM" in StandardMonth && StandardMonth["MM"] == "01"
    ensures "MMM" in StandardMonth && StandardMonth["MMM"] == "Jan"
    ensures "Mmm" in StandardMonth && StandardMonth["Mmm"] == "Jan"
    ensures "MMMM" in StandardMonth && StandardMonth["MMMM"] == "January"
  {
  }

  lemma MonthLookups()
    ensures "MM" in StandardTokens && StandardTokens["MM"] == "01"
    ensures "MMM" in StandardTokens && StandardTokens["MMM"] == "Jan"
    ensures "Mmm" in StandardTokens && StandardTokens["Mmm"] == "Jan"
    ensures "MMMM" in StandardTokens && StandardTokens["MMMM"] == "January"
  {
    MonthKeys();
    MonthEntry("MM"); MonthEntry("MMM"); MonthEntry("Mmm"); MonthEntry("MMMM");
  }

  lemma DayKeys()
    ensures "DD" in StandardDay && StandardDay["DD"] == "02"
    ensures "Dd" in StandardDay && StandardDay["Dd"] == "02"
    ensures "dd" in StandardDay && StandardDay["dd"] == "02"
  {
  }

  lemma DayLookups()
    ensures "DD" in StandardTokens && StandardTokens["DD"] == "02"
    ensures "Dd" in StandardTokens && StandardTokens["Dd"] == "02"
    ensures "dd" in StandardTokens && StandardTokens["dd"] == "02"
  {
    DayKeys();
    DayEntry("DD"); DayEntry("Dd"); DayEntry("dd");
  }

  lemma HourKeys()
    ensures "hh" in StandardHour && StandardHour["hh"] == "03"
    ensures "HH" in StandardHour && StandardHour["HH"] == "15"
  {
  }

  lemma HourLookups()
    ensures "hh" in StandardTokens && StandardTokens["hh"] == "03"
    ensures "HH" in StandardTokens && StandardTokens["HH"] == "15"
  {
    HourKeys();
    HourEntry("hh"); HourEntry("HH");
  }

  lemma MinuteSecondKeys()
    ensures "mm" in StandardMinuteSecond && StandardMinuteSecond["mm"] == "04"
    ensures "ss" in StandardMinuteSecond && StandardMinuteSecond["ss"] == "05"
  {
  }

  lemma MinuteSecondLookups()
    ensures "mm" in StandardTokens && StandardTokens["mm"] == "04"
    ensures "ss" in StandardTokens && StandardTokens["ss"] == "05"
  {
    MinuteSecondKeys();
    MinuteSecondEntry("mm"); MinuteSecondEntry("ss");
  }

  lemma FractionKeys()
    ensures "ffffff" in StandardFraction && StandardFraction["ffffff"] == "999999"
  {
  }

  lemma FractionLookups()
    ensures "ffffff" in StandardTokens && StandardTokens["ffffff"] == "999999"
  {
    FractionKeys();
    FractionEntry("ffffff");
  }

  lemma OtherKeys()
    ensures "A" in StandardOther && StandardOther["A"] == "PM"
    ensures "Day" in StandardOther && StandardOther["Day"] == "Monday"
  {
  }

  lemma OtherLookups()
    ensures "A" in StandardTokens && StandardTokens["A"] == "PM"
    ensures "Day" in StandardTokens && StandardTokens["Day"] == "Monday"
  {
    OtherKeys();
    OtherEntry("A"); OtherEntry("Day");
  }

  lemma SeparatorLookups()
    ensures " " !in StandardTokens
    ensures "," !in StandardTokens
    ensures "-" !in StandardTokens
    ensures "." !in StandardTokens
    ensures "/" !in StandardTokens
    ensures ":" !in StandardTokens
  {
    StandardLacksNonLetters(" "); StandardLacksNonLetters(","); StandardLacksNonLetters("-"); StandardLacksNonLetters("."); StandardLacksNonLetters("/"); StandardLacksNonLetters(":");
  }

  // The case "YYYY-MM-dd HH:mm:ss" of decode_test.go.

  const DateAndTimePieces := Piece("YYYY", "2006", Piece("-", "-", Piece("MM", "01", Piece("-", "-", Piece("dd", "02", Piece(" ", " ", Piece("HH", "15", Piece(":", ":", Piece("mm", "04", Piece(":", ":", Piece("ss", "05", End)))))))))))

  lemma DateAndTimeCut()
    ensures WellCut(DateAndTimePieces, CheckNextPartOfToken)
  {
  }

  lemma DateAndTimeInput()
    ensures Input(DateAndTimePieces) == "YYYY-MM-dd HH:mm:ss"
  {
  }

  lemma DateAndTimeOutput()
    ensures Output(DateAndTimePieces) == "2006-01-02 15:04:05"
  {
  }

  lemma DateAndTimeEnds()
    ensures Ascii("YYYY-MM-dd HH:mm:ss")
    ensures !IsSpace("2006-01-02 15:04:05"[0]) && !IsSpace("2006-01-02 15:04:05"[18])
  {
  }

  lemma DateAndTimeReplaces(dict: map<string, string>)
    requires " " !in dict
    requires "-" !in dict
    requires ":" !in dict
    requires "HH" in dict && dict["HH"] == "15"
    requires "MM" in dict && dict["MM"] == "01"
    requires "YYYY" in dict && dict["YYYY"] == "2006"
    requires "dd" in dict && dict["dd"] == "02"
    requires "mm" in dict && dict["mm"] == "04"
    requires "ss" in dict && dict["ss"] == "05"
    ensures Replaces(DateAndTimePieces, dict)
  {
    // from the last piece to the first
    var ps := End;
    ps := Piece("ss", "05", ps);
    assert Replaces(ps, dict);
    ps := Piece(":", ":", ps);
    assert Replaces(ps, dict);
    ps := Piece("mm", "04", ps);
    assert Replaces(ps, dict);
    ps := Piece(":", ":", ps);
    assert Replaces(ps, dict);
    ps := Piece("HH", "15", ps);
    assert Replaces(ps, dict);
    ps := Piece(" ", " ", ps);
    assert Replaces(ps, dict);
    ps := Piece("dd", "02", ps);
    assert Replaces(ps, dict);
    ps := Piece("-", "-", ps);
    assert Replaces(ps, dict);
    ps := Piece("MM", "01", ps);
    assert Replaces(ps, dict);
    ps := Piece("-", "-", ps);
    assert Replaces(ps, dict);
    ps := Piece("YYYY", "2006", ps);
    assert Replaces(ps, dict);
  }

  lemma DateAndTimeReplaced()
    ensures Replaces(DateAndTimePieces, StandardTokens)
  {
    DayLookups(); HourLookups(); MinuteSecondLookups(); MonthLookups(); YearLookups(); SeparatorLookups();
    DateAndTimeReplaces(StandardTokens);
  }

  lemma DateAndTime()
    ensures Translation(Source(Bytes("YYYY-MM-dd HH:mm:ss"), false), CheckNextPartOfToken, 0, StandardTokens)
      == Returns("2006-01-02 15:04:05", Nil)
  {
    DateAndTimeCut();
    DateAndTimeInput();
    DateAndTimeOutput();
    DateAndTimeEnds();
    DateAndTimeReplaced();
    TranslationOfCase(DateAndTimePieces, "YYYY-MM-dd HH:mm:ss", "2006-01-02 15:04:05");
  }

  // The case "YYYY-MM-DD" of decode_test.go.

  const IsoDatePieces := Piece("YYYY", "2006", Piece("-", "-", Piece("MM", "01", Piece("-", "-", Piece("DD", "02", End)))))

  lemma IsoDateCut()
    ensures WellCut(IsoDatePieces, CheckNextPartOfToken)
  {
  }

  lemma IsoDateInput()
    ensures Input(IsoDatePieces) == "YYYY-MM-DD"
  {
  }

  lemma IsoDateOutput()
    ensures Output(IsoDatePieces) == "2006-01-02"
  {
  }

  lemma IsoDateEnds()
    ensures Ascii("YYYY-MM-DD")
    ensures !IsSpace("2006-01-02"[0]) && !IsSpace("2006-01-02"[9])
  {
  }

  lemma IsoDateReplaces(dict: map<string, string>)
    requires "-" !in dict
    requires "DD" in dict && dict["DD"] == "02"
    requires "MM" in dict && dict["MM"] == "01"
    requires "YYYY" in dict && dict["YYYY"] == "2006"
    ensures Replaces(IsoDatePieces, dict)
  {
    // from the last piece to the first
    var ps := End;
    ps := Piece("DD", "02", ps);
    assert Replaces(ps, dict);
    ps := Piece("-", "-", ps);
    assert Replaces(ps, dict);
    ps := Piece("MM", "01", ps);
    assert Replaces(ps, dict);
    ps := Piece("-", "-", ps);
    assert Replaces(ps, dict);
    ps := Piece("YYYY", "2006", ps);
    assert Replaces(ps, dict);
  }

  lemma IsoDateReplaced()
    ensures Replaces(IsoDatePieces, StandardTokens)
  {
    DayLookups(); MonthLookups(); YearLookups(); SeparatorLookups();
    IsoDateReplaces(StandardTokens);
  }

  lemma IsoDate()
    ensures Translation(Source(Bytes("YYYY-MM-DD"), false), CheckNextPartOfToken, 0, StandardTokens)
      == Returns("2006-01-02", Nil)
  {
    IsoDateCut();
    IsoDateInput();
    IsoDateOutput();
    IsoDateEnds();
    IsoDateReplaced();
    TranslationOfCase(IsoDatePieces, "YYYY-MM-DD", "2006-01-02");
  }

  // The case "YYYY/MM/DD" of decode_test.go.

  const SlashedDatePieces := Piece("YYYY", "2006", Piece("/", "/", Piece("MM", "01", Piece("/", "/", Piece("DD", "02", End)))))

  lemma SlashedDateCut()
    ensures WellCut(SlashedDatePieces, CheckNextPartOfToken)
  {
  }

  lemma SlashedDateInput()
    ensures Input(SlashedDatePieces) == "YYYY/MM/DD"
  {
  }

  lemma SlashedDateOutput()
    ensures Output(SlashedDatePieces) == "2006/01/02"
  {
  }

  lemma SlashedDateEnds()
    ensures Ascii("YYYY/MM/DD")
    ensures !IsSpace("2006/01/02"[0]) && !IsSpace("2006/01/02"[9])
  {
  }

  lemma SlashedDateReplaces(dict: map<string, string>)
    requires "/" !in dict
    requires "DD" in dict && dict["DD"] == "02"
    requires "MM" in dict && dict["MM"] == "01"
    requires "YYYY" in dict && dict["YYYY"] == "2006"
    ensures Replaces(SlashedDatePieces, dict)
  {
    // from the last piece to the first
    var ps := End;
    ps := Piece("DD", "02", ps);
    assert Replaces(ps, dict);
    ps := Piece("/", "/", ps);
    assert Replaces(ps, dict);
    ps := Piece("MM", "01", ps);
    assert Replaces(ps, dict);
    ps := Piece("/", "/", ps);
    assert Replaces(ps, dict);
    ps := Piece("YYYY", "2006", ps);
    assert Replaces(ps, dict);
  }

  lemma SlashedDateReplaced()
    ensures Replaces(SlashedDatePieces, StandardTokens)
  {
    DayLookups(); MonthLookups(); YearLookups(); SeparatorLookups();
    SlashedDateReplaces(StandardTokens);
  }

  lemma SlashedDate()
    ensures Translation(Source(Bytes("YYYY/MM/DD"), false), CheckNextPartOfToken, 0, StandardTokens)
      == Returns("2006/01/02", Nil)
  {
    SlashedDateCut();
    SlashedDateInput();
    SlashedDateOutput();
    SlashedDateEnds();
    SlashedDateReplaced();
    TranslationOfCase(SlashedDatePieces, "YYYY/MM/DD", "2006/01/02");
  }

  // The case "DD-MM-YYYY" of decode_test.go.

  const DayFirstDatePieces := Piece("DD", "02", Piece("-", "-", Piece("MM", "01", Piece("-", "-", Piece("YYYY", "2006", End)))))

  lemma DayFirstDateCut()
    ensures WellCut(DayFirstDatePieces, CheckNextPartOfToken)
  {
  }

  lemma DayFirstDateInput()
    ensures Input(DayFirstDatePieces) == "DD-MM-YYYY"
  {
  }

  lemma DayFirstDateOutput()
    ensures Output(DayFirstDatePieces) == "02-01-2006"
  {
  }

  lemma DayFirstDateEnds()
    ensures Ascii("DD-MM-YYYY")
    ensures !IsSpace("02-01-2006"[0]) && !IsSpace("02-01-2006"[9])
  {
  }

  lemma DayFirstDateReplaces(dict: map<string, string>)
    requires "-" !in dict
    requires "DD" in dict && dict["DD"] == "02"
    requires "MM" in dict && dict["MM"] == "01"
    requires "YYYY" in dict && dict["YYYY"] == "2006"
    ensures Replaces(DayFirstDatePieces, dict)
  {
    // from the last piece to the first
    var ps := End;
    ps := Piece("YYYY", "2006", ps);
    assert Replaces(ps, dict);
    ps := Piece("-", "-", ps);
    assert Replaces(ps, dict);
    ps := Piece("MM", "01", ps);
    assert Replaces(ps, dict);
    ps := Piece("-", "-", ps);
    assert Replaces(ps, dict);
    ps := Piece("DD", "02", ps);
    assert Replaces(ps, dict);
  }

  lemma DayFirstDateReplaced()
    ensures Replaces(DayFirstDatePieces, StandardTokens)
  {
    DayLookups(); MonthLookups(); YearLookups(); SeparatorLookups();
    DayFirstDateReplaces(StandardTokens);
  }

  lemma DayFirstDate()
    ensures Translation(Source(Bytes("DD-MM-YYYY"), false), CheckNextPartOfToken, 0, StandardTokens)
      == Returns("02-01-2006", Nil)
  {
    DayFirstDateCut();
    DayFirstDateInput();
    DayFirstDateOutput();
    DayFirstDateEnds();
    DayFirstDateReplaced();
    TranslationOfCase(DayFirstDatePieces, "DD-MM-YYYY", "02-01-2006");
  }

  // The case "DD/MM/YYYY" of decode_test.go.

  const DayFirstSlashedDatePieces := Piece("DD", "02", Piece("/", "/", Piece("MM", "01", Piece("/", "/", Piece("YYYY", "2006", End)))))

  lemma DayFirstSlashedDateCut()
    ensures WellCut(DayFirstSlashedDatePieces, CheckNextPartOfToken)
  {
  }

  lemma DayFirstSlashedDateInput()
    ensures Input(DayFirstSlashedDatePieces) == "DD/MM/YYYY"
  {
  }

  lemma DayFirstSlashedDateOutput()
    ensures Output(DayFirstSlashedDatePieces) == "02/01/2006"
  {
  }

  lemma DayFirstSlashedDateEnds()
    ensures Ascii("DD/MM/YYYY")
    ensures !IsSpace("02/01/2006"[0]) && !IsSpace("02/01/2006"[9])
  {
  }

  lemma DayFirstSlashedDateReplaces(dict: map<string, string>)
    requires "/" !in dict
    requires "DD" in dict && dict["DD"] == "02"
    requires "MM" in dict && dict["MM"] == "01"
    requires "YYYY" in dict && dict["YYYY"] == "2006"
    ensures Replaces(DayFirstSlashedDatePieces, dict)
  {
    // from the last piece to the first
    var ps := End;
    ps := Piece("YYYY", "2006", ps);
    assert Replaces(ps, dict);
    ps := Piece("/", "/", ps);
    assert Replaces(ps, dict);
    ps := Piece("MM", "01", ps);
    assert Replaces(ps, dict);
    ps := Piece("/", "/", ps);
    assert Replaces(ps, dict);
    ps := Piece("DD", "02", ps);
    assert Replaces(ps, dict);
  }

  lemma DayFirstSlashedDateReplaced()
    ensures Replaces(DayFirstSlashedDatePieces, StandardTokens)
  {
    DayLookups(); MonthLookups(); YearLookups(); SeparatorLookups();
    DayFirstSlashedDateReplaces(StandardTokens);
  }

  lemma DayFirstSlashedDate()
    ensures Translation(Source(Bytes("DD/MM/YYYY"), false), CheckNextPartOfToken, 0, StandardTokens)
      == Returns("02/01/2006", Nil)
  {
    DayFirstSlashedDateCut();
    DayFirstSlashedDateInput();
    DayFirstSlashedDateOutput();
    DayFirstSlashedDateEnds();
    DayFirstSlashedDateReplaced();
    TranslationOfCase(DayFirstSlashedDatePieces, "DD/MM/YYYY", "02/01/2006");
  }

  // The case "YYYY-MM-DD hh:mm:ss A" of decode_test.go.

  const TwelveHourClockPieces := Piece("YYYY", "2006", Piece("-", "-", Piece("MM", "01", Piece("-", "-", Piece("DD", "02", Piece(" ", " ", Piece("hh", "03", Piece(":", ":", Piece("mm", "04", Piece(":", ":", Piece("ss", "05", Piece(" ", " ", Piece("A", "PM", End)))))))))))))

  lemma TwelveHourClockCut()
    ensures WellCut(TwelveHourClockPieces, CheckNextPartOfToken)
  {
  }

  lemma TwelveHourClockInput()
    ensures Input(TwelveHourClockPieces) == "YYYY-MM-DD hh:mm:ss A"
  {
  }

  lemma TwelveHourClockOutput()
    ensures Output(TwelveHourClockPieces) == "2006-01-02 03:04:05 PM"
  {
  }

  lemma TwelveHourClockEnds()
    ensures Ascii("YYYY-MM-DD hh:mm:ss A")
    ensures !IsSpace("2006-01-02 03:04:05 PM"[0]) && !IsSpace("2006-01-02 03:04:05 PM"[21])
  {
  }

  lemma TwelveHourClockReplaces(dict: map<string, string>)
    requires " " !in dict
    requires "-" !in dict
    requires ":" !in dict
    requires "A" in dict && dict["A"] == "PM"
    requires "DD" in dict && dict["DD"] == "02"
    requires "MM" in dict && dict["MM"] == "01"
    requires "YYYY" in dict && dict["YYYY"] == "2006"
    requires "hh" in dict && dict["hh"] == "03"
    requires "mm" in dict && dict["mm"] == "04"
    requires "ss" in dict && dict["ss"] == "05"
    ensures Replaces(TwelveHourClockPieces, dict)
  {
    // from the last piece to the first
    var ps := End;
    ps := Piece("A", "PM", ps);
    assert Replaces(ps, dict);
    ps := Piece(" ", " ", ps);
    assert Replaces(ps, dict);
    ps := Piece("ss", "05", ps);
    assert Replaces(ps, dict);
    ps := Piece(":", ":", ps);
    assert Replaces(ps, dict);
    ps := Piece("mm", "04", ps);
    assert Replaces(ps, dict);
    ps := Piece(":", ":", ps);
    assert Replaces(ps, dict);
    ps := Piece("hh", "03", ps);
    assert Replaces(ps, dict);
    ps := Piece(" ", " ", ps);
    assert Replaces(ps, dict);
    ps := Piece("DD", "02", ps);
    assert Replaces(ps, dict);
    ps := Piece("-", "-", ps);
    assert Replaces(ps, dict);
    ps := Piece("MM", "01", ps);
    assert Replaces(ps, dict);
    ps := Piece("-", "-", ps);
    assert Replaces(ps, dict);
    ps := Piece("YYYY", "2006", ps);
    assert Replaces(ps, dict);
  }

  lemma TwelveHourClockReplaced()
    ensures Replaces(TwelveHourClockPieces, StandardTokens)
  {
    DayLookups(); HourLookups(); MinuteSecondLookups(); MonthLookups(); OtherLookups(); YearLookups(); SeparatorLookups();
    TwelveHourClockReplaces(StandardTokens);
  }

  lemma TwelveHourClock()
    ensures Translation(Source(Bytes("YYYY-MM-DD hh:mm:ss A"), false), CheckNextPartOfToken, 0, StandardTokens)
      == Returns("2006-01-02 03:04:05 PM", Nil)
  {
    TwelveHourClockCut();
    TwelveHourClockInput();
    TwelveHourClockOutput();
    TwelveHourClockEnds();
    TwelveHourClockReplaced();
    TranslationOfCase(TwelveHourClockPieces, "YYYY-MM-DD hh:mm:ss A", "2006-01-02 03:04:05 PM");
  }

  // The case "MMM DD,YYYY" of decode_test.go.

  const ShortMonthNamePieces := Piece("MMM", "Jan", Piece(" ", " ", Piece("DD", "02", Piece(",", ",", Piece("YYYY", "2006", End)))))

  lemma ShortMonthNameCut()
    ensures WellCut(ShortMonthNamePieces, CheckNextPartOfToken)
  {
  }

  lemma ShortMonthNameInput()
    ensures Input(ShortMonthNamePieces) == "MMM DD,YYYY"
  {
  }

  lemma ShortMonthNameOutput()
    ensures Output(ShortMonthNamePieces) == "Jan 02,2006"
  {
  }

  lemma ShortMonthNameEnds()
    ensures Ascii("MMM DD,YYYY")
    ensures !IsSpace("Jan 02,2006"[0]) && !IsSpace("Jan 02,2006"[10])
  {
  }

  lemma ShortMonthNameReplaces(dict: map<string, string>)
    requires " " !in dict
    requires "," !in dict
    requires "DD" in dict && dict["DD"] == "02"
    requires "MMM" in dict && dict["MMM"] == "Jan"
    requires "YYYY" in dict && dict["YYYY"] == "2006"
    ensures Replaces(ShortMonthNamePieces, dict)
  {
    // from the last piece to the first
    var ps := End;
    ps := Piece("YYYY", "2006", ps);
    assert Replaces(ps, dict);
    ps := Piece(",", ",", ps);
    assert Replaces(ps, dict);
    ps := Piece("DD", "02", ps);
    assert Replaces(ps, dict);
    ps := Piece(" ", " ", ps);
    assert Replaces(ps, dict);
    ps := Piece("MMM", "Jan", ps);
    assert Replaces(ps, dict);
  }

  lemma ShortMonthNameReplaced()
    ensures Replaces(ShortMonthNamePieces, StandardTokens)
  {
    DayLookups(); MonthLookups(); YearLookups(); SeparatorLookups();
    ShortMonthNameReplaces(StandardTokens);
  }

  lemma ShortMonthName()
    ensures Translation(Source(Bytes("MMM DD,YYYY"), false), CheckNextPartOfToken, 0, StandardTokens)
      == Returns("Jan 02,2006", Nil)
  {
    ShortMonthNameCut();
    ShortMonthNameInput();
    ShortMonthNameOutput();
    ShortMonthNameEnds();
    ShortMonthNameReplaced();
    TranslationOfCase(ShortMonthNamePieces, "MMM DD,YYYY", "Jan 02,2006");
  }

  // The case "MMMM DD,YYYY" of decode_test.go.

  const LongMonthNamePieces := Piece("MMMM", "January", Piece(" ", " ", Piece("DD", "02", Piece(",", ",", Piece("YYYY", "2006", End)))))

  lemma LongMonthNameCut()
    ensures WellCut(LongMonthNamePieces, CheckNextPartOfToken)
  {
  }

  lemma LongMonthNameInput()
    ensures Input(LongMonthNamePieces) == "MMMM DD,YYYY"
  {
  }

  lemma LongMonthNameOutput()
    ensures Output(LongMonthNamePieces) == "January 02,2006"
  {
  }

  lemma LongMonthNameEnds()
    ensures Ascii("MMMM DD,YYYY")
    ensures !IsSpace("January 02,2006"[0]) && !IsSpace("January 02,2006"[14])
  {
  }

  lemma LongMonthNameReplaces(dict: map<string, string>)
    requires " " !in dict
    requires "," !in dict
    requires "DD" in dict && dict["DD"] == "02"
    requires "MMMM" in dict && dict["MMMM"] == "January"
    requires "YYYY" in dict && dict["YYYY"] == "2006"
    ensures Replaces(LongMonthNamePieces, dict)
  {
    // from the last piece to the first
    var ps := End;
    ps := Piece("YYYY", "2006", ps);
    assert Replaces(ps, dict);
    ps := Piece(",", ",", ps);
    assert Replaces(ps, dict);
    ps := Piece("DD", "02", ps);
    assert Replaces(ps, dict);
    ps := Piece(" ", " ", ps);
    assert Replaces(ps, dict);
    ps := Piece("MMMM", "January", ps);
    assert Replaces(ps, dict);
  }

  lemma LongMonthNameReplaced()
    ensures Replaces(LongMonthNamePieces, StandardTokens)
  {
    DayLookups(); MonthLookups(); YearLookups(); SeparatorLookups();
    LongMonthNameReplaces(StandardTokens);
  }

  lemma LongMonthName()
    ensures Translation(Source(Bytes("MMMM DD,YYYY"), false), CheckNextPartOfToken, 0, StandardTokens)
      == Returns("January 02,2006", Nil)
  {
    LongMonthNameCut();
    LongMonthNameInput();
    LongMonthNameOutput();
    LongMonthNameEnds();
    LongMonthNameReplaced();
    TranslationOfCase(LongMonthNamePieces, "MMMM DD,YYYY", "January 02,2006");
  }

  // The case "DD/MM/YY" of decode_test.go.

  const TwoDigitYearPieces := Piece("DD", "02", Piece("/", "/", Piece("MM", "01", Piece("/", "/", Piece("YY", "06", End)))))

  lemma TwoDigitYearCut()
    ensures WellCut(TwoDigitYearPieces, CheckNextPartOfToken)
  {
  }

  lemma TwoDigitYearInput()
    ensures Input(TwoDigitYearPieces) == "DD/MM/YY"
  {
  }

  lemma TwoDigitYearOutput()
    ensures Output(TwoDigitYearPieces) == "02/01/06"
  {
  }

  lemma TwoDigitYearEnds()
    ensures Ascii("DD/MM/YY")
    ensures !IsSpace("02/01/06"[0]) && !IsSpace("02/01/06"[7])
  {
  }

  lemma TwoDigitYearReplaces(dict: map<string, string>)
    requires "/" !in dict
    requires "DD" in dict && dict["DD"] == "02"
    requires "MM" in dict && dict["MM"] == "01"
    requires "YY" in dict && dict["YY"] == "06"
    ensures Replaces(TwoDigitYearPieces, dict)
  {
    // from the last piece to the first
    var ps := End;
    ps := Piece("YY", "06", ps);
    assert Replaces(ps, dict);
    ps := Piece("/", "/", ps);
    assert Replaces(ps, dict);
    ps := Piece("MM", "01", ps);
    assert Replaces(ps, dict);
    ps := Piece("/", "/", ps);
    assert Replaces(ps, dict);
    ps := Piece("DD", "02", ps);
    assert Replaces(ps, dict);
  }

  lemma TwoDigitYearReplaced()
    ensures Replaces(TwoDigitYearPieces, StandardTokens)
  {
    DayLookups(); MonthLookups(); YearLookups(); SeparatorLookups();
    TwoDigitYearReplaces(StandardTokens);
  }

  lemma TwoDigitYear()
    ensures Translation(Source(Bytes("DD/MM/YY"), false), CheckNextPartOfToken, 0, StandardTokens)
      == Returns("02/01/06", Nil)
  {
    TwoDigitYearCut();
    TwoDigitYearInput();
    TwoDigitYearOutput();
    TwoDigitYearEnds();
    TwoDigitYearReplaced();
    TranslationOfCase(TwoDigitYearPieces, "DD/MM/YY", "02/01/06");
  }

  // The case "HH:mm:ss.ffffff" of decode_test.go.

  const MicrosecondsPieces := Piece("HH", "15", Piece(":", ":", Piece("mm", "04", Piece(":", ":", Piece("ss", "05", Piece(".", ".", Piece("ffffff", "999999", End)))))))

  lemma MicrosecondsCut()
    ensures WellCut(MicrosecondsPieces, CheckNextPartOfToken)
  {
  }

  lemma MicrosecondsInput()
    ensures Input(MicrosecondsPieces) == "HH:mm:ss.ffffff"
  {
  }

  lemma MicrosecondsOutput()
    ensures Output(MicrosecondsPieces) == "15:04:05.999999"
  {
  }

  lemma MicrosecondsEnds()
    ensures Ascii("HH:mm:ss.ffffff")
    ensures !IsSpace("15:04:05.999999"[0]) && !IsSpace("15:04:05.999999"[14])
  {
  }

  lemma MicrosecondsReplaces(dict: map<string, string>)
    requires "." !in dict
    requires ":" !in dict
    requires "HH" in dict && dict["HH"] == "15"
    requires "ffffff" in dict && dict["ffffff"] == "999999"
    requires "mm" in dict && dict["mm"] == "04"
    requires "ss" in dict && dict["ss"] == "05"
    ensures Replaces(MicrosecondsPieces, dict)
  {
    // from the last piece to the first
    var ps := End;
    ps := Piece("ffffff", "999999", ps);
    assert Replaces(ps, dict);
    ps := Piece(".", ".", ps);
    assert Replaces(ps, dict);
    ps := Piece("ss", "05", ps);
    assert Replaces(ps, dict);
    ps := Piece(":", ":", ps);
    assert Replaces(ps, dict);
    ps := Piece("mm", "04", ps);
    assert Replaces(ps, dict);
    ps := Piece(":", ":", ps);
    assert Replaces(ps, dict);
    ps := Piece("HH", "15", ps);
    assert Replaces(ps, dict);
  }

  lemma MicrosecondsReplaced()
    ensures Replaces(MicrosecondsPieces, StandardTokens)
  {
    FractionLookups(); HourLookups(); MinuteSecondLookups(); SeparatorLookups();
    MicrosecondsReplaces(StandardTokens);
  }

  lemma Microseconds()
    ensures Translation(Source(Bytes("HH:mm:ss.ffffff"), false), CheckNextPartOfToken, 0, StandardTokens)
      == Returns("15:04:05.999999", Nil)
  {
    MicrosecondsCut();
    MicrosecondsInput();
    MicrosecondsOutput();
    MicrosecondsEnds();
    MicrosecondsReplaced();
    TranslationOfCase(MicrosecondsPieces, "HH:mm:ss.ffffff", "15:04:05.999999");
  }

  // The case "YY-Mmm-dd" of decode_test.go.

  const MixedCaseMonthPieces := Piece("YY", "06", Piece("-", "-", Piece("Mmm", "Jan", Piece("-", "-", Piece("dd", "02", End)))))

  lemma MixedCaseMonthCut()
    ensures WellCut(MixedCaseMonthPieces, CheckNextPartOfToken)
  {
  }

  lemma MixedCaseMonthInput()
    ensures Input(MixedCaseMonthPieces) == "YY-Mmm-dd"
  {
  }

  lemma MixedCaseMonthOutput()
    ensures Output(MixedCaseMonthPieces) == "06-Jan-02"
  {
  }

  lemma MixedCaseMonthEnds()
    ensures Ascii("YY-Mmm-dd")
    ensures !IsSpace("06-Jan-02"[0]) && !IsSpace("06-Jan-02"[8])
  {
  }

  lemma MixedCaseMonthReplaces(dict: map<string, string>)
    requires "-" !in dict
    requires "Mmm" in dict && dict["Mmm"] == "Jan"
    requires "YY" in dict && dict["YY"] == "06"
    requires "dd" in dict && dict["dd"] == "02"
    ensures Replaces(MixedCaseMonthPieces, dict)
  {
    // from the last piece to the first
    var ps := End;
    ps := Piece("dd", "02", ps);
    assert Replaces(ps, dict);
    ps := Piece("-", "-", ps);
    assert Replaces(ps, dict);
    ps := Piece("Mmm", "Jan", ps);
    assert Replaces(ps, dict);
    ps := Piece("-", "-", ps);
    assert Replaces(ps, dict);
    ps := Piece("YY", "06", ps);
    assert Replaces(ps, dict);
  }

  lemma MixedCaseMonthReplaced()
    ensures Replaces(MixedCaseMonthPieces, StandardTokens)
  {
    DayLookups(); MonthLookups(); YearLookups(); SeparatorLookups();
    MixedCaseMonthReplaces(StandardTokens);
  }

  lemma MixedCaseMonth()
    ensures Translation(Source(Bytes("YY-Mmm-dd"), false), CheckNextPartOfToken, 0, StandardTokens)
      == Returns("06-Jan-02", Nil)
  {
    MixedCaseMonthCut();
    MixedCaseMonthInput();
    MixedCaseMonthOutput();
    MixedCaseMonthEnds();
    MixedCaseMonthReplaced();
    TranslationOfCase(MixedCaseMonthPieces, "YY-Mmm-dd", "06-Jan-02");
  }

  // The case "Day" of decode_test.go.

  const DayNamePieces := Piece("Day", "Monday", End)

  lemma DayNameCut()
    ensures WellCut(DayNamePieces, CheckNextPartOfToken)
  {
  }

  lemma DayNameInput()
    ensures Input(DayNamePieces) == "Day"
  {
  }

  lemma DayNameOutput()
    ensures Output(DayNamePieces) == "Monday"
  {
  }

  lemma DayNameEnds()
    ensures Ascii("Day")
    ensures !IsSpace("Monday"[0]) && !IsSpace("Monday"[5])
  {
  }

  lemma DayNameReplaces(dict: map<string, string>)
    requires "Day" in dict && dict["Day"] == "Monday"
    ensures Replaces(DayNamePieces, dict)
  {
    // from the last piece to the first
    var ps := End;
    ps := Piece("Day", "Monday", ps);
    assert Replaces(ps, dict);
  }

  lemma DayNameReplaced()
    ensures Replaces(DayNamePieces, StandardTokens)
  {
    OtherLookups();
    DayNameReplaces(StandardTokens);
  }

  lemma DayName()
    ensures Translation(Source(Bytes("Day"), false), CheckNextPartOfToken, 0, StandardTokens)
      == Returns("Monday", Nil)
  {
    DayNameCut();
    DayNameInput();
    DayNameOutput();
    DayNameEnds();
    DayNameReplaced();
    TranslationOfCase(DayNamePieces, "Day", "Monday");
  }

  // The case "Yyyy-Mmm-Dd" of decode_test.go.

  const MixedCaseDatePieces := Piece("Yyyy", "2006", Piece("-", "-", Piece("Mmm", "Jan", Piece("-", "-", Piece("Dd", "02", End)))))

  lemma MixedCaseDateCut()
    ensures WellCut(MixedCaseDatePieces, CheckNextPartOfToken)
  {
  }

  lemma MixedCaseDateInput()
    ensures Input(MixedCaseDatePieces) == "Yyyy-Mmm-Dd"
  {
  }

  lemma MixedCaseDateOutput()
    ensures Output(MixedCaseDatePieces) == "2006-Jan-02"
  {
  }

  lemma MixedCaseDateEnds()
    ensures Ascii("Yyyy-Mmm-Dd")
    ensures !IsSpace("2006-Jan-02"[0]) && !IsSpace("2006-Jan-02"[10])
  {
  }

  lemma MixedCaseDateReplaces(dict: map<string, string>)
    requires "-" !in dict
    requires "Dd" in dict && dict["Dd"] == "02"
    requires "Mmm" in dict && dict["Mmm"] == "Jan"
    requires "Yyyy" in dict && dict["Yyyy"] == "2006"
    ensures Replaces(MixedCaseDatePieces, dict)
  {
    // from the last piece to the first
    var ps := End;
    ps := Piece("Dd", "02", ps);
    assert Replaces(ps, dict);
    ps := Piece("-", "-", ps);
    assert Replaces(ps, dict);
    ps := Piece("Mmm", "Jan", ps);
    assert Replaces(ps, dict);
    ps := Piece("-", "-", ps);
    assert Replaces(ps, dict);
    ps := Piece("Yyyy", "2006", ps);
    assert Replaces(ps, dict);
  }

  lemma MixedCaseDateReplaced()
    ensures Replaces(MixedCaseDatePieces, StandardTokens)
  {
    DayLookups(); MonthLookups(); YearLookups(); SeparatorLookups();
    MixedCaseDateReplaces(StandardTokens);
  }

  lemma MixedCaseDate()
    ensures Translation(Source(Bytes("Yyyy-Mmm-Dd"), false), CheckNextPartOfToken, 0, StandardTokens)
      == Returns("2006-Jan-02", Nil)
  {
    MixedCaseDateCut();
    MixedCaseDateInput();
    MixedCaseDateOutput();
    MixedCaseDateEnds();
    MixedCaseDateReplaced();
    TranslationOfCase(MixedCaseDatePieces, "Yyyy-Mmm-Dd", "2006-Jan-02");
  }
}
