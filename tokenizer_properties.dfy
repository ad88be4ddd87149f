/** What the tokenizer and translator promise: on input without NUL bytes and
    with a sentinel-safe predicate, ReadTokens returns the maximal runs of
    the input in order, so the tokens partition the input; the error and
    non-termination cases otherwise. */
module TokenizerProperties {
  import opened GoStrings
  import opened Predicates
  import opened Scanner
  import opened Chains

  ghost predicate NoNul(s: seq<byte>)
  {
    forall k :: 0 <= k < |s| ==> s[k] != 0
  }

  /** The token ReadTokens returns for a maximal run, `isLast` telling whether
      it is the final one: its text is the run, and its Length is the run's
      byte length, plus one for a final run of two or more bytes, whose
      closing NUL is counted before it is trimmed. */
  function RunToken(run: seq<byte>, isLast: bool): Token
  {
    var text := Runes(run);
    Token(text, Utf8Len(text) + (if isLast && |run| >= 2 then 1 else 0))
  }

  function RunTokens(runs: seq<seq<byte>>): seq<Token>
  {
    seq(|runs|, k requires 0 <= k < |runs| => RunToken(runs[k], k == |runs| - 1))
  }

  lemma RunTokensCons(run: seq<byte>, rest: seq<seq<byte>>)
    ensures RunTokens([run] + rest) == [RunToken(run, rest == [])] + RunTokens(rest)
  {
    var a, b := RunTokens([run] + rest), [RunToken(run, rest == [])] + RunTokens(rest);
    forall k | 0 <= k < |a|
      ensures a[k] == b[k]
    {
      if k > 0 {
        assert ([run] + rest)[k] == rest[k - 1];
      }
    }
  }

  /** The texts of `ts`, concatenated in order. */
  function ConcatTypes(ts: seq<Token>): string
  {
    if ts == [] then "" else ts[0].Type + ConcatTypes(ts[1..])
  }

  lemma {:induction false} ConcatRunTokens(runs: seq<seq<byte>>)
    ensures ConcatTypes(RunTokens(runs)) == Runes(Flatten(runs))
  {
    if runs != [] {
      RunTokensCons(runs[0], runs[1..]);
      assert [runs[0]] + runs[1..] == runs;
      ConcatRunTokens(runs[1..]);
      RunesAppend(runs[0], Flatten(runs[1..]));
    }
  }

  /** The loop of Token at the end of the input with `last` set and a non-NUL
      stale `next` that the NUL does not continue: it reads the NUL, counts
      it and trims it. */
  lemma ScanNulAtEnd(src: Source, p: Check, st: Scan)
    requires !src.fails && st.last && !p(0, st.next)
    ensures ScanFrom(src, p, |src.bytes|, st) == (Returns(Token(st.text, Utf8Len(st.text) + 1), Nil), |src.bytes|)
  {
    var text := st.text + [Rune(0)];
    assert ScanFrom(src, p, |src.bytes|, st) == (Returns(Close(text), Nil), |src.bytes|);
    Utf8LenAppend(st.text, [Rune(0)]);
    assert TrimNul(text) == st.text;
  }

  /** The loop of Token about to read the last byte `s[j]` of a run that
      started at `i`, having peeked it: the peek at the end leaves the stale
      `next == s[j]`, which continues `s[j]`; the NUL read next does not, and
      closes the token with that NUL counted and trimmed. */
  lemma ScanLastByte(src: Source, p: Check, i: nat, j: nat)
    requires !src.fails && SentinelSafe(p) && NoNul(src.bytes)
    requires i < j && j + 1 == |src.bytes|
    ensures var s := src.bytes; var e := RunEnd(s, p, j);
      ScanFrom(src, p, j, Scan(s[j], false, Runes(s[i..j])))
        == (Returns(RunToken(s[i..e], e == |s|), Nil), e)
  {
    var s := src.bytes;
    var text := Runes(s[i..j]) + [Rune(s[j])];
    assert text == Runes(s[i..|s|]) by {
      assert s[i..|s|] == s[i..j] + [s[j]];
      RunesAppend(s[i..j], [s[j]]);
    }
    var st' := Scan(s[j], true, text);
    assert p(s[j], s[j]) && !p(0, s[j]) by {
      assert s[j] != 0;
    }
    assert ScanFrom(src, p, j, Scan(s[j], false, Runes(s[i..j]))) == ScanFrom(src, p, |s|, st');
    ScanNulAtEnd(src, p, st');
    assert RunEnd(s, p, j) == |s|;
  }

  /** The loop of Token after it has read `s[i..j]`, with `s[j]` peeked,
      when `s[j + 1]` does not continue it: the token is `s[i..j + 1]`. */
  lemma ScanRunBoundary(src: Source, p: Check, i: nat, j: nat)
    requires !src.fails && NoNul(src.bytes)
    requires i < j && j + 1 < |src.bytes| && !p(src.bytes[j], src.bytes[j + 1])
    ensures var s := src.bytes; var e := RunEnd(s, p, j);
      ScanFrom(src, p, j, Scan(s[j], false, Runes(s[i..j])))
        == (Returns(RunToken(s[i..e], e == |s|), Nil), e)
  {
    var s := src.bytes;
    var text := Runes(s[i..j]) + [Rune(s[j])];
    assert text == Runes(s[i..j + 1]) by {
      assert s[i..j + 1] == s[i..j] + [s[j]];
      RunesAppend(s[i..j], [s[j]]);
    }
    ScanStopsBefore(src, p, j, Scan(s[j], false, Runes(s[i..j])));
    CloseWithoutNul(Runes(s[i..j]), s[j]);
    assert RunEnd(s, p, j) == j + 1;
  }

  /** An iteration that reads a byte the peeked byte does not continue
      closes the token with a nil error. */
  lemma ScanStopsBefore(src: Source, p: Check, pos: nat, st: Scan)
    requires !st.last && pos + 1 < |src.bytes| && !p(src.bytes[pos], src.bytes[pos + 1])
    ensures ScanFrom(src, p, pos, st) == (Returns(Close(st.text + [Rune(src.bytes[pos])]), Nil), pos + 1)
  {
  }

  /** Closing a text whose last rune is not NUL keeps the whole text. */
  lemma CloseWithoutNul(text: string, b: byte)
    requires b != 0
    ensures Close(text + [Rune(b)]) == Token(text + [Rune(b)], Utf8Len(text + [Rune(b)]))
  {
    var t := text + [Rune(b)];
    assert t[|t| - 1] == Rune(b) != '\0';
  }

  /** One iteration of the loop of Token inside a run: it reads `s[j]`,
      which `s[j + 1]` continues, and peeks `s[j + 1]`. */
  lemma ScanRunStep(src: Source, p: Check, i: nat, j: nat)
    requires !src.fails
    requires i < j && j + 1 < |src.bytes| && p(src.bytes[j], src.bytes[j + 1])
    ensures var s := src.bytes;
      ScanFrom(src, p, j, Scan(s[j], false, Runes(s[i..j])))
        == ScanFrom(src, p, j + 1, Scan(s[j + 1], false, Runes(s[i..j + 1])))
  {
    var s := src.bytes;
    assert Runes(s[i..j]) + [Rune(s[j])] == Runes(s[i..j + 1]) by {
      assert s[i..j + 1] == s[i..j] + [s[j]];
      RunesAppend(s[i..j], [s[j]]);
    }
  }

  /** The loop of Token after it has read `s[i..j]`, with `s[j]` peeked and
      continuing the token: it closes the token at the end of the run. */
  lemma {:induction false} ScanInsideRun(src: Source, p: Check, i: nat, j: nat)
    requires !src.fails && SentinelSafe(p) && NoNul(src.bytes)
    requires i < j < |src.bytes|
    ensures var s := src.bytes; var e := RunEnd(s, p, j);
      ScanFrom(src, p, j, Scan(s[j], false, Runes(s[i..j])))
        == (Returns(RunToken(s[i..e], e == |s|), Nil), e)
    decreases |src.bytes| - j, 1
  {
    if j + 1 == |src.bytes| {
      ScanLastByte(src, p, i, j);
    } else if !p(src.bytes[j], src.bytes[j + 1]) {
      ScanRunBoundary(src, p, i, j);
    } else {
      ScanRunContinues(src, p, i, j);
    }
  }

  /** The case of ScanInsideRun where `s[j + 1]` continues the run. */
  lemma {:induction false} ScanRunContinues(src: Source, p: Check, i: nat, j: nat)
    requires !src.fails && SentinelSafe(p) && NoNul(src.bytes)
    requires i < j && j + 1 < |src.bytes| && p(src.bytes[j], src.bytes[j + 1])
    ensures var s := src.bytes; var e := RunEnd(s, p, j);
      ScanFrom(src, p, j, Scan(s[j], false, Runes(s[i..j])))
        == (Returns(RunToken(s[i..e], e == |s|), Nil), e)
    decreases |src.bytes| - j, 0
  {
    var s := src.bytes;
    ScanRunStep(src, p, i, j);
    ScanInsideRun(src, p, i, j + 1);
    assert RunEnd(s, p, j) == RunEnd(s, p, j + 1);
  }

  /** A call of Token with input left returns the maximal run that starts at
      the reader's position, with a nil error, and leaves the reader at its end. */
  lemma TokenReturnsRun(src: Source, p: Check, i: nat)
    requires !src.fails && SentinelSafe(p) && NoNul(src.bytes)
    requires i < |src.bytes|
    ensures var s := src.bytes; var e := RunEnd(s, p, i);
      NextToken(src, p, i) == (Returns(RunToken(s[i..e], e == |s|), Nil), e)
  {
    var s := src.bytes;
    if i + 1 == |s| {
      TokenOfLastByte(src, p, i);
    } else if !p(s[i], s[i + 1]) {
      TokenOfOneByte(src, p, i);
    } else {
      TokenOfLongerRun(src, p, i);
    }
  }

  /** A one-byte final token: `next` is still the zero value. */
  lemma TokenOfLastByte(src: Source, p: Check, i: nat)
    requires !src.fails && SentinelSafe(p) && NoNul(src.bytes)
    requires i + 1 == |src.bytes|
    ensures var s := src.bytes; var e := RunEnd(s, p, i);
      NextToken(src, p, i) == (Returns(RunToken(s[i..e], e == |s|), Nil), e)
  {
    var s := src.bytes;
    assert s[i] != 0 && !p(s[i], 0);
    var text := Fresh.text + [Rune(s[i])];
    assert text == Runes(s[i..i + 1]) && s[i..i + 1] == s[i..];
    assert TrimNul(text) == text;
    assert NextToken(src, p, i) == (Returns(Close(text), Nil), |s|);
  }

  /** A one-byte token that the next byte does not continue. */
  lemma TokenOfOneByte(src: Source, p: Check, i: nat)
    requires !src.fails && NoNul(src.bytes)
    requires i + 1 < |src.bytes| && !p(src.bytes[i], src.bytes[i + 1])
    ensures var s := src.bytes; var e := RunEnd(s, p, i);
      NextToken(src, p, i) == (Returns(RunToken(s[i..e], e == |s|), Nil), e)
  {
    var s := src.bytes;
    var text := Fresh.text + [Rune(s[i])];
    assert text == Runes(s[i..i + 1]);
    assert TrimNul(text) == text by {
      assert s[i] != 0;
    }
    assert NextToken(src, p, i) == (Returns(Close(text), Nil), i + 1);
    assert RunEnd(s, p, i) == i + 1;
  }

  /** A token of two or more bytes: after its first byte the loop is inside
      the run. */
  lemma TokenOfLongerRun(src: Source, p: Check, i: nat)
    requires !src.fails && SentinelSafe(p) && NoNul(src.bytes)
    requires i + 1 < |src.bytes| && p(src.bytes[i], src.bytes[i + 1])
    ensures var s := src.bytes; var e := RunEnd(s, p, i);
      NextToken(src, p, i) == (Returns(RunToken(s[i..e], e == |s|), Nil), e)
  {
    var s := src.bytes;
    assert Fresh.text + [Rune(s[i])] == Runes(s[i..i + 1]);
    assert NextToken(src, p, i) == ScanFrom(src, p, i + 1, Scan(s[i + 1], false, Runes(s[i..i + 1])));
    ScanInsideRun(src, p, i, i + 1);
    assert RunEnd(s, p, i) == RunEnd(s, p, i + 1);
  }

  /** A call of Token at the end of the input returns io.EOF with a junk
      token: the NUL read there, appended twice and trimmed once. */
  lemma TokenAtEnd(src: Source, p: Check)
    requires !src.fails && p(0, 0)
    ensures NextToken(src, p, |src.bytes|) == (Returns(Token([Rune(0)], 2), EOF), |src.bytes|)
  {
    var text := Fresh.text + [Rune(0)] + [Rune(0)];
    assert text == [Rune(0), Rune(0)];
    assert TrimNul(text) == [Rune(0)];
    assert Utf8Len(text) == 1 + Utf8Len([Rune(0)]);
  }

  /** If the NUL does not continue itself, a call at the end of the input
      returns an empty token and a nil error, and leaves the reader where it
      was, so ReadTokens started at the end never returns. */
  lemma TokenAtEndWithoutSentinel(src: Source, p: Check)
    requires !src.fails && !p(0, 0)
    ensures NextToken(src, p, |src.bytes|) == (Returns(Token("", 1), Nil), |src.bytes|)
    ensures ReadAll(src, p, |src.bytes|).0 == Hangs
  {
    var text := Fresh.text + [Rune(0)];
    assert text == [Rune(0)] && TrimNul(text) == [] && Utf8Len(text) == 1;
    assert NextToken(src, p, |src.bytes|) == (Returns(Close(text), Nil), |src.bytes|);
  }

  /** Each call makes progress or ends the loop, so ReadTokens always returns
      once the NUL continues itself. */
  lemma {:induction false} ReadTokensTerminates(src: Source, p: Check, pos: nat)
    requires p(0, 0) && pos <= |src.bytes|
    ensures !ReadAll(src, p, pos).0.Hangs?
    decreases |src.bytes| - pos
  {
    var (t, j) := NextToken(src, p, pos);
    if pos == |src.bytes| {
      if !src.fails {
        TokenAtEnd(src, p);
      }
    } else if t.Returns? && t.err == Nil {
      ReadTokensTerminates(src, p, j);
    }
  }

  lemma {:induction false} ReadAllRunsFrom(src: Source, p: Check, i: nat)
    requires !src.fails && SentinelSafe(p) && NoNul(src.bytes)
    requires i <= |src.bytes|
    ensures ReadAll(src, p, i) == (Returns(RunTokens(RunsFrom(src.bytes, p, i)), Nil), |src.bytes|)
    decreases |src.bytes| - i
  {
    var s := src.bytes;
    if i == |s| {
      TokenAtEnd(src, p);
      assert RunTokens([]) == [];
    } else {
      var e := RunEnd(s, p, i);
      ReadAllAfterRun(src, p, i);
      ReadAllRunsFrom(src, p, e);
      var rest := RunsFrom(s, p, e);
      assert rest == [] <==> e == |s|;
      RunTokensCons(s[i..e], rest);
    }
  }

  /** ReadTokens with input left: the token of the first run, then whatever
      the loop yields from the end of that run. */
  lemma ReadAllAfterRun(src: Source, p: Check, i: nat)
    requires !src.fails && SentinelSafe(p) && NoNul(src.bytes)
    requires i < |src.bytes|
    ensures var s := src.bytes; var e := RunEnd(s, p, i);
      && RunsFrom(s, p, i) == [s[i..e]] + RunsFrom(s, p, e)
      && ReadAll(src, p, i) == Prepend([RunToken(s[i..e], e == |s|)], ReadAll(src, p, e))
  {
    TokenReturnsRun(src, p, i);
  }

  /** ReadTokens returns one token per maximal run of the input, in order. */
  lemma ReadTokensGivesRuns(s: seq<byte>, p: Check)
    requires SentinelSafe(p) && NoNul(s)
    ensures ReadAll(Source(s, false), p, 0) == (Returns(RunTokens(Runs(s, p)), Nil), |s|)
  {
    ReadAllRunsFrom(Source(s, false), p, 0);
  }

  /** The tokens ReadTokens returns are non-empty, their texts are the maximal
      runs of the input (the predicate holds inside each and fails across
      each boundary), and concatenated they give back the input. */
  lemma ReadTokensPartition(s: seq<byte>, p: Check)
    requires SentinelSafe(p) && NoNul(s)
    ensures var r, runs := ReadAll(Source(s, false), p, 0).0, Runs(s, p);
      && r.Returns? && r.err == Nil
      && ConcatTypes(r.value) == Runes(s)
      && |r.value| == |runs|
      && MaximalRuns(runs, s, p)
      && (forall k :: 0 <= k < |r.value| ==> r.value[k].Type == Runes(runs[k]) && r.value[k].Type != [])
  {
    var runs := Runs(s, p);
    ReadTokensGivesRuns(s, p);
    RunsCharacterized(runs, s, p);
    ConcatRunTokens(runs);
  }

  /** On ASCII input Length is the length of Type, except for a final token
      of two or more bytes, whose Length counts the trimmed NUL too. */
  lemma TokenLengths(s: seq<byte>, p: Check)
    requires SentinelSafe(p) && NoNul(s)
    requires forall k :: 0 <= k < |s| ==> s[k] < 0x80
    ensures var r := ReadAll(Source(s, false), p, 0).0;
      && r.Returns?
      && forall k :: 0 <= k < |r.value| ==>
           r.value[k].Length == |r.value[k].Type| + (if k == |r.value| - 1 && |r.value[k].Type| >= 2 then 1 else 0)
  {
    var runs := Runs(s, p);
    ReadTokensGivesRuns(s, p);
    RunsCharacterized(runs, s, p);
    var ts := RunTokens(runs);
    forall k | 0 <= k < |ts|
      ensures ts[k].Length == |ts[k].Type| + (if k == |ts| - 1 && |ts[k].Type| >= 2 then 1 else 0)
    {
      RunInInput(runs, s, k);
      Utf8LenAscii(ts[k].Type);
    }
  }

  /** Every byte of a part of a split of `s` is a byte of `s`. */
  lemma {:induction false} RunInInput(parts: seq<seq<byte>>, s: seq<byte>, k: nat)
    requires Flatten(parts) == s && k < |parts|
    ensures forall m :: 0 <= m < |parts[k]| ==> parts[k][m] in s
  {
    assert s == parts[0] + Flatten(parts[1..]);
    if k > 0 {
      RunInInput(parts[1..], Flatten(parts[1..]), k - 1);
    }
  }

  /** Empty input, a reader that ends in io.EOF: no tokens, and an empty translation. */
  lemma EmptyInput(p: Check, dict: map<string, string>)
    requires p(0, 0)
    ensures ReadAll(Source([], false), p, 0).0 == Returns([], Nil)
    ensures Translation(Source([], false), p, 0, dict) == Returns("", Nil)
  {
    TokenAtEnd(Source([], false), p);
  }

  /** The loop of Token on a reader that fails after its bytes: before the
      last byte it may close a token, and at the last byte the peek fails and
      `p[0]` panics. */
  lemma {:induction false} ScanFailingReader(src: Source, p: Check, pos: nat, st: Scan)
    requires src.fails && !st.last && pos < |src.bytes|
    ensures var r := ScanFrom(src, p, pos, st);
      r.0 == Panics || (r.0.Returns? && r.0.err == Nil && r.1 < |src.bytes|)
    decreases |src.bytes| - pos
  {
    if pos + 1 < |src.bytes| {
      var next := src.bytes[pos + 1];
      if p(src.bytes[pos], next) {
        ScanFailingReader(src, p, pos + 1, Scan(next, false, st.text + [Rune(src.bytes[pos])]));
      }
    }
  }

  /** A reader that fails after one or more bytes makes ReadTokens panic. */
  lemma {:induction false} FailingReaderPanics(src: Source, p: Check, pos: nat)
    requires src.fails && pos < |src.bytes|
    ensures ReadAll(src, p, pos).0 == Panics
    decreases |src.bytes| - pos
  {
    ScanFailingReader(src, p, pos, Fresh);
    var (t, j) := NextToken(src, p, pos);
    if t.Returns? {
      FailingReaderPanics(src, p, j);
    }
  }

  /** A reader that fails at once: ReadTokens returns its error, and
      Translate returns "" with ErrBadFormat. */
  lemma FailingReaderBadFormat(p: Check, dict: map<string, string>)
    ensures ReadAll(Source([], true), p, 0).0 == Returns([], ReadFailure)
    ensures Translation(Source([], true), p, 0, dict) == Returns("", BadFormat)
  {
  }

  /** With no token found in the dictionary the translator copies the tokens. */
  lemma {:induction false} TranslatedPassThrough(ts: seq<Token>, dict: map<string, string>)
    requires forall k :: 0 <= k < |ts| ==> ts[k].Type !in dict
    ensures Translated(ts, dict) == ConcatTypes(ts)
  {
    if ts != [] {
      TranslatedPassThrough(ts[1..], dict);
    }
  }

  /** Translate returns the trimmed concatenation of the replacements of the
      maximal runs of the input. */
  lemma TranslationOfRuns(s: seq<byte>, p: Check, dict: map<string, string>)
    requires SentinelSafe(p) && NoNul(s)
    ensures Translation(Source(s, false), p, 0, dict)
      == Returns(TrimSpace(Translated(RunTokens(Runs(s, p)), dict)), Nil)
  {
    ReadTokensGivesRuns(s, p);
  }

  /** A dictionary that has no entry for any token: Translate returns the
      trimmed input. */
  lemma TranslationPassThrough(s: seq<byte>, p: Check, dict: map<string, string>)
    requires SentinelSafe(p) && NoNul(s)
    requires forall k :: 0 <= k < |Runs(s, p)| ==> Runes(Runs(s, p)[k]) !in dict
    ensures Translation(Source(s, false), p, 0, dict) == Returns(TrimSpace(Runes(s)), Nil)
  {
    var runs := Runs(s, p);
    var ts := RunTokens(runs);
    ReadTokensGivesRuns(s, p);
    ConcatRunTokens(runs);
    RunsCharacterized(runs, s, p);
    assert forall k :: 0 <= k < |ts| ==> ts[k].Type == Runes(runs[k]);
    TranslatedPassThrough(ts, dict);
    assert Translated(ts, dict) == Runes(s);
  }

  /** With a predicate that lets every byte continue every byte, "AB" is read
      as one token, and the NUL read at the end continues the stale next
      byte: the call reports io.EOF, and ReadTokens returns no token at all. */
  lemma EverythingContinuesDropsAllTokens()
    ensures ReadAll(Source([65, 66], false), (a: byte, b: byte) => true, 0).0 == Returns([], Nil)
  {
    var src, p := Source([65, 66], false), (a: byte, b: byte) => true;
    var st1 := Scan(66, false, [Rune(65)]);
    assert Fresh.text + [Rune(65)] == [Rune(65)];
    assert [Rune(65)] + [Rune(66)] == [Rune(65), Rune(66)];
    var st2 := Scan(66, true, [Rune(65), Rune(66)]);
    assert ScanFrom(src, p, 0, Fresh) == ScanFrom(src, p, 1, st1);
    assert ScanFrom(src, p, 1, st1) == ScanFrom(src, p, 2, st2);
    assert ScanFrom(src, p, 2, st2).0.Returns? && ScanFrom(src, p, 2, st2).0.err == EOF;
  }

  /** The predicate that also lets every byte continue into the NUL. */
  function IntoNul(a: byte, b: byte): bool
  {
    a == b || b == 0
  }

  /** The predicate that also lets the NUL continue into every byte. */
  function OutOfNul(a: byte, b: byte): bool
  {
    a == b || a == 0
  }

  /** ReadTokens collects the tokens of successive calls that return a nil
      error from positions before the end, `ends[k]` being where call `k`
      starts, up to the call that reports io.EOF. */
  lemma {:induction false} ReadAllOfCalls(src: Source, p: Check, ts: seq<Token>, ends: seq<nat>)
    requires |ends| == |ts| + 1 && ends[|ts|] <= |src.bytes|
    requires forall k :: 0 <= k < |ts| ==>
      ends[k] < |src.bytes| && NextToken(src, p, ends[k]) == (Returns(ts[k], Nil), ends[k + 1])
    requires var r := NextToken(src, p, ends[|ts|]).0; r.Returns? && r.err == EOF
    ensures ReadAll(src, p, ends[0]).0 == Returns(ts, Nil)
    decreases |ts|
  {
    if ts != [] {
      ReadAllOfCalls(src, p, ts[1..], ends[1..]);
      assert [ts[0]] + ts[1..] == ts;
    }
  }

  /** A one-byte final token: the token before it is kept, and ReadTokens
      drops that token because the next byte still holds its zero value,
      the byte continues into it, and the NUL read then continues it too. */
  lemma OneByteFinalTokenIntoNulDropped()
    ensures ReadAll(Source([65, 66], false), IntoNul, 0).0 == Returns([Token([Rune(65)], 1)], Nil)
  {
    var src, p := Source([65, 66], false), IntoNul;
    assert Fresh.text + [Rune(65)] == [Rune(65)];
    assert NextToken(src, p, 0) == (Returns(Token([Rune(65)], 1), Nil), 1);
    var st1 := Scan(0, true, [Rune(66)]);
    assert Fresh.text + [Rune(66)] == [Rune(66)];
    assert ScanFrom(src, p, 1, Fresh) == ScanFrom(src, p, 2, st1);
    assert ScanFrom(src, p, 2, st1).0.Returns? && ScanFrom(src, p, 2, st1).0.err == EOF;
    ReadAllOfCalls(src, p, [Token([Rune(65)], 1)], [0, 1]);
  }

  /** The calls of Token on "ABB" with IntoNul. */
  lemma LongerFinalTokenIntoNulCalls()
    ensures var src, p := Source([65, 66, 66], false), IntoNul;
      && NextToken(src, p, 0) == (Returns(Token([Rune(65)], 1), Nil), 1)
      && NextToken(src, p, 1) == (Returns(Token([Rune(66), Rune(66)], 3), Nil), 3)
  {
    var src, p := Source([65, 66, 66], false), IntoNul;
    var bb := [Rune(66), Rune(66)];
    assert Fresh.text + [Rune(65)] == [Rune(65)];
    var st1, st2 := Scan(66, false, [Rune(66)]), Scan(66, true, bb);
    assert Fresh.text + [Rune(66)] == [Rune(66)] && [Rune(66)] + [Rune(66)] == bb;
    assert ScanFrom(src, p, 1, Fresh) == ScanFrom(src, p, 2, st1);
    assert ScanFrom(src, p, 2, st1) == ScanFrom(src, p, 3, st2);
    Utf8LenAppend(bb, [Rune(0)]);
    assert TrimNul(bb + [Rune(0)]) == bb && Utf8Len(bb + [Rune(0)]) == 3;
  }

  /** A final token of two bytes or more is kept even though its last byte
      continues into the NUL: the stale next byte is that last byte, and the
      NUL read at the end does not continue it. */
  lemma LongerFinalTokenIntoNulKept()
    ensures ReadAll(Source([65, 66, 66], false), IntoNul, 0).0
      == Returns([Token([Rune(65)], 1), Token([Rune(66), Rune(66)], 3)], Nil)
  {
    var src, p := Source([65, 66, 66], false), IntoNul;
    LongerFinalTokenIntoNulCalls();
    TokenAtEnd(src, p);
    ReadAllOfCalls(src, p, [Token([Rune(65)], 1), Token([Rune(66), Rune(66)], 3)], [0, 1, 3]);
  }

  /** A final token of two bytes or more is dropped when the NUL continues
      its last byte: the call that reads the NUL reports io.EOF. */
  lemma LongerFinalTokenOutOfNulDropped()
    ensures ReadAll(Source([65, 66, 66], false), OutOfNul, 0).0 == Returns([Token([Rune(65)], 1)], Nil)
  {
    var src, p := Source([65, 66, 66], false), OutOfNul;
    var bb := [Rune(66), Rune(66)];
    assert Fresh.text + [Rune(65)] == [Rune(65)];
    assert NextToken(src, p, 0) == (Returns(Token([Rune(65)], 1), Nil), 1);
    var st1, st2 := Scan(66, false, [Rune(66)]), Scan(66, true, bb);
    assert Fresh.text + [Rune(66)] == [Rune(66)] && [Rune(66)] + [Rune(66)] == bb;
    assert ScanFrom(src, p, 1, Fresh) == ScanFrom(src, p, 2, st1);
    assert ScanFrom(src, p, 2, st1) == ScanFrom(src, p, 3, st2);
    assert ScanFrom(src, p, 3, st2).0.Returns? && ScanFrom(src, p, 3, st2).0.err == EOF;
    ReadAllOfCalls(src, p, [Token([Rune(65)], 1)], [0, 1]);
  }

  /** The three calls of Token on "A", NUL, "B" with the default predicate. */
  lemma NulInsideInputCalls()
    ensures var src, p := Source([65, 0, 66], false), CheckNextPartOfToken;
      && NextToken(src, p, 0) == (Returns(Token([Rune(65)], 1), Nil), 1)
      && NextToken(src, p, 1) == (Returns(Token([], 1), Nil), 2)
      && NextToken(src, p, 2) == (Returns(Token([Rune(66)], 1), Nil), 3)
  {
    assert Fresh.text + [Rune(65)] == [Rune(65)];
    NulInsideMiddleCall();
    assert Fresh.text + [Rune(66)] == [Rune(66)];
  }

  /** The middle call of NulInsideInputCalls: the NUL is trimmed away. */
  lemma NulInsideMiddleCall()
    ensures NextToken(Source([65, 0, 66], false), CheckNextPartOfToken, 1) == (Returns(Token([], 1), Nil), 2)
  {
    assert Fresh.text + [Rune(0)] == [Rune(0)] && TrimNul([Rune(0)]) == [];
  }

  /** A NUL inside the input is a token of its own whose text is trimmed to
      nothing: ReadTokens returns an empty token. */
  lemma NulInsideInputGivesEmptyToken()
    ensures ReadAll(Source([65, 0, 66], false), CheckNextPartOfToken, 0).0
      == Returns([Token([Rune(65)], 1), Token([], 1), Token([Rune(66)], 1)], Nil)
  {
    var src, p := Source([65, 0, 66], false), CheckNextPartOfToken;
    NulInsideInputCalls();
    TokenAtEnd(src, p);
    ReadAllOfCalls(src, p, [Token([Rune(65)], 1), Token([], 1), Token([Rune(66)], 1)], [0, 1, 2, 3]);
  }

  /** A NUL at the end of the input continues itself into the NUL read after
      it, so its call reports io.EOF and ReadTokens drops it. */
  lemma TrailingNulDropped()
    ensures ReadAll(Source([65, 0], false), CheckNextPartOfToken, 0).0 == Returns([Token([Rune(65)], 1)], Nil)
  {
    var src, p := Source([65, 0], false), CheckNextPartOfToken;
    assert Fresh.text + [Rune(65)] == [Rune(65)];
    assert NextToken(src, p, 0) == (Returns(Token([Rune(65)], 1), Nil), 1);
    var st1 := Scan(0, true, [Rune(0)]);
    assert Fresh.text + [Rune(0)] == [Rune(0)];
    assert ScanFrom(src, p, 1, Fresh) == ScanFrom(src, p, 2, st1);
    assert ScanFrom(src, p, 2, st1).0.Returns? && ScanFrom(src, p, 2, st1).0.err == EOF;
    ReadAllOfCalls(src, p, [Token([Rune(65)], 1)], [0, 1]);
  }

  /** The predicate that joins every pair except two NULs. */
  function NotNulPair(a: byte, b: byte): bool
  {
    !(a == 0 && b == 0)
  }

  /** A predicate that rejects `(0, 0)` does not make every ReadTokens hang:
      on "AB" the NUL read at the end continues the stale next byte, that
      call reports io.EOF, and ReadTokens returns before any call starts at
      the end of the input. */
  lemma RejectingSentinelCanReturn()
    ensures !NotNulPair(0, 0)
    ensures ReadAll(Source([65, 66], false), NotNulPair, 0).0 == Returns([], Nil)
  {
    var src, p := Source([65, 66], false), NotNulPair;
    var st1 := Scan(66, false, [Rune(65)]);
    assert Fresh.text + [Rune(65)] == [Rune(65)];
    assert [Rune(65)] + [Rune(66)] == [Rune(65), Rune(66)];
    var st2 := Scan(66, true, [Rune(65), Rune(66)]);
    assert ScanFrom(src, p, 0, Fresh) == ScanFrom(src, p, 1, st1);
    assert ScanFrom(src, p, 1, st1) == ScanFrom(src, p, 2, st2);
    assert ScanFrom(src, p, 2, st2).0.Returns? && ScanFrom(src, p, 2, st2).0.err == EOF;
  }

  /** The predicate that joins only "A" to "B" and lets the NUL continue
      every byte. */
  function AThenBOrNul(a: byte, b: byte): bool
  {
    (a == 65 && b == 66) || a == 0
  }

  /** A final token of two bytes or more whose last byte `c` does not
      continue itself is closed at that byte and kept, even when `(0, c)` is
      accepted: the stale next byte is `c`, so the NUL is never read. */
  lemma LongerFinalTokenStopsAtLastByte()
    ensures AThenBOrNul(0, 66) && !AThenBOrNul(66, 66)
    ensures ReadAll(Source([65, 66], false), AThenBOrNul, 0).0
      == Returns([Token([Rune(65), Rune(66)], 2)], Nil)
  {
    var src, p := Source([65, 66], false), AThenBOrNul;
    var ab := [Rune(65), Rune(66)];
    var st1 := Scan(66, false, [Rune(65)]);
    assert Fresh.text + [Rune(65)] == [Rune(65)] && [Rune(65)] + [Rune(66)] == ab;
    assert ScanFrom(src, p, 0, Fresh) == ScanFrom(src, p, 1, st1);
    Utf8LenAppend([Rune(65)], [Rune(66)]);
    assert TrimNul(ab) == ab && Utf8Len(ab) == 2;
    assert NextToken(src, p, 0) == (Returns(Token(ab, 2), Nil), 2);
    TokenAtEnd(src, p);
    ReadAllOfCalls(src, p, [Token(ab, 2)], [0, 2]);
  }

  /** The three calls of Token on "A", NUL, NUL, "B" with the default
      predicate. */
  lemma NulRunCalls()
    ensures var src, p := Source([65, 0, 0, 66], false), CheckNextPartOfToken;
      && NextToken(src, p, 0) == (Returns(Token([Rune(65)], 1), Nil), 1)
      && NextToken(src, p, 1) == (Returns(Token([Rune(0)], 2), Nil), 3)
      && NextToken(src, p, 3) == (Returns(Token([Rune(66)], 1), Nil), 4)
  {
    assert Fresh.text + [Rune(65)] == [Rune(65)];
    NulRunMiddleCall();
    assert Fresh.text + [Rune(66)] == [Rune(66)];
  }

  /** The middle call of NulRunCalls: the two NULs make one token. */
  lemma NulRunMiddleCall()
    ensures NextToken(Source([65, 0, 0, 66], false), CheckNextPartOfToken, 1)
      == (Returns(Token([Rune(0)], 2), Nil), 3)
  {
    var src, p := Source([65, 0, 0, 66], false), CheckNextPartOfToken;
    var st1 := Scan(0, false, [Rune(0)]);
    assert Fresh.text + [Rune(0)] == [Rune(0)];
    assert ScanFrom(src, p, 1, Fresh) == ScanFrom(src, p, 2, st1);
    assert [Rune(0)] + [Rune(0)] == [Rune(0), Rune(0)] && TrimNul([Rune(0), Rune(0)]) == [Rune(0)];
    Utf8LenAppend([Rune(0)], [Rune(0)]);
  }

  /** A run of NULs inside the input is one token, and only one NUL is
      trimmed from it: with two NULs the token's text is one NUL. */
  lemma NulRunIsOneToken()
    ensures ReadAll(Source([65, 0, 0, 66], false), CheckNextPartOfToken, 0).0
      == Returns([Token([Rune(65)], 1), Token([Rune(0)], 2), Token([Rune(66)], 1)], Nil)
  {
    var src, p := Source([65, 0, 0, 66], false), CheckNextPartOfToken;
    NulRunCalls();
    TokenAtEnd(src, p);
    ReadAllOfCalls(src, p, [Token([Rune(65)], 1), Token([Rune(0)], 2), Token([Rune(66)], 1)], [0, 1, 3, 4]);
  }
}
