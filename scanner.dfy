/** The tokenizer and translator of decode.go as functions of the input: the
    Decoder's methods (module Format) are proved to compute exactly these. */
module Scanner {
  import opened GoStrings
  import opened Predicates

  /** The error values: nil, io.EOF, a failure of the underlying reader other
      than io.EOF, and ErrBadFormat. */
  datatype Err = Nil | EOF | ReadFailure | BadFormat

  /** A token: its text and the byte length measured before the trailing NUL
      is trimmed. */
  datatype Token = Token(Type: string, Length: int)

  /** What a call does: it returns a value together with an error, it panics,
      or it never returns. */
  datatype Outcome<T> = Returns(value: T, err: Err) | Panics | Hangs

  /** What the io.Reader behind the Decoder delivers: its bytes, and then
      either io.EOF on every further read (`fails` false) or an error other
      than io.EOF on every further read (`fails` true). */
  datatype Source = Source(bytes: seq<byte>, fails: bool)

  /** The fields of Token's local `tok` that one iteration of its loop hands
      to the next: the peeked byte, the at-end flag and the text so far. */
  datatype Scan = Scan(next: byte, last: bool, text: string)

  /** `var tok Token`: every call starts from the zero value. */
  const Fresh: Scan := Scan(0, false, "")

  /** Closing a token: `Length` is taken, then one trailing NUL is trimmed. */
  function Close(text: string): (t: Token)
    ensures if |text| > 0 && text[|text| - 1] == '\0' then t.Type + ['\0'] == text else t.Type == text
    ensures t.Length == Utf8Len(text) >= |t.Type|
  {
    Token(TrimNul(text), Utf8Len(text))
  }

  /** The loop of `Decoder.Token` entered with the reader at `pos` and the
      scan state `st`; the result is the call's outcome and the reader's new
      position. */
  function ScanFrom(src: Source, p: Check, pos: nat, st: Scan): (r: (Outcome<Token>, nat))
    requires pos <= |src.bytes|
    ensures pos <= r.1 <= |src.bytes|
    ensures !r.0.Hangs? && (r.0.Returns? ==> r.0.err != BadFormat)
    ensures r.0.Returns? && pos < |src.bytes| ==> pos < r.1
    decreases |src.bytes| - pos
  {
    var n := |src.bytes|;
    if pos == n && src.fails then
      // ReadByte fails with an error other than io.EOF
      (Returns(Token("", 0), ReadFailure), pos)
    else
      // ReadByte: the byte at `pos`, or 0 together with io.EOF
      var b: byte := if pos < n then src.bytes[pos] else 0;
      var pos' := if pos < n then pos + 1 else pos;
      if !st.last && pos' == n && src.fails then
        // Peek fails with an error other than io.EOF, and p[0] is out of range
        (Panics, pos')
      else
        // Peek: a successful peek refreshes `next`; io.EOF sets `last` and
        // leaves `next` as it was
        var next := if !st.last && pos' < n then src.bytes[pos'] else st.next;
        var last := st.last || pos' == n;
        var text := st.text + [Rune(b)];
        if !p(b, next) then
          (Returns(Close(text), Nil), pos')
        else if pos == n then
          // ReadByte reported io.EOF: the current byte is appended once more
          (Returns(Close(text + [Rune(b)]), EOF), pos')
        else
          ScanFrom(src, p, pos', Scan(next, last, text))
  }

  /** One call of `Decoder.Token` with the reader at `pos`. */
  function NextToken(src: Source, p: Check, pos: nat): (r: (Outcome<Token>, nat))
    requires pos <= |src.bytes|
    ensures pos <= r.1 <= |src.bytes|
    ensures !r.0.Hangs? && (r.0.Returns? ==> r.0.err != BadFormat)
    ensures r.0.Returns? && pos < |src.bytes| ==> pos < r.1
  {
    ScanFrom(src, p, pos, Fresh)
  }

  /** The tokens `acc` collected so far put in front of what the rest of the
      loop of ReadTokens yields; an error or a non-returning call discards them. */
  function Prepend(acc: seq<Token>, rest: (Outcome<seq<Token>>, nat)): (Outcome<seq<Token>>, nat)
  {
    (if rest.0.Returns? && rest.0.err == Nil then Returns(acc + rest.0.value, Nil) else rest.0, rest.1)
  }

  lemma PrependNothing(rest: (Outcome<seq<Token>>, nat))
    ensures Prepend([], rest) == rest
  {
    if rest.0.Returns? && rest.0.err == Nil {
      assert [] + rest.0.value == rest.0.value;
    }
  }

  lemma PrependTwice(acc: seq<Token>, more: seq<Token>, rest: (Outcome<seq<Token>>, nat))
    ensures Prepend(acc, Prepend(more, rest)) == Prepend(acc + more, rest)
  {
    if rest.0.Returns? && rest.0.err == Nil {
      assert acc + (more + rest.0.value) == (acc + more) + rest.0.value;
    }
  }

  /** `Decoder.ReadTokens` with the reader at `pos`. A call that starts at the
      end of the input and returns neither io.EOF nor an error leaves the
      reader where it was, so the loop would repeat it forever: Hangs. */
  function ReadAll(src: Source, p: Check, pos: nat): (r: (Outcome<seq<Token>>, nat))
    requires pos <= |src.bytes|
    ensures pos <= r.1 <= |src.bytes|
    ensures r.0.Returns? ==> r.0.err == Nil || (r.0.err == ReadFailure && r.0.value == [])
    decreases |src.bytes| - pos
  {
    var (t, j) := NextToken(src, p, pos);
    if t.Panics? then (Panics, j)
    else if t.err == EOF then (Returns([], Nil), j)
    else if t.err != Nil then (Returns([], t.err), j)
    else if pos == |src.bytes| then (Hangs, j)
    else Prepend([t.value], ReadAll(src, p, j))
  }

  /** The replacement the translator writes for one token: the dictionary's
      entry for its text, or the text itself. */
  function Lookup(dict: map<string, string>, t: Token): string
  {
    if t.Type in dict then dict[t.Type] else t.Type
  }

  /** The replacements of `ts`, concatenated in order. */
  function Translated(ts: seq<Token>, dict: map<string, string>): string
  {
    if ts == [] then "" else Lookup(dict, ts[0]) + Translated(ts[1..], dict)
  }

  lemma {:induction false} TranslatedSnoc(ts: seq<Token>, t: Token, dict: map<string, string>)
    ensures Translated(ts + [t], dict) == Translated(ts, dict) + Lookup(dict, t)
  {
    if ts == [] {
      assert [t][1..] == [];
    } else {
      assert (ts + [t])[1..] == ts[1..] + [t];
      TranslatedSnoc(ts[1..], t, dict);
    }
  }

  /** `Decoder.Translate(dict)` with the reader at `pos`. */
  function Translation(src: Source, p: Check, pos: nat, dict: map<string, string>): (r: Outcome<string>)
    requires pos <= |src.bytes|
    ensures r.Returns? ==> r.err == Nil || r == Returns("", BadFormat)
    ensures r.Returns? && r.err == Nil ==> r.value == [] || (!IsSpace(r.value[0]) && !IsSpace(r.value[|r.value| - 1]))
    ensures r.Returns? <==> ReadAll(src, p, pos).0.Returns?
  {
    match ReadAll(src, p, pos).0
    case Returns(ts, err) =>
      if err == Nil then Returns(TrimSpace(Translated(ts, dict)), Nil) else Returns("", BadFormat)
    case Panics => Panics
    case Hangs => Hangs
  }
}
