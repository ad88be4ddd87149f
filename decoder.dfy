/** The Decoder of decode.go: a reader over the pattern's bytes, the
    adjacency predicate it uses, and the methods Token, ReadTokens and
    Translate, each proved to compute the function of module Scanner that
    describes it. */
module Format {
  import opened GoStrings
  import opened Predicates
  import opened Scanner

  /** What `bufio.Reader.Peek(1)` gives: the next byte, or no byte and an error. */
  datatype Peeked = Peeked(b: byte) | PeekFailed(err: Err)

  class Decoder {
    /** The io.Reader behind the bufio.Reader. */
    const src: Source
    /** How many bytes the bufio.Reader has handed out. */
    var pos: nat
    var checkValid: Check

    ghost predicate Valid()
      reads this
    {
      pos <= |src.bytes|
    }

    /** NewDecoder: the reader at the start, the default predicate. */
    constructor (src: Source)
      ensures Valid()
      ensures this.src == src && pos == 0 && checkValid == CheckNextPartOfToken
    {
      this.src := src;
      pos := 0;
      checkValid := CheckNextPartOfToken;
    }

    method SetCheckValidFunc(fn: Check)
      modifies this`checkValid
      ensures checkValid == fn
    {
      checkValid := fn;
    }

    /** `bufio.Reader.ReadByte`: the next byte, or 0 and the reader's error. */
    method ReadByte() returns (b: byte, err: Err)
      requires Valid()
      modifies this`pos
      ensures Valid()
      ensures old(pos) < |src.bytes| ==> b == src.bytes[old(pos)] && err == Nil && pos == old(pos) + 1
      ensures old(pos) == |src.bytes| ==>
        b == 0 && err == (if src.fails then ReadFailure else EOF) && pos == old(pos)
    {
      if pos < |src.bytes| {
        b, err := src.bytes[pos], Nil;
        pos := pos + 1;
      } else {
        b, err := 0, if src.fails then ReadFailure else EOF;
      }
    }

    /** `bufio.Reader.Peek(1)`: the next byte without consuming it. */
    method Peek() returns (r: Peeked)
      requires Valid()
      ensures pos < |src.bytes| ==> r == Peeked(src.bytes[pos])
      ensures pos == |src.bytes| ==> r == PeekFailed(if src.fails then ReadFailure else EOF)
    {
      if pos < |src.bytes| {
        r := Peeked(src.bytes[pos]);
      } else {
        r := PeekFailed(if src.fails then ReadFailure else EOF);
      }
    }

    /** Reads one token: the bytes up to the first one the predicate does not
        let continue. */
    method Token() returns (r: Outcome<Token>)
      requires Valid()
      modifies this`pos
      ensures Valid()
      ensures (r, pos) == NextToken(src, checkValid, old(pos))
    {
      var tok := Fresh;
      while true
        invariant Valid() && old(pos) <= pos
        invariant NextToken(src, checkValid, old(pos)) == ScanFrom(src, checkValid, pos, tok)
        decreases |src.bytes| - pos
      {
        var b, err := ReadByte();
        if err != EOF && err != Nil {
          return Returns(Scanner.Token("", 0), err);
        }
        var currentByte := b;
        if !tok.last {
          var peeked := Peek();
          if peeked == PeekFailed(EOF) {
            tok := tok.(last := true);
          }
          if !tok.last {
            if peeked.PeekFailed? {
              // p[0] on the empty slice Peek returned with its error
              return Panics;
            }
            tok := tok.(next := peeked.b);
          }
        }
        if checkValid(currentByte, tok.next) {
          tok := tok.(text := tok.text + [Rune(currentByte)]);
        }
        if !checkValid(currentByte, tok.next) {
          tok := tok.(text := tok.text + [Rune(currentByte)]);
          return Returns(Close(tok.text), Nil);
        }
        if err == EOF {
          tok := tok.(text := tok.text + [Rune(currentByte)]);
          return Returns(Close(tok.text), EOF);
        }
      }
    }

    /** Reads tokens until a call reports io.EOF, which drops that call's token. */
    method ReadTokens() returns (r: Outcome<seq<Token>>)
      requires Valid()
      modifies this`pos
      ensures Valid()
      ensures (r, pos) == ReadAll(src, checkValid, old(pos))
    {
      var tokens: seq<Token> := [];
      PrependNothing(ReadAll(src, checkValid, pos));
      while true
        invariant Valid()
        invariant ReadAll(src, checkValid, old(pos)) == Prepend(tokens, ReadAll(src, checkValid, pos))
        decreases |src.bytes| - pos
      {
        var atEnd := pos == |src.bytes|;
        var t := Token();
        if t.Panics? {
          return Panics;
        }
        if t.err == EOF {
          assert tokens + [] == tokens;
          return Returns(tokens, Nil);
        }
        if t.err != Nil {
          return Returns([], t.err);
        }
        if atEnd {
          // the reader has not moved, so every further call repeats this one
          return Hangs;
        }
        PrependTwice(tokens, [t.value], ReadAll(src, checkValid, pos));
        tokens := tokens + [t.value];
      }
    }

    /** Maps every token through `dict`, keeps tokens it has no entry for, and
        trims the white space around the result. */
    method Translate(dict: map<string, string>) returns (r: Outcome<string>)
      requires Valid()
      modifies this`pos
      ensures Valid()
      ensures r == Translation(src, checkValid, old(pos), dict)
      ensures pos == ReadAll(src, checkValid, old(pos)).1
    {
      var res := ReadTokens();
      match res
      case Panics =>
        return Panics;
      case Hangs =>
        return Hangs;
      case Returns(tokens, err) =>
        if err != Nil {
          return Returns("", BadFormat);
        }
        var golangFormat := "";
        ghost var end := pos;
        for i := 0 to |tokens|
          invariant pos == end
          invariant golangFormat == Translated(tokens[..i], dict)
        {
          var token := tokens[i];
          assert tokens[..i + 1] == tokens[..i] + [token];
          TranslatedSnoc(tokens[..i], token, dict);
          if token.Type in dict {
            golangFormat := golangFormat + dict[token.Type];
          } else {
            golangFormat := golangFormat + token.Type;
          }
        }
        assert tokens[..|tokens|] == tokens;
        return Returns(TrimSpace(golangFormat), Nil);
    }
  }
}
