/** The adjacency predicates a Decoder uses to decide where a token ends:
    `CheckValidFunc(current, next)` says whether `next` continues the token
    that `current` belongs to. */
module Predicates {
  import opened GoStrings

  /** The type of `Decoder.CheckValidFunc`. */
  type Check = (byte, byte) -> bool

  /** The mixed pairs the default predicate accepts besides equal bytes:
      "Yy", "Mm", "Dd", "Hh", "Ss", "Ff", "Zz", and "Da", "ay" so that "Day"
      is one token. */
  const DefaultPairs: set<(byte, byte)> :=
    {(89, 121), (77, 109), (68, 100), (72, 104), (83, 115), (70, 102), (90, 122), (68, 97), (97, 121)}

  /** The default predicate: equal bytes, or one of the nine exception pairs. */
  function CheckNextPartOfToken(current: byte, next: byte): (r: bool)
    ensures r <==> current == next || (current, next) in DefaultPairs
  {
    if current == next then true
    // 'Y' followed by 'y'
    else if current == 89 && next == 121 then true
    // 'M' followed by 'm'
    else if current == 77 && next == 109 then true
    // 'D' followed by 'd'
    else if current == 68 && next == 100 then true
    // 'H' followed by 'h'
    else if current == 72 && next == 104 then true
    // 'S' followed by 's'
    else if current == 83 && next == 115 then true
    // 'F' followed by 'f'
    else if current == 70 && next == 102 then true
    // 'Z' followed by 'z'
    else if current == 90 && next == 122 then true
    // 'D' followed by 'a', and 'a' followed by 'y', within "Day"
    else if (current == 68 && next == 97) || (current == 97 && next == 121) then true
    else false
  }

  /** The strict predicate: only equal bytes continue a token. */
  function CheckNextPartOfTokenStrict(current: byte, next: byte): (r: bool)
    ensures r <==> current == next
  {
    if current == next then true else false
  }

  /** The predicates under which the NUL the scanner uses as "no next byte"
      behaves as a sentinel: it continues only itself, nothing continues into
      it and nothing but it, and every other byte continues itself. */
  ghost predicate SentinelSafe(p: Check)
  {
    p(0, 0) && forall c: byte :: c != 0 ==> p(c, c) && !p(0, c) && !p(c, 0)
  }

  lemma DefaultIsSentinelSafe()
    ensures SentinelSafe(CheckNextPartOfToken)
  {
  }

  lemma StrictIsSentinelSafe()
    ensures SentinelSafe(CheckNextPartOfTokenStrict)
  {
  }

  /** Every boundary of the default predicate is also one of the strict one. */
  lemma StrictRefinesDefault(current: byte, next: byte)
    ensures CheckNextPartOfTokenStrict(current, next) ==> CheckNextPartOfToken(current, next)
  {
  }

  /** The only continuations of the default predicate between different
      letters are the two inside "Day". */
  lemma DefaultCrossLetter(current: byte, next: byte)
    requires CheckNextPartOfToken(current, next)
    requires current != next && current as int != next as int - 32
    ensures (current, next) == (68, 97) || (current, next) == (97, 121)
  {
  }
}
