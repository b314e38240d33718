/**
  The text-to-Morse encoder (textToMorse): the text is upper-cased, each
  letter or figure becomes its code followed by one gap character ' ', each
  space becomes two gap characters, and every other character is dropped.
 */
module Encoder {

  import opened MorseTable
  import opened Concat

  /** Upper-casing of one character, restricted to ASCII: a-z become A-Z. */
  function UpperAscii(c: char): char {
    if 'a' <= c <= 'z' then (c as int - 32) as char else c
  }

  /** Upper-casing of a text, character by character. */
  function ToUpper(s: string): (u: string)
    ensures |u| == |s|
  {
    seq(|s|, i requires 0 <= i < |s| => UpperAscii(s[i]))
  }

  /** A Morse text: dots, dashes and gaps only. */
  predicate IsMorse(m: string) {
    forall i :: 0 <= i < |m| ==> m[i] == '.' || m[i] == '-' || m[i] == ' '
  }

  /** What one upper-cased character adds to the Morse text. */
  function Contribution(c: char): string {
    if c in MorseCode then MorseCode[c] + " "
    else if c == ' ' then "  "
    else ""
  }

  /** The Morse text of any text: the contributions of its upper-cased characters, in order. */
  function Encode(text: string): string {
    FlatMap(Contribution, ToUpper(text))
  }

  /**
    The encoder as the source runs it: one pass over the upper-cased text,
    appending to an accumulator.
   */
  method TextToMorse(text: string) returns (morse: string)
    ensures morse == Encode(text)
  {
    var upper := ToUpper(text);
    morse := "";
    for i := 0 to |upper|
      invariant morse == FlatMap(Contribution, upper[..i])
    {
      ghost var before := morse;
      var c := upper[i];
      if c in MorseCode {
        morse := morse + MorseCode[c];
        morse := morse + " ";
      } else if c == ' ' {
        morse := morse + "  ";
      }
      assert morse == before + Contribution(c);
      FlatMapStep(Contribution, upper, i);
    }
    assert upper[..|upper|] == upper;
  }

  /** Encoding works character by character: the code of s + t is that of s then that of t. */
  lemma EncodeAppend(s: string, t: string)
    ensures Encode(s + t) == Encode(s) + Encode(t)
  {
    assert ToUpper(s + t) == ToUpper(s) + ToUpper(t);
    FlatMapAppend(Contribution, ToUpper(s), ToUpper(t));
  }

  /** A one-character text encodes as the contribution of its upper-case form. */
  lemma EncodeSingle(c: char)
    ensures Encode([c]) == Contribution(UpperAscii(c))
  {
    assert ToUpper([c]) == [UpperAscii(c)];
    FlatMapSingle(Contribution, UpperAscii(c));
  }

  /** What one character of the input contributes, for every character. */
  lemma EncodeChar(c: char)
    ensures Encode([c]) ==
      if UpperAscii(c) in MorseCode then MorseCode[UpperAscii(c)] + " "
      else if c == ' ' then "  "
      else ""
  {
    EncodeSingle(c);
  }

  /** The encoding of a text around one character: the parts' encodings around that character's contribution. */
  lemma EncodeAround(s: string, c: char, t: string)
    ensures Encode(s + [c] + t) == Encode(s) + Contribution(UpperAscii(c)) + Encode(t)
  {
    EncodeAppend(s + [c], t);
    EncodeAppend(s, [c]);
    EncodeSingle(c);
  }

  /** Every contribution is a Morse text of at most six characters that is empty or ends in a gap. */
  lemma ContributionIsMorse(c: char)
    ensures IsMorse(Contribution(c))
    ensures |Contribution(c)| <= 6
    ensures Contribution(c) == "" || Contribution(c)[|Contribution(c)| - 1] == ' '
  {
    if c in MorseCode {
      CodesWellFormed();
    }
  }

  /** The encoding of an upper-case text is a Morse text, empty or ending in a gap, at most six characters per input character. */
  lemma {:induction false} FlatMapContributionIsMorse(s: string)
    ensures IsMorse(FlatMap(Contribution, s))
    ensures FlatMap(Contribution, s) == "" || FlatMap(Contribution, s)[|FlatMap(Contribution, s)| - 1] == ' '
    ensures |FlatMap(Contribution, s)| <= 6 * |s|
    decreases |s|
  {
    if s != [] {
      var s', c := s[..|s| - 1], s[|s| - 1];
      FlatMapContributionIsMorse(s');
      ContributionIsMorse(c);
      assert FlatMap(Contribution, s) == FlatMap(Contribution, s') + Contribution(c);
    }
  }

  /**
    Whatever the text, its Morse text holds only dots, dashes and gaps, ends in
    a gap unless empty, and is at most six characters per input character.
   */
  lemma EncodeIsMorse(text: string)
    ensures IsMorse(Encode(text))
    ensures Encode(text) == "" || Encode(text)[|Encode(text)| - 1] == ' '
    ensures |Encode(text)| <= 6 * |text|
  {
    FlatMapContributionIsMorse(ToUpper(text));
  }

  /** Encoding is case-insensitive: a text encodes as its upper-case form does. */
  lemma EncodeCaseInsensitive(text: string)
    ensures Encode(text) == Encode(ToUpper(text))
  {
    assert ToUpper(ToUpper(text)) == ToUpper(text);
  }

  /** A lower-case letter encodes exactly as its upper-case form, wherever it stands. */
  lemma LowerEncodesAsUpper(s: string, c: char, t: string)
    requires 'a' <= c <= 'z'
    ensures Encode(s + [c] + t) == Encode(s + [(c as int - 32) as char] + t)
  {
    var upper := (c as int - 32) as char;
    assert UpperAscii(upper) == upper == UpperAscii(c);
    EncodeAround(s, c, t);
    EncodeAround(s, upper, t);
  }

  /** A character that is neither in the table nor a space is dropped: it is never an error. */
  lemma DropUnmapped(s: string, c: char, t: string)
    requires UpperAscii(c) !in MorseCode && c != ' '
    ensures Encode(s + [c] + t) == Encode(s + t)
  {
    assert Contribution(UpperAscii(c)) == "";
    EncodeAround(s, c, t);
    EncodeAppend(s, t);
    assert Encode(s) + "" == Encode(s);
  }
}
