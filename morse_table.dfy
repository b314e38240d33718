/**
  The Morse alphabet of the service: the 26 letters and 10 figures of the
  International Morse code (Recommendation ITU-R M.1677-1, Part I, sections
  1.1.1 and 1.1.2), each mapped to its string of dots and dashes.
 */
module MorseTable {

  import opened Wrappers

  /** The encoding table, keyed by upper-case letter or figure. */
  const MorseCode: map<char, string> := map[
    'A' := ".-", 'B' := "-...", 'C' := "-.-.", 'D' := "-..",
    'E' := ".", 'F' := "..-.", 'G' := "--.", 'H' := "....",
    'I' := "..", 'J' := ".---", 'K' := "-.-", 'L' := ".-..",
    'M' := "--", 'N' := "-.", 'O' := "---", 'P' := ".--.",
    'Q' := "--.-", 'R' := ".-.", 'S' := "...", 'T' := "-",
    'U' := "..-", 'V' := "...-", 'W' := ".--", 'X' := "-..-",
    'Y' := "-.--", 'Z' := "--..",
    '0' := "-----", '1' := ".----", '2' := "..---", '3' := "...--",
    '4' := "....-", '5' := ".....", '6' := "-....", '7' := "--...",
    '8' := "---..", '9' := "----."
  ]

  /** The keys of MorseCode in table order: the letters, then the figures. */
  const Alphabet: string := "ABCDEFGHIJKLMNOPQRSTUVWXYZ0123456789"

  /** An upper-case ASCII letter or a decimal figure. */
  predicate IsLetterOrFigure(c: char) {
    'A' <= c <= 'Z' || '0' <= c <= '9'
  }

  /** A Morse signal element: a dot or a dash. */
  predicate IsSignal(c: char) {
    c == '.' || c == '-'
  }

  /** A well-formed code: one to five dots and dashes, no gap inside. */
  predicate IsCode(s: string) {
    1 <= |s| <= 5 && forall i :: 0 <= i < |s| ==> IsSignal(s[i])
  }

  /** Position of a letter or figure in Alphabet. */
  function IndexOf(c: char): (i: nat)
    requires IsLetterOrFigure(c)
    ensures i < |Alphabet| && Alphabet[i] == c
  {
    AlphabetLayout();
    if '0' <= c <= '9' then 26 + (c as int - '0' as int) else c as int - 'A' as int
  }

  /** Alphabet holds the letters A-Z in order, then the figures 0-9 in order. */
  lemma AlphabetLayout()
    ensures |Alphabet| == 36
    ensures forall i :: 0 <= i < 26 ==> Alphabet[i] as int == 'A' as int + i
    ensures forall i :: 26 <= i < 36 ==> Alphabet[i] as int == '0' as int + (i - 26)
  {
  }

  /** Alphabet lists each character once. */
  lemma AlphabetDistinct()
    ensures forall i, j :: 0 <= i < j < |Alphabet| ==> Alphabet[i] != Alphabet[j]
  {
    AlphabetLayout();
  }

  /** Every character of Alphabet is a key of the table. */
  lemma AlphabetInKeys()
    ensures forall i :: 0 <= i < |Alphabet| ==> Alphabet[i] in MorseCode
  {
  }

  /** The table is keyed by exactly the letters A-Z and the figures 0-9. */
  lemma KeysAreLettersAndFigures()
    ensures forall c :: c in MorseCode <==> IsLetterOrFigure(c)
  {
    AlphabetInKeys();
    forall c | IsLetterOrFigure(c) ensures c in MorseCode {
      var i := IndexOf(c);
    }
  }

  /** Every key of the table stands somewhere in Alphabet. */
  lemma KeysInAlphabet()
    ensures forall c :: c in MorseCode ==> exists i :: 0 <= i < |Alphabet| && Alphabet[i] == c
  {
    KeysAreLettersAndFigures();
    forall c | c in MorseCode ensures exists i :: 0 <= i < |Alphabet| && Alphabet[i] == c {
      var i := IndexOf(c);
    }
  }

  /** A string with no repeated character has as many distinct characters as it is long. */
  lemma {:induction false} CardOfDistinct(s: string)
    requires forall i, j :: 0 <= i < j < |s| ==> s[i] != s[j]
    ensures |set i | 0 <= i < |s| :: s[i]| == |s|
  {
    if s != [] {
      var t := s[..|s| - 1];
      CardOfDistinct(t);
      var before := set i | 0 <= i < |t| :: t[i];
      assert (set i | 0 <= i < |s| :: s[i]) == before + {s[|s| - 1]};
      assert s[|s| - 1] !in before;
    }
  }

  /** There are 36 entries. */
  lemma KeyCount()
    ensures |MorseCode| == 36
  {
    KeysInAlphabet();
    AlphabetInKeys();
    AlphabetDistinct();
    assert MorseCode.Keys == set i | 0 <= i < |Alphabet| :: Alphabet[i];
    CardOfDistinct(Alphabet);
  }

  /** Every code is one to five dots and dashes. */
  lemma CodesWellFormed()
    ensures forall c :: c in MorseCode ==> IsCode(MorseCode[c])
  {
  }

  /** No two characters share a code, so a code identifies its character. */
  lemma CodesDistinct()
    ensures forall c, d :: c in MorseCode && d in MorseCode && c != d ==> MorseCode[c] != MorseCode[d]
  {
  }

  /** The first character of keys whose code is code, if any. */
  function FindCode(keys: string, code: string): (r: Option<char>)
    requires forall i :: 0 <= i < |keys| ==> keys[i] in MorseCode
    ensures r.Some? ==> r.value in MorseCode && MorseCode[r.value] == code
    ensures r.None? ==> forall i :: 0 <= i < |keys| ==> MorseCode[keys[i]] != code
  {
    if keys == [] then None
    else if MorseCode[keys[0]] == code then Some(keys[0])
    else FindCode(keys[1..], code)
  }

  /**
    Reverse lookup in the table: the character whose code is code, or None
    when code is not in the table.
   */
  function CharOf(code: string): (r: Option<char>)
    ensures r.Some? ==> r.value in MorseCode && MorseCode[r.value] == code
    ensures r.None? ==> forall c :: c in MorseCode ==> MorseCode[c] != code
  {
    AlphabetInKeys();
    KeysInAlphabet();
    FindCode(Alphabet, code)
  }

  /** Reverse lookup undoes the table: the code of c leads back to c. */
  lemma CharOfCode(c: char)
    requires c in MorseCode
    ensures CharOf(MorseCode[c]) == Some(c)
  {
    CodesDistinct();
  }
}
