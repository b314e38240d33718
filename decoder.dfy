/**
  A decoder for the encoder's Morse text. The service has no decoder; this one
  is the inverse against which the encoder is checked: decoding an encoding
  gives back the upper-cased text without the dropped characters, so the
  encoder loses nothing but case and unmapped characters.
 */
module Decoder {

  import opened Wrappers
  import opened MorseTable
  import opened Encoder
  import opened Concat

  /** Whether the encoder keeps an upper-cased character. */
  predicate Kept(c: char) {
    c in MorseCode || c == ' '
  }

  /** An upper-case text with the characters the encoder drops removed. */
  function KeepMapped(s: string): (r: string)
    ensures |r| <= |s|
    ensures forall i :: 0 <= i < |r| ==> Kept(r[i])
  {
    if s == [] then ""
    else (if Kept(s[0]) then [s[0]] else []) + KeepMapped(s[1..])
  }

  /** What the encoder keeps of a text: its upper-case form without unmapped characters. */
  function Normalize(text: string): string {
    KeepMapped(ToUpper(text))
  }

  /** Length of the run of dots and dashes at the front of m. */
  function SignalRun(m: string): (k: nat)
    ensures k <= |m|
    ensures forall i :: 0 <= i < k ==> IsSignal(m[i])
    ensures k < |m| ==> !IsSignal(m[k])
  {
    if m == [] || !IsSignal(m[0]) then 0 else 1 + SignalRun(m[1..])
  }

  /**
    Reads a Morse text back: a run of dots and dashes closed by one gap is a
    letter or figure, two gaps where a code would start are a space; anything
    else is malformed.
   */
  function Decode(m: string): Option<string>
    decreases |m|
  {
    if m == [] then Some("")
    else if m[0] == ' ' then
      if |m| >= 2 && m[1] == ' ' then
        match Decode(m[2..])
        case Some(rest) => Some(" " + rest)
        case None => None
      else None
    else
      var k := SignalRun(m);
      if k == 0 || k == |m| || m[k] != ' ' then None
      else
        match CharOf(m[..k])
        case None => None
        case Some(c) =>
          match Decode(m[k + 1..])
          case Some(rest) => Some([c] + rest)
          case None => None
  }

  /** The run at the front of a code followed by a gap is the whole code. */
  lemma {:induction false} SignalRunOfCode(code: string, rest: string)
    requires forall i :: 0 <= i < |code| ==> IsSignal(code[i])
    ensures SignalRun(code + " " + rest) == |code|
  {
    if code != [] {
      assert (code + " " + rest)[1..] == code[1..] + " " + rest;
      SignalRunOfCode(code[1..], rest);
    }
  }

  /** A letter's or figure's code closed by a gap decodes to that character. */
  lemma DecodeCodeThen(c: char, rest: string, r: string)
    requires c in MorseCode && Decode(rest) == Some(r)
    ensures Decode(MorseCode[c] + " " + rest) == Some([c] + r)
  {
    var code := MorseCode[c];
    var m := code + " " + rest;
    CodesWellFormed();
    SignalRunOfCode(code, rest);
    assert m[..|code|] == code;
    assert m[|code| + 1..] == rest;
    CharOfCode(c);
  }

  /** Two gaps where a code would start decode to a space. */
  lemma DecodeGapsThen(rest: string, r: string)
    requires Decode(rest) == Some(r)
    ensures Decode("  " + rest) == Some(" " + r)
  {
    var m := "  " + rest;
    assert m[0] == ' ' && m[1] == ' ' && m[2..] == rest;
  }

  /** Decoding undoes the encoding of an upper-case text, up to the dropped characters. */
  lemma {:induction false} DecodeFlatMap(s: string)
    ensures Decode(FlatMap(Contribution, s)) == Some(KeepMapped(s))
    decreases |s|
  {
    if s != [] {
      var c := s[0];
      var rest := FlatMap(Contribution, s[1..]);
      FlatMapFront(Contribution, s);
      DecodeFlatMap(s[1..]);
      if c in MorseCode {
        DecodeCodeThen(c, rest, KeepMapped(s[1..]));
      } else if c == ' ' {
        DecodeGapsThen(rest, KeepMapped(s[1..]));
      } else {
        assert FlatMap(Contribution, s) == rest;
        assert KeepMapped(s) == KeepMapped(s[1..]);
      }
    }
  }

  /** Round trip: the decoding of a text's Morse code is the text, upper-cased, without unmapped characters. */
  lemma DecodeEncode(text: string)
    ensures Decode(Encode(text)) == Some(Normalize(text))
  {
    DecodeFlatMap(ToUpper(text));
  }

  /** Dropping unmapped characters first does not change the encoding. */
  lemma {:induction false} FlatMapKeepMapped(s: string)
    ensures FlatMap(Contribution, KeepMapped(s)) == FlatMap(Contribution, s)
    decreases |s|
  {
    if s != [] {
      var rest := s[1..];
      FlatMapFront(Contribution, s);
      FlatMapKeepMapped(rest);
      if Kept(s[0]) {
        assert KeepMapped(s) == [s[0]] + KeepMapped(rest);
        FlatMapAppend(Contribution, [s[0]], KeepMapped(rest));
        FlatMapSingle(Contribution, s[0]);
      } else {
        assert KeepMapped(s) == KeepMapped(rest);
        assert Contribution(s[0]) == "";
      }
    }
  }

  /**
    Two texts have the same Morse code exactly when they agree once
    upper-cased and stripped of unmapped characters.
   */
  lemma EncodeSameIff(s: string, t: string)
    ensures Encode(s) == Encode(t) <==> Normalize(s) == Normalize(t)
  {
    DecodeEncode(s);
    DecodeEncode(t);
    FlatMapKeepMapped(ToUpper(s));
    FlatMapKeepMapped(ToUpper(t));
  }
}
