/**
  The Morse-to-TwiML compiler (morseToTwiML): one Play element per dot, dash
  or gap of the Morse text, in order, whose Digits attribute is "1" for a
  dot, "9" for a dash and "w" (a pause) for a gap; every other character is
  skipped.
 */
module Compiler {

  import opened Encoder
  import opened Concat

  /** One Play element of the call-control response; digits is its Digits attribute. */
  datatype Play = Play(digits: string)

  /** The call-control response: its Play elements in document order. */
  datatype TwiML = TwiML(play: seq<Play>)

  /** The Play elements one character of Morse text compiles to. */
  function PlaysFor(c: char): seq<Play> {
    if c == '.' then [Play("1")]
    else if c == '-' then [Play("9")]
    else if c == ' ' then [Play("w")]
    else []
  }

  /** The Play elements of a Morse text: those of its characters, in order. */
  function Compile(m: string): seq<Play> {
    FlatMap(PlaysFor, m)
  }

  /**
    The compiler as the source runs it: one pass over the Morse text that
    appends a Play element for each dot, dash or gap.
   */
  method MorseToTwiML(morse: string) returns (response: TwiML)
    ensures response.play == Compile(morse)
  {
    response := TwiML([]);
    for i := 0 to |morse|
      invariant response.play == FlatMap(PlaysFor, morse[..i])
    {
      match morse[i] {
        case '.' =>
          response := response.(play := response.play + [Play("1")]);
        case '-' =>
          response := response.(play := response.play + [Play("9")]);
        case ' ' =>
          response := response.(play := response.play + [Play("w")]);
        case _ =>
      }
      FlatMapStep(PlaysFor, morse, i);
    }
    assert morse[..|morse|] == morse;
  }

  /** The Digits value a dot, dash or gap stands for. */
  function DigitsOf(c: char): string
    requires c == '.' || c == '-' || c == ' '
  {
    match c
    case '.' => "1"
    case '-' => "9"
    case ' ' => "w"
  }

  /** Compiling distributes over concatenation of Morse texts. */
  lemma CompileAppend(m: string, n: string)
    ensures Compile(m + n) == Compile(m) + Compile(n)
  {
    FlatMapAppend(PlaysFor, m, n);
  }

  /** Exactly one Play element per dot, dash or gap of the input, whatever else it holds. */
  lemma {:induction false} CompileCount(m: string)
    ensures |Compile(m)| == multiset(m)['.'] + multiset(m)['-'] + multiset(m)[' ']
    decreases |m|
  {
    if m != [] {
      var m' := m[..|m| - 1];
      assert m == m' + [m[|m| - 1]];
      CompileCount(m');
      assert Compile(m) == Compile(m') + PlaysFor(m[|m| - 1]);
    }
  }

  /** Every Play element is a short tone, a long tone or a pause. */
  lemma {:induction false} CompileDigits(m: string)
    ensures forall i :: 0 <= i < |Compile(m)| ==>
      Compile(m)[i].digits == "1" || Compile(m)[i].digits == "9" || Compile(m)[i].digits == "w"
    decreases |m|
  {
    if m != [] {
      CompileDigits(m[..|m| - 1]);
      assert Compile(m) == Compile(m[..|m| - 1]) + PlaysFor(m[|m| - 1]);
    }
  }

  /**
    On a Morse text the compiler is one-to-one and keeps order: Play element
    i has the Digits value of character i.
   */
  lemma {:induction false} CompileMorse(m: string)
    requires IsMorse(m)
    ensures |Compile(m)| == |m|
    ensures forall i :: 0 <= i < |m| ==> Compile(m)[i] == Play(DigitsOf(m[i]))
    decreases |m|
  {
    if m != [] {
      var m' := m[..|m| - 1];
      assert IsMorse(m');
      CompileMorse(m');
      assert Compile(m) == Compile(m') + PlaysFor(m[|m| - 1]);
    }
  }
}
