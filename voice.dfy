/**
  The part of the voice callback (handleVoiceRequest) that is not I/O: the
  message is read from the query string, an empty or missing one is replaced
  by "Hello World", and the message is encoded and compiled into the
  response's Play elements.
 */
module Voice {

  import opened Encoder
  import opened Compiler

  /** The message played when the request carries none. */
  const DefaultMessage: string := "Hello World"

  /** A parsed query string: each parameter name with its values in order. */
  type Query = map<string, seq<string>>

  /** The first value of a query parameter, or "" when it has none. */
  function QueryGet(query: Query, key: string): string {
    if key in query && query[key] != [] then query[key][0] else ""
  }

  /** The message to play: the message parameter, or the default when it is empty or missing. */
  function MessageOf(query: Query): (message: string)
    ensures message != ""
    ensures QueryGet(query, "message") != "" ==> message == QueryGet(query, "message")
    ensures QueryGet(query, "message") == "" ==> message == DefaultMessage
  {
    var given := QueryGet(query, "message");
    if given == "" then DefaultMessage else given
  }

  /**
    The callback's response as the source builds it: the message, its Morse
    text, then the Play elements, one per character of that Morse text.
   */
  method HandleVoiceRequest(query: Query) returns (twiml: TwiML)
    ensures twiml.play == Compile(Encode(MessageOf(query)))
    ensures |twiml.play| == |Encode(MessageOf(query))|
  {
    var message := QueryGet(query, "message");
    if message == "" {
      message := "Hello World";
    }
    var morse := TextToMorse(message);
    twiml := MorseToTwiML(morse);
    EncodeIsMorse(message);
    CompileMorse(morse);
  }

  /** On any text, the pipeline yields exactly one Play element per character of the Morse text, in order. */
  lemma PipelineOnePlayPerSymbol(text: string)
    ensures IsMorse(Encode(text))
    ensures |Compile(Encode(text))| == |Encode(text)|
    ensures forall i :: 0 <= i < |Encode(text)| ==> Compile(Encode(text))[i] == Play(DigitsOf(Encode(text)[i]))
  {
    EncodeIsMorse(text);
    CompileMorse(Encode(text));
  }

  /** "HI" encodes to ".... .. " and plays four short tones, a pause, two short tones and a pause. */
  lemma HiExample()
    ensures Encode("HI") == ".... .. "
    ensures Compile(Encode("HI")) ==
      [Play("1"), Play("1"), Play("1"), Play("1"), Play("w"), Play("1"), Play("1"), Play("w")]
  {
    HiEncodes();
    HiCompiles();
  }

  /** The Morse text of "HI", from the codes of H and I. */
  lemma HiEncodes()
    ensures Encode("HI") == ".... .. "
  {
    assert "HI" == ['H'] + ['I'];
    EncodeAppend(['H'], ['I']);
    EncodeSingle('H');
    EncodeSingle('I');
  }

  /** The Play elements of ".... .. ", one per character. */
  lemma HiCompiles()
    ensures Compile(".... .. ") ==
      [Play("1"), Play("1"), Play("1"), Play("1"), Play("w"), Play("1"), Play("1"), Play("w")]
  {
    CompileMorse(".... .. ");
  }

  /** "SOS" encodes to "... --- ... ". */
  lemma SosExample()
    ensures Encode("SOS") == "... --- ... "
  {
    assert "SOS" == ['S'] + ['O'] + ['S'];
    EncodeAround(['S'], 'O', ['S']);
    EncodeSingle('S');
  }

  /** Empty text encodes to nothing and plays nothing. */
  lemma EmptyExample()
    ensures Encode("") == ""
    ensures Compile(Encode("")) == []
  {
  }
}
