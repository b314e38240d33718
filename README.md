# Morse over the phone: a verified model of the encoding core

The service takes a text message, places a phone call, and when the call is
answered plays the message as Morse code. It returns a TwiML document of
`Play` elements, one per tone or pause. The `Digits` attribute of each
element is `"1"` for a short tone, `"9"` for a long tone and `"w"` for a pause.

This project models the part of `main.go` that does the encoding:

- `MorseTable` holds the `MorseCode` table: 36 entries, `A`-`Z` and `0`-`9`,
  each mapped to its International Morse code (Recommendation ITU-R M.1677-1,
  Part I, sections 1.1.1 and 1.1.2). `CharOf` is a reverse lookup. The source
  has no reverse lookup; it is used only to state that the table is invertible.
- `Concat` defines `FlatMap`: each element of a sequence is mapped to a
  piece, and the pieces are joined in order. Both stages of the pipeline have
  this shape, so their append and step lemmas are proved once, here.
- `Encoder` models `textToMorse`. The text is upper-cased. A letter or figure
  becomes its code followed by one `' '`. A space becomes `"  "`. Every other
  character is dropped. `Encode` is the specification: `FlatMap` of
  `Contribution` over the upper-cased text.
  `TextToMorse` is the loop with an accumulator, as the source runs it, and
  is proved equal to `Encode`.
- `Decoder` is a decoder for the encoder's output. The service has none. It
  is the inverse that the round-trip lemma `DecodeEncode` proves the encoder
  against.
- `Compiler` models the `Play`/`TwiML` types and `morseToTwiML`. `Compile`
  is the specification: `FlatMap` of `PlaysFor` over the Morse text.
  `MorseToTwiML` is the loop with `append` and the `switch`, and is proved
  equal to `Compile`.
- `Voice` models the part of `handleVoiceRequest` that is not I/O. It reads
  the `message` query parameter, replaces an empty one with `"Hello World"`,
  then encodes and compiles.

The source has no separate word-gap token. A space is two `' '`
characters, and each one becomes a `"w"` pause. A letter followed by a space
therefore gives three pauses in a row. Every letter is followed by a pause,
including the last one. So `"HI"` gives eight `Play` elements
(`1 1 1 1 w 1 1 w`), not seven. A description of the system that asks for a
single word-gap pause and no trailing gap disagrees with the code here. The
model follows the code.

## Model

| member | source | states |
|---|---|---|
| MorseTable.KeysAreLettersAndFigures | main.go:20-31 | a character is a key of the table exactly when it is an upper-case letter A-Z or a figure 0-9 |
| MorseTable.KeyCount | main.go:20-31 | the table has exactly 36 entries |
| MorseTable.CodesWellFormed | main.go:20-31 | every code is one to five characters, each a dot or a dash |
| MorseTable.CodesDistinct | main.go:20-31 | no two keys share a code |
| MorseTable.CharOfCode | main.go:20-31 | reverse lookup of the code of c gives back c, so the table is invertible |
| Encoder.TextToMorse | main.go:42-53 | the accumulator loop over the upper-cased text returns exactly the specified encoding of the text |
| Encoder.EncodeAppend | main.go:43-52 | encoding works character by character: the encoding of s + t is the encoding of s followed by that of t |
| Encoder.EncodeChar | main.go:45-51 | one character contributes its upper-case form's code plus one gap if that form is in the table, two gaps if it is a space, and nothing otherwise |
| Encoder.EncodeIsMorse | main.go:42-53 | the output holds only dots, dashes and gaps; it is empty or ends in a gap; it is at most six characters per input character |
| Encoder.EncodeCaseInsensitive | main.go:44 | a text encodes exactly as its upper-cased form does |
| Encoder.LowerEncodesAsUpper | main.go:44-47 | a lower-case ASCII letter anywhere in the text encodes exactly like its upper-case form |
| Encoder.DropUnmapped | main.go:45-51 | a character that is neither a key nor a space can be removed from the text without changing the encoding; no error is raised |
| Decoder.DecodeEncode | main.go:42-53 | decoding the encoding of any text gives back the text upper-cased, with the dropped characters removed |
| Decoder.EncodeSameIff | main.go:42-53 | two texts encode the same exactly when they are equal after upper-casing and removing dropped characters |
| Compiler.MorseToTwiML | main.go:55-68 | the append loop with the switch returns exactly the specified Play list of the Morse text |
| Compiler.CompileAppend | main.go:57-66 | compiling works character by character: the Play list of m + n is that of m followed by that of n |
| Compiler.CompileCount | main.go:57-66 | the number of Play elements equals the number of dots, dashes and gaps in the input; all other characters are skipped |
| Compiler.CompileDigits | main.go:57-66 | every Play element has Digits "1", "9" or "w" |
| Compiler.CompileMorse | main.go:57-66 | on a Morse text there is one Play element per character, in input order: "1" for a dot, "9" for a dash, "w" for a gap |
| Voice.MessageOf | main.go:101-104 | the message is never empty: a non-empty message parameter is kept unchanged, and an empty or missing one becomes "Hello World" |
| Voice.HandleVoiceRequest | main.go:100-106 | the response's Play list is the compilation of the encoding of the chosen message, with one Play element per Morse character |
| Voice.PipelineOnePlayPerSymbol | main.go:105-106 | for any text, the encoder's output is a Morse text, and compiling it gives one Play element per character, in order |
| Voice.HiExample | main.go:42-66 | "HI" encodes to ".... .. " and compiles to Digits 1,1,1,1,w,1,1,w |
| Voice.SosExample | main.go:42-53 | "SOS" encodes to "... --- ... " |
| Voice.EmptyExample | main.go:42-66 | the empty text encodes to the empty string and compiles to no Play elements |

## Left out

- Encoder.ToUpper: models `strings.ToUpper` for ASCII only (`a`-`z` to `A`-`Z`). Non-ASCII case mappings are library behaviour. Some of them turn a character into a table key (U+017F to `S`, U+0131 to `I`), and the model does not capture this.
- Decoding of the Go string into runes by `range` is not modelled. Input is a sequence of characters, so invalid UTF-8, which Go reads as U+FFFD and then drops, does not arise.
- The `strings.Builder` in `textToMorse` is modelled as a string accumulator that is reassigned.
- XML serialisation of the `TwiML` value (`encoding/xml`, the `Response` element name and the `Content-Type` header) is a library serializer. The model stops at the ordered list of `Play` elements.
- `handleIndex`, `handleSubmit`, `main` and the HTTP routing are I/O plumbing.
- The Twilio REST client, call placement and `url.QueryEscape` are foreign network and library calls.
- HTML template loading and `.env` loading are filesystem and library I/O.
- Voice.QueryGet models `url.Values.Get` as the first value of the parameter, or `""` when it has none. Parsing of the raw query string is not modelled.
