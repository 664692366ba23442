# Puyopu64 password codec, modelled in Dafny

Puyopu64 translates puzzle-field passwords between two game dialects:

- the kana/full-width dialect of Puyo Puyo 7 and Puyo Puyo!! 20th (`Puyo20th`);
- the ASCII dialect of Puyo Puyo Puzzle Pop (`Pppp`).

Both dialects write the same data: a sequence of 6-bit values ("sextets"). The last sextet is a format discriminator: 0 means PLAIN and 2 means RLE. Each dialect spells a sextet with one symbol of its own 64-symbol alphabet.

This project models the codec in `docs/puyopu64.js`:

- the two alphabets and each dialect's spelling normaliser;
- decoding and encoding, with the kana dialect's printed layout;
- the format, cell-count and rule functions;
- the kana dialect's run-length re-encoder;
- the backward-scanning dialect detector;
- the pure translate step.

The project has six modules:

| file | module | contents |
|---|---|---|
| `common.dfy` | `Common` | `Option`, `Result`, the error kinds, sextet predicates |
| `alphabets.dfy` | `Alphabets` | the dialects, the alphabets, `indexOf`, the normalisers as per-character maps |
| `format_engine.dfy` | `FormatEngine` | format, cell count, rule; runs; the re-encoder and the method that runs it |
| `sextet_codec.dfy` | `SextetCodec` | decode (function and loop), encode, the layout replaces |
| `variant_detector.dfy` | `VariantDetector` | the detector's specification and its backward-scanning loop |
| `translator.dfy` | `Translator` | translation, and what a translated password decodes to |

The source's loops are methods, each proved equal to a specification function:

- `SextetCodec.Decode` equals `Decoded`;
- `FormatEngine.GetCellCount` equals `CellCount`;
- `FormatEngine.NormalizeSextetSequence` (with `ExpandRle` and `RunLengthEncode`) equals `Reencoded`;
- `VariantDetector.GetPasswordDecoder` equals `DetectedVariant`.

The lemmas then prove their properties about these specification functions. The source's objects hold no mutable state: its two password objects are singletons whose methods only compute. For that reason the model has no classes. The dialect is a `Variant` value passed to each operation.

### Re-encoder specification

The re-encoder is specified in closed form by `FormatEngine.Compress`. Let the greedy runs of the data be the runs the program builds: a run of one cell grows until it holds 64 units.

- When there are at least two runs and the RLE form (2 × runs + 1 sextets) is longer than the plain working sequence, the result is the plain working sequence.
- Otherwise the result is the RLE form.

`RunLengthEncode` carries the program's own early-abort check (`rle + 5 > plain` before each run is flushed). Its loop invariant shows that this check gives the same result as the closed form.

### Behaviour worth knowing

The model follows the code in each case.

- **Ties.** The check before each run is flushed (docs/puyopu64.js:219-223) returns plain only when the RLE form would be longer. The comment at docs/puyopu64.js:235 says the RLE form is returned when it stayed no longer than plain. A tie therefore gives RLE, and that is the code's own rule. `FormatEngine.ReencodedShorterForm` states it.
- **A single data sextet.** The comment at docs/puyopu64.js:235 promises an RLE result no longer than plain. A field of one data sextet breaks this: `[x, 0]` is re-encoded to `[x, 0, 2]`, one sextet longer than plain. The length check runs only between runs, and here there is only one run. `FormatEngine.ReencodedLength` states the exact bound, with this as its only exception.
- **Even-length RLE.** An RLE sequence of even length is read two ways:
  - `getCellCount` (docs/puyopu64.js:109-111) visits the odd positions, so it adds the discriminator itself as 2 + 1 = 3 units;
  - the expansion (docs/puyopu64.js:190) stops at `length - 2`, so it drops the value before the discriminator.
  
  Re-encoding therefore changes the cell count. `FormatEngine.EvenRleCellCount` exhibits this with `[5, 9, 7, 2]`. `getCellCount` reads (9 + 1) + (2 + 1) = 13 units, a count of 26. The value 7 is read by neither operation. The expansion writes 10 cells, and after re-encoding the count is 20. Cell-count preservation (`FormatEngine.ReencodedKeepsCellCount`) is proved for PLAIN and odd-length RLE.
- **Detection.** Reading a discriminator is not enough for a dialect to be detected. When both dialects read one, the dialect whose last recognised character comes later in the password wins (docs/puyopu64.js:265-287). `VariantDetector.LaterJudgeWins` exhibits this with `"Ａあ"`: the ASCII dialect decodes it to `[0]`, which ends in the PLAIN discriminator, yet the password is detected as kana, whose decoding `[40, 0]` also ends in one.

## Model

| member | source | states |
|---|---|---|
| Alphabets.PasswordChars | docs/puyopu64.js:4-8 | each dialect's alphabet has 64 symbols |
| Alphabets.AlphabetDistinct | docs/puyopu64.js:4-8 | the 64 symbols of each alphabet are pairwise distinct |
| Alphabets.Other | docs/puyopu64.js:346-349 | the target of a translation is the other dialect |
| Alphabets.IndexOf | docs/puyopu64.js:65 | indexOf gives -1 or a position inside the alphabet |
| Alphabets.IndexOfFirst | docs/puyopu64.js:65 | indexOf finds the first occurrence of the character, and gives -1 exactly when the character is absent |
| Alphabets.IndexOfSymbol | docs/puyopu64.js:65 | looking up the k-th symbol of an alphabet gives k, so symbols and sextets correspond one to one |
| Alphabets.SeparatorsNotSymbols | docs/puyopu64.js:4-8 | neither the space nor the line break the layout inserts is a symbol of either alphabet |
| Alphabets.KanaKeepsSymbols | docs/puyopu64.js:155-162 | the kana/full-width normaliser (`NormalizeChar`, `NormalizePassword`) leaves every symbol of its alphabet unchanged |
| Alphabets.AsciiKeepsSymbols | docs/puyopu64.js:246-256 | the ASCII normaliser leaves every symbol of its alphabet unchanged |
| Alphabets.KanaLandsInAlphabet | docs/puyopu64.js:155-162 | every character the kana/full-width normaliser rewrites lands in the kana/full-width alphabet |
| Alphabets.AsciiLandsInAlphabet | docs/puyopu64.js:246-256 | every character the ASCII normaliser rewrites lands in the ASCII alphabet |
| Alphabets.KanaCharIdempotent | docs/puyopu64.js:155-162 | `NormalizeChar`, the kana/full-width replace chain on one character, gives the same result when applied twice as once |
| Alphabets.AsciiCharIdempotent | docs/puyopu64.js:246-256 | the ASCII replace chain on one character gives the same result when applied twice as once |
| Alphabets.KanaPasswordIdempotent | docs/puyopu64.js:155-162 | `NormalizePassword` of the kana/full-width dialect is idempotent on whole passwords |
| Alphabets.AsciiPasswordIdempotent | docs/puyopu64.js:246-256 | `NormalizePassword` of the ASCII dialect is idempotent on whole passwords |
| Alphabets.KanaKeepsSeparators | docs/puyopu64.js:155-162 | the space and the line break pass through the kana/full-width normaliser unchanged |
| Alphabets.AsciiKeepsSeparators | docs/puyopu64.js:246-256 | the space and the line break pass through the ASCII normaliser unchanged |
| Alphabets.KanaNormalizerFoldsCase | docs/puyopu64.js:157-161 | the two kana/full-width replaces (`WidenLatin`, then `CapitalizeFullWidth`) turn a Latin letter other than O and Q into its full-width capital, whether it is written as a half-width capital, a half-width small letter or a full-width small letter; O and Q are left unchanged in every form |
| Alphabets.AsciiNormalizerNarrows | docs/puyopu64.js:250-255 | the two ASCII replaces (`NarrowFullWidth`, then `UnifyWaveDash`) read the full-width form of every ASCII symbol as the symbol itself, and the wave dash U+301C as the tilde |
| FormatEngine.GetFormat | docs/puyopu64.js:93-95 | the format is PLAIN iff the last sextet is 0, RLE iff it is 2, and none for an empty sequence or any other last sextet |
| FormatEngine.CellCount | docs/puyopu64.js:102-116 | the cell count fails, with an invalid-format error, exactly when the format is unknown; otherwise it is even |
| FormatEngine.GetCellCount | docs/puyopu64.js:102-116 | the program's loop over the odd positions computes the cell count |
| FormatEngine.GetRuleFromCellCount | docs/puyopu64.js:121-134 | a rule is found iff the cell count is 22, 78, 84 or 190; the rule's field size is the cell count; an unknown format and an unknown size give distinct errors |
| FormatEngine.RleRuns | docs/puyopu64.js:189-196 | the runs read from an RLE sequence hold sextet cells and 1 to 64 units each |
| FormatEngine.RleRunsOfRleSequence | docs/puyopu64.js:189-196 | writing valid runs as an RLE sequence and reading them back gives the same runs |
| FormatEngine.GreedyRuns | docs/puyopu64.js:213-232 | there are no more greedy runs than cells, and there are none exactly when there are no cells |
| FormatEngine.GreedyRunsValid | docs/puyopu64.js:213-228 | the greedy runs of sextets hold sextet cells and 1 to 64 units each |
| FormatEngine.RunsReadGreedy | docs/puyopu64.js:213-228 | after k cells, the runs the loop has read are the greedy runs of the first k cells |
| FormatEngine.ExpandPushCell | docs/puyopu64.js:214-228 | extending the last run or opening a new one appends exactly that cell to the expansion |
| FormatEngine.PushCellMaximal | docs/puyopu64.js:214-228 | adding a cell to valid, maximal runs leaves them maximal |
| FormatEngine.GreedyRunsMaximal | docs/puyopu64.js:213-217 | a greedy run is followed by a run of the same cell only when it is full (64 units) |
| FormatEngine.ExpandGreedyRuns | docs/puyopu64.js:209-236 | expanding the greedy runs gives the cells back |
| FormatEngine.PlainWorking | docs/puyopu64.js:184-197 | the plain working sequence consists of sextets, ends in the PLAIN discriminator, and has a data sextet when the input has field data |
| FormatEngine.CompressLossless | docs/puyopu64.js:209-236 | `Compress`, the closed form of the greedy encoder, yields a PLAIN or odd-length RLE sequence of sextets whose plain working sequence is its input |
| FormatEngine.RleFormLossless | docs/puyopu64.js:231-236 | the RLE form ends in the RLE discriminator, has odd length, and expands back to the plain sequence |
| FormatEngine.Reencoded | docs/puyopu64.js:174-237 | an unknown format passes through unchanged; otherwise the result has a known format and the same plain working sequence as the input (lossless re-expansion) |
| FormatEngine.NormalizeSextetSequence | docs/puyopu64.js:174-237 | the program's re-encoder returns the re-encoded sequence |
| FormatEngine.ExpandRle | docs/puyopu64.js:189-196 | the nested expansion loop writes out the runs the RLE sequence lists |
| FormatEngine.RunLengthEncode | docs/puyopu64.js:209-236 | the greedy loop with its early abort returns the closed-form compression of the plain sequence |
| FormatEngine.ReencodedIdempotent | docs/puyopu64.js:174-237 | re-encoding a re-encoded sequence changes nothing |
| FormatEngine.ReencodedShorterForm | docs/puyopu64.js:219-236 | the result is the shorter of the plain sequence and its greedy RLE form, ties and single-sextet fields going to RLE |
| FormatEngine.ReencodedLength | docs/puyopu64.js:219-223 | the result is never longer than the plain working sequence, except a one-sextet field, which grows from 2 to 3 sextets |
| FormatEngine.ReencodedRunsMaximal | docs/puyopu64.js:213-217 | an RLE result is made of maximal runs |
| FormatEngine.OddFieldSumRuns | docs/puyopu64.js:108-112 | for an odd-length sequence, the odd-position sum counted by getCellCount equals the number of units the expansion writes |
| FormatEngine.CellCountOfPlainWorking | docs/puyopu64.js:102-116 | the cell count of a PLAIN or odd-length RLE sequence is that of its plain working sequence |
| FormatEngine.RuleFollowsCellCount | docs/puyopu64.js:121-134 | two sequences with the same cell count get the same rule |
| FormatEngine.ReencodedKeepsCellCount | docs/puyopu64.js:102-134 | re-encoding a PLAIN or odd-length RLE sequence keeps its cell count and its rule |
| FormatEngine.EvenRleCellCount | docs/puyopu64.js:108-112 | for the even-length RLE sequence [5, 9, 7, 2] the cell count is 26 before re-encoding and 20 after |
| SextetCodec.Lookup | docs/puyopu64.js:62-72 | decoding keeps at most one value per character, each a position in the alphabet |
| SextetCodec.LookupAppend | docs/puyopu64.js:62-72 | the lookup of a concatenation is the concatenation of the lookups |
| SextetCodec.Decoded | docs/puyopu64.js:62-72 | every decoded value is a sextet, and there are no more values than characters |
| SextetCodec.Decode | docs/puyopu64.js:62-72 | the program's decoding loop computes the decoded sequence |
| SextetCodec.DecodeOneChar | docs/puyopu64.js:62-72 | decoding a one-character password gives that character's sextet, or nothing |
| SextetCodec.DecodeCharMeaning | docs/puyopu64.js:268-282 | `DecodeChar`, `decode(ch)[0]` as the detector calls it: a character has a sextet exactly when its normalised form is a symbol of the dialect's alphabet, and the sextet is that symbol's position (otherwise `undefined`) |
| SextetCodec.DecodedAppend | docs/puyopu64.js:62-72 | decoding a concatenation gives the concatenation of the decodings |
| SextetCodec.BlankIsSkipped | docs/puyopu64.js:62-72 | the space and every control character (U+0000–U+001F, DEL and the C1 controls U+0080–U+009F) stand for no sextet in either dialect |
| SextetCodec.DecodedSkips | docs/puyopu64.js:62-72 | inserting an unrecognised character, such as a space or a line break, anywhere leaves the decoding unchanged |
| SextetCodec.DecodeSymbol | docs/puyopu64.js:62-72 | the symbol of sextet k decodes to k |
| SextetCodec.Spell | docs/puyopu64.js:77-81 | spelling gives one symbol per sextet |
| SextetCodec.SpellRoundTrip | docs/puyopu64.js:77-81 | decoding the spelling of a sextet sequence gives the sequence back |
| SextetCodec.SpaceEveryFour | docs/puyopu64.js:167 | the space-inserting replace never shortens its input |
| SextetCodec.BreakEveryFourteen | docs/puyopu64.js:168 | the line-breaking replace keeps the length |
| SextetCodec.SpaceEveryFourChars | docs/puyopu64.js:167 | the space-inserting replace adds only spaces |
| SextetCodec.BreakEveryFourteenChars | docs/puyopu64.js:168 | the line-breaking replace adds only line breaks |
| SextetCodec.SpaceEveryFourDecodes | docs/puyopu64.js:167 | the space-inserting replace does not change the decoding |
| SextetCodec.BreakEveryFourteenDecodes | docs/puyopu64.js:168 | the line-breaking replace does not change the decoding |
| SextetCodec.LayoutKeepsSextets | docs/puyopu64.js:164-169 | the kana layout leaves the decoding unchanged and adds only spaces and line breaks |
| SextetCodec.SpaceEveryFourShape | docs/puyopu64.js:167 | spacing adds a quarter of the length; every fifth position holds a space and every other position j holds symbol j - j / 5 |
| SextetCodec.BreakEveryFourteenShape | docs/puyopu64.js:168 | with spaces at every fifth position, line breaking turns the space at each position 15k + 14 into a line break and keeps all else |
| SextetCodec.LayoutShape | docs/puyopu64.js:164-169 | `Layout`, the two replaces of the kana/full-width encode, prints the symbols in groups of four, three groups to a line: position j holds symbol j - j / 5, except that every fifth position holds a separator, a line break at 15k + 14 and a space elsewhere |
| SextetCodec.NormalizedSextets | docs/puyopu64.js:86-88 | the ASCII dialect's sequence normaliser is the identity, and both keep values in sextet range |
| SextetCodec.EncodeRoundTrip | docs/puyopu64.js:77-88 | decoding an encoded password gives the sequence itself in the ASCII dialect, and its re-encoding in the kana dialect |
| SextetCodec.KanaEncodeRoundTrip | docs/puyopu64.js:164-169 | `Encode` of the kana/full-width dialect, the spelling of the re-encoded sequence followed by the layout, decodes back to the re-encoded sequence |
| SextetCodec.EncodeWithoutFieldData | docs/puyopu64.js:231-234 | a kana password for a sequence without field data decodes to [0, 2] |
| VariantDetector.LastRecognized | docs/puyopu64.js:262-294 | gives the position of a character the dialect recognises, or -1 |
| VariantDetector.AfterLastRecognized | docs/puyopu64.js:262-294 | no character after that position is recognised |
| VariantDetector.DecodedDropsUnrecognized | docs/puyopu64.js:62-72 | a trailing character the dialect does not recognise changes neither the decoding nor the last recognised position |
| VariantDetector.LastOfDecoded | docs/puyopu64.js:262-294 | a password decodes to nothing iff no character is recognised; otherwise its last sextet is that of the last recognised character |
| VariantDetector.DetectedVariant | docs/puyopu64.js:262-294 | a detected dialect reads a discriminator at the end of the password; nothing is detected iff neither dialect does; a dialect that alone does is detected |
| VariantDetector.LaterJudgeWins | docs/puyopu64.js:265-287 | reading a discriminator is not enough to be detected: the ASCII dialect decodes "Ａあ" to [0], yet the password is detected as kana/full-width, whose judging character comes later |
| VariantDetector.JudgedAt | docs/puyopu64.js:268-276 | a dialect reads a discriminator iff its last recognised character stands for 0 or 2 |
| VariantDetector.GetPasswordDecoder | docs/puyopu64.js:262-294 | the program's backward scan with its two exclusion flags returns the detected dialect |
| VariantDetector.ScanStep | docs/puyopu64.js:266-287 | a character the scan reaches before the dialect is excluded is either unrecognised or the dialect's judging character |
| VariantDetector.ScanEnd | docs/puyopu64.js:293 | a dialect that recognises no character reads no discriminator |
| VariantDetector.JudgedNoLater | docs/puyopu64.js:262-294 | when one dialect recognises every character another recognises, its last recognised character, which judges it in the backward scan, comes no earlier |
| Translator.Transpile | docs/puyopu64.js:344-354 | translation fails, with the unrecognised-password error, exactly when no dialect is detected |
| Translator.AsciiDiscriminatorsInKana | docs/puyopu64.js:4-8 | the ASCII discriminator symbols are read by the kana dialect as sextets 40 and 42 |
| Translator.KanaReadsNoDiscriminator | docs/puyopu64.js:155-162 | the kana dialect reads no discriminator in a password ending in an ASCII discriminator |
| Translator.SpelledAsciiDetected | docs/puyopu64.js:262-294 | an ASCII password ending in a discriminator is detected as ASCII |
| Translator.KanaLayoutChars | docs/puyopu64.js:164-169 | every character of a printed kana password is a kana-dialect symbol, a space or a line break |
| Translator.SpelledKanaDetected | docs/puyopu64.js:262-294 | a printed kana password ending in a discriminator is detected as kana |
| Translator.TranspileDetectsTarget | docs/puyopu64.js:344-354 | a translated password is detected as written in the other dialect |
| Translator.TranspileKeepsSextets | docs/puyopu64.js:344-354 | a translated password decodes to the source sextets, re-encoded into the kana dialect; the plain working sequence is kept, and so are the cell count and rule of PLAIN and odd-length RLE sources |
| Translator.TranspileTwice | docs/puyopu64.js:344-354 | translating there and back gives a password of the original dialect that decodes to the re-encoded source sextets |

## Left out

- The page is not modelled. That covers the input and submit listeners, the status texts, the result field, `console.error` and the error messages (docs/puyopu64.js:304-338, 341-365). Translation returns a `Result` whose failure is the unrecognised-password error.
- `isPasswordPuyo7Compatible` (docs/puyopu64.js:296-301) is dead code: it assigns to a `const` loop variable and returns nothing.
- `updateCommentForSextetSequence` (docs/puyopu64.js:141-146) only clears a page element.
- `Puyopu64Error` (docs/puyopu64.js:40-41) and the `Puyo` cell enum (docs/puyopu64.js:25-37) are declared but never used.
- Rules are a plain enumeration; their Japanese display names are page text.
- The `try`/`catch` in the re-encoder (docs/puyopu64.js:184-207) is not modelled: `getFormat` never throws, so its handler never runs.
- Characters are Dafny `char`s (Unicode scalar values). `for…of` in decode iterates code points while `charAt` in the detector reads UTF-16 code units, and the model does not distinguish them. Every symbol of both alphabets is a single code unit, and a character outside the Basic Multilingual Plane is never a symbol in either reading.
- The regular-expression replaces are modelled as per-character maps for the normalisers and as recursive scans for the layout. No regular-expression engine is modelled. The case-insensitive class `[A-NPR-Z]` is modelled as the upper- and lower-case ASCII letters it covers.
- `charAt` on an index outside the alphabet is not modelled in general. It is reached only for a sequence without field data, where the program's `[-1, NaN, 2]` spells as symbols 0 and 2; `SextetCodec.Encode` writes that spelling directly.
- VariantDetector.DetectedVariant: its contract promises a dialect's detection only when the other dialect reads no discriminator. When both read one, the later judging character wins (the body states this rule). `VariantDetector.LaterJudgeWins` shows a password that decodes to a discriminated sequence in one dialect and is detected as the other.
- FormatEngine.Reencoded: requires field data (a PLAIN sequence with a data sextet, or an RLE sequence with a pair). Without it the program produces `[-1, NaN, 2]`, which is not a sextet sequence. That case is modelled only in `SextetCodec.Encode`, through its spelling.
- FormatEngine.NormalizeSextetSequence: has the same field-data precondition as `Reencoded`, for the same reason.
- FormatEngine.ReencodedKeepsCellCount: holds for PLAIN and odd-length RLE input only. `FormatEngine.EvenRleCellCount` shows an even-length RLE input whose cell count changes.
- Translator.TranspileKeepsSextets: covers sources with field data. A source without field data is translated to the kana password for `[0, 2]` (`SextetCodec.EncodeWithoutFieldData`).
- Translator.TranspileTwice: covers sources with field data, for the same reason.
