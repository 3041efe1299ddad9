# piyo2/str in Dafny

This project models `piyo2\util\Str` and `piyo2\util\StrFilter`, a PHP library that cleans up user-supplied text. The two classes work together:

- `StrFilter` holds the text primitives:
  - selective NFC normalisation that fails closed on malformed UTF-8;
  - newline normalisation;
  - stripping of control and writing-direction characters;
  - tab and newline replacement;
  - trimming;
  - case mapping;
  - half-width/full-width and hiragana/katakana conversion.
- `Str` collects primitives and caller-supplied callables in a list. `applyTo` folds that list over a string.

The modules:

- `Wrappers`: `Option`.
- `Unicode`: code points, text, and `UnicodeData`. `UnicodeData` stands for the host's Unicode services: ICU NFC, `\p{C}`, `\s` in PCRE's Unicode mode, `mb_strtoupper`/`mb_strtolower` and `mb_convert_kana`. Every operation that needs one of these receives it as a parameter.
- `Utf8`: UTF-8 as section 4 of RFC 3629 defines it.
  - The grammar, a decoder, and the encoder of section 3.
  - Decoding succeeds exactly on well-formed input.
  - Encoding and decoding are inverse in both directions.
- `StrTr`: PHP's `strtr` with an array table.
  - At each position the longest key wins, and replaced text is never rescanned.
  - Under a separation condition, no key remains afterwards.
  - With one-symbol keys, `strtr` reduces to a symbol-by-symbol replacement.
- `StrFilter`: the primitives.
  - `normalize` works on bytes: malformed input gives the empty string; everything else is decoded, its runs between composition exclusions go to NFC, and the result is encoded again.
  - The other primitives work on decoded text.
- `StrBuilder`: the filter chain.
  - `Prim`/`Stage`: named primitives and user callables.
  - `ApplyStage`: one `call_user_func`.
  - `Run`: the fold.
  - The class `Str`: its `filters` list, the builder methods, and `ApplyTo` as a loop proved equal to `Run`.

A PHP string is a byte sequence (`Utf8.Bytes`). Decoding happens at each named stage; ill-formed bytes there mean the stage raises (see Left out), except at `normalize`, which returns the empty string for them.

## Model

| member | source | states |
|---|---|---|
| `Utf8.DecodeChar` | src/StrFilter.php:36-42 | a decoded character is 1 to 4 bytes long and lies within the input |
| `Utf8.DecodeDefinedIffWellFormed` | src/StrFilter.php:36-42 | the decoder the `/u` patterns rely on succeeds exactly on input that follows the RFC 3629 grammar |
| `Utf8.DecodeEncode` | src/StrFilter.php:36-42 | decoding the encoding of any text gives that text back |
| `Utf8.DecodeCons` | src/StrFilter.php:36-42 | proof step for `EncodeDecode`: decoding a non-empty string reads one character at its head and decodes the rest |
| `Utf8.EncodeCons` | src/StrFilter.php:36-42 | proof step for `EncodeDecode`: a text encodes as its first code point's bytes followed by the encoding of the rest |
| `Utf8.EncodeJoin` | src/StrFilter.php:36-42 | proof step for `EncodeDecode`: bytes made of an encoded code point and an encoded text are the encoding of their concatenation |
| `Utf8.EncodeDecode` | src/StrFilter.php:36-42 | encoding what was decoded gives the original bytes back, so decoding in a stage loses nothing |
| `Utf8.EncodeWellFormed` | src/StrFilter.php:36-42 | what a stage writes back is always well-formed UTF-8 |
| `Utf8.Encode` | src/StrFilter.php:36-42 | every code point takes at least one byte of the encoding |
| `Utf8.EncodeChar` | src/StrFilter.php:36-42 | one code point encodes to 1 to 4 bytes |
| `Utf8.DecodeEncodeChar` | src/StrFilter.php:36-42 | a single encoded code point decodes to itself, with its width |
| `Utf8.EncodeDecodeChar` | src/StrFilter.php:36-42 | a decoded character re-encodes to exactly its bytes |
| `Utf8.CharWidthUnique` | src/StrFilter.php:36-42 | a well-formed byte sequence starts with a character of only one width |
| `Utf8.DecodeCharAgrees` | src/StrFilter.php:36-42 | the bit-pattern decoder accepts a prefix exactly when the grammar does, with the same width |
| `Utf8.NoForbiddenOctet` | tests/StrFilterTest.php:93-111 | the octets C0, C1 and F5 to FF never occur in well-formed input, so inputs holding them are rejected |
| `StrTr.LongestKey` | src/StrFilter.php:108 | the longest key of the table that is a prefix, up to a bound, or 0 if none |
| `StrTr.StrTr` | src/StrFilter.php:108 | no contract of its own; `LongestKeyWins`, `NoKeyCopies` and `KeyFreeUnchanged` fix it completely, and `NoKeyRemains` and `SingleSymbolKeys` give its meaning |
| `StrTr.StrTrKeepsLength` | src/StrFilter.php:87 | a table whose values are as long as their keys, such as the quote table, keeps the length of the string |
| `StrTr.LongestKeyWins` | src/StrFilter.php:108 | when `k` is the longest key at the front, it is replaced and scanning resumes after it |
| `StrTr.NoKeyCopies` | src/StrFilter.php:108 | where no key matches, one symbol is copied unchanged |
| `StrTr.KeyFreeUnchanged` | src/StrFilter.php:108 | a string containing no key is returned unchanged |
| `StrTr.CopiedPrefix` | src/StrFilter.php:108 | under a key/value separation, an output prefix made of key symbols is a copied input prefix |
| `StrTr.NoKeyRemains` | src/StrFilter.php:108 | under a key/value separation, no key of the table occurs anywhere in the output |
| `StrTr.SingleSymbolKeys` | src/StrFilter.php:87 | with one-symbol keys only, strtr is a symbol-by-symbol replacement |
| `StrFilter.Span` | src/StrFilter.php:71 | the longest prefix whose code points all satisfy the class, and the next one fails it |
| `StrFilter.TrailingSpan` | src/StrFilter.php:71 | the longest suffix whose code points all satisfy the class, and the one before fails it |
| `StrFilter.Remove` | src/StrFilter.php:66 | no deleted code point remains, each remaining one comes from the input, and every code point not deleted keeps its count |
| `StrFilter.RemoveConcat` | src/StrFilter.php:66 | deleting code points commutes with concatenation |
| `StrFilter.RemoveNothing` | src/StrFilter.php:66 | deleting nothing leaves the text as it is |
| `StrFilter.RemoveAll` | src/StrFilter.php:51 | a run made only of deleted code points disappears |
| `StrFilter.Substitute` | src/StrFilter.php:56 | same length; each position holds the replacement where the input held the searched code point, the input code point elsewhere |
| `StrFilter.SpanStopsInside` | src/StrFilter.php:11 | a run of the class that ends inside `a` does not depend on what follows `a` |
| `StrFilter.SpanStopsAt` | src/StrFilter.php:11 | a run of the class that covers `a` ends at a code point outside the class that follows it |
| `StrFilter.NormalizeRuns` | src/StrFilter.php:39-41 | a text with no composable code point contains no match and is returned unchanged |
| `StrFilter.Normalize` | src/StrFilter.php:36-42 | the output is always well-formed; malformed input gives the empty string; well-formed input gives the encoding of the text with its runs normalised |
| `StrFilter.RunIsNormalizedWhole` | src/StrFilter.php:39-41 | a text with no excluded code point is one match, handed to NFC whole |
| `StrFilter.RunsSplitAtExclusion` | src/StrFilter.php:11 | an excluded code point is kept in place and splits the text into parts normalised independently |
| `StrFilter.RunInside` | src/StrFilter.php:39-41 | a match that ends inside `a` goes to NFC whole, whatever follows `a` |
| `StrFilter.RunEndsAt` | src/StrFilter.php:39-41 | a match that covers `a` ends at the excluded code point after it, and `a` alone is one match |
| `StrFilter.TwoExclusions` | src/StrFilter.php:39-41 | two excluded code points between non-empty composable runs cut the text into three matches, each normalised whole, the excluded ones kept in place |
| `StrFilter.SampleExclusions` | src/StrFilter.php:11 | U+FA45 and U+FA19 are in the exclusion class |
| `StrFilter.SampleComposable` | src/StrFilter.php:11 | U+6D77, U+795E and the space are not in the exclusion class |
| `StrFilter.KeepsCompatibilityIdeographs` | tests/StrFilterTest.php:37-41 | in the test string the ideographs U+FA45 and U+FA19 are kept and only the runs beside them reach NFC |
| `StrFilter.RejectsStrayBytes` | tests/StrFilterTest.php:93-97 | the test input with the stray bytes 92 and FF normalises to the empty string |
| `StrFilter.RejectsOverlongForms` | tests/StrFilterTest.php:99-111 | the overlong two-, three- and four-byte test forms of U+0032 normalise to the empty string |
| `StrFilter.ReplaceLineBreaks` | src/StrFilter.php:15 | the output is no longer than the input and holds no line break other than the replacement |
| `StrFilter.NormalizeNewlines` | src/StrFilter.php:44-47 | no CR, U+2028 or U+2029 remains |
| `StrFilter.NoNewlines` | src/StrFilter.php:59-62 | no line break of any kind remains |
| `StrFilter.CrLfIsOneBreak` | src/StrFilter.php:15 | CR LF is one match and gives one replacement; a CR not followed by LF is a match of its own |
| `StrFilter.OtherBreaksAreOne` | src/StrFilter.php:15 | LF, U+2028 and U+2029 are each one match and give exactly one replacement; a code point that is no line break is copied unchanged |
| `StrFilter.NormalizeNewlinesFixesLf` | src/StrFilter.php:44-47 | text whose only line breaks are LFs comes back unchanged |
| `StrFilter.NormalizeNewlinesIdempotent` | src/StrFilter.php:44-47 | normalizeNewlines applied twice equals applied once |
| `StrFilter.NoNewlinesIsSpacedNormalize` | src/StrFilter.php:59-62 | noNewlines puts a space exactly where normalizeNewlines puts an LF |
| `StrFilter.NormalizeNewlinesKeepsText` | src/StrFilter.php:44-47 | apart from line breaks, every code point is kept in order |
| `StrFilter.NoControlCharacters` | src/StrFilter.php:49-52 | the result is no longer than the input and holds no stripped control |
| `StrFilter.NoControlCharactersRemoves` | src/StrFilter.php:49-52 | deleting runs of the class equals deleting its code points one by one, keeping all others in order |
| `StrFilter.NoControlCharactersContents` | src/StrFilter.php:13 | no category-C code point other than TAB, LF and CR remains, and every other code point keeps its count |
| `StrFilter.NoControlCharactersIdempotent` | src/StrFilter.php:49-52 | noControlCharacters applied twice equals applied once |
| `StrFilter.NoTabs` | src/StrFilter.php:54-57 | same length, and no TAB remains |
| `StrFilter.NoTabsContents` | src/StrFilter.php:54-57 | same length, no TAB remains, each TAB became a space and no other position changed |
| `StrFilter.NoTabsIdempotent` | src/StrFilter.php:54-57 | noTabs applied twice equals applied once |
| `StrFilter.NoWritingDirections` | src/StrFilter.php:64-67 | no direction control remains, and each remaining code point comes from the input |
| `StrFilter.NoWritingDirectionsContents` | src/StrFilter.php:64-67 | no U+200E, U+200F or U+202A to U+202E remains, and every other code point keeps its count |
| `StrFilter.IsolatesPassThrough` | src/StrFilter.php:17 | the isolates U+2066 to U+2069 are outside the class and pass through |
| `StrFilter.Trim` | src/StrFilter.php:69-72 | the result neither starts nor ends with white space |
| `StrFilter.TrimIsSlice` | src/StrFilter.php:71 | the result is one contiguous slice of the input with only white space cut on either side, so the interior is unchanged |
| `StrFilter.TrimIdempotent` | src/StrFilter.php:69-72 | trim applied twice equals applied once |
| `StrFilter.QuotesSeparateKeys` | src/StrFilter.php:87 | the quote table's outputs share no code point with its keys |
| `StrFilter.KatakanaHiraganaSeparatesKeys` | src/StrFilter.php:19-26 | KATAKANA_HIRAGANA_MAP's outputs share no code point with its keys |
| `StrFilter.HiraganaKatakanaSeparatesKeys` | src/StrFilter.php:28-34 | HIRAGANA_KATAKANA_MAP's outputs share no code point with its keys |
| `StrFilter.Hankaku` | src/StrFilter.php:84-88 | no fullwidth quotation mark or apostrophe remains after the conversion |
| `StrFilter.Hiragana` | src/StrFilter.php:105-110 | no key of KATAKANA_HIRAGANA_MAP occurs in the result |
| `StrFilter.Katakana` | src/StrFilter.php:112-117 | no key of HIRAGANA_KATAKANA_MAP occurs in the result |
| `StrFilter.HankakuQuotePass` | src/StrFilter.php:87 | the quote pass maps U+FF02 to `"` and U+FF07 to `'`, keeps the length and touches nothing else |
| `StrFilter.QuoteCharwise` | src/StrFilter.php:87 | the symbol-by-symbol form of the quote table has that positionwise effect |
| `StrFilter.VoicedUMatchedWhole` | src/StrFilter.php:20 | the two-code-point key う゛ is replaced as a whole by ゔ, even though no shorter key matches its prefix |
| `StrFilter.KanaTablesInverse` | src/StrFilter.php:19-34 | HIRAGANA_KATAKANA_MAP is exactly the inverse of the one-code-point entries of KATAKANA_HIRAGANA_MAP |
| `StrBuilder.ApplyStage` | src/Str.php:35 | named stages only ever yield well-formed UTF-8; normalize never raises; another primitive raises exactly on malformed input; a callable's result is passed on |
| `StrBuilder.Run` | src/Str.php:34-36 | a chain that ends with a named primitive, and does not raise, yields well-formed UTF-8 |
| `StrBuilder.RunAppend` | src/Str.php:34-36 | running two lists one after the other equals running their concatenation |
| `StrBuilder.DefaultFilters` | src/Str.php:17-24 | the default chain starts with normalize |
| `StrBuilder.NamedStagesKeepWellFormed` | src/Str.php:34-36 | named primitives on well-formed input never raise and keep it well-formed |
| `StrBuilder.NamedChainNeverRaises` | src/Str.php:32-38 | a chain of named primitives that starts with normalize never raises on any bytes and yields well-formed UTF-8 |
| `StrBuilder.MalformedInputContinuesEmpty` | src/Str.php:19 | after a leading normalize, malformed input continues through the chain as the empty string |
| `StrBuilder.DefaultsFailClosed` | src/Str.php:17-24 | with the default filters, malformed input yields the empty string |
| `StrBuilder.DefaultsCleanText` | src/Str.php:20-23 | the default filters without retained controls yield well-formed text with no CR, U+2028, U+2029 or stripped control |
| `StrBuilder.Str.constructor` | src/Str.php:17-24 | installs normalize, then normalizeNewlines and noControlCharacters unless control characters are retained |
| `StrBuilder.Str.ApplyTo` | src/Str.php:32-38 | the result is the fold of the filter list over the input; a null input raises |
| `StrBuilder.Str.Fn` | src/Str.php:46-53 | appends the callable and nothing else; returns the same object |
| `StrBuilder.Str.Normalize` | src/Str.php:55-59 | appends normalize; returns the same object |
| `StrBuilder.Str.NormalizeNewlines` | src/Str.php:61-65 | appends normalizeNewlines; returns the same object |
| `StrBuilder.Str.NoControlCharacters` | src/Str.php:67-71 | appends noControlCharacters; returns the same object |
| `StrBuilder.Str.NoTabs` | src/Str.php:73-77 | appends noTabs; returns the same object |
| `StrBuilder.Str.NoNewlines` | src/Str.php:79-83 | appends noNewlines; returns the same object |
| `StrBuilder.Str.NoWritingDirections` | src/Str.php:85-89 | appends noWritingDirections; returns the same object |
| `StrBuilder.Str.Trim` | src/Str.php:91-95 | appends trim; returns the same object |
| `StrBuilder.Str.Upper` | src/Str.php:97-101 | appends upper; returns the same object |
| `StrBuilder.Str.Lower` | src/Str.php:103-107 | appends lower; returns the same object |
| `StrBuilder.Str.Hankaku` | src/Str.php:109-113 | appends hankaku; returns the same object |
| `StrBuilder.Str.HankakuAlpha` | src/Str.php:115-119 | appends hankakuAlpha; returns the same object |
| `StrBuilder.Str.HankakuDigits` | src/Str.php:121-125 | appends hankakuDigits; returns the same object |
| `StrBuilder.Str.NoHankakuKana` | src/Str.php:127-131 | appends noHankakuKana; returns the same object |
| `StrBuilder.Str.Hiragana` | src/Str.php:133-137 | appends hiragana; returns the same object |
| `StrBuilder.Str.Katakana` | src/Str.php:139-143 | appends katakana; returns the same object |

## Left out

- Unicode services (ICU NFC, `\p{C}`, `\s`, `mb_strtoupper`, `mb_strtolower`, `mb_convert_kana`): these are foreign calls. They are parameters of every operation, so `upper`, `lower`, `hankakuAlpha`, `hankakuDigits` and `noHankakuKana` carry no contract of their own. The test vectors that depend on them are not modelled. This covers case mapping, kana conversion, the combining-sequence test for ゔ, and the pass-through of the full-width letters ヷヸヹヺ (U+30F7 to U+30FA).
- NFC idempotence: it is a property of ICU, not of this library.
- Malformed input to primitives other than `normalize`: it is modelled as the stage raising. The preg-based primitives do raise: `preg_replace` returns null and the declared `string` return type fails. `str_replace`, `strtr` and the mbstring functions do not raise in PHP; they work on the bytes or substitute `?`. In a chain of named stages headed by `normalize`, such a stage only ever sees the output of `normalize` or of another named stage, which is well-formed (`StrBuilder.NamedChainNeverRaises`).
- StrBuilder.ApplyStage: after a `fn` stage, the next stage can receive bytes that are not UTF-8, for example `fn` returning the single byte FF followed by `noTabs`. There `noTabs`, `hankaku`, `hankakuAlpha`, `hankakuDigits`, `noHankakuKana`, `hiragana`, `katakana`, `upper` and `lower` return a string in PHP, but the model raises. Their byte-level behaviour on such input is not modelled.
- Null input to `applyTo`: the code passes it to `normalize(string $s)`, which rejects null with a TypeError. The model follows the code, so it yields `None`; it does not treat null as the empty string.
- `fn`: its parameter is declared `callable`, so it is modelled by a parameter of function type. The `is_callable` check after that declaration can never fail, so its `InvalidArgumentException` branch is not modelled.
- A user callable that returns a non-string, or has side effects: callables are modelled as total functions on bytes.
- The composition-exclusion class (src/StrFilter.php:11): it is modelled exactly as the code lists it. It includes singleton decompositions such as the CJK compatibility ideographs and non-starter decompositions such as U+0344, so it is the Full_Composition_Exclusion set of UAX #15, not only the entries listed in its composition-exclusion table.
- The exclusion pattern's `+`: it matches a composable run of any length from one up. A one-code-point run is therefore also passed to NFC, and the model does the same.
- The literal test strings of tests/StrFilterTest.php:122-145: they are not evaluated one by one; the general lemmas about each primitive cover them instead. The test file also sets its paragraph-separator variable to U+2028.
