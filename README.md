# Orpheus streaming decode pipeline, modelled in Dafny

This project models the core of `engines/orpheus-generate.py`, the standalone
Orpheus text-to-speech generator. Four steps are modelled:

- **Prompt**: `format_prompt` wraps the text and the voice tag in the model's
  `<|audio|>` and `<|eot_id|>` markers.
- **Token mapping**: `turn_token_into_id` reads a generated token's text.
  It strips it, finds the last `<custom_token_` marker, reads the number up to
  the closing `>`, and subtracts 10 and 4096 for each place within the 7-index
  frame.
- **Codec bridge**: `convert_to_audio` keeps the whole 7-index frames of a
  window. It spreads each frame over three codebooks (1, 2 and 4 indices per
  frame). It rejects the window when an index lies below 0 or above 4096, and
  otherwise hands the three sequences to the SNAC decoder.
- **Token loop**: the loop of `generate_speech` handles end tokens. Before
  audio starts they are skipped; after that they stop the loop. Other tokens
  are mapped at position `count`, and positive indices go into an append-only
  buffer. Each time the count reaches 28, 35, 42, … the last 28 buffered
  indices are decoded. The loop stops at the 8192-token budget.

Modules:

- `Wrappers`: the `Option` type.
- `Strings`: the Python string builtins the code relies on. These are
  `str.strip()` over Python's whitespace set, `rfind`, `startswith` and
  `endswith`, modelled exactly, and `int()`, modelled on signed ASCII decimal
  text only (see "Left out"). `Find` (Python's `find`) is not used by the
  source; it serves only `Prompt.SplitPrompt`, which reads a prompt back.
- `Prompt`: `format_prompt` and the voice catalogue.
- `TokenMapper`: `turn_token_into_id`.
- `CodecBridge`: `convert_to_audio`, as a method with its frame loop, proved
  equal to the specification function `Convert`.
- `Generate`: the token loop, as the method `GenerateSpeech`, proved against
  the specification functions `Step` and `Run`.

The language model's token stream is an input sequence of token IDs.
Detokenizing is a function `render` from a token ID to its text. The SNAC
decode is a function `decode` from the three code sequences to PCM bytes; it
also covers the slice of the middle samples and the 16-bit conversion.

The range check follows the code, not the codebook size. The codebook has
4096 entries (0 … 4095), but the check `c > 4096` lets the value 4096
through. `CodecBridge.MaxCode` is therefore 4096, and every range statement
below means the closed interval [0, 4096].

## Model

| member | source | states |
|---|---|---|
| Strings.Strip | engines/orpheus-generate.py:67 | the result has no leading or trailing whitespace (Python's `isspace` set) and is no longer than the input |
| Strings.StripRemovesPadding | engines/orpheus-generate.py:67 | stripping whitespace padding around an unpadded text gives back exactly that text |
| Strings.StripIdempotent | engines/orpheus-generate.py:67 | stripping twice is stripping once |
| Strings.RFind | engines/orpheus-generate.py:68 | `rfind` returns -1 exactly when the pattern does not occur; otherwise the pattern occurs at the result and at no later position |
| Strings.FromLast | engines/orpheus-generate.py:68-71 | the text from the last occurrence onwards is a suffix starting with the pattern, and is absent exactly when the pattern does not occur |
| Strings.FromLastOfTail | engines/orpheus-generate.py:68-71 | if a tail starts with the pattern and holds no later occurrence, the last occurrence in `pre + tail` starts that tail, whatever `pre` is |
| Strings.ParseInt | engines/orpheus-generate.py:74-77 | `int()` succeeds on an optionally signed non-empty ASCII digit string and on nothing else (Python's 4300-digit limit is not modelled, see Left out); a `-` sign gives a value ≤ 0, otherwise the value is ≥ 0 |
| Strings.Decimal | engines/orpheus-generate.py:74-75 | the canonical decimal text of `n`: non-empty digits, no leading zero, digit value `n` |
| Strings.LeadingZerosValue | engines/orpheus-generate.py:74-75 | leading zeros do not change the value of a digit string |
| Strings.ParsePaddedDecimal | engines/orpheus-generate.py:74-75 | `int()` reads zero-padded decimal text such as `0042` as its value `n`, and with a `+` or `-` sign as `n` or `-n` |
| Prompt.FormatPrompt | engines/orpheus-generate.py:60-62 | the prompt starts with the audio marker, ends with the end-of-turn marker, and is as long as its five parts together |
| Prompt.SplitPrompt | engines/orpheus-generate.py:60-62 | when reading a prompt back succeeds, formatting the voice and text it yields rebuilds the same prompt |
| Prompt.PromptRoundTrip | engines/orpheus-generate.py:60-62 | for a voice without a colon, reading back a formatted prompt yields exactly its voice and text |
| Prompt.CataloguePromptRoundTrip | engines/orpheus-generate.py:30 | every catalogue voice round-trips through the prompt format |
| TokenMapper.ParseCustomToken | engines/orpheus-generate.py:72-78 | a result exists only for a tail that starts with the marker and ends with `>`, whose middle parses; it is that number less 10 and less 4096 per place in the frame |
| TokenMapper.LastMarkedToken | engines/orpheus-generate.py:67-71 | no marker in the stripped text gives `None`; otherwise the result is a suffix of the stripped text that starts with the marker |
| TokenMapper.TurnTokenIntoId | engines/orpheus-generate.py:65-78 | text with no marker maps to `None`; a result exists only when the stripped text ends in `>` |
| TokenMapper.MapperPeriodic | engines/orpheus-generate.py:75 | positions `index` and `index + 7` give the same result for every text |
| TokenMapper.MapperUsesLastMarker | engines/orpheus-generate.py:68-72 | when the stripped text is `pre + tail` and the tail holds the last marker, the result is that of the tail alone, whatever precedes it |
| TokenMapper.MarkedTokenHasOneMarker | engines/orpheus-generate.py:68-71 | a marked token whose number text has no `<` contains the marker only at its start |
| TokenMapper.LastMarkedTokenIsMarked | engines/orpheus-generate.py:67-71 | a stripped text ending in `<custom_token_` + num + `>`, with no `<` in num, has that token as its last marked token |
| TokenMapper.MapperOnLastMarked | engines/orpheus-generate.py:72-77 | with that last marked token, the result is `None` when num is not an integer, and otherwise num less 10 and less 4096 per place |
| TokenMapper.MapperOnMarkedNumber | engines/orpheus-generate.py:65-78 | a stripped text ending in `<custom_token_` + num + `>` maps to `None` when num does not parse, and otherwise to its value less 10 and less `(index % 7) * 4096` |
| TokenMapper.MapperOnDecimal | engines/orpheus-generate.py:65-78 | the well-formed token `<custom_token_N>`, with `N` in decimal after any leading zeros, at position `index` maps to `N - 10 - (index % 7) * 4096` (for number text within Python's 4300-digit limit, see Left out) |
| TokenMapper.MapperRejectsEmptyNumber | engines/orpheus-generate.py:74-77 | `<custom_token_>` with an empty number is a parse failure and maps to `None` |
| CodecBridge.Deinterleaved | engines/orpheus-generate.py:93-101 | the three codebooks receive 1, 2 and 4 codes per frame |
| CodecBridge.DeinterleaveAt | engines/orpheus-generate.py:93-101 | frame `j` lands at `codes_0[j] = f[7j]`, `codes_1[2j], codes_1[2j+1] = f[7j+1], f[7j+4]`, and `codes_2[4j..4j+3] = f[7j+2], f[7j+3], f[7j+5], f[7j+6]` |
| CodecBridge.DeinterleaveLayout | engines/orpheus-generate.py:93-101 | every frame of the window is laid out in those slots, and the codebooks have no other entries |
| CodecBridge.DeinterleaveRoundTrip | engines/orpheus-generate.py:93-101 | interleaving the three codebooks gives back the frames, and their lengths add up to the window's: each index appears exactly once |
| CodecBridge.RangeCheckOnFrames | engines/orpheus-generate.py:105-108 | the per-codebook range check passes exactly when every index of the frames lies in [0, 4096] |
| CodecBridge.WholeFrames | engines/orpheus-generate.py:90-91 | the kept prefix is a whole number of frames, and less than one frame shorter than the window |
| CodecBridge.Convert | engines/orpheus-generate.py:81-112 | `None` exactly when the window has fewer than 7 indices or one of its whole-frame indices is below 0 or above 4096 |
| CodecBridge.ConvertIgnoresPartialFrame | engines/orpheus-generate.py:90-91 | indices after the last whole frame never change the result |
| CodecBridge.ConvertInRangeWindow | engines/orpheus-generate.py:105-112 | an in-range window of whole frames always reaches the decoder, with its codes deinterleaved |
| CodecBridge.ConvertToAudio | engines/orpheus-generate.py:81-108 | the frame loop with its seven appends and the range check return exactly `Convert` |
| Generate.LastWindow | engines/orpheus-generate.py:155 | `buffer[-28:]` is the last 28 entries, or the whole buffer when it is shorter, and is a suffix of the buffer |
| Generate.Step | engines/orpheus-generate.py:138-161 | an end token stops the loop exactly when audio has started and changes nothing; any other token is mapped at position `count`; a positive index is appended and counted and starts audio, anything else changes nothing; the loop stops exactly when the count reaches the budget |
| Generate.StepConsistent | engines/orpheus-generate.py:147-158 | each pass keeps the invariants: `count == len(buffer)`, audio has started exactly when the count is positive, only positive indices are buffered, and the segments are those decoded from the buffer |
| Generate.RunConsistent | engines/orpheus-generate.py:135-161 | the whole loop ends with those invariants, whatever the tokens |
| Generate.EndTokenStopsOnceCounting | engines/orpheus-generate.py:138-142 | between tokens, an end token stops the loop exactly when the count is positive, and leaves the state unchanged |
| Generate.StepAppendsOnly | engines/orpheus-generate.py:147-149 | one pass at most appends to the buffer |
| Generate.RunAppendsOnly | engines/orpheus-generate.py:135-161 | the final buffer extends the buffer the loop started from |
| Generate.RunWithinBudget | engines/orpheus-generate.py:160-161 | started below the budget, the loop never counts more than `MAX_TOKENS` indices |
| Generate.PreambleEndTokensIgnored | engines/orpheus-generate.py:136-142 | end tokens before audio starts are skipped without effect |
| Generate.EndTokenAfterAudioStops | engines/orpheus-generate.py:138-140 | once audio has started, an end token ends the loop with the state unchanged |
| Generate.DecodeDueExactly | engines/orpheus-generate.py:154 | a decode is due exactly at counts `28 + 7k` |
| Generate.NoDecodeBeforeFourFrames | engines/orpheus-generate.py:154 | no decode before four frames; decodes at 28, 35 and 42 but not at 29 |
| Generate.WindowsDueStep | engines/orpheus-generate.py:154 | one more entry adds one decode exactly when a decode is due, and that window ends at the new entry |
| Generate.DecodedWindowsBound | engines/orpheus-generate.py:154-158 | there are never more segments than decodes attempted |
| Generate.DecodedWindowsCount | engines/orpheus-generate.py:154-158 | with every buffered index in range, every decode attempted yields a segment |
| Generate.DecodedWindowAt | engines/orpheus-generate.py:154-158 | with every buffered index in range, segment `i` is the decode of buffer entries `7i … 7i+27`: windows overlap by three frames and advance by one |
| Generate.AcceptIndex | engines/orpheus-generate.py:148-158 | appending, counting, marking audio as started and decoding the last 28 entries when due give exactly the specified `Accept` state |
| Generate.GenerateSpeech | engines/orpheus-generate.py:128-167 | the loop's segments are those of the specified run, and they are the non-`None` decodes of the final buffer's windows, in order; the result is false exactly when there are none |

## Left out

- `engines/coqui-generate.py`: a different engine, outside this core.
- `load_snac` and `load_llm`: model loading and device selection.
- The language model's `tokenize` and `generate` become the input sequence of token IDs. Sampling parameters, and a stream that never ends, are not modelled.
- `detokenize` and UTF-8 decoding with `errors="ignore"` become the function `render` from a token ID to its text.
- The SNAC decode, the `[2048:4096]` sample slice and the `int16` conversion (lines 110-116) become the function `decode`. Neither audio content nor floating point is modelled. The decode is taken as total: a failure inside it, which the source does not catch and which ends `generate_speech`, is not modelled. This includes a code the codec cannot look up, such as 4096, which the range check lets through; the model turns such a window into a segment.
- The `int32` tensors of the codec bridge: a value outside the 32-bit range makes the tensor constructor raise. The model keeps unbounded integers, so such a window is simply out of range.
- WAV writing, directory creation, timing, `print`, `main` and argument parsing are I/O.
- Strings.ParseInt: models `int()` on ASCII signed decimal text only. Python also accepts whitespace around the digits, `_` between digits and non-ASCII decimal digits. For such number text the model gives `None` where the source gives a number. On the text it accepts, the value is stated for zero-padded decimal text with an optional sign (`Strings.ParsePaddedDecimal`). Python 3.11 and later also reject digit text longer than 4300 digits (`sys.get_int_max_str_digits()`) with ValueError, so the source maps such a token to `None` where the model gives a value; `TokenMapper.MapperOnDecimal` and `Strings.ParsePaddedDecimal` hold only below that limit in the source.
- Generate.GenerateSpeech: the budget is the constant 8192 (`MAX_TOKENS`). The specification functions take the budget as a parameter.
- Generate.Step: the lemmas about the loop hold for any text-to-index reading `idOf`. `GenerateSpeech` instantiates it with `TokenMapper.TurnTokenIntoId`.
