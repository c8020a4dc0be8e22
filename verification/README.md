# AutoSpeak TTS bridge: text preparation

This project is a Dafny model of the text-preparation path of the AutoSpeak
local speech bridge (`laura_tts_bridge_clean.py`). The bridge receives
assistant replies over `POST /tts` and turns them into audio. The model covers
the pure part of that path, which fixes exactly which strings reach a speech
backend:

- the route strips the `text` field and refuses it (status 400) when blank;
- it picks the character limit: `int()` of `max_chars`, or 600 when the field
  is falsy (absent, zero or `false`). A fraction is truncated toward zero, so
  a value such as `0.5` gives a limit of 0;
- without chunking, it cuts the text to the limit, with Python's slice
  semantics (a negative limit drops characters from the end);
- with chunking and an over-long text, it splits the text into sentences after
  `.`, `!` or `?` plus whitespace, then packs the sentences greedily into chunks
  joined by single spaces;
- for each piece, `synthesize` strips it again, refuses it (`ValueError`) when
  blank, and removes one leading `LAURA:` marker in any letter case, together
  with the whitespace around it.

The speech backends are treated as one opaque step. The model is about the
sequence of strings they are handed (`Bridge.Response.Spoken`).

Modules, one per concern:

- `Text` (text.dfy): whitespace, `strip`, and joining with single spaces.
- `Normalize` (normalize.dfy): the input normalisation of `synthesize`.
- `Sentences` (sentences.dfy): the sentence split. It keeps the dropped
  separators so the split can be reversed.
- `Packing` (packing.dfy): the greedy chunk packing. `PackLoop` follows the
  loop over strings. `GroupLoop` does the same fold over groups of sentences.
  `IsGreedy` describes the packing without any loop.
- `Bridge` (bridge.dfy): the `tts` route's text path.

Whitespace is the set of characters for which Python's `str.isspace()` holds.
That is also what `\s` matches in a `str` pattern, so one predicate
(`Text.IsSpace`) serves `strip`, the marker pattern and the sentence split.
Under Python's case-insensitive matching, only the ASCII forms of `l`, `a`,
`u` and `r` fold to those letters. ASCII case folding therefore decides the
marker match exactly.

Browser-side client logic is not in this file and is not modelled. That
covers change watching, stabilisation, deduplication, rate limiting and retry
on 429.

One consequence of the code as written is recorded as a lemma rather than
corrected. A request whose text is only `LAURA:` passes the emptiness check,
and the empty string is then handed to the speech backend
(`Normalize.MarkerOnlySpeaksNothing`).

## Model

| member | source | states |
|---|---|---|
| Text.Trim | laura_tts_bridge_clean.py:147 | The stripped text is what lies between the leading and trailing whitespace runs of the input, has whitespace at neither end, and is empty exactly when the input is all whitespace |
| Text.TrimIdempotent | laura_tts_bridge_clean.py:147 | Stripping again changes nothing, so the second strip in `synthesize` is a no-op on text the route already stripped |
| Normalize.StripMarker | laura_tts_bridge_clean.py:152 | The result is a suffix of the input. Without a marker after the leading whitespace, the input is returned unchanged. With one, what is removed is whitespace, the six marker characters and whitespace, and the result does not start with whitespace |
| Normalize.MarkerRoundTrip | laura_tts_bridge_clean.py:152 | Putting `LAURA:` in any letter case, then any whitespace, in front of text that does not start with whitespace, and then stripping, gives back exactly that text |
| Normalize.NoMarkerUnchanged | laura_tts_bridge_clean.py:152 | Stripped text that does not open with the marker passes through unchanged |
| Normalize.OnlyOneMarkerRemoved | laura_tts_bridge_clean.py:152 | The anchored pattern removes one marker, not a run of them: `Laura: LAURA: hi` becomes `LAURA: hi` |
| Normalize.PrepareSpeech | laura_tts_bridge_clean.py:146-152 | `synthesize` refuses its input exactly when the input is all whitespace. Otherwise it speaks the marker-stripped, stripped input, which has whitespace at neither end |
| Normalize.MarkerOnlySpeaksNothing | laura_tts_bridge_clean.py:147-152 | `LAURA:` alone passes the empty-text check and leaves the empty string to speak |
| Sentences.SplitSentences | laura_tts_bridge_clean.py:198 | The pieces, with the dropped separators put back in between, rebuild the text. Every separator is a non-empty whitespace run. Every piece but the last ends in `.`, `!` or `?`. No piece contains a split point, and no separator could have been longer |
| Sentences.SplitUnique | laura_tts_bridge_clean.py:198 | Any pieces and separators with that shape are exactly the split, so the shape fully characterises the split |
| Sentences.SplitOfTrimmed | laura_tts_bridge_clean.py:198 | On stripped, non-empty text, no sentence is empty and every sentence has whitespace at neither end |
| Packing.PackLoop | laura_tts_bridge_clean.py:199-208 | The loop only appends. Chunks already closed stay as they are, no empty chunk is closed, and each sentence closes at most one chunk, with one more at the end. `Packing.PackIsJoinedGroups` ties its result to the greedy groups |
| Packing.Pack | laura_tts_bridge_clean.py:199-208 | The loop started with no chunks and an empty current chunk never produces an empty chunk, and never more chunks than sentences |
| Packing.Groups | laura_tts_bridge_clean.py:199-208 | The greedy fold over sentence groups keeps every sentence in order (flattening the groups gives the sentences back). Its grouping is greedy: groups are non-empty, a group of several sentences fits the limit, and a group is closed only when the next sentence plus one space would exceed the limit. Some group is produced exactly when there is some sentence |
| Packing.PackIsJoinedGroups | laura_tts_bridge_clean.py:199-208 | For non-empty sentences, the chunks of the string loop are exactly the greedy groups joined with single spaces |
| Packing.GreedyUnique | laura_tts_bridge_clean.py:201-206 | Two greedy groupings of the same sentences are equal, so the packing is the one greedy packing |
| Packing.PackKeepsText | laura_tts_bridge_clean.py:199-208 | Nothing is lost or reordered: the chunks joined with single spaces equal the sentences joined with single spaces |
| Packing.PackChunkShape | laura_tts_bridge_clean.py:199-213 | Every chunk is non-empty, and either fits the limit or is a single sentence; a chunk over the limit is a greedy group of exactly one sentence. A non-empty sentence list gives at least one chunk, and never more chunks than sentences |
| Bridge.FieldText | laura_tts_bridge_clean.py:183 | A falsy `text` field (absent or empty) reads as the empty string; any other string is taken as it is |
| Bridge.TruncateTowardZero | laura_tts_bridge_clean.py:188 | `int()` of a float drops the fraction toward zero: the result is less than one away from the value and never past zero |
| Bridge.EffectiveMaxChars | laura_tts_bridge_clean.py:188 | The limit is 600 for a falsy field (absent, `0`, `0.0`, `false`), the integer itself, the float truncated toward zero, or 1 for `true`. It is zero exactly when the field is a non-zero fraction strictly between -1 and 1 |
| Bridge.Slice | laura_tts_bridge_clean.py:191 | Python's slice to `n` is the prefix of length `min(n, len)` for `n >= 0`, and of length `max(0, len + n)` for negative `n` |
| Bridge.TruncationBounds | laura_tts_bridge_clean.py:190-191 | With a limit of zero or more, the truncated text is a prefix of the input, at most the limit long, and equal to the input exactly when the input is short enough |
| Bridge.Pieces | laura_tts_bridge_clean.py:190-210 | Packing runs only when chunking is on and the text is over the limit; then the pieces are the packed sentences. Otherwise there is exactly one piece, the text cut to the limit |
| Bridge.SpeakAll | laura_tts_bridge_clean.py:205-210 | Pieces are handed to `synthesize` in order. Either all are spoken, one text per piece, or the first refused piece stops the route after the pieces before it were spoken |
| Bridge.PiecesOfStrippedText | laura_tts_bridge_clean.py:183-210 | For the stripped, non-empty text the route passes on, at least one piece is produced. A piece is blank exactly when chunking is off and a zero or negative limit cuts the whole text away |
| Bridge.ChunkedPieces | laura_tts_bridge_clean.py:195-208 | With chunking on and an over-long text, there is at least one chunk. Every chunk is non-empty, stripped, and within the limit or a single sentence. The chunks joined with single spaces equal the sentences joined with single spaces |
| Bridge.Handle | laura_tts_bridge_clean.py:183-213 | The route answers 400 exactly when the text field is absent or blank. Taking the last audio file never fails. `synthesize` refuses a piece exactly when chunking is off and the limit is zero, or negative enough to leave nothing of the text. More than one text is spoken only when chunking is on and the text is over the limit |
| Bridge.FractionalLimitRejects | laura_tts_bridge_clean.py:188-191 | A `max_chars` fraction between 0 and 1 truncates to a limit of 0. Without chunking the whole text is cut away, and `synthesize` refuses the empty piece before anything is spoken |
| Bridge.HandleChunked | laura_tts_bridge_clean.py:195-210 | With chunking on and an over-long text, every chunk is spoken, in order, and `synthesize` changes a chunk only by removing a leading marker |
| Bridge.HandleUnchunked | laura_tts_bridge_clean.py:187-191 | With chunking off and a positive limit, exactly one text is spoken: the normalisation of the first `max_chars` characters of the stripped text |
| Bridge.MarkedReplySpoken | laura_tts_bridge_clean.py:146-152 | A short marked reply such as `LAURA: Hi there, this is a test reply.` is spoken as exactly the reply without its marker |

## Left out

- HTTP plumbing is left out: routing, the fallback for a JSON body that does not parse, `send_file`, and picking the content type from the file suffix. These are framework I/O.
- The `/latest` route and the search for the newest audio file are left out. They are file system and clock.
- Speech backends are one opaque step that is assumed to succeed. This covers the remote voice service call, its 429 handling, the order of backend selection and fallback, and the local `say`/`afconvert`/`afplay` commands. They are network and process I/O with exception-driven control flow.
- Timestamped and random file names are left out. They are clock and randomness.
- Configuration from the environment is left out (API keys, port, voice settings as floats).
- Some request field values are outside the model. `text` is an optional string; a non-string `text` that is truthy raises in the source. `chunk` is a boolean rather than Python truthiness of any JSON value.
- Bridge.EffectiveMaxChars: covers absent, integer, float and boolean `max_chars` values only. `int()` also parses a numeric string (`"12"` gives 12), and a falsy string, list or object reads as absent. Any other value raises. Those string, list and object cases are not modelled.
- Bridge.EffectiveMaxChars: a JSON number that overflows to infinity (such as `1e999`), `Infinity` or `NaN` makes `int()` raise (OverflowError or ValueError), so the route fails with a server error and speaks nothing. These values are outside the model, whose float field holds finite values only.
- Bridge.TruncateTowardZero: truncates the exact decimal value. Python first rounds a JSON fraction to a binary double, so a value such as `0.99999999999999999` becomes `1.0` there and a limit of 1, not 0.
- Packing.PackKeepsText: holds only when no sentence is empty. With an empty sentence the Python loop can skip it or add a trailing space, so the property fails. The route never produces empty sentences (`Sentences.SplitOfTrimmed`).
- Packing.PackIsJoinedGroups: requires non-empty sentences for the same reason.
- Packing.PackChunkShape: requires non-empty sentences for the same reason.
- The source hands each chunk to `synthesize` as soon as the chunk closes. The model packs first and then speaks the chunks in order. Packing is pure, so the sequence of strings is the same.
- Browser-side client logic is not in the bridge file and is not modelled: change watching, stabilisation, deduplication, rate limiting and retry with backoff.
