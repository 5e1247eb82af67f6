# Serial terminal codec layer, modelled in Dafny

This project models the codec layer of a desktop serial-port terminal
(`core/encoding_handler.py`). Received bytes are shown either as
hexadecimal or as text. Text to be sent is typed either as hexadecimal or
as plain text. The layer has three parts:

- `EncodingHandler`, a stateful incremental decoder. It holds an encoding
  name (`gbk` or `utf8`) and a streaming decoder created with the
  `'ignore'` error policy. Each call to `decode` turns one received chunk
  into text. A character that a chunk boundary has split is held back
  until the rest of it arrives. Bytes that cannot be decoded are dropped.
  Changing the encoding name, or calling `reset`, creates a fresh decoder
  and discards what the old one held.
- `bytes_to_hex`, the hexadecimal display format (`"AA BB CC "`), and
  `hex_to_bytes`, a lenient parser. The parser drops every character that
  is not a hexadecimal digit, pads an odd number of digits with `0`, and
  reads the digits in pairs.
- `text_to_bytes`: encode with the named codec, and if that fails,
  encode again with `?` for each character that cannot be encoded.

The host's codecs are written out as explicit state machines:

- UTF-8 follows sections 3 and 4 of RFC 3629.
- GBK is modelled by its byte structure. ASCII stands for itself. A lead
  byte 81-FE is followed by a trail byte 40-FE other than 7F. Which
  character a pair stands for is the host's table. The model takes that
  table as a parameter, in both directions: `Gbk.DecodeTable` and
  `Gbk.EncodeTable`.

Modules:

- `Base`: bytes, code points and the result of scanning one unit.
- `Utf8` and `Gbk`: one decoding step (`Scan`) and the encoding of one
  character (`Encode`) for each codec.
- `Stream`: incremental decoding for any scanner, as a pure function
  `Run`. The only state is the carry, the bytes of an unfinished
  character.
- `Codec`: the `EncodingHandler` class, the encoding names, and
  `text_to_bytes`.
- `Hex`: the hexadecimal conversions.

Text is a sequence of code points (`Base.CodePoint`), not of Dafny
`char`s. A Python string can hold lone surrogates, and those are exactly
the characters UTF-8 cannot encode.

`EncodingHandler` keeps two ghost fields. `fed` holds the bytes given to
the current decoder, and `emitted` the text it has returned for them. Its
invariant `Valid()` says that the text returned so far, together with the
carry, is what decoding all of `fed` in one call would give. So a stream
cut into chunks anywhere decodes to the same text as the whole stream.

Two behaviours follow from the code and are easy to expect otherwise:

- Undecodable received bytes are dropped, because the decoder uses
  `'ignore'`. They are not replaced by a placeholder. U+FFFD appears only
  in the exception fallback of `decode`.
- The decoder is reset only when the encoding name changes, when `reset`
  is called, or in the exception fallback. It is not reset when an
  invalid byte is met, because `'ignore'` never raises.

## Model

| member | source | states |
|---|---|---|
| Codec.EncodingHandler.constructor | core/encoding_handler.py:22-30 | The encoding name is stored lower-cased, and the decoder starts empty: no carry, nothing fed. |
| Codec.EncodingHandler.SetEncoding | core/encoding_handler.py:37-48 | The new name is stored lower-cased. If it differs from the old name, the decoder is fresh and the carry is empty. If it is the same name, carry and stream history are unchanged. |
| Codec.EncodingHandler.Reset | core/encoding_handler.py:50-52 | The carry and the stream history are emptied, and the encoding name is kept. |
| Codec.EncodingHandler.Decode | core/encoding_handler.py:54-69 | The text is the `'ignore'` decode of the carry followed by the chunk, and what remains unfinished becomes the new carry. All text returned since the last reset or the last call with `final` equals the one-call decode of all bytes fed. A final call leaves no carry. The carry is at most 3 bytes for UTF-8 and at most 1 for GBK. The invariant is kept. |
| Codec.EncodingHandler.DecodeFallback | core/encoding_handler.py:70-73 | The exception path. It resets the decoder and returns the chunk decoded alone with `'replace'`. Without the U+FFFD placeholders, that text equals the `'ignore'` decode. |
| Stream.Run | core/encoding_handler.py:30 | Decoding a buffer in one call. The carry it leaves is empty or an unfinished but valid character prefix, never a decodable sequence. After a final call it is empty. |
| Stream.ChunkSplit | core/encoding_handler.py:5-6 | Decoding `b1` without `final`, then decoding the carry followed by `b2`, gives the same concatenated text and the same carry as decoding `b1 + b2` in one call. |
| Stream.CarryIsBounded | core/encoding_handler.py:58-59 | The carry is no longer than the longest unfinished character the scanner allows. |
| Stream.CarryIsInputTail | core/encoding_handler.py:58-59 | The carry is the last bytes of the input, unchanged. |
| Stream.FinalAddsNothingUnderIgnore | core/encoding_handler.py:63 | Under `'ignore'`, ending the stream adds no text: a final call returns what a non-final call returns. |
| Stream.PoliciesDifferOnlyInPlaceholders | core/encoding_handler.py:73 | Decoding with `'replace'` and with `'ignore'` gives the same characters once U+FFFD is removed, and the same carry. |
| Stream.TornCharacterExample | core/encoding_handler.py:5-6 | "测试" in UTF-8 split after its fourth byte: the first chunk yields U+6D4B and holds back E8. The second chunk completes U+8BD5. |
| Stream.ScannerForIsSound | core/encoding_handler.py:30 | The GBK and UTF-8 decoders each consume at least one byte per step. They never revise a decision when more bytes arrive. They hold back at most 3 (UTF-8) or 1 (GBK) bytes. |
| Utf8.Scan | core/encoding_handler.py:30 | One UTF-8 decoding step. A buffer is held back exactly when it is shorter than the sequence its lead byte announces and every byte so far is valid for that sequence. A character spans exactly the announced length of valid bytes and is never a surrogate. An invalid run is either one byte that starts nothing, or a maximal valid prefix that the next byte breaks off, so no byte that could start a new character is swallowed. |
| Utf8.EncodeThenScan | core/encoding_handler.py:136 | Every code point except a surrogate has an encoding, and the decoder reads it back as exactly that character, whatever follows. |
| Utf8.ScanOnlyAcceptsEncodings | core/encoding_handler.py:30 | Every character the decoder accepts was spelled exactly as the encoder spells it. Overlong forms, surrogates and values above U+10FFFF are rejected, as in section 4 of RFC 3629. |
| Utf8.ScanIsLocal | core/encoding_handler.py:56-59 | Unless a UTF-8 step ran out of input, more bytes do not change it. |
| Utf8.Encode | core/encoding_handler.py:136 | A code point has a UTF-8 encoding exactly when it is not a surrogate. |
| Gbk.Scan | core/encoding_handler.py:30 | One GBK step. A single byte is a character exactly when it is ASCII, and it stands for itself. A lone lead byte, and only that, is held back. A pair is a character exactly when the table gives one for it, and then it is that character. A lead byte whose pair the table does not give is rejected alone, so the trail byte is examined afresh. |
| Gbk.Encode | core/encoding_handler.py:136 | ASCII encodes as itself. Any other character is written as the pair the host table gives for it, and is encodable exactly when that pair is a well-formed lead/trail pair. |
| Gbk.EncodeThenScan | core/encoding_handler.py:136 | When the two directions of the table agree, the decoder reads an encoded character back, whatever follows. |
| Gbk.ScanIsLocal | core/encoding_handler.py:56-59 | Unless a GBK step ended on a lone lead byte, more bytes do not change it. |
| Codec.NormalisedLabel | ui/main_window.py:431 | The normalised receive-coding label has no dashes, and every character in it is a lower-cased character of the label. |
| Codec.NormalisedLabelAppend | ui/main_window.py:431 | Normalising goes character by character and keeps the order: the normalised form of `a + b` is that of `a` followed by that of `b`. |
| Codec.NormalisedLabelWithoutDashes | ui/main_window.py:431 | A label without dashes loses nothing: normalising it only lower-cases it. |
| Codec.EncodingNamed | core/encoding_handler.py:29-30 | The name-to-codec lookup. Only the names `gbk`, `utf8` and `utf-8` select a codec in the model, and all are lower case. Both spellings of UTF-8 (`utf8`, `utf-8`) normalise to `utf8`, and `gbk` to itself. |
| Codec.ReceiveCodingChanged | ui/main_window.py:427-432 | A new receive-coding label becomes the handler's encoding, lower-cased with dashes removed. The decoder is then empty whether or not the name changed, and the invariant is kept. |
| Codec.LabelsSelectCodecs | ui/main_window.py:431 | The labels "GBK" and "UTF-8", normalised for the handler or lower-cased for sending, name the GBK and UTF-8 codecs. |
| Codec.EncodeStrict | core/encoding_handler.py:136 | The strict encoding fails exactly when some character cannot be encoded. |
| Codec.EncodeReplace | core/encoding_handler.py:138 | The replacing encoding gives at least one byte per character. |
| Codec.StrictAgreesWithReplace | core/encoding_handler.py:135-138 | Where the strict encoding succeeds, it equals the replacing one. |
| Codec.TextToBytes | core/encoding_handler.py:124-138 | `text_to_bytes` never fails and always equals the replacing encoding. |
| Codec.DecodeOfEncode | core/encoding_handler.py:135-138 | Decoding the bytes `text_to_bytes` writes gives the text back, with `?` (0x3F) for each character that could not be encoded, and leaves no carry. For UTF-8 this means each code point gets its standard bytes and each surrogate gets the single byte `?`. |
| Hex.BytesToHex | core/encoding_handler.py:76-86 | `bytes_to_hex` is empty exactly for no bytes, and otherwise ends in a space. |
| Hex.BytesToHexIsCells | core/encoding_handler.py:86 | The joined form of `bytes_to_hex` equals "two digits and a space" per byte, and is empty for no bytes. |
| Hex.BytesToHexLayout | core/encoding_handler.py:86 | The output is 3·n characters long. Character 3i is the byte's upper-case high digit, 3i+1 its low digit, and 3i+2 a space. |
| Hex.DisplayExamples | core/encoding_handler.py:84-86 | No bytes give `""`, and the byte AB gives `"AB "`. |
| Hex.Clean | core/encoding_handler.py:103 | Only hexadecimal digits survive cleaning. |
| Hex.ParseByte | core/encoding_handler.py:115-119 | A piece parses exactly when it is one or two hexadecimal digits. |
| Hex.ParseHex | core/encoding_handler.py:89-121 | `hex_to_bytes` gives one byte per pair of hexadecimal digits in its input, rounding up. |
| Hex.HexToBytes | core/encoding_handler.py:103-121 | The loop that appends the value of each pair computes `ParseHex`. |
| Hex.ParsePairsOfDigits | core/encoding_handler.py:113-121 | For an even run of digits, no pair is skipped: pair k becomes byte 16·d[2k] + d[2k+1]. |
| Hex.ParseHexDigits | core/encoding_handler.py:103-121 | With k digits in the input, the result has ceil(k/2) bytes. Byte i is made of digits 2i and 2i+1. When k is odd, the last byte's low nibble is 0. No digits give no bytes. |
| Hex.ParseHexIgnoresOtherCharacters | core/encoding_handler.py:102-103 | Parsing the input and parsing only its hexadecimal digits give the same bytes. |
| Hex.ParseHexIgnoresCase | core/encoding_handler.py:103 | Upper-casing the input does not change the result. |
| Hex.HexRoundTrip | core/encoding_handler.py:86-121 | `hex_to_bytes(bytes_to_hex(b)) == b` for every byte sequence `b`. |
| Hex.ParseExamples | core/encoding_handler.py:96-110 | `"AA BB CC"` and `"AABBCC"` both give AA BB CC, `"ZZ"` gives nothing, and `"ABC"` gives AB C0. |

## Left out

- The serial port worker (device handles, the polling thread, the write lock, Qt signals) is I/O and concurrency. It is not part of this model, and neither are the window, the timers, hot-plug detection, application start-up or the build script.
- Which character a GBK byte pair stands for lives in the host's codec tables. Here the tables are parameters. `Codec.DecodeOfEncode` assumes only that the two directions agree.
- Utf8.Scan: the host's UTF-8 incremental decoder keeps a non-final chunk's last two bytes ED A0..BF buffered (a truncated surrogate). The model drops them at once as invalid, so `Decode` then carries nothing where the host would carry two bytes. The text is the same under `'ignore'`, because the host rejects those bytes when the next chunk arrives or the stream ends.
- Gbk.Scan: the host's GBK decoder also holds back a trailing 80 or FF byte and rejects it when the next byte arrives. The model rejects it at once. Both give the same text under `'ignore'` and under `'replace'`.
- Codec.EncodingNamed: the model knows only the names the application passes (`gbk`, `utf8`, `utf-8`). The host's codec registry also accepts other spellings and aliases (upper case, `utf_8`, `cp936`), and raises `LookupError` for unknown names. Neither is modelled. Codec.EncodingHandler.constructor, SetEncoding and `text_to_bytes` therefore require one of the known names. The source lower-cases names so that the setter's comparison (core/encoding_handler.py:45-46) sees one spelling per codec.
- `str.lower()` is modelled for ASCII letters only. Encoding names are ASCII.
- Codec.EncodingHandler.Decode: the source's `except` branch is the separate method `DecodeFallback`. The modelled decoder is total, so nothing can trigger it from `Decode`.
- The `encoding` property getter is the field `EncodingHandler.encoding`.
- Default arguments (`'gbk'` for the constructor and for `text_to_bytes`, `final=False` for `decode`) are passed explicitly.
- Hex.ParseByte accepts only one or two hexadecimal digits. Python's `int(s, 16)` also accepts signs, underscores, surrounding spaces and a `0x` prefix. None of those can reach it, because only digits survive cleaning.
