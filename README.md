# Doublespeak codec, modelled in Dafny

Doublespeak hides binary messages in ordinary text. Each message is written as
a run of invisible characters drawn from a fixed alphabet of sixteen, one
character per 4-bit value. This project models the plaintext codec of `doublespeak.js` and proves what it does.
It covers:

- the nibble alphabet;
- the variable-length quantity (VLQ) length codec;
- byte-to-character expansion (`encodeBytes`);
- the carrier scanner (`decodeBytes`) and the stripper (`filterStr`);
- the table-driven CRC-32: reflected polynomial 0xEDB88320, as in ISO-HDLC / IEEE 802.3;
- frame assembly for text and file messages;
- the frame extractor (`decodeData`).

Each loop of the source is a `method` with a `while` or `for` loop. It is
proved equal to a specification function. Lemmas then state what the source
promises about those functions.

Modules, in dependency order:

- `Alphabet`: bytes, nibbles, the character table and its inverse. `Nibbles` reads a run of alphabet characters as one nibble each; it is a definition, and what it satisfies is stated by `CharsNibbles` and `Encoder.EncodingNibbles`.
- `Vlq`: `encodeLength`, `decodeLength`, and the VLQ field scan of `decodeData`.
- `Crc32`: the table initializer and `crc32`. The register is a `bv32`, so JavaScript's 32-bit `^`, `&` and `>>>` become exact.
- `Runs`: the tokenizer behind both scanners. A string splits into plain characters and maximal runs of alphabet characters (`Tokens`). `Render` inverts it.
- `Encoder`: `encodeBytes`.
- `Decoder`: `decodeBytes`, as `DecodeBytes` against `DecodeBytesSpec`. `Pairs` combines consecutive nibbles into bytes; it is a definition, proved to invert the byte expansion by `PairsOfByteNibbles`.
- `Filter`: `filterStr`, as `FilterStr` against `Filtered`.
- `Frame`: the frame `44 00 | crc32(payload) | flag | VLQ(len) | payload`. `encodeText` uses flag 1; `encodeFile` uses flag 2.
- `Extract`: `decodeData`, as `DecodeData` against `DecodeDataSpec`. The specification function yields one entry per `Step`. It terminates on the total of the run counts (`seqLens`).

Behaviour of the code worth knowing, modelled as written:

- **Noise runs.** A run of fewer than 16 alphabet characters is appended to the cover by `decodeBytes` as `cover += seq`. `seq` is an array of numbers, so the cover receives the comma-joined decimal nibble values, not the original characters. `filterStr` keeps such runs verbatim. The model does exactly this: see `Decoder.DecodeShortRun` and `Filter.FilterKeepsShort`. It follows that a noise run embedded in cover text does not come back verbatim in `decodeData`'s cover. The only entry `decodeData` reports for such text is "No message detected" (`Extract.DecodeNoise`).
- **Protocol-mismatch details.** `details` is built from the bytes after the first run (`bytes.subarray(seqLens[0])`).
- **The VLQ field.** Its scan starts at byte 7, after the flag at byte 6 (`header[4]`).
- **Resynchronisation.** A checksum or signature mismatch discards the whole first run. Good frames packed behind the bad one in that run are lost with it; frames in later runs still decode (`Extract.MismatchResync`).
- **Reads past the end.** A read past the end of the byte stream is `undefined`. In the VLQ scan, `undefined & 0x80` is 0 and ends the scan (`Vlq.At`). `header[4]` is then absent (`Extract.DataType` gives `None`). A missing header byte never equals a CRC byte (`Extract.CrcMatch`). `subarray` clamps its bounds (`Extract.Min`).

## Model

| member | source | states |
|---|---|---|
| Alphabet.CharOf | doublespeak.js:10-28 | `encChars[v]` is the character that `encVals` maps back to v |
| Alphabet.AlphabetBijection | doublespeak.js:10-28 | `encVals[c] == v` exactly when `encChars[v] == c`: the table is a bijection between the 16 characters and 0..15 |
| Alphabet.Chars | doublespeak.js:72 | spelling nibbles gives alphabet characters only, one per nibble, in order |
| Alphabet.CharsNibbles | doublespeak.js:10-28 | reading and spelling are mutually inverse on alphabet strings and on nibble sequences |
| Vlq.VlqShape | doublespeak.js:35-43 | an encoded length has at least one byte; every byte but the last has bit 0x80 set and the last has it clear; there is no leading zero digit; 0 encodes as `[0]` |
| Vlq.PrefixLength | doublespeak.js:37-40 | the continuation digits number the fewest k with m < 128^k |
| Vlq.VlqLength | doublespeak.js:35-43 | the encoding has as many bytes as started groups of 7 bits: 128^(len-1) <= n < 128^len, and a single byte exactly when n < 128 |
| Vlq.PrefixValue | doublespeak.js:50-56 | decoding the continuation digits of m gives back m |
| Vlq.VlqRoundTrip | doublespeak.js:35-56 | `decodeLength(encodeLength(n)) == n` for every natural n |
| Vlq.EncodeLength | doublespeak.js:35-43 | the low digit first, then one `unshift` of `n & 0x7F \| 0x80` per `n >>= 7` while n > 127, gives the VLQ bytes of n |
| Vlq.DecodeLength | doublespeak.js:50-56 | the `len << 7 \| b & 0x7F` loop gives the value of the digits |
| Vlq.FieldLen | doublespeak.js:221-222 | the measured VLQ field is at least one byte long |
| Vlq.FieldLenOfVlq | doublespeak.js:221-224 | scanning for the continuation bit from the start of an encoded length finds exactly its bytes, whatever follows it |
| Vlq.FieldLenOfDigits | doublespeak.js:222 | digits with the continuation bit on all but the last are measured as exactly their own length, whatever precedes or follows them |
| Crc32.ComputeEntry | doublespeak.js:300-303 | the inner loop gives eight shifts `c & 1 ? 0xEDB88320 ^ (c >>> 1) : c >>> 1` starting from n |
| Crc32.BuildTable | doublespeak.js:296-306 | the table has 256 entries, entry n being eight shifts of n |
| Crc32.BigEndian4 | doublespeak.js:322-324 | the output bytes are four |
| Crc32.CrcEmpty | doublespeak.js:316-324 | the checksum of no bytes is 0 and its bytes are `00 00 00 00` |
| Crc32.TableStep | doublespeak.js:318 | a lookup in the built table is the byte step of the CRC register |
| Crc32.CheckValue | doublespeak.js:313-326 | the checksum of the ASCII digits "123456789" is 0xCBF43926, the check value of the ISO-HDLC / IEEE 802.3 CRC-32, with output bytes `CB F4 39 26` |
| Crc32.CheckBytes | doublespeak.js:322-324 | the output bytes of 0xCBF43926 are `CB F4 39 26`, most significant first |
| Crc32.RunRegister | doublespeak.js:316-318 | the register loop gives the register of the all-ones preset fed with every byte in order |
| Crc32.OutputBytes | doublespeak.js:322-324 | the output loop `crc >> i & 0xFF` for i = 24, 16, 8, 0 gives the big-endian bytes of the checksum |
| Crc32.Crc32 | doublespeak.js:313-326 | `crc` is the inverted final register, below 2^32, and `bytes` are its four big-endian bytes |
| Runs.RunLen | doublespeak.js:96-99 | the run that starts a string is maximal: all its characters are alphabet characters, and the next one is not |
| Runs.WellFormedCons | doublespeak.js:90-111 | a token list is well formed iff its head is a plain non-alphabet character or a non-empty run, a run is followed by a plain character, and its tail is well formed |
| Runs.VisibleConcat | doublespeak.js:131-132 | the non-alphabet characters of a concatenation are those of each part, in order |
| Runs.TokensWellFormed | doublespeak.js:90-111 | the scan yields plain non-alphabet characters and maximal, non-empty runs, never two runs in a row |
| Runs.RenderTokens | doublespeak.js:90-111 | the scan loses and reorders nothing: spelling its tokens back gives the string |
| Runs.TokensRender | doublespeak.js:90-111 | on well-formed tokens the scan inverts spelling them out |
| Runs.TokensOfPlainPrefix | doublespeak.js:92-93 | text without alphabet characters scans as one plain token per character, whatever follows it |
| Runs.TokensOfIsolatedRun | doublespeak.js:90-111 | a run between two alphabet-free texts scans as those texts' characters around a single run |
| Runs.NoLongWindow | doublespeak.js:137 | when every run is shorter than a bound, no window of that many characters is all alphabet |
| Runs.TokensEndingInRun | doublespeak.js:90-111 | alphabet-free text followed by one run scans as one plain token per character, then that single run |
| Runs.TokensAfterRun | doublespeak.js:96-99 | a run ends at the first character outside the alphabet, so text ending in a run scans as itself followed by the scan of what comes after |
| Encoder.EncodeBytes | doublespeak.js:63-76 | the output is the encoding of the concatenated bytes of the present arguments; falsy arguments add nothing |
| Encoder.EncodingShape | doublespeak.js:71-72 | output characters 2k and 2k+1 are `encChars[b >> 4]` and `encChars[b & 0xF]` of byte k; the output has twice as many characters as bytes, all from the alphabet |
| Encoder.ByteNibblesShape | doublespeak.js:72 | nibbles 2k and 2k+1 are the high and low halves of byte k |
| Encoder.EncodingNibbles | doublespeak.js:72 | the characters of an encoding read back as exactly the nibbles of the bytes |
| Encoder.EncodingConcat | doublespeak.js:67-73 | the arguments are encoded back to back |
| Decoder.Digit | doublespeak.js:102 | a decimal digit is a character '0' to '9' |
| Decoder.Decimal | doublespeak.js:102 | a nibble prints as one or two decimal digits |
| Decoder.KeptNibbles | doublespeak.js:104-107 | a retained run always keeps an even number of nibbles |
| Decoder.NybblesEven | doublespeak.js:104-107 | the nibble stream always has even length |
| Decoder.TakeRun | doublespeak.js:95-99 | the do-while collects the maximal run starting at i and stops at its end |
| Decoder.ScanRuns | doublespeak.js:87-111 | the scan loop gives the cover, nibbles and run byte counts of the scan's tokens, in order |
| Decoder.PairUp | doublespeak.js:114-116 | the pairing loop gives the bytes of consecutive nibble pairs |
| Decoder.DecodeBytes | doublespeak.js:83-119 | `decodeBytes` gives exactly `DecodeBytesSpec` |
| Decoder.ScanConcat | doublespeak.js:90-111 | the cover, the nibbles and the run counts all distribute over concatenations of tokens |
| Decoder.ScanPlains | doublespeak.js:92-93 | plain characters go to the cover verbatim and contribute no nibbles or runs |
| Decoder.LensAccount | doublespeak.js:106-108 | twice the sum of the run counts is the number of nibbles kept, and every count is at least 8 |
| Decoder.SeqLensAccount | doublespeak.js:90-118 | `sum(seqLens) == bytes.length`, and every `seqLens` entry is at least 8 |
| Decoder.CoverNoEnc | doublespeak.js:87-111 | the cover holds no alphabet character |
| Decoder.PairsOfByteNibbles | doublespeak.js:114-116 | pairing the nibbles of bytes gives the bytes back |
| Decoder.DecodeLongRun | doublespeak.js:100-108 | a run of 16 or more characters between alphabet-free texts gives the cover of those texts, the bytes of its even prefix, and one count of half its length |
| Decoder.DecodeShortRun | doublespeak.js:100-102 | a run of fewer than 16 characters goes to the cover as comma-joined decimals, and no bytes or counts come from it |
| Decoder.OddRunDropsLastNibble | doublespeak.js:104-106 | an odd retained run decodes as the run without its last character, giving (len-1)/2 bytes; 17 characters give 8 bytes |
| Decoder.DecodeEncoded | doublespeak.js:63-119 | for alphabet-free c1, c2 and at least 8 bytes b, scanning `c1 + encodeBytes(b) + c2` gives cover `c1 + c2`, bytes `b` and `seqLens == [|b|]` |
| Decoder.PairsConcat | doublespeak.js:114-116 | pairing nibbles distributes over concatenation at an even boundary |
| Decoder.ScanSplit | doublespeak.js:83-119 | a string that scans as its two parts side by side decodes as them side by side: covers, bytes and run counts concatenated |
| Decoder.DecodeTwoEncoded | doublespeak.js:90-118 | two encodings of at least 8 bytes each, kept apart by non-empty alphabet-free text, give cover `c0 + c1 + c2`, bytes `b1 + b2` and `seqLens == [|b1|, |b2|]` |
| Filter.TakeChars | doublespeak.js:134-136 | the inner loop collects the maximal run starting at i |
| Filter.FilterStr | doublespeak.js:126-143 | `filterStr` gives exactly `Filtered` |
| Filter.FilterIsRender | doublespeak.js:130-140 | the output is the input's tokens without the runs of 16 or more, spelled back |
| Filter.RemoveLongWellFormed | doublespeak.js:137-138 | removing long runs leaves well-formed tokens |
| Filter.TokensOfFiltered | doublespeak.js:126-143 | scanning the output gives the input's tokens with the long runs removed |
| Filter.RemoveLongShort | doublespeak.js:137-138 | after removal every run is shorter than 16, and removal is idempotent |
| Filter.FilterIdempotent | doublespeak.js:126-143 | `filterStr(filterStr(s)) == filterStr(s)` |
| Filter.FilteredNoLongRun | doublespeak.js:137-138 | the output holds no 16 consecutive alphabet characters |
| Filter.FilterKeepsVisible | doublespeak.js:131-132 | every non-alphabet character is kept, in order |
| Filter.FilterKeepsShort | doublespeak.js:137-138 | a string whose runs are all shorter than 16 comes out unchanged, so short runs are kept verbatim |
| Filter.FilteredCarriesNothing | doublespeak.js:137-138 | scanning filtered text recovers no bytes and no runs |
| Frame.FrameLayout | doublespeak.js:156 | a frame is the signature `44 00`, the four CRC bytes of the payload, the flag, the VLQ length and the payload, in that order |
| Frame.PresentTextArgs | doublespeak.js:156 | the unencrypted text call skips the salt-separator and salt arguments |
| Frame.PresentFileArgs | doublespeak.js:182 | the file call concatenates its five arguments |
| Frame.EncodeText | doublespeak.js:150-164 | the text carrier is `''` for an empty payload, else the encoding of the flag-1 frame of the filtered text's bytes |
| Frame.EncodeFile | doublespeak.js:174-191 | the file carrier is the encoding of the flag-2 frame of `type \0 name \0 bytes` |
| Frame.TextCarrierShape | doublespeak.js:156 | the text carrier is empty iff the payload is, is all alphabet characters, and is two characters per frame byte |
| Extract.Drop | doublespeak.js:213 | `subarray(k)` keeps the bytes after the first k, clamped at the end |
| Extract.DataStart | doublespeak.js:224 | the data starts at byte 8 or later |
| Extract.DataEnd | doublespeak.js:229 | the data never ends before it starts |
| Extract.Step | doublespeak.js:203-249 | every iteration keeps each run count positive and the counts covering the stream, and strictly lowers their total, so the loop terminates |
| Extract.ScanCovers | doublespeak.js:200 | the scanner's run counts cover its byte stream |
| Extract.MeasureVlq | doublespeak.js:221-222 | the `while (bytes[6 + ++VLQLen] & 0x80)` loop measures the VLQ field from byte 7 |
| Extract.FrameBounds | doublespeak.js:219-229 | `dataStart` and `dataEnd` are the field boundaries |
| Extract.ReadFrame | doublespeak.js:219-238 | the entry pushed for a signed stream has its CRC verdict, its checksum, `header[4]` as the data type and the data field |
| Extract.StepOnce | doublespeak.js:203-249 | one pass through the loop body is one `Step` |
| Extract.DecodeData | doublespeak.js:199-253 | `decodeData` gives exactly `DecodeDataSpec` |
| Extract.LayoutHead | doublespeak.js:225-227 | the first seven bytes determine the signature check, the data type and the four CRC bytes of the header |
| Extract.LayoutData | doublespeak.js:224-231 | a stream laid out as a frame has its data field exactly at the payload |
| Extract.FrameParse | doublespeak.js:219-238 | a frame at the head of the stream is signed and ends where the frame does; it matches its CRC and gives entry (true, crc32(P), flag, P) |
| Extract.StepOnGood | doublespeak.js:240-249 | a good frame within the first run cuts the stream after the frame; it shortens `seqLens[0]` by the frame's length, or discards it when the frame used the run up |
| Extract.StepOnFrame | doublespeak.js:240-249 | a well-formed frame at the head of the stream is consumed exactly, leaving the bytes after it |
| Extract.MismatchDropsRun | doublespeak.js:205-249 | a protocol mismatch happens exactly when the signature is wrong; a protocol or CRC mismatch drops exactly the first run's bytes and its count; a CRC match drops exactly the frame |
| Extract.Goods | doublespeak.js:238 | one good entry per payload, in order |
| Extract.FrameLens | doublespeak.js:108 | one run count per frame |
| Extract.EntriesAfterOwnRun | doublespeak.js:244-246 | a good frame that fills its own run yields its entry, and decoding goes on with the next run |
| Extract.EntriesAfterFrameInRun | doublespeak.js:241-243 | a good frame at the head of a longer run yields its entry, and decoding goes on in the rest of that run |
| Extract.EntriesOfOneRun | doublespeak.js:240-250 | frames packed into one run decode as their entries, in order |
| Extract.EntriesOfSeparateRuns | doublespeak.js:240-250 | frames each in their own run decode as their entries, in order |
| Extract.DecodePlain | doublespeak.js:205-207 | text without alphabet characters is all cover and gives only "No message detected" |
| Extract.DecodeEmpty | doublespeak.js:205-207 | `decodeData('')` gives only "No message detected" |
| Extract.DecodeFiltered | doublespeak.js:199-253 | stripped text gives only "No message detected" |
| Extract.DecodePacked | doublespeak.js:199-253 | one carrier holding several packed frames decodes as their entries in order, and the cover is the surrounding text |
| Extract.DecodeFrame | doublespeak.js:199-253 | one frame between alphabet-free texts decodes as exactly one entry: CRC match, its checksum, its flag and its payload |
| Extract.DecodeTwoFrames | doublespeak.js:240-250 | two valid frames in one run decode as two entries, in order |
| Extract.TextRoundTrip | doublespeak.js:150-164 | decoding an `encodeText` carrier in cover text gives back the cover; it gives the one flag-1 entry with the filtered text's bytes, or "No message detected" when the payload is empty |
| Extract.FileRoundTrip | doublespeak.js:174-191 | decoding an `encodeFile` carrier in cover text gives back the cover and the one flag-2 entry with `type \0 name \0 bytes` |
| Extract.EntriesNoMessage | doublespeak.js:205-216 | "No message detected" appears only for an empty stream, and then as the only entry; every call yields at least one entry |
| Extract.DecodeSeparateFrames | doublespeak.js:199-253 | two frames with cover text between them decode as their two good entries, in order, the cover being the text around them |
| Extract.MismatchThenRest | doublespeak.js:205-249 | a first run that fails its signature or CRC check yields one protocol-mismatch or CRC-mismatch entry, then the following runs decode on their own |
| Extract.MismatchResync | doublespeak.js:240-249 | after a first run that fails its check, the frames packed behind the bad one in that run are lost; every frame in the later runs decodes, in order |
| Extract.DecodeNoise | doublespeak.js:199-253 | a run of fewer than 16 characters in alphabet-free cover text comes out in the cover as comma-joined decimals, and the only entry is "No message detected" |

## Left out

- Encryption: `deriveKey`, `encrypt`, `decrypt`, the random salt, the key-dependent flag 0 and the salt separator. These are asynchronous calls into the platform's cryptography, and the salt arguments are always absent on the plaintext path.
- Promises: `Promise.resolve` and the asynchronous wrapping of `encodeText` and `encodeFile`. The model returns the carrier string directly.
- UTF-8 conversion: `TextEncoder` is a parameter `utf8` of the text and file operations. `decodeData`'s protocol-mismatch `details` are the raw byte slice, without the `"\nData: "` prefix and the UTF-8 decoding.
- `extractText` and `extractFile`: UTF-8 decoding, blobs and object URLs are browser I/O.
- Debug output: the `console.info` calls.
- Vlq.VlqRoundTrip: lengths are unbounded naturals. The model omits JavaScript's 32-bit `n >>= 7` in `encodeLength` and `len << 7` in `decodeLength`. The round trip is therefore proved for every n, where the source is exact only below 2^31. A field whose value is 2^31 or more wraps in the source, and the model does not follow that wrap-around.
- Crc32.Crc32: the model does not prove that the table-driven register equals the bit-at-a-time CRC for every input. Over a symbolic register, one byte step already exceeds the verifier's limits. The standard check value is proved instead (`Crc32.CheckValue`).
- The frozen CRC table is passed to the methods as a parameter whose entries are required to be `TableEntry(n)` (`Frame.IsCrcTable`). `Crc32.BuildTable` proves that the initializer produces exactly such a table.
- Characters: JavaScript strings are UTF-16 code units and Dafny strings are sequences of characters. All sixteen alphabet characters are in the Basic Multilingual Plane, so every alphabet character is a single unit in both. Characters outside that plane are one character here but two units in the source; this does not change any run.
- `decodeData` checks `!bytes.length` inside its do-while loop. The model tests it once before the loop, because bytes can only be empty there on the first pass.
