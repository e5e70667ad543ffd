# nfc-socketio card core in Dafny

This project models the card-handling core of nfc-socketio, a small Node.js
service that relays NFC tags to socket.io clients. The core has two parts:

- `NDEFHelper`. It frames a payload as an NDEF Message TLV: type byte `03`, a
  one-byte length, or `FF` plus a 16-bit length, then the payload, the
  terminator `FE`, and zero padding up to a block multiple. It also reads such
  a frame back, probes for it, and validates password/PACK arguments given as
  Buffers or hex strings.
- `MifareUltralight`. This is a card session on a Mifare Ultralight / NTAG21x
  tag behind an ACR122U reader. It handles:
  - PWD_AUTH password authentication;
  - FAST_READ of a page range;
  - write protection, by rewriting the configuration block;
  - a cached read of the 144-byte user-data area (pages 4 to 0x27);
  - plain and differential writes;
  - the factory-blank test;
  - reading back the NDEF payload.

Layout:

- `common.dfy` (`Common`): bytes, `Option`/`Result`, and the two Buffer
  operations the core relies on. `Slice` clamps like `buf.slice`. `Assign`
  ignores `buf[i] = v` past the end.
- `ndef_helper.dfy` (`NdefHelper`): the codec and `parseBytes`, all pure
  functions and lemmas.
- `transceiver.dfy` (`Transceiver`): the reader the session talks to. A
  `Reader` object hands out scripted replies in call order and keeps a ghost
  log of every call. An exhausted script answers with a transport failure.
- `ultralight.dfy` (`Ultralight`): command bytes, response checks, the
  configuration rewrite and the selection of differential writes are
  functions. The session is the class `MifareUltralight`, with a mutable
  `data` cache and `password`. Each of its methods is proved against those
  functions: which calls it makes, in which order, what the reader has left
  afterwards, and what it returns or throws.

A thrown exception is a `Failure` value. An `await` on the reader that rejects
is `TransportError`.

## Model

| member | source | states |
|---|---|---|
| Common.Slice | src/cards/MifareUltralight.js:179 | `buf.slice(start, end)`: length is the clamped difference of the bounds; element `k` is the buffer's element `start + k`; an in-range slice is the plain subsequence |
| Common.Assign | src/cards/MifareUltralight.js:121-139 | a Buffer index assignment keeps the length; it changes exactly index `i`, and nothing when `i` is past the end |
| Common.Zeros | src/tools/NDEFHelper.js:25 | the fill `Buffer.concat` leaves past the copied parts: `n` zero bytes |
| NdefHelper.Prefix | src/tools/NDEFHelper.js:9-16 | type byte 3; a 2-byte prefix exactly when the payload has at most 254 bytes, holding the length; otherwise `FF` and the big-endian 16-bit length |
| NdefHelper.PaddedLength | src/tools/NDEFHelper.js:20-23 | the padded length is a multiple of the block size and less than one block above the unpadded length |
| NdefHelper.PaddedLengthIsLeast | src/tools/NDEFHelper.js:20-23 | no smaller multiple of the block size holds the message: the padding is minimal |
| NdefHelper.Frame | src/tools/NDEFHelper.js:9-25 | the frame is prefix, payload, terminator `FE`, then zeros only; its length is a block multiple below one extra block |
| NdefHelper.Encapsulate | src/tools/NDEFHelper.js:3-27 | as written: above 0xFFFE bytes it throws the size error; from 0x8000 bytes it throws the `writeInt16BE` range error; it succeeds exactly up to 0x7FFF bytes, returning the frame, which is block-aligned and starts `03` |
| NdefHelper.EncapsulateUnsigned | src/tools/NDEFHelper.js:3-27 | intended encoder: fails exactly above 0xFFFE bytes, with the size error; otherwise returns the frame; agrees with the code as written wherever that succeeds |
| NdefHelper.Clean | src/tools/NDEFHelper.js:29-46 | as written: the `false` sentinel exactly when the first byte is not `03`; throws exactly when byte 1 is `FE`; on the single byte `03` an empty payload; otherwise the slice of `data[1]` bytes after the 2-byte prefix, clamped to the data |
| NdefHelper.Decapsulate | src/tools/NDEFHelper.js:29-46 | intended decoder: sentinel exactly when the first byte is not `03`; an empty payload for the single byte `03`; reads a 16-bit unsigned length after the `FF` marker; fails, with `TruncatedLength`, exactly when that length field is cut off |
| NdefHelper.IsNdef | src/tools/NDEFHelper.js:48-50 | `data[0] === 0x03`, false on empty data; its properties are proved by `NdefHelper.IsNdefIsFirstByteProbe`: it reads only the first byte and agrees with `clean`'s sentinel |
| NdefHelper.IsNdefIsFirstByteProbe | src/tools/NDEFHelper.js:48-50 | `isNdef` depends on the first byte only, and holds exactly when `clean` does not return its sentinel |
| NdefHelper.FrameIsNdef | src/tools/NDEFHelper.js:3-27 | every frame the encoder builds passes `isNdef` |
| NdefHelper.CleanRoundTrip | src/tools/NDEFHelper.js:29-46 | the code as written round-trips payloads of at most 253 bytes, whatever follows the frame |
| NdefHelper.CleanThrowsAtLength254 | src/tools/NDEFHelper.js:38-40 | a 254-byte payload, framed, makes `clean` throw |
| NdefHelper.CleanMisreadsExtendedFrames | src/tools/NDEFHelper.js:38-45 | an extended frame is read with length 255: the result is the two length bytes and the first 253 payload bytes, never the payload when it is longer than 255 bytes |
| NdefHelper.CleanMisreads255 | src/tools/NDEFHelper.js:38-45 | a 255-byte payload not starting `00 FF` is misread too |
| NdefHelper.Clean255RoundTripsOnlyAlternating | src/tools/NDEFHelper.js:38-45 | of all 255-byte payloads, the code as written round-trips exactly `00 FF 00 FF … 00` |
| NdefHelper.DecapsulateRoundTrip | src/tools/NDEFHelper.js:3-46 | the intended decoder inverts the intended encoder for every payload up to 0xFFFE bytes, whatever follows the frame |
| NdefHelper.HexDecode | src/tools/NDEFHelper.js:74 | `Buffer.from(text, 'hex')` yields at most half as many bytes as characters |
| NdefHelper.HexRoundTrip | src/tools/NDEFHelper.js:74 | hex decoding inverts lower-case hex encoding |
| NdefHelper.HexDecodeComplete | src/tools/NDEFHelper.js:74 | an even-length all-hex string decodes to exactly half its length |
| NdefHelper.ParseBytes | src/tools/NDEFHelper.js:52-80 | a Buffer is accepted iff it has exactly `length` bytes, and is returned unchanged; a string is accepted iff it has `2*length` characters, and is hex-decoded; anything else is refused; each refusal carries its own message |
| NdefHelper.ParseBytesHex | src/tools/NDEFHelper.js:68-75 | a well-formed hex string of the right length yields exactly `length` bytes |
| NdefHelper.ParseBytesHexRoundTrip | src/tools/NDEFHelper.js:68-75 | the hex text of a value parses back to that value |
| Transceiver.DropIsSuffix | src/cards/MifareUltralight.js:173-192 | after `k` calls the reader has used exactly its first `k` replies |
| Transceiver.CallStep | src/cards/MifareUltralight.js:187-192 | one more call consumes one reply; the calls include a failure iff they did before or this one fails |
| Transceiver.AnyFailedExactly | src/cards/MifareUltralight.js:192 | `Promise.all` over `k` writes rejects exactly when one of the first `k` replies is a failure, or the reader runs out |
| Transceiver.Reader.Transmit | src/cards/MifareUltralight.js:58 | `reader.transmit` is logged and answered with the next reply |
| Transceiver.Reader.Read | src/cards/MifareUltralight.js:118 | `reader.read` is logged and answered with the next reply |
| Transceiver.Reader.Write | src/cards/MifareUltralight.js:116 | `reader.write` is logged and answered with the next reply |
| Ultralight.PwdAuthCommand | src/cards/MifareUltralight.js:42-53 | the exact 12 PWD_AUTH bytes for a 4-byte password, whose envelope length byte 7 matches its payload |
| Ultralight.FastReadCommand | src/cards/MifareUltralight.js:86-98 | the exact 10 FAST_READ bytes; the envelope announces 7 payload bytes where there are 5 |
| Ultralight.FastReadLength | src/cards/MifareUltralight.js:100 | for a non-empty page range the expected length is at least 9 bytes, and 5 framing bytes plus whole 4-byte pages |
| Ultralight.Unwrap | src/cards/MifareUltralight.js:108 | `response.slice(3, -2)` has 5 bytes fewer than the response (none when it is shorter) and element `k` is the response's element `3 + k` |
| Ultralight.AuthVerdict | src/cards/MifareUltralight.js:69-79 | success iff the response has at least 7 bytes, status `00` and the expected PACK at bytes 3-4; each of the three error codes iff its own condition holds, checked in source order |
| Ultralight.AuthVerdictExamples | src/cards/MifareUltralight.js:61-67 | the documented response `d5 43 00 ab cd 90 00` authenticates for PACK `ab cd` and is a PACK mismatch for `00 00` |
| Ultralight.FastReadVerdict | src/cards/MifareUltralight.js:104-108 | intended guard: refused iff shorter than expected, with `invalid_response_length`; otherwise `response.slice(3, -2)`, which for an expected length of at least 5 is the response without its 3-byte prefix and 2-byte trailer |
| Ultralight.FastReadVerdictAsWritten | src/cards/MifareUltralight.js:104-108 | as written, `response < length` refuses the empty response only; anything else is stripped |
| Ultralight.FastReadPages | src/cards/MifareUltralight.js:100-108 | a full response to FAST_READ yields 4 bytes per page |
| Ultralight.FastReadGuardIneffective | src/cards/MifareUltralight.js:104 | every non-empty, too-short response passes the guard as written and is refused by the intended one |
| Ultralight.FastReadGuardCounterexample | src/cards/MifareUltralight.js:104 | a 1-byte reply to a FAST_READ of one page is accepted as written and yields no data |
| Ultralight.ProtectConfig | src/cards/MifareUltralight.js:121-139 | AUTH0 is 4, ACCESS is `0x10`, the password goes at indices 8-11 when the block is that long, and every other byte keeps its value |
| Ultralight.ProtectConfigBlock | src/cards/MifareUltralight.js:118-139 | on the 8-byte block the reader returns, only AUTH0 and ACCESS change |
| Ultralight.ChunkIsSlice | src/cards/MifareUltralight.js:176-179 | chunk `i` is `buffer.slice(4i, 4i + 4)` |
| Ultralight.LoopBound | src/cards/MifareUltralight.js:170-173 | the floating-point bound `i < length/4 - 1` admits exactly the first `Considered(length)` chunks |
| Ultralight.ChunkConsidered | src/cards/MifareUltralight.js:170-177 | a chunk is considered iff it ends before the buffer does, so the last chunk never is |
| Ultralight.DiffWrites | src/cards/MifareUltralight.js:173-189 | the loop over `k` chunks issues at most `k` calls, each a write of at most 4 bytes to a page from 4 to `3 + k` |
| Ultralight.DiffWritesStep | src/cards/MifareUltralight.js:183-188 | each considered chunk adds one write when it changed and none otherwise |
| Ultralight.DiffWritesSelect | src/cards/MifareUltralight.js:173-189 | the differential writes are exactly: chunk `i` to page `4 + i`, for each considered chunk that differs from the cache |
| Ultralight.DiffWritesAscending | src/cards/MifareUltralight.js:173-189 | the writes are issued in strictly ascending page order |
| Ultralight.DiffWritesPages | src/cards/MifareUltralight.js:170-189 | page `4 + i` is written iff chunk `i` ends before the buffer does and differs from the cached bytes |
| Ultralight.DiffWritesSkipLastChunk | src/cards/MifareUltralight.js:170-189 | a changed last chunk is not written: an 8-byte buffer that differs only in bytes 4-7 writes nothing |
| Ultralight.IsFactoryBlank | src/cards/MifareUltralight.js:219-227 | user data with the factory-blank signature `01 03 A0` is never taken for NDEF |
| Ultralight.UserDataResult | src/cards/MifareUltralight.js:147-152 | a filled cache is returned as is; for an empty cache the result is the fast-read reply stripped by `slice(3, -2)`, a whole 144-byte region; it fails exactly when the reply is a transport failure or shorter than expected, with the transport error or `invalid_response_length` |
| Ultralight.NdefContent | src/cards/MifareUltralight.js:229-235 | a failure to get the user data is passed on; non-NDEF data gives `null`; a payload is returned exactly when the decoder yields it; for NDEF data the result fails exactly when the decoder does, which happens only on a cut-off length field |
| Ultralight.NdefContentReadsBackFrame | src/cards/MifareUltralight.js:229-235 | user data that begins with a written frame reads back as the payload written |
| Ultralight.NdefContentOfRawData | src/cards/MifareUltralight.js:229-235 | user data that is not NDEF reads back as `null` |
| Ultralight.MifareUltralight.constructor | src/cards/MifareUltralight.js:7-19 | a session starts with an empty cache and no password |
| Ultralight.MifareUltralight.SetPassword | src/cards/MifareUltralight.js:26-29 | the password is stored |
| Ultralight.MifareUltralight.PasswordAuthenticate | src/cards/MifareUltralight.js:32-80 | an invalid password or PACK is refused, in that order, before any I/O; otherwise exactly one transmit of the PWD_AUTH command, expecting 7 bytes, and the verdict on its response |
| Ultralight.MifareUltralight.FastRead | src/cards/MifareUltralight.js:83-110 | exactly one transmit of the FAST_READ command, with the expected length, and the intended verdict on its response |
| Ultralight.MifareUltralight.WriteProtect | src/cards/MifareUltralight.js:112-142 | an invalid password is refused before any I/O; otherwise: write the password to page 0x2B, read 8 bytes from page 0x29, write back the rewritten block; it stops at the first transport failure; for an 8-byte reply the block written back differs from it only in AUTH0 (4) and ACCESS (`0x10`) |
| Ultralight.MifareUltralight.GetUserData | src/cards/MifareUltralight.js:147-152 | a filled cache is returned with no I/O; an empty one is filled by one FAST_READ of pages 4 to 0x27 with a whole 144-byte region, and is left empty when that fails |
| Ultralight.MifareUltralight.Write | src/cards/MifareUltralight.js:160-197 | without differential writes or without a cache, one write of the whole buffer at page 4; otherwise exactly the selected chunk writes, in order, failing iff any of them fails; the cache is untouched |
| Ultralight.MifareUltralight.WriteChangedBlocks | src/cards/MifareUltralight.js:170-192 | the loop issues exactly the selected chunk writes, consumes one reply each, and reports whether any failed |
| Ultralight.MifareUltralight.WriteIfChanged | src/cards/MifareUltralight.js:174-188 | one iteration writes chunk `i` to page `4 + i` iff it differs from the cache |
| Ultralight.MifareUltralight.IsDifferent | src/cards/MifareUltralight.js:199-210 | true iff the two sequences differ in length or in some byte |
| Ultralight.MifareUltralight.WriteNdef | src/cards/MifareUltralight.js:212-217 | an oversized payload is refused with no I/O; otherwise one plain write of its frame at page 4 |
| Ultralight.MifareUltralight.IsNewCard | src/cards/MifareUltralight.js:219-227 | true iff the cache starts `01 03 A0`; an empty cache is not new |
| Ultralight.MifareUltralight.GetNdefContent | src/cards/MifareUltralight.js:229-235 | the user data as `getUserData` yields it: decoded when it is NDEF, `null` when it is not, and any failure passed on; the cache ends as `getUserData` leaves it |

## Left out

- The server, socket.io and reader-event wiring (`index.js`, `src/server.js`, `src/reader.js`), the exception classes' message text and the logging calls (`logger.debug`, `console.log`) are not part of this model.
- The nfc-pcsc reader driver is not part of this model: the reader is a scripted sequence of replies. Its `write` is assumed to split data into 4-byte pages itself. The `blockSize` argument at src/cards/MifareUltralight.js:187 is not logged, because it equals the driver's default of 4.
- Ultralight.MifareUltralight.Write: the differential writes are modelled in issue order. `Promise.all` runs them concurrently, and its array of results is not modelled, only whether it rejects.
- Ultralight.MifareUltralight.Write: `optimizeWrites` is a constant `false` in the source (line 163), so the differential branch never runs there. It is a parameter here so that both branches are modelled. `WriteNdef` passes the source's value, `OPTIMIZE_WRITES`.
- Ultralight.MifareUltralight.WriteChangedBlocks: the loop's floating-point guard `i < buffer.length / 4 - 1` is replaced by the integer bound `Considered(|buffer|)`. `Ultralight.LoopBound` proves the two equivalent over the reals. IEEE rounding is not modelled.
- Ultralight.FastReadVerdictAsWritten: for a non-empty response, JavaScript coerces the Buffer through its text to a number. That is NaN for any binary response, but a response whose text spells a number, or is only whitespace (such as the single byte `0x20` or `0x0A`, which coerce to 0), would compare numerically. The model treats every non-empty response as passing.
- Ultralight.MifareUltralight.FastRead: it uses the corrected guard `response.length < length` where the source compares `response < length` (see Findings). The as-written guard is `Ultralight.FastReadVerdictAsWritten`.
- Ultralight.MifareUltralight.WriteNdef: it frames with `NdefHelper.EncapsulateUnsigned`, so payloads of 0x8000 to 0xFFFE bytes get the unsigned frame where the source throws the `writeInt16BE` range error.
- Ultralight.MifareUltralight.GetNdefContent: it decodes with `NdefHelper.Decapsulate` where the source calls `clean`, and it loads data under the corrected fast-read guard.
- Ultralight.NdefContent: it decodes with the corrected decoder `NdefHelper.Decapsulate` where `getNdefContent` calls `clean` (src/cards/MifareUltralight.js:232). The code as written is `NdefHelper.Clean`.
- Ultralight.UserDataResult: its 144-byte bound for a loaded region rests on the corrected fast-read guard, as for `GetUserData` below.
- Ultralight.MifareUltralight.GetUserData: the promise that a filled cache holds a whole 144-byte region rests on the corrected guard. Under the guard as written (src/cards/MifareUltralight.js:104), a 10-byte reply to the user-data read is accepted, and 5 bytes are cached.
- Ultralight.MifareUltralight.WriteProtect: the model does not assume that the reader returns the 8 bytes the call asks for, because the nfc-pcsc driver is not part of this model. The contract covers a reply of any length. It states the 8-byte case separately: the password assignments at indices 8-11 (src/cards/MifareUltralight.js:136-139) fall past the end of the block and change nothing.
- NdefHelper.ParseBytes: JavaScript measures a string in UTF-16 code units, but a Dafny `string` counts Unicode scalar values. A password such as four emoji has JavaScript length 8 and passes the check at src/tools/NDEFHelper.js:70, while the model refuses it with `WrongHexLength`. `NdefHelper.HexDecode` reads characters, not code units, in the same way.
- Ultralight.FastReadCommand: the envelope length byte is 7 for a 5-byte payload. This is modelled as written, and whether the ACR122U tolerates it is not modelled.
- NdefHelper.Encapsulate: a non-positive `blockSize` is not modelled. The source always passes 4.
- NdefHelper.Clean: when byte 1 is `FE`, the source reads the undeclared `buffer` and throws a ReferenceError. This is `Failure(UndeclaredBuffer)`, and the signed `readInt16BE` that would follow is never reached.
- A changed last chunk is never written: the `- 1` in the loop bound (src/cards/MifareUltralight.js:170) skips it. So an 8-byte buffer that differs from the cache only in bytes 4-7 writes nothing (`Ultralight.DiffWritesSkipLastChunk`).

## Findings

| source | as written | input that shows it | evidently intended | confidence | as-written member | corrected member |
|---|---|---|---|---|---|---|
| src/tools/NDEFHelper.js:38-40 | `clean` takes `FE` as the extended-length marker and reads the undeclared `buffer` | a 254-byte payload (`clean` throws); a 300-byte payload (the length bytes are returned as payload) | test for `FF`, and read the unsigned 16-bit length from `data` | not executed | NdefHelper.CleanMisreadsExtendedFrames | NdefHelper.DecapsulateRoundTrip |
| src/tools/NDEFHelper.js:13 | `writeInt16BE` throws for lengths 0x8000 to 0xFFFE, which the guard at line 5 admits | a payload of 0x8000 bytes | `writeUInt16BE`, framing every payload up to 0xFFFE bytes | not executed | NdefHelper.Encapsulate | NdefHelper.EncapsulateUnsigned |
| src/cards/MifareUltralight.js:104 | `response < length` compares a Buffer with a number and refuses only the empty response | a 1-byte reply to a FAST_READ of page 4 alone (9 bytes expected) is accepted and yields no data | `response.length < length` | not executed | Ultralight.FastReadGuardIneffective | Ultralight.FastReadVerdict |
