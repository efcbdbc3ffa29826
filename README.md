# Modbus RTU master: frames, request validation and write retries

A Dafny model of `ModbusMaster` in `lib/master.js`, the master side of a
Modbus RTU register protocol over a serial line. The model covers the
following parts of the master:

- the two request-frame builders, `createFixedPacket` and `createVariousPacket`;
- the `request` step, which adds the CRC trailer, hands the frame to the transport and checks the reply's CRC;
- the three register operations:
  - `readHoldingRegisters` (function 0x03);
  - `writeSingleRegister` (0x06) with its bounded retry loop;
  - `writeMultipleRegisters` (0x10);
- the options merge done by the constructor.

Each frame is the slave address followed by the request PDU of sections 6.3,
6.6 and 6.12 of the Modbus Application Protocol Specification V1.1b3. Bytes are
integers 0..255, and a frame is a `seq<int>`.

Files:

- `wire.dfy`:
  - `Wrappers` provides Option and Result;
  - `Wire` provides the `word8be`/`word16be` writers and the big-endian word reader that undoes them.
- `frames.dfy`: `Frames`, the two frame builders, a decoder beside each, and the round-trip lemmas in both directions.
- `retry.dfy`:
  - `Errors` holds the failures and the per-attempt label;
  - `Retry` holds the retry controller in two forms:
    - `PerformRequest`, the recursive form that mirrors the source;
    - `RetryLoop`, the iterative form, which is proved to yield the same run.
  - The lemmas say what the controller does.
- `master.dfy`: `Master`, which holds `request`, the three operations and the options merge.

Collaborators whose code is not in `lib/master.js` are parameters:

- The `packet-utils` functions (`addCrc`, `checkCrc`, `getDataBuffer`, `parseFc03Packet`) are the fields of a `PacketUtils` value and are left uninterpreted.
- The serial transport is a function from the frame written to the reply it draws (`Link`).
- A retried write takes one such function per attempt (`nat -> Link`).
- The values from `./constants` (timeouts, `DEFAULT_RETRY_COUNT`) are fields of `Constants`.
- The function codes 0x03, 0x06 and 0x10 are taken from the Modbus standard.

Behaviour of the code worth knowing, which the model follows
(`lib/master.js:80`, `:85`, `:87-88`):

- A `retryCount` of 0 is replaced by the default count (`retryCount || DEFAULT_RETRY_COUNT`); the call does not fail at once.
- A negative count fails with `ModbusRetryLimitExceed` before any request is made; the last transport or CRC error is not propagated.
- With an effective count N, exactly max(N, 0) attempts are made before the retry-limit error.
- The label of that error reads attempt N+1 of N, or 1 of N when N < 0.
- The constructor (`Master.NewMaster`) only stores the result of `MergeOptions` as the master's `_options`; no modelled operation reads it.

## Model

| member | source | states |
|---|---|---|
| `Wire.Word8` | lib/master.js:124 | `word8be` keeps the low eight bits: the result is a byte, congruent to the input modulo 256, and equal to the input when that already fits in a byte |
| `Wire.Word16` | lib/master.js:124 | `word16be` gives two bytes, high byte first, that read back as the input modulo 65536, and as the input itself when it fits in 16 bits |
| `Wire.Words` | lib/master.js:139-141 | the values written one word each: 2 bytes per value, all bytes |
| `Wire.WordsAt` | lib/master.js:139-141 | word i of the written values reads back as value i modulo 65536, in array order |
| `Wire.WordsSnoc` | lib/master.js:139-141 | appending one value to the array appends exactly its two bytes to the written words (one step of the forEach) |
| `Wire.ParseWordsOfWords` | lib/master.js:139-141 | 16-bit values written as words and read back are unchanged |
| `Wire.WordsOfParseWords` | lib/master.js:139-141 | an even run of bytes is the encoding of the words read from it |
| `Frames.CreateFixedPacket` | lib/master.js:123-125 | exactly 6 bytes: slave and function code as bytes, then `param` and `param2` big-endian, each the input modulo 65536 |
| `Frames.FixedPacketRoundTrip` | lib/master.js:123-125 | decoding the fixed frame recovers slave, function, `param` and `param2`, reduced to their field widths; it recovers them exactly when they are in range |
| `Frames.ParseFixedPacketInverse` | lib/master.js:123-125 | every six-byte frame is the fixed frame of the in-range fields decoded from it |
| `Frames.VariousPacket` | lib/master.js:136-144 | 7 + 2n bytes. Bytes 0-1 are slave and function, each modulo 256. Bytes 2-3 are `start` modulo 65536, big-endian. Bytes 4-5 are n modulo 65536, big-endian (exactly n when n < 65536). Byte 6 is 2n modulo 256 (exactly 2n when n < 128). Value i modulo 65536 is at bytes 7+2i and 8+2i, big-endian |
| `Frames.CreateVariousPacket` | lib/master.js:136-144 | the header followed by one `word16be` per value, appended in a loop, is exactly `VariousPacket` |
| `Frames.VariousPacketRoundTrip` | lib/master.js:137-141 | decoding a variable-length frame built from in-range fields recovers slave, function, `start` and every value in order |
| `Frames.ParseVariousPacketInverse` | lib/master.js:137-141 | every frame whose count and byte-count fields agree with its length is the variable-length frame of the fields decoded from it |
| `Retry.EffectiveRetryCount` | lib/master.js:80 | an omitted count and a count of 0 both become the default; any other count, negative ones included, is kept |
| `Retry.PerformRequest` | lib/master.js:82-99 | at most max(`retry`, 0) attempts, and a failure is always the retry-limit error, never a transport or CRC error |
| `Retry.PerformRequestFacts` | lib/master.js:82-99 | from `retry` left, the attempts are numbered consecutively from `total + 1 - retry`. Success comes at the first attempt that succeeds. Otherwise all max(retry, 0) attempts failed, and the error's label is one past the last attempt |
| `Retry.RetryController` | lib/master.js:82-100 | started at N: attempt labels run 1, 2, ... of N. There are at most max(N, 0) attempts. The call ends with the first success, or after max(N, 0) failed attempts with `ModbusRetryLimitExceed` labelled one past the last attempt |
| `Retry.RetrySucceedsIff` | lib/master.js:93-96 | the call succeeds if and only if one of the first N attempts succeeds |
| `Retry.RetryFirstSuccess` | lib/master.js:93 | if attempt k < N is the first that succeeds, the call resolves with that attempt's response after exactly k + 1 attempts |
| `Retry.RetryExhausted` | lib/master.js:85-96 | with N >= 1 and every attempt failing: exactly N attempts labelled 1..N, then `ModbusRetryLimitExceed` labelled N+1 of N |
| `Retry.RetryNegativeCount` | lib/master.js:87-88 | a negative count rejects with `ModbusRetryLimitExceed` labelled 1 of N after no attempt at all |
| `Retry.RetryLoop` | lib/master.js:82-100 | the iterative controller (a counter decremented after each failed attempt) yields the same result and attempt labels as the recursive `performRequest` |
| `Master.MergeOptions` | lib/master.js:38-41 | both timeouts are always present. Every key the caller gives overrides the default, whatever its value. A timeout the caller omits keeps its default. Absent options count as an empty object |
| `Master.Request` | lib/master.js:151-158 | the transport receives `addCrc(packet)`. A reply that passes `checkCrc` is returned unchanged. Any other reply fails with `ModbusCrcError`. A transport failure is passed on as is. The step never fails with the retry-limit error |
| `Master.ReadHoldingRegisters` | lib/master.js:55-67 | one request with the function-0x03 fixed frame. Its failures are passed on. A validated reply's data buffer goes to the callback unchanged, or to `parseFc03Packet` with the tag |
| `Master.WriteMultipleRegisters` | lib/master.js:109-112 | one request, never retried, with the function-0x10 variable-length frame; the validated reply is the result |
| `Master.WriteSingleRegister` | lib/master.js:76-101 | every attempt sends the function-0x06 fixed frame. There are at most max(N, 0) attempts, labelled 1..N. The call resolves with the first reply that passes `checkCrc`, every earlier attempt having failed. Otherwise it rejects with `ModbusRetryLimitExceed` labelled one past the last attempt, after exactly max(N, 0) attempts |

## Left out

- The serial transport (`SerialHelperFactory`, `serial.write`), with its queue, its timeouts and the half-duplex serialisation. Each exchange is a function from the frame written to the reply it draws.
- Promise mechanics: the bluebird promises and the throw inside the promise constructor. Only the resulting control flow is modelled: that throw becomes a rejection.
- Logger output (lib/master.js:91, 94) and the `console.error` handler (lib/master.js:34-36), which are I/O:
  - The labels are kept, one per attempt, in the `log` result.
  - The text of the messages is not modelled.
  - The error message logged at line 94 carries the same label as its attempt, so it is not recorded separately.
- The `Logger` and serial helper that the constructor creates from the merged options. They are not part of this model.
- `packet-utils` (`addCrc`, `checkCrc`, `getDataBuffer`, `parseFc03Packet`) is not part of this model:
  - These functions are uninterpreted.
  - The CRC-16 algorithm is not modelled, so nothing is claimed about `checkCrc(addCrc(p))`.
  - The data-type decoding, floating point included, is not modelled.
- Exceptions thrown by `packet-utils` or by a caller's `dataType` callback are not modelled. Both are total functions here, and the callback returns a sequence of numbers rather than an arbitrary JavaScript value.
- `Retry.EffectiveRetryCount`: the count is an optional integer, so only `undefined` (None) and 0 fall back to the default. The other JavaScript falsy values (`null`, `NaN`, `false`, `""`) do the same in the source but are not modelled.
- `Wire.Word8`, `Wire.Word16`: the bufferput library is not part of this model. Its writers are modelled as keeping the low-order bytes of an integer. Non-integer numbers and integers outside the 32-bit range are not modelled.
- The constants' values (timeouts, `DEFAULT_RETRY_COUNT`) are not fixed; every property holds for any values.
