# RFID card reader: serial protocol and card record codec

This project models the communication core of a browser client for an RFID
card reader/writer. The client talks to the reader over a serial port with a
line-based text protocol:

- `RID` reads the card id;
- `RBK` reads the card's data block;
- `WBK` plus 32 hexadecimal digits writes the card's data block.

Each reply arrives as a sequence of text chunks. After every chunk, a
completion check runs on the whole text received so far and decides whether
the command has been answered. The data block is a 16-byte record sent as
32 upper-case hexadecimal characters:

- a registered flag;
- a lost flag;
- a balance;
- a student number;
- padding.

The model has five files:

- `wrappers.dfy`: `Option`, which stands for JavaScript's `null` results.
- `js_string.dfy` (module `JsString`): the JavaScript string built-ins that
  the code relies on, each with a contract. These are `includes`,
  `endsWith`, `.length` in UTF-16 units, `trim`, `parseInt(s, 16)`,
  `toString(16).toUpperCase()`, `padStart`, `repeat` and the
  trailing-zero regular expression `/0+$/`. The leading-zero expression
  `/^0+/` is not in the code: it is used only by the corrected parser.
- `card_data.dfy` (module `CardData`): `parseCardData` and `buildCardData`
  as written, plus the corrected pair that does round-trip (see Findings).
- `serial_protocol.dfy` (module `SerialProtocol`): the pure parts of the
  protocol:
  - the `sendData` framing;
  - the chunk-by-chunk accumulation that every reply handler performs,
    with lemmas that characterise its verdict;
  - the `RID`, `RBK` and `WBK` completion checks;
  - the `WBK` validator;
  - the `readCardId` retry chain.
- `serial_engine.dfy` (module `SerialEngine`): the imperative parts:
  - class `SerialCommunication`, with its listener registry, the
    `openPort` guard, `sendData` and the three commands as methods. Each
    command method is proved against the protocol functions.
  - class `ReadBlockRequest`, the mutable state of a `readCardData` call:
    its buffer, the `isComplete` guard, the time of the last chunk, and
    the value its promise settled with.

Inputs stand in for time and I/O:

- the reply chunks a command receives;
- the times those chunks arrive at, in milliseconds;
- the outcome of the host's `requestPort`/`open`;
- whether a write succeeds.

Where the prose description of the system and the code disagree, the model
follows the code:

- `buildCardData` returns 30 characters, not 32.
- `parseCardData` removes trailing zeros from the student number, not
  leading ones.
- `readCardId` retries without bound instead of stopping after 3 attempts.
- The 500 ms stall test in `readCardData` never fires, because the only
  delayed check runs 100 ms after a chunk.
- A `WB1:1,C:` code of any kind fails a write unless the buffer already
  holds both `WB1:1,C:0` and the success phrase; failure does not need a
  nonzero code.
- The commands ignore the result of `sendData`, so a failed write does not
  end the command.

## Model

| member | source | states |
|---|---|---|
| JsString.Utf16Length | src/utils/serialCommunication.js:267 | `.length` counts UTF-16 units: between the number of characters and twice that |
| JsString.Trim | src/utils/serialCommunication.js:272 | `trim()` returns the piece of the input that starts where the leading ECMAScript white space ends, with only white space before and after it; it neither starts nor ends with white space, and it is empty exactly when the input is all white space |
| JsString.HexValue | src/utils/cardDataUtils.js:26 | `parseInt(s, 16)` of k upper-case hexadecimal digits is below 16^k |
| JsString.HexString | src/utils/cardDataUtils.js:73 | `toString(16).toUpperCase()` returns upper-case hexadecimal digits with no leading zero, whose value is the number |
| JsString.HexStringLength | src/utils/cardDataUtils.js:73 | a number below 16^k has at most k hexadecimal digits |
| JsString.PadStart | src/utils/cardDataUtils.js:76 | `padStart` keeps the text as the suffix, fills only the front, and reaches the width |
| JsString.Repeat | src/utils/cardDataUtils.js:79 | `s.repeat(n)` is n times as long as `s` and is made of characters of `s` |
| JsString.StripTrailingZeros | src/utils/cardDataUtils.js:29 | `replace(/0+$/, '')` returns a prefix of the input that does not end in '0'; everything cut off is '0' |
| CardData.ParseCardData | src/utils/cardDataUtils.js:11-41 | returns null unless the input is exactly 32 characters of [0-9A-F]; a flag is true iff its character is '1'; the balance is the value of characters 2..5 (0..65535); the student number is characters 6..17 with trailing zeros removed |
| CardData.ParseIgnoresPadding | src/utils/cardDataUtils.js:19-29 | two records that agree on their first 18 characters parse the same: characters 18..31 are never read |
| CardData.ParseKeepsLeadingZeros | src/utils/cardDataUtils.js:29 | a student number field that starts with '0' and does not end with '0' comes back whole, leading zeros included |
| CardData.Flag | src/utils/cardDataUtils.js:67-70 | a flag is written as '1' when it is true and '0' when it is false |
| CardData.BalanceField | src/utils/cardDataUtils.js:73 | a balance in 0..9999 is written as 4 upper-case hexadecimal digits whose value is the balance |
| CardData.StudentIdField | src/utils/cardDataUtils.js:76 | a student number is written as 12 digits: the number behind as many '0' characters as make 12 |
| CardData.EncodeFields | src/utils/cardDataUtils.js:67-81 | the 18 field characters are the two flags, the balance field and the student number field, in that order |
| CardData.Trailers | src/utils/cardDataUtils.js:79 | the padding as written is 12 'F' characters; 14 are needed to make 32 |
| CardData.BuildCardData | src/utils/cardDataUtils.js:52-86 | returns null iff the balance is outside 0..9999 or the student number is not 1 to 12 ASCII digits; otherwise the 18 field characters and 12 'F' characters, 30 in all |
| CardData.BuildNeverParses | src/utils/cardDataUtils.js:79-81 | no text `buildCardData` returns is accepted by `parseCardData` or by the write validator |
| CardData.FieldsDecode | src/utils/cardDataUtils.js:29 | decoding the built fields gives back the flags and the balance; trailing-zero removal gives back the student number iff it has 12 digits and does not end in '0' |
| CardData.StripTrailingZerosOfPadded | src/utils/cardDataUtils.js:29 | removing trailing zeros from the padded student number field gives the number back iff it has 12 digits and does not end in '0' |
| CardData.BuiltFieldsDecode | src/utils/cardDataUtils.js:19-29 | the same decoding, applied to the text `buildCardData` returns |
| CardData.BuildCardDataCorrected | src/utils/cardDataUtils.js:79 | with 14 'F' characters the builder returns a 32-character record, and returns null on exactly the same inputs as `buildCardData` |
| CardData.ParseCardDataCorrected | src/utils/cardDataUtils.js:29 | accepts exactly the inputs `parseCardData` accepts, with the same flags and balance, but removes leading zeros from the student number |
| CardData.CorrectedFieldsDecode | src/utils/cardDataUtils.js:73-79 | every field of a corrected record decodes to the field it was built from |
| CardData.CorrectedRoundTrip | src/utils/cardDataUtils.js:11-86 | the corrected parse of the corrected build returns the card, with the student number's own leading zeros removed; the card comes back unchanged exactly when the number does not start with '0' |
| CardData.ExampleBalance | src/utils/cardDataUtils.js:73 | a balance of 1500 is written as "05DC" |
| CardData.ExampleStudentId | src/utils/cardDataUtils.js:76 | student number "202310001" is written as "000202310001" |
| CardData.ExampleFields | src/utils/cardDataUtils.js:67-81 | the example card's fields are "1105DC000202310001" |
| SerialProtocol.Frame | src/utils/serialCommunication.js:146-148 | the framed text ends in a line feed, starts with the data, and is at most one character longer; it equals the data iff the data already ends in a line feed |
| SerialProtocol.FrameIdempotent | src/utils/serialCommunication.js:146-148 | framing twice is the same as framing once |
| SerialProtocol.WbkCommand | src/utils/serialCommunication.js:394 | the write command is `WBK` followed by the record |
| SerialProtocol.Accumulate | src/utils/serialCommunication.js:263-280 | the reply handler pattern: each chunk is appended and the check runs on the whole buffer. It has no contract of its own; AccumulateNone, AccumulateFirst and AccumulateAt characterise it |
| SerialProtocol.AccumulateNone | src/utils/serialCommunication.js:263-280 | a reply handler never settles iff no buffer it sees after a chunk is complete |
| SerialProtocol.AccumulateFirst | src/utils/serialCommunication.js:263-280 | a settled handler takes the verdict of the first complete buffer, and every earlier buffer was incomplete |
| SerialProtocol.AccumulateAt | src/utils/serialCommunication.js:321-370 | conversely, when the buffer after k chunks is the first complete one, the handler settles on its verdict |
| SerialProtocol.AccumulateReaches | src/utils/serialCommunication.js:408-425 | however a reply is cut into chunks, the handler settles on the verdict of the whole reply when no partial buffer yields a different verdict |
| SerialProtocol.RidCompleteStays | src/utils/serialCommunication.js:267 | a complete RID buffer stays complete as more text arrives |
| SerialProtocol.RidCardId | src/utils/serialCommunication.js:272-279 | the card id is the trimmed buffer, a non-empty substring of it; it is null iff the buffer is all white space |
| SerialProtocol.RidDecide | src/utils/serialCommunication.js:267-280 | the RID check settles exactly when the buffer contains `Id:` or has at least 10 UTF-16 units, and its value is the card id |
| SerialProtocol.RidTenCharacters | src/utils/serialCommunication.js:267 | any 10 characters answer RID, whatever they are |
| SerialProtocol.ReadCardIdAsWritten | src/utils/serialCommunication.js:237-293 | `readCardId` resolves exactly when some attempt is answered, and then with the answer of the first answered attempt, every earlier attempt having timed out |
| SerialProtocol.AsWrittenTakesFirstAnswer | src/utils/serialCommunication.js:252-280 | conversely, the first answered attempt decides the call, whatever the later attempts would have said |
| SerialProtocol.SilentDeviceAsWritten | src/utils/serialCommunication.js:253-255 | as written, a reader that never answers keeps `readCardId` waiting through any number of attempts |
| SerialProtocol.ReadCardIdBounded | src/utils/serialCommunication.js:240-258 | with one counter carried across retries, the call waits exactly while every attempt so far is silent and fewer than three have been made; it resolves with the first answer given within the first three attempts, or with null once those three are silent |
| SerialProtocol.SilentDeviceBounded | src/utils/serialCommunication.js:240-258 | when the attempt counter is carried across retries, three silent attempts end in null |
| SerialProtocol.BoundedUsesThreeAttempts | src/utils/serialCommunication.js:240-245 | the bounded retry never looks beyond the first three attempts |
| SerialProtocol.BoundedAgreesWhenAnswered | src/utils/serialCommunication.js:240-259 | when one of the first three attempts is answered, the bounded and as-written versions resolve to the same value |
| SerialProtocol.FindBlockFrom | src/utils/serialCommunication.js:332 | returns the leftmost position at or after the start where `B1:1,D:` is followed by 32 hexadecimal digits; none iff there is no such position |
| SerialProtocol.MatchBlock | src/utils/serialCommunication.js:332-333 | the regular expression matches iff some complete block exists; the group is the 32 digits after the leftmost block and is a wire record that follows `B1:1,D:` in the buffer |
| SerialProtocol.RbkCheck | src/utils/serialCommunication.js:329-361 | returns a block iff the regular expression matches; a device failure iff `B1:1,D:` is absent and `B1:0,C:` is present; a stall only after more than 500 ms; pending otherwise |
| SerialProtocol.RbkResult | src/utils/serialCommunication.js:337-358 | a block verdict resolves to that block's record, a failure or a stall to null; a pending verdict resolves nothing |
| SerialProtocol.RbkRecheckAgrees | src/utils/serialCommunication.js:349-368 | a check within 500 ms of the last chunk reaches the same verdict as the check on arrival, and that check never reports a stall |
| SerialProtocol.IncompleteBlockNotFailed | src/utils/serialCommunication.js:331-347 | a partly received block is not failed by a `B1:0,C:` anywhere in the buffer |
| SerialProtocol.BlockBeatsFailure | src/utils/serialCommunication.js:331-339 | a complete block wins over a failure marker, whether the marker comes before or after it |
| SerialProtocol.FirstBlockWins | src/utils/serialCommunication.js:332 | of several complete blocks, the leftmost one is read |
| SerialProtocol.ReadBlockResult | src/utils/serialCommunication.js:300-376 | `readCardData` returns null, or a 32-digit wire record that follows `B1:1,D:` in the received text and is the leftmost block of the first buffer not pending, every earlier buffer having been pending; no verdict gives null |
| SerialProtocol.BlockReadFromReply | src/utils/serialCommunication.js:331-337 | a block read from the reply is a wire record that appears after `B1:1,D:` in the text received, taken from the first buffer that held a complete block |
| SerialProtocol.ReadBlockFirstComplete | src/utils/serialCommunication.js:329-338 | conversely, when the first buffer that is not pending holds a block, that block's record is what `readCardData` returns |
| SerialProtocol.BlockInPrefix | src/utils/serialCommunication.js:332 | a block lies in a prefix of the text exactly when it lies in the text and ends within the prefix |
| SerialProtocol.MatchBlockPrefix | src/utils/serialCommunication.js:332 | once a prefix holds a complete block, more text never changes which block the regular expression matches |
| SerialProtocol.BlockAnyChunking | src/utils/serialCommunication.js:321-370 | however a reply holding a block is cut into chunks, its leftmost block is read, unless some part of the reply on the way has `B1:0,C:` without `B1:1,D:` |
| SerialProtocol.WriteDataValid | src/utils/serialCommunication.js:387 | the write validator accepts exactly the 32-character upper-case hexadecimal records |
| SerialProtocol.WbkCheck | src/utils/serialCommunication.js:411-424 | a write succeeds iff the buffer contains both `WB1:1,C:0` and the success phrase; otherwise it is undecided iff there is no `WB1:1,C:` code and no error phrase |
| SerialProtocol.OkCodeAloneFails | src/utils/serialCommunication.js:412-419 | a success code seen before the success phrase counts as a failure |
| SerialProtocol.SplitReplyAsWritten | src/utils/serialCommunication.js:408-424 | the reply "WB1:1,C:0\r\n" followed by "写入完成\r\n", sent as two chunks, is reported as failed |
| SerialProtocol.WbkCheckCorrected | src/utils/serialCommunication.js:412-419 | success iff both success marks are present; failure iff they are not and there is a nonzero code or an error phrase |
| SerialProtocol.CorrectedWriteAnyChunking | src/utils/serialCommunication.js:408-425 | with the corrected check, a successful write's reply is reported as a success however it is cut into chunks |
| SerialProtocol.SplitReplyCorrected | src/utils/serialCommunication.js:412-419 | the corrected check reports the two-chunk reply as a success |
| SerialEngine.IndexOf | src/utils/serialCommunication.js:109 | `indexOf` returns the first position of the callback, or -1 iff the callback is absent |
| SerialEngine.RemoveFirst | src/utils/serialCommunication.js:109-112 | removing a present callback deletes its first occurrence only; the list shrinks by one and loses exactly one copy; removing an absent callback leaves the list as it was |
| SerialEngine.Invocations | src/utils/serialCommunication.js:123-125 | a dispatch makes one call per listed callback, in list order, each with the event's data |
| SerialEngine.WithListener | src/utils/serialCommunication.js:94-99 | adding creates the list when it is missing, appends the callback at the end even when it is already listed, and leaves every other event alone |
| SerialEngine.WithoutListener | src/utils/serialCommunication.js:106-113 | removing from an unknown event is a no-op; the registry changes iff the callback is listed; other events are untouched |
| SerialEngine.AddThenRemove | src/utils/serialCommunication.js:94-113 | adding a new callback and then removing it restores the registry |
| SerialEngine.AddThenRemoveDuplicate | src/utils/serialCommunication.js:94-113 | adding an already-listed callback and then removing it does not restore the list: the earlier copy is removed and the new one stays at the end |
| SerialEngine.DispatchAfterAdd | src/utils/serialCommunication.js:94-126 | after an add, a dispatch makes the same calls as before and then calls the new callback |
| SerialEngine.Settings | src/utils/serialCommunication.js:25 | each option that is given is used, and each absent one takes its own default: 115200 baud, no parity, 8 data bits, 1 stop bit |
| SerialEngine.ArrivedBefore | src/utils/serialCommunication.js:310-312 | counts the chunks that arrive before the first one at or after the deadline: all of those are before it, and the next is not |
| SerialEngine.ReadBlockRequest.constructor | src/utils/serialCommunication.js:315-317 | a read starts with an empty buffer, is not complete and has not settled |
| SerialEngine.ReadBlockRequest.Resolve | src/utils/serialCommunication.js:308-312 | a promise keeps the first value it is resolved with |
| SerialEngine.ReadBlockRequest.CheckComplete | src/utils/serialCommunication.js:329-361 | reports completion exactly when `RbkCheck` has a verdict for the buffer and the time since the last chunk; on a verdict it sets `isComplete` and resolves with that verdict's value; otherwise nothing changes |
| SerialEngine.ReadBlockRequest.OnData | src/utils/serialCommunication.js:321-370 | once `isComplete` is set, later chunks change nothing; otherwise the chunk is appended, its time recorded and the verdict taken on arrival, but a value already settled (by the 10 s timer) is kept; a recheck is scheduled iff the buffer is still pending |
| SerialEngine.ReadBlockRequest.DelayedCheck | src/utils/serialCommunication.js:366-368 | a recheck within 500 ms of the last chunk changes nothing; after more than 500 ms it ends the read with null |
| SerialEngine.ReadBlockRequest.Expire | src/utils/serialCommunication.js:310-312 | the 10 s timer resolves with null if nothing was resolved earlier, and leaves `isComplete` unset |
| SerialEngine.SerialCommunication.constructor | src/utils/serialCommunication.js:7-14 | a new object has no port and no writer, and its registry holds an empty `data-received` list |
| SerialEngine.SerialCommunication.AddEventListener | src/utils/serialCommunication.js:94-99 | the registry becomes `WithListener` of the old registry; nothing else changes |
| SerialEngine.SerialCommunication.RemoveEventListener | src/utils/serialCommunication.js:106-113 | the registry becomes `WithoutListener` of the old registry; nothing else changes |
| SerialEngine.SerialCommunication.DispatchEvent | src/utils/serialCommunication.js:120-126 | calls exactly the listed callbacks, in order, with the data; an unknown event calls nothing |
| SerialEngine.SerialCommunication.OnDataReceived | src/utils/serialCommunication.js:227-231 | by default, a chunk is dispatched as a `data-received` event to its listeners |
| SerialEngine.SerialCommunication.OpenPort | src/utils/serialCommunication.js:25-43 | refused, with nothing changed, while the port is open; succeeds iff the host opens a port, and then sets up the writer and records the settings; a port that fails to open is still kept |
| SerialEngine.SerialCommunication.SendData | src/utils/serialCommunication.js:143-164 | false without a writer, and nothing is sent; otherwise the framed text goes to the writer and the result is whether the write succeeded |
| SerialEngine.SerialCommunication.ReadCardId | src/utils/serialCommunication.js:237-293 | null without a port or a writer; otherwise the result is `ReadCardIdAsWritten` of the attempts, and one `RID` frame is sent per attempt made: up to and including the first answered attempt, or every attempt while still waiting |
| SerialEngine.SerialCommunication.ReadCardData | src/utils/serialCommunication.js:300-376 | null without a port or a writer; otherwise sends one `RBK` frame and returns `ReadBlockResult` of the chunks that arrive before the 10 s deadline; later chunks cannot change the result |
| SerialEngine.AwaitCardId | src/utils/serialCommunication.js:263-281 | one attempt's RID handler, run chunk by chunk, settles on exactly what `Answer` (the accumulated RID check) gives |
| SerialEngine.SerialCommunication.WriteCardData | src/utils/serialCommunication.js:383-431 | true iff there is a port and a writer, the data is a wire record, and the as-written check accumulated over the chunks gives success; the `WBK` frame is sent iff the first two conditions hold |
| SerialEngine.WriteBuiltRecord | src/utils/serialCommunication.js:386-390 | a record that `buildCardData` returns is rejected by `writeCardData`, and nothing is sent |

## Left out

- `closePort`: the teardown of the Web Serial writer, reader and port is
  not modelled. The open/closed state is modelled only as far as
  `openPort` reads it. Because it is left out, the model does not show
  that `keepReading` is never reset when the port is reopened.
- The read loop in `setupReader` and the gb18030 `TextDecoder` are not
  modelled. Decoded chunks are inputs.
- The `TextEncoder` in `sendData` is not modelled. The writer receives the
  framed text.
- Timers and `Date.now()` are not modelled as such. Arrival and check
  times are parameters. An attempt's chunks are those that arrive before
  its timer fires. A command that has not settled after its last chunk is
  settled by its 10 s timer.
- Swapping the `onDataReceived` handler slot is not modelled. As a result,
  the model does not capture that:
  - an `RBK` or `WBK` handler stays installed after its 10 s timeout;
  - a `readCardId` retry restores the previous attempt's handler when it
    finishes;
  - chunks can arrive between a RID timeout and the retry 200 ms later.
- SerialEngine.SerialCommunication.ReadCardData: each delayed recheck runs
  before the next chunk arrives. Running it later sees a buffer that was
  already checked on arrival. Both recheck timings give the same verdict
  as long as the recheck falls within 500 ms of the last chunk.
- SerialEngine.SerialCommunication.ReadCardData: a chunk that arrives in
  the same millisecond as the 10 s timer is taken to arrive after it.
- The `catch` branch of `readCardId` (lines 283-291) is not modelled: it
  is unreachable, because `sendData` catches its own errors.
- The dynamic types of JavaScript inputs are not modelled. This covers a
  balance that is fractional, NaN or not a number, a student number that
  is not a string, and event names such as `toString` that collide with
  `Object.prototype` properties. Balances are integers and names are
  plain strings.
- Listener callbacks are identities. Their effects, including changes
  they make to the registry during a dispatch, are not modelled.
- SerialEngine.SerialCommunication.DispatchEvent: every callback is taken
  to return. A callback that throws stops `dispatchEvent` there, because
  the loop has no `try`; the later callbacks are not called.
- `getAvailablePorts` (it always returns an empty list),
  `saveOperation`/`getOperations`/`clearOperations` (browser local
  storage), console logging and `src/main.js` are not modelled.

## Findings

| source | as written | input that shows it | evidently intended | confidence | as-written member | corrected member |
|---|---|---|---|---|---|---|
| src/utils/cardDataUtils.js:79 | `'FF'.repeat(16 - (1 + 1 + 2 + 6))` subtracts byte counts from 16 bytes, but the fields take 18 characters, so the padding is 12 characters and the record 30; `parseCardData` and `writeCardData` both reject it | card (true, true, 1500, "202310001") builds "1105DC000202310001FFFFFFFFFFFF" (30 characters) | 14 'F' characters, giving a 32-character record | not executed | CardData.BuildNeverParses | CardData.BuildCardDataCorrected |
| src/utils/cardDataUtils.js:29 | the student number field is padded with leading zeros but parsed by removing trailing zeros, so short numbers come back with leading zeros and numbers ending in '0' lose digits | student number "2023100" is written "000002023100" and parsed as "0000020231" | remove the leading zeros the builder added | not executed | CardData.FieldsDecode | CardData.CorrectedRoundTrip |
| src/utils/serialCommunication.js:253-255 | each retry is a fresh `readCardId` call whose `retryCount` is 0, so the test `retryCount < MAX_RETRIES - 1` always passes and a silent reader is polled forever | a reader that never answers: every 1000 ms timeout sends another `RID` | give up with null after `MAX_RETRIES` (3) attempts | not executed | SerialProtocol.SilentDeviceAsWritten | SerialProtocol.ReadCardIdBounded |
| src/utils/serialCommunication.js:412-419 | any `WB1:1,C:` code fails the write unless the buffer already holds both `WB1:1,C:0` and the success phrase, so a success code that arrives in an earlier chunk than the phrase counts as a failure | chunks "WB1:1,C:0\r\n" then "写入完成\r\n" | fail only on a nonzero code or an error phrase; wait after `C:0` | not executed | SerialProtocol.SplitReplyAsWritten | SerialProtocol.CorrectedWriteAnyChunking |
