/**
 * The text protocol spoken with the card reader: line framing of outgoing
 * commands, and the completion checks that decide, each time a chunk of
 * reply text arrives, whether the reply gathered so far answers the
 * command. Time enters only as numbers of milliseconds passed in.
 */
module SerialProtocol {
  import opened Wrappers
  import opened JsString
  import opened CardData

  // ---------------------------------------------------------------------
  // Framing and commands
  // ---------------------------------------------------------------------

  /** `sendData`'s framing: a line feed is appended unless the text already ends with one. */
  function Frame(data: string): (r: string)
    ensures EndsWith(r, "\n")
    ensures |data| <= |r| <= |data| + 1 && r[..|data|] == data
    ensures r == data <==> EndsWith(data, "\n")
  {
    if EndsWith(data, "\n") then data else data + "\n"
  }

  /** Framing a framed text changes nothing. */
  lemma FrameIdempotent(data: string)
    ensures Frame(Frame(data)) == Frame(data)
  {
  }

  const RidCommand: string := "RID"
  const RbkCommand: string := "RBK"

  /** The write command: `WBK` followed by the 32-character record. */
  function WbkCommand(record: string): (c: string)
    ensures |c| == 3 + |record| && c[..3] == "WBK" && c[3..] == record
  {
    "WBK" + record
  }

  // ---------------------------------------------------------------------
  // Accumulating reply chunks
  // ---------------------------------------------------------------------

  /** The text of a sequence of chunks, in arrival order. */
  function Concat(chunks: seq<string>): string {
    if chunks == [] then "" else chunks[0] + Concat(chunks[1..])
  }

  lemma ConcatOne(chunk: string)
    ensures Concat([chunk]) == chunk
  {
    assert [chunk][1..] == [];
  }

  lemma {:induction false} ConcatSplit(chunks: seq<string>, k: nat)
    requires k <= |chunks|
    ensures Concat(chunks) == Concat(chunks[..k]) + Concat(chunks[k..])
  {
    if k > 0 {
      assert chunks[..k][1..] == chunks[1..][..k - 1];
      assert chunks[k..] == chunks[1..][k - 1..];
      ConcatSplit(chunks[1..], k - 1);
    } else {
      assert chunks[..0] == [] && chunks[0..] == chunks;
    }
  }

  /** What the buffer holds after the first `k` chunks arrived on top of `buffer`. */
  function Received(buffer: string, chunks: seq<string>, k: nat): string
    requires k <= |chunks|
  {
    buffer + Concat(chunks[..k])
  }

  lemma ReceivedStep(buffer: string, chunks: seq<string>, k: nat)
    requires 1 <= k <= |chunks|
    ensures Received(buffer, chunks, k) == Received(buffer + chunks[0], chunks[1..], k - 1)
  {
    assert chunks[..k][0] == chunks[0];
    assert chunks[..k][1..] == chunks[1..][..k - 1];
  }

  /**
   * The reply handler every command installs: each chunk is appended to
   * the buffer and the completion check `decide` is run on the whole
   * buffer; the first verdict settles the command. None when no chunk
   * completes it.
   */
  function Accumulate<V>(decide: string -> Option<V>, buffer: string, chunks: seq<string>): Option<V>
    decreases |chunks|
  {
    if chunks == [] then None
    else
      var grown := buffer + chunks[0];
      if decide(grown).Some? then decide(grown) else Accumulate(decide, grown, chunks[1..])
  }

  /** A command stays unanswered exactly when no buffer it saw was complete. */
  lemma {:induction false} AccumulateNone<V>(decide: string -> Option<V>, buffer: string, chunks: seq<string>)
    ensures Accumulate(decide, buffer, chunks).None?
        <==> forall k | 1 <= k <= |chunks| :: decide(Received(buffer, chunks, k)).None?
    decreases |chunks|
  {
    if chunks != [] {
      var grown := buffer + chunks[0];
      assert Received(buffer, chunks, 1) == grown by {
        assert chunks[..1] == [chunks[0]];
        ConcatOne(chunks[0]);
      }
      AccumulateNone(decide, grown, chunks[1..]);
      forall k | 1 <= k <= |chunks|
        ensures Received(buffer, chunks, k) == Received(grown, chunks[1..], k - 1)
      {
        ReceivedStep(buffer, chunks, k);
      }
      if decide(grown).None? {
        forall k | 1 <= k <= |chunks[1..]|
          ensures Received(grown, chunks[1..], k) == Received(buffer, chunks, k + 1)
        {
          ReceivedStep(buffer, chunks, k + 1);
        }
      }
    }
  }

  /** A settled command took the verdict of the first complete buffer, and every earlier buffer was incomplete. */
  lemma {:induction false} AccumulateFirst<V>(decide: string -> Option<V>, buffer: string, chunks: seq<string>)
    requires Accumulate(decide, buffer, chunks).Some?
    ensures exists k | 1 <= k <= |chunks| ::
      && decide(Received(buffer, chunks, k)) == Accumulate(decide, buffer, chunks)
      && forall j | 1 <= j < k :: decide(Received(buffer, chunks, j)).None?
    decreases |chunks|
  {
    var grown := buffer + chunks[0];
    assert Received(buffer, chunks, 1) == grown by {
      assert chunks[..1] == [chunks[0]];
      ConcatOne(chunks[0]);
    }
    if decide(grown).None? {
      AccumulateFirst(decide, grown, chunks[1..]);
      var k :| 1 <= k <= |chunks[1..]|
        && decide(Received(grown, chunks[1..], k)) == Accumulate(decide, grown, chunks[1..])
        && forall j | 1 <= j < k :: decide(Received(grown, chunks[1..], j)).None?;
      ReceivedStep(buffer, chunks, k + 1);
      forall j | 1 <= j < k + 1
        ensures decide(Received(buffer, chunks, j)).None?
      {
        if j > 1 {
          ReceivedStep(buffer, chunks, j);
        }
      }
    }
  }

  /** The converse: a command settles on the verdict of the first complete buffer. */
  lemma {:induction false} AccumulateAt<V>(decide: string -> Option<V>, buffer: string, chunks: seq<string>, k: nat)
    requires 1 <= k <= |chunks| && decide(Received(buffer, chunks, k)).Some?
    requires forall j | 1 <= j < k :: decide(Received(buffer, chunks, j)).None?
    ensures Accumulate(decide, buffer, chunks) == decide(Received(buffer, chunks, k))
    decreases k
  {
    var grown := buffer + chunks[0];
    assert Received(buffer, chunks, 1) == grown by {
      assert chunks[..1] == [chunks[0]];
      ConcatOne(chunks[0]);
    }
    if k > 1 {
      ReceivedStep(buffer, chunks, k);
      forall j | 1 <= j < k - 1
        ensures decide(Received(grown, chunks[1..], j)).None?
      {
        ReceivedStep(buffer, chunks, j + 1);
      }
      AccumulateAt(decide, grown, chunks[1..], k - 1);
    }
  }

  /**
   * However a reply is cut into chunks, the command settles on `v` when
   * the whole reply says `v` and no part of it on the way says otherwise.
   */
  lemma {:induction false} AccumulateReaches<V>(decide: string -> Option<V>, buffer: string, chunks: seq<string>, reply: string, v: V)
    requires chunks != [] && buffer + Concat(chunks) == reply
    requires decide(reply) == Some(v)
    requires forall k | |buffer| <= k <= |reply| :: decide(reply[..k]).None? || decide(reply[..k]) == Some(v)
    ensures Accumulate(decide, buffer, chunks) == Some(v)
    decreases |chunks|
  {
    var grown := buffer + chunks[0];
    assert reply == grown + Concat(chunks[1..]);
    assert grown == reply[..|grown|];
    assert chunks[1..] == [] ==> grown == reply;
    if decide(grown).None? {
      AccumulateReaches(decide, grown, chunks[1..], reply, v);
    }
  }

  // ---------------------------------------------------------------------
  // RID: reading the card id
  // ---------------------------------------------------------------------

  const RidAck: string := "Id:"
  const RidMinLength: nat := 10
  const MaxRetries: nat := 3

  /** The RID reply is complete once it holds `Id:` or at least 10 UTF-16 code units. */
  predicate RidComplete(buffer: string) {
    Contains(buffer, RidAck) || Utf16Length(buffer) >= RidMinLength
  }

  /** A complete RID buffer stays complete as more text arrives. */
  lemma RidCompleteStays(buffer: string, more: string)
    requires RidComplete(buffer)
    ensures RidComplete(buffer + more)
  {
    Utf16LengthAppend(buffer, more);
    if Contains(buffer, RidAck) {
      ContainsAppend(buffer, more, RidAck);
    }
  }

  /** The card id is the whole buffer trimmed; an all-white-space buffer means no card. */
  function RidCardId(buffer: string): (r: Option<string>)
    ensures r.None? <==> AllWhitespace(buffer)
    ensures r.Some? ==> r.value == Trim(buffer) && r.value != [] && Contains(buffer, r.value)
  {
    var id := Trim(buffer);
    if id == [] then None else Some(id)
  }

  /** The RID completion check: a verdict (the card id or null) once the buffer is complete. */
  function RidDecide(buffer: string): (r: Option<Option<string>>)
    ensures r.Some? <==> RidComplete(buffer)
    ensures r.Some? ==> r.value == RidCardId(buffer)
  {
    if RidComplete(buffer) then Some(RidCardId(buffer)) else None
  }

  /** Ten characters of any reply answer RID, whatever they are. */
  lemma RidTenCharacters(buffer: string)
    requires |buffer| >= RidMinLength
    ensures RidDecide(buffer).Some?
  {
  }

  /** How a `readCardId` call ends: with a card id or null, or still waiting for a reply. */
  datatype RidOutcome = Resolved(cardId: Option<string>) | StillWaiting

  /**
   * The timeout handler's test: another attempt when `retryCount` is below
   * `MAX_RETRIES - 1`.
   */
  predicate RetriesOnTimeout(retryCount: nat) {
    retryCount < MaxRetries - 1
  }

  /** What one attempt's reply handler settles on: the card id or null, None if the attempt timed out. */
  function Answer(attempt: seq<string>): Option<Option<string>> {
    Accumulate(RidDecide, "", attempt)
  }

  /** An attempt that the device leaves unanswered. */
  predicate Silent(attempt: seq<string>) {
    Answer(attempt).None?
  }

  /** Attempt `k` is the first one answered, and it answered `id`. */
  predicate FirstAnswerAt(attempts: seq<seq<string>>, k: int, id: Option<string>) {
    0 <= k < |attempts| && Answer(attempts[k]) == Some(id)
    && forall j | 0 <= j < k :: Silent(attempts[j])
  }

  /** Moving to the attempts after a silent first one shifts the first answer down by one. */
  lemma FirstAnswerShift(attempts: seq<seq<string>>, k: int, id: Option<string>)
    requires attempts != [] && Silent(attempts[0])
    ensures FirstAnswerAt(attempts[1..], k, id) <==> FirstAnswerAt(attempts, k + 1, id)
  {
    if FirstAnswerAt(attempts, k + 1, id) {
      forall j | 0 <= j < k ensures Silent(attempts[1..][j]) {
        assert attempts[1..][j] == attempts[j + 1];
      }
    }
    if FirstAnswerAt(attempts[1..], k, id) {
      forall j | 0 <= j < k + 1 ensures Silent(attempts[j]) {
        if j > 0 {
          assert attempts[j] == attempts[1..][j - 1];
        }
      }
    }
  }

  /**
   * `readCardId` as written, over the reply chunks of successive attempts
   * (each attempt's chunks are those that arrive before its 1000 ms
   * timer). A retry is a fresh `readCardId` call whose own `retryCount`
   * starts at 0, so every timeout sees 0 and retries again: the call
   * resolves exactly when some attempt is answered, with the first answer.
   */
  function ReadCardIdAsWritten(attempts: seq<seq<string>>): (r: RidOutcome)
    ensures r.Resolved? <==> exists k | 0 <= k < |attempts| :: !Silent(attempts[k])
    ensures r.Resolved? ==> exists k | 0 <= k < |attempts| :: FirstAnswerAt(attempts, k, r.cardId)
    decreases |attempts|
  {
    if attempts == [] then StillWaiting
    else
      match Answer(attempts[0])
      case Some(id) =>
        assert FirstAnswerAt(attempts, 0, id);
        Resolved(id)
      case None =>
        if RetriesOnTimeout(0) then
          var rest := ReadCardIdAsWritten(attempts[1..]);
          assert rest.Resolved? ==> exists k | 0 <= k < |attempts| :: FirstAnswerAt(attempts, k, rest.cardId) by {
            if rest.Resolved? {
              var k :| 0 <= k < |attempts[1..]| && FirstAnswerAt(attempts[1..], k, rest.cardId);
              FirstAnswerShift(attempts, k, rest.cardId);
            }
          }
          assert (exists k | 0 <= k < |attempts| :: !Silent(attempts[k])) ==> rest.Resolved? by {
            if exists k | 0 <= k < |attempts| :: !Silent(attempts[k]) {
              var k :| 0 <= k < |attempts| && !Silent(attempts[k]);
              assert attempts[1..][k - 1] == attempts[k];
            }
          }
          rest
        else Resolved(None)
  }

  /** Conversely, the first answered attempt decides the call as written. */
  lemma {:induction false} AsWrittenTakesFirstAnswer(attempts: seq<seq<string>>, k: nat, id: Option<string>)
    requires FirstAnswerAt(attempts, k, id)
    ensures ReadCardIdAsWritten(attempts) == Resolved(id)
    decreases k
  {
    if k > 0 {
      FirstAnswerShift(attempts, k - 1, id);
      AsWrittenTakesFirstAnswer(attempts[1..], k - 1, id);
    }
  }

  /** As written, a reader that never answers keeps `readCardId` waiting through any number of attempts. */
  lemma {:induction false} SilentDeviceAsWritten(attempts: seq<seq<string>>)
    requires forall k | 0 <= k < |attempts| :: Silent(attempts[k])
    ensures ReadCardIdAsWritten(attempts) == StillWaiting
    decreases |attempts|
  {
    if attempts != [] {
      assert Silent(attempts[0]);
      assert forall k | 0 <= k < |attempts[1..]| :: attempts[1..][k] == attempts[k + 1];
      SilentDeviceAsWritten(attempts[1..]);
    }
  }

  /**
   * `readCardId` as its constants intend: one attempt counter carried
   * across retries, and null once `MAX_RETRIES` attempts have timed out.
   * It waits exactly while every attempt so far is silent and fewer than
   * three have been made; it resolves with the first answer, given within
   * the first three attempts, or with null once those three are silent.
   */
  function ReadCardIdBounded(attempts: seq<seq<string>>, retryCount: nat): (r: RidOutcome)
    requires retryCount < MaxRetries
    ensures r.StillWaiting? <==>
      (forall k | 0 <= k < |attempts| :: Silent(attempts[k])) && |attempts| + retryCount < MaxRetries
    ensures r.Resolved? ==>
      || (exists k | 0 <= k < |attempts| && k + retryCount < MaxRetries :: FirstAnswerAt(attempts, k, r.cardId))
      || (&& r.cardId.None? && |attempts| + retryCount >= MaxRetries
          && forall k | 0 <= k < MaxRetries - retryCount :: Silent(attempts[k]))
    decreases |attempts|
  {
    if attempts == [] then StillWaiting
    else
      match Answer(attempts[0])
      case Some(id) =>
        assert FirstAnswerAt(attempts, 0, id);
        Resolved(id)
      case None =>
        if RetriesOnTimeout(retryCount) then
          var rest := ReadCardIdBounded(attempts[1..], retryCount + 1);
          assert forall k | 0 <= k < |attempts[1..]| :: attempts[1..][k] == attempts[k + 1];
          assert (forall k | 0 <= k < |attempts| :: Silent(attempts[k]))
              <==> forall k | 0 <= k < |attempts[1..]| :: Silent(attempts[1..][k]) by {
            if forall k | 0 <= k < |attempts[1..]| :: Silent(attempts[1..][k]) {
              forall k | 0 <= k < |attempts| ensures Silent(attempts[k]) {
                if k > 0 {
                  assert attempts[k] == attempts[1..][k - 1];
                }
              }
            }
          }
          assert rest.Resolved? && (exists k | 0 <= k < |attempts[1..]| && k + retryCount + 1 < MaxRetries :: FirstAnswerAt(attempts[1..], k, rest.cardId))
              ==> exists k | 0 <= k < |attempts| && k + retryCount < MaxRetries :: FirstAnswerAt(attempts, k, rest.cardId) by {
            if rest.Resolved? && exists k | 0 <= k < |attempts[1..]| && k + retryCount + 1 < MaxRetries :: FirstAnswerAt(attempts[1..], k, rest.cardId) {
              var k :| 0 <= k < |attempts[1..]| && k + retryCount + 1 < MaxRetries && FirstAnswerAt(attempts[1..], k, rest.cardId);
              FirstAnswerShift(attempts, k, rest.cardId);
            }
          }
          assert |attempts[1..]| + retryCount + 1 >= MaxRetries
              && (forall k | 0 <= k < MaxRetries - (retryCount + 1) :: Silent(attempts[1..][k]))
              ==> forall k | 0 <= k < MaxRetries - retryCount :: Silent(attempts[k]) by {
            if |attempts[1..]| + retryCount + 1 >= MaxRetries
              && forall k | 0 <= k < MaxRetries - (retryCount + 1) :: Silent(attempts[1..][k]) {
              forall k | 0 <= k < MaxRetries - retryCount ensures Silent(attempts[k]) {
                if k > 0 {
                  assert attempts[k] == attempts[1..][k - 1];
                }
              }
            }
          }
          rest
        else Resolved(None)
  }

  /** With the counter carried, three silent attempts end the call with null. */
  lemma {:induction false} SilentDeviceBounded(attempts: seq<seq<string>>, retryCount: nat)
    requires retryCount < MaxRetries && |attempts| >= MaxRetries - retryCount
    requires forall k | 0 <= k < |attempts| :: Silent(attempts[k])
    ensures ReadCardIdBounded(attempts, retryCount) == Resolved(None)
    decreases |attempts|
  {
    assert Silent(attempts[0]);
    if RetriesOnTimeout(retryCount) {
      assert forall k | 0 <= k < |attempts[1..]| :: attempts[1..][k] == attempts[k + 1];
      SilentDeviceBounded(attempts[1..], retryCount + 1);
    }
  }

  /** The bounded reading never looks past the first three attempts. */
  lemma {:induction false} BoundedUsesThreeAttempts(attempts: seq<seq<string>>, retryCount: nat)
    requires retryCount < MaxRetries && |attempts| >= MaxRetries - retryCount
    ensures ReadCardIdBounded(attempts, retryCount) == ReadCardIdBounded(attempts[..MaxRetries - retryCount], retryCount)
    decreases |attempts|
  {
    var short := attempts[..MaxRetries - retryCount];
    assert short[0] == attempts[0];
    if Silent(attempts[0]) && RetriesOnTimeout(retryCount) {
      assert short[1..] == attempts[1..][..MaxRetries - (retryCount + 1)];
      BoundedUsesThreeAttempts(attempts[1..], retryCount + 1);
    }
  }

  /** When one of the first three attempts is answered, both readings agree. */
  lemma {:induction false} BoundedAgreesWhenAnswered(attempts: seq<seq<string>>, retryCount: nat, answered: nat)
    requires retryCount < MaxRetries && answered < |attempts| && answered < MaxRetries - retryCount
    requires !Silent(attempts[answered])
    ensures ReadCardIdBounded(attempts, retryCount) == ReadCardIdAsWritten(attempts)
    ensures ReadCardIdAsWritten(attempts).Resolved?
    decreases |attempts|
  {
    if Silent(attempts[0]) {
      assert answered >= 1 && attempts[1..][answered - 1] == attempts[answered];
      assert RetriesOnTimeout(retryCount);
      BoundedAgreesWhenAnswered(attempts[1..], retryCount + 1, answered - 1);
    }
  }

  // ---------------------------------------------------------------------
  // RBK: reading the data block
  // ---------------------------------------------------------------------

  const BlockMarker: string := "B1:1,D:"
  const ReadFailMarker: string := "B1:0,C:"
  const RecheckDelayMs: nat := 100
  const StallMs: int := 500
  const AbsoluteTimeoutMs: nat := 10000

  /** `B1:1,D:` at `i`, followed by 32 upper-case hexadecimal digits. */
  predicate BlockAt(buffer: string, i: int) {
    OccursAt(buffer, BlockMarker, i) && i + 7 + RecordLength <= |buffer|
    && IsUpperHex(buffer[i + 7..i + 7 + RecordLength])
  }

  /** The leftmost block at or after `from`. */
  function FindBlockFrom(buffer: string, from: nat): (r: Option<nat>)
    ensures r.Some? ==> from <= r.value && BlockAt(buffer, r.value)
    ensures r.Some? ==> forall j | from <= j < r.value :: !BlockAt(buffer, j)
    ensures r.None? ==> forall j | from <= j :: !BlockAt(buffer, j)
    decreases |buffer| - from
  {
    if from + 7 + RecordLength > |buffer| then None
    else if BlockAt(buffer, from) then Some(from)
    else FindBlockFrom(buffer, from + 1)
  }

  /** `dataBuffer.match(/B1:1,D:([0-9A-F]{32})/)[1]`: the 32 digits after the leftmost complete block. */
  function MatchBlock(buffer: string): (r: Option<string>)
    ensures r.Some? <==> exists i :: BlockAt(buffer, i)
    ensures r.Some? ==> IsWireRecord(r.value) && Contains(buffer, BlockMarker + r.value)
    ensures r.Some? ==> Contains(buffer, BlockMarker)
    ensures r.Some? ==> exists i | BlockAt(buffer, i) ::
      r.value == buffer[i + 7..i + 7 + RecordLength] && forall j | 0 <= j < i :: !BlockAt(buffer, j)
  {
    match FindBlockFrom(buffer, 0)
    case None => None
    case Some(i) =>
      var record := buffer[i + 7..i + 7 + RecordLength];
      assert buffer[i..i + 7 + RecordLength] == BlockMarker + record;
      assert OccursAt(buffer, BlockMarker + record, i);
      assert OccursAt(buffer, BlockMarker, i);
      Some(record)
  }

  /** What `checkComplete` concludes about the buffer, `elapsedMs` after the last chunk. */
  datatype RbkVerdict = Block(record: string) | DeviceFailed | Stalled | Pending

  /**
   * `checkComplete`: a complete block wins; the failure marker counts only
   * while `B1:1,D:` is absent (an incomplete block is waited for); failing
   * both, more than 500 ms of silence ends the read.
   */
  function RbkCheck(buffer: string, elapsedMs: int): (v: RbkVerdict)
    ensures v.Block? <==> MatchBlock(buffer).Some?
    ensures v.Block? ==> v.record == MatchBlock(buffer).value && IsWireRecord(v.record)
    ensures v.DeviceFailed? <==> !Contains(buffer, BlockMarker) && Contains(buffer, ReadFailMarker)
    ensures v.Stalled? ==> elapsedMs > StallMs
    ensures v.Pending? <==> MatchBlock(buffer).None? && !v.DeviceFailed? && elapsedMs <= StallMs
  {
    if Contains(buffer, BlockMarker) then
      match MatchBlock(buffer)
      case Some(record) => Block(record)
      case None => if elapsedMs > StallMs then Stalled else Pending
    else if Contains(buffer, ReadFailMarker) then DeviceFailed
    else if elapsedMs > StallMs then Stalled
    else Pending
  }

  /** The value `readCardData` resolves with for a verdict; None while pending. */
  function RbkResult(v: RbkVerdict): (r: Option<Option<string>>)
    ensures r.None? <==> v.Pending?
    ensures r == Some(None) <==> v.DeviceFailed? || v.Stalled?
    ensures v.Block? ==> r == Some(Some(v.record))
  {
    match v
    case Block(record) => Some(Some(record))
    case DeviceFailed => Some(None)
    case Stalled => Some(None)
    case Pending => None
  }

  /** The check run as each chunk arrives, when no time has passed since it. */
  function RbkDecide(buffer: string): Option<Option<string>> {
    RbkResult(RbkCheck(buffer, 0))
  }

  /** A check on arrival never finds the read stalled, and a late recheck sees the same verdict when it is within 500 ms. */
  lemma RbkRecheckAgrees(buffer: string, elapsedMs: int)
    requires elapsedMs <= StallMs
    ensures RbkCheck(buffer, elapsedMs) == RbkCheck(buffer, 0)
    ensures !RbkCheck(buffer, 0).Stalled?
  {
  }

  /** A partly received block is not failed by a failure marker anywhere in the buffer. */
  lemma IncompleteBlockNotFailed(buffer: string, elapsedMs: int)
    requires Contains(buffer, BlockMarker) && Contains(buffer, ReadFailMarker)
    requires MatchBlock(buffer).None? && elapsedMs <= StallMs
    ensures RbkCheck(buffer, elapsedMs) == Pending
  {
  }

  /** A complete block wins over a failure marker, before or after it. */
  lemma BlockBeatsFailure(buffer: string, elapsedMs: int)
    requires exists i :: BlockAt(buffer, i)
    ensures RbkCheck(buffer, elapsedMs).Block?
  {
  }

  /** The first complete block in the buffer is the one read, even if a second follows. */
  lemma FirstBlockWins(buffer: string, i: nat)
    requires BlockAt(buffer, i) && forall j | 0 <= j < i :: !BlockAt(buffer, j)
    ensures RbkCheck(buffer, 0) == Block(buffer[i + 7..i + 7 + RecordLength])
  {
    var r := MatchBlock(buffer).value;
    var i' :| BlockAt(buffer, i') && r == buffer[i' + 7..i' + 7 + RecordLength]
      && forall j | 0 <= j < i' :: !BlockAt(buffer, j);
    assert i' == i;
  }

  /**
   * What `readCardData` returns for the reply chunks: the value of the
   * first verdict, or null from the 10 s timer. A record it returns is the
   * leftmost block of the first buffer that held one, every earlier buffer
   * having been pending.
   */
  function ReadBlockResult(chunks: seq<string>): (r: Option<string>)
    ensures r.Some? ==> IsWireRecord(r.value) && Contains(Concat(chunks), BlockMarker + r.value)
    ensures r.Some? ==> exists k | 1 <= k <= |chunks| :: FirstBlockAt(chunks, k, r.value)
    ensures Accumulate(RbkDecide, "", chunks).None? ==> r.None?
  {
    match Accumulate(RbkDecide, "", chunks)
    case None => None
    case Some(v) =>
      if v.Some? then
        BlockReadFromReply(chunks, v.value);
        v
      else v
  }

  /** After `k` chunks the buffer first holds a complete block, whose leftmost record is `record`. */
  predicate FirstBlockAt(chunks: seq<string>, k: int, record: string) {
    1 <= k <= |chunks| && RbkCheck(Concat(chunks[..k]), 0) == Block(record)
    && forall j | 1 <= j < k :: RbkCheck(Concat(chunks[..j]), 0).Pending?
  }

  /** The buffer after `k` chunks, with no text before the first. */
  lemma ReceivedFromEmpty(chunks: seq<string>, k: nat)
    requires k <= |chunks|
    ensures Received("", chunks, k) == Concat(chunks[..k])
  {
    assert "" + Concat(chunks[..k]) == Concat(chunks[..k]);
  }

  /** A block read out of the reply is a wire record that follows `B1:1,D:` in the text received, and comes from the first complete buffer. */
  lemma BlockReadFromReply(chunks: seq<string>, record: string)
    requires Accumulate(RbkDecide, "", chunks) == Some(Some(record))
    ensures IsWireRecord(record) && Contains(Concat(chunks), BlockMarker + record)
    ensures exists k | 1 <= k <= |chunks| :: FirstBlockAt(chunks, k, record)
  {
    AccumulateFirst(RbkDecide, "", chunks);
    var k :| 1 <= k <= |chunks| && RbkDecide(Received("", chunks, k)) == Some(Some(record))
      && forall j | 1 <= j < k :: RbkDecide(Received("", chunks, j)).None?;
    ReceivedFromEmpty(chunks, k);
    var received := Received("", chunks, k);
    assert RbkCheck(received, 0) == Block(record);
    forall j | 1 <= j < k ensures RbkCheck(Concat(chunks[..j]), 0).Pending? {
      ReceivedFromEmpty(chunks, j);
    }
    assert FirstBlockAt(chunks, k, record);
    ConcatSplit(chunks, k);
    ContainsAppend(received, Concat(chunks[k..]), BlockMarker + record);
  }

  /** The converse: when the first buffer that is not pending holds a block, that block is read. */
  lemma ReadBlockFirstComplete(chunks: seq<string>, k: nat, record: string)
    requires FirstBlockAt(chunks, k, record)
    ensures ReadBlockResult(chunks) == Some(record)
  {
    ReceivedFromEmpty(chunks, k);
    forall j | 1 <= j < k ensures RbkDecide(Received("", chunks, j)).None? {
      ReceivedFromEmpty(chunks, j);
    }
    AccumulateAt(RbkDecide, "", chunks, k);
  }

  /** A block lies in a prefix of the text exactly when it lies in the text and ends within the prefix. */
  lemma BlockInPrefix(text: string, k: nat, i: int)
    requires k <= |text|
    ensures BlockAt(text[..k], i) <==> BlockAt(text, i) && i + 7 + RecordLength <= k
  {
    if 0 <= i && i + 7 + RecordLength <= k {
      assert text[..k][i..i + |BlockMarker|] == text[i..i + |BlockMarker|];
      assert text[..k][i + 7..i + 7 + RecordLength] == text[i + 7..i + 7 + RecordLength];
    }
  }

  /** A prefix of the text that holds a complete block reads the same block as the whole text. */
  lemma MatchBlockPrefix(text: string, k: nat)
    requires k <= |text| && MatchBlock(text[..k]).Some?
    ensures MatchBlock(text[..k]) == MatchBlock(text)
  {
    var prefix := text[..k];
    var i :| BlockAt(prefix, i) && MatchBlock(prefix).value == prefix[i + 7..i + 7 + RecordLength]
      && forall j | 0 <= j < i :: !BlockAt(prefix, j);
    BlockInPrefix(text, k, i);
    assert MatchBlock(text).Some?;
    var i' :| BlockAt(text, i') && MatchBlock(text).value == text[i' + 7..i' + 7 + RecordLength]
      && forall j | 0 <= j < i' :: !BlockAt(text, j);
    BlockInPrefix(text, k, i');
    assert i' == i;
    assert prefix[i + 7..i + 7 + RecordLength] == text[i + 7..i + 7 + RecordLength];
  }

  /** The buffer shows a device failure: `B1:0,C:` without `B1:1,D:`. */
  predicate ReadFailed(buffer: string) {
    !Contains(buffer, BlockMarker) && Contains(buffer, ReadFailMarker)
  }

  /**
   * However a reply holding a block is cut into chunks, its leftmost block
   * is read, unless some part of it on the way shows a device failure.
   */
  lemma BlockAnyChunking(reply: string, chunks: seq<string>)
    requires chunks != [] && Concat(chunks) == reply && MatchBlock(reply).Some?
    requires forall k | 0 <= k <= |reply| :: !ReadFailed(reply[..k])
    ensures ReadBlockResult(chunks) == MatchBlock(reply)
  {
    var v := Some(MatchBlock(reply).value);
    forall k | 0 <= k <= |reply|
      ensures RbkDecide(reply[..k]).None? || RbkDecide(reply[..k]) == Some(v)
    {
      assert !ReadFailed(reply[..k]);
      if MatchBlock(reply[..k]).Some? {
        MatchBlockPrefix(reply, k);
      }
    }
    assert reply[..|reply|] == reply;
    assert "" + Concat(chunks) == reply;
    AccumulateReaches(RbkDecide, "", chunks, reply, v);
  }

  // ---------------------------------------------------------------------
  // WBK: writing the data block
  // ---------------------------------------------------------------------

  const WriteOkCode: string := "WB1:1,C:0"
  const WriteCodePrefix: string := "WB1:1,C:"
  const WriteDonePhrase: string := "写入完成"
  const FormatErrorPhrase: string := "写入命令格式错误"
  const UnknownCommandPhrase: string := "未知命令"

  /**
   * `writeCardData`'s validation: `data.length !== 32` (UTF-16 units)
   * or a failed `/^[0-9A-F]{32}$/` rejects the data before anything is
   * sent. Exactly the wire records pass.
   */
  function WriteDataValid(data: string): (ok: bool)
    ensures ok <==> IsWireRecord(data)
  {
    if |data| == RecordLength && IsUpperHex(data) then
      Utf16LengthBmp(data);
      Utf16Length(data) == RecordLength
    else false
  }

  /** The write reply check as written: success needs the code and the phrase; any code at all otherwise fails. */
  function WbkCheck(buffer: string): (r: Option<bool>)
    ensures r == Some(true) <==> Contains(buffer, WriteOkCode) && Contains(buffer, WriteDonePhrase)
    ensures r.None? <==> !Contains(buffer, WriteCodePrefix) && !Contains(buffer, FormatErrorPhrase)
                         && !Contains(buffer, UnknownCommandPhrase)
  {
    if Contains(buffer, WriteOkCode) && Contains(buffer, WriteDonePhrase) then
      assert Contains(buffer, WriteCodePrefix) by {
        assert OccursAt(WriteOkCode, WriteCodePrefix, 0);
        ContainsTransitive(buffer, WriteOkCode, WriteCodePrefix);
      }
      Some(true)
    else if Contains(buffer, WriteCodePrefix) || Contains(buffer, FormatErrorPhrase)
         || Contains(buffer, UnknownCommandPhrase) then Some(false)
    else None
  }

  /** A text lacking one of a pattern's characters does not contain the pattern. */
  lemma MissingCharacter(s: string, p: string, c: char)
    requires c in p && c !in s
    ensures !Contains(s, p)
  {

  }

  /** The success code arriving ahead of the success phrase is taken as a failure. */
  lemma OkCodeAloneFails(buffer: string)
    requires Contains(buffer, WriteOkCode) && !Contains(buffer, WriteDonePhrase)
    ensures WbkCheck(buffer) == Some(false)
  {
    assert OccursAt(WriteOkCode, WriteCodePrefix, 0);
    ContainsTransitive(buffer, WriteOkCode, WriteCodePrefix);
  }

  const SplitReplyCode: string := "WB1:1,C:0\r\n"
  const SplitReplyPhrase: string := "写入完成\r\n"

  /** A successful write whose reply lines arrive as two chunks is reported as failed. */
  lemma SplitReplyAsWritten()
    ensures Accumulate(WbkCheck, "", [SplitReplyCode, SplitReplyPhrase]) == Some(false)
  {
    var first := "" + SplitReplyCode;
    assert first == SplitReplyCode;
    assert OccursAt(first, WriteOkCode, 0);
    MissingCharacter(first, WriteDonePhrase, '写');
    OkCodeAloneFails(first);
  }

  /** `WB1:1,C:` followed by a code other than `0`, at `i`. */
  predicate FailureCodeAt(buffer: string, i: int) {
    OccursAt(buffer, WriteCodePrefix, i) && i + 8 < |buffer| && buffer[i + 8] != '0'
  }

  predicate HasFailureCode(buffer: string) {
    exists i | 0 <= i < |buffer| :: FailureCodeAt(buffer, i)
  }

  /**
   * The write reply check as evidently intended: success on the code and
   * the phrase, failure only on a nonzero code or an error phrase, and
   * otherwise wait for more text.
   */
  function WbkCheckCorrected(buffer: string): (r: Option<bool>)
    ensures r == Some(true) <==> Contains(buffer, WriteOkCode) && Contains(buffer, WriteDonePhrase)
    ensures r == Some(false) <==>
      && !(Contains(buffer, WriteOkCode) && Contains(buffer, WriteDonePhrase))
      && (HasFailureCode(buffer) || Contains(buffer, FormatErrorPhrase) || Contains(buffer, UnknownCommandPhrase))
  {
    if Contains(buffer, WriteOkCode) && Contains(buffer, WriteDonePhrase) then Some(true)
    else if HasFailureCode(buffer) || Contains(buffer, FormatErrorPhrase)
         || Contains(buffer, UnknownCommandPhrase) then Some(false)
    else None
  }

  /** A reply of a successful write: both success marks and no failure mark. */
  predicate GoodWriteReply(reply: string) {
    Contains(reply, WriteOkCode) && Contains(reply, WriteDonePhrase)
    && !HasFailureCode(reply) && !Contains(reply, FormatErrorPhrase) && !Contains(reply, UnknownCommandPhrase)
  }

  lemma ContainsPrefix(s: string, k: nat, p: string)
    requires k <= |s| && Contains(s[..k], p)
    ensures Contains(s, p)
  {
    ContainsAppend(s[..k], s[k..], p);
    assert s[..k] + s[k..] == s;
  }

  lemma FailureCodePrefix(s: string, k: nat)
    requires k <= |s| && HasFailureCode(s[..k])
    ensures HasFailureCode(s)
  {
    var i :| 0 <= i < k && FailureCodeAt(s[..k], i);
    assert s[..k][i..i + |WriteCodePrefix|] == s[i..i + |WriteCodePrefix|];
    assert FailureCodeAt(s, i);
  }

  /** With the corrected check, any cutting of a successful write's reply into chunks reports success. */
  lemma CorrectedWriteAnyChunking(reply: string, chunks: seq<string>)
    requires GoodWriteReply(reply) && chunks != [] && Concat(chunks) == reply
    ensures Accumulate(WbkCheckCorrected, "", chunks) == Some(true)
  {
    forall k | 0 <= k <= |reply|
      ensures WbkCheckCorrected(reply[..k]) != Some(false)
    {
      if HasFailureCode(reply[..k]) {
        FailureCodePrefix(reply, k);
      }
      if Contains(reply[..k], FormatErrorPhrase) {
        ContainsPrefix(reply, k, FormatErrorPhrase);
      }
      if Contains(reply[..k], UnknownCommandPhrase) {
        ContainsPrefix(reply, k, UnknownCommandPhrase);
      }
    }
    assert "" + Concat(chunks) == reply;
    AccumulateReaches(WbkCheckCorrected, "", chunks, reply, true);
  }

  /** The two-chunk reply that the check as written reports as failed is a success for the corrected check. */
  lemma SplitReplyCorrected()
    ensures Accumulate(WbkCheckCorrected, "", [SplitReplyCode, SplitReplyPhrase]) == Some(true)
  {
    var first := "" + SplitReplyCode;
    assert first == SplitReplyCode;
    MissingCharacter(first, WriteDonePhrase, '写');
    MissingCharacter(first, FormatErrorPhrase, '格');
    MissingCharacter(first, UnknownCommandPhrase, '未');
    assert !HasFailureCode(first) by {
      forall i | 0 <= i < |first| ensures !FailureCodeAt(first, i) {
        if i == 1 {
          assert first[1] != WriteCodePrefix[0];
        } else if i == 2 {
          assert first[2] != WriteCodePrefix[0];
        }
      }
    }
    var both := first + SplitReplyPhrase;
    assert OccursAt(both, WriteOkCode, 0);
    assert OccursAt(both, WriteDonePhrase, |SplitReplyCode|);
    assert [SplitReplyCode, SplitReplyPhrase][1..] == [SplitReplyPhrase];
  }
}
