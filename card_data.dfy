/**
 * The card record codec: a card's registered and lost flags, its balance
 * and its student number, and the 32-character upper-case hexadecimal
 * text that carries them over the serial protocol (16 bytes).
 *
 * `ParseCardData` and `BuildCardData` follow the code as written, which
 * do not invert each other; `ParseCardDataCorrected` and
 * `BuildCardDataCorrected` are the evidently intended pair.
 */
module CardData {
  import opened Wrappers
  import opened JsString

  datatype CardInfo = CardInfo(isRegistered: bool, isLost: bool, balance: int, studentId: string)

  const RecordLength: nat := 32
  const MaxBalance: int := 9999
  const StudentIdWidth: nat := 12

  /** `/^[0-9A-F]{32}$/`; the `!data` and `data.length !== 32` tests beside it are implied. */
  predicate IsWireRecord(data: string) {
    |data| == RecordLength && IsUpperHex(data)
  }

  /** `/^\d{1,12}$/`; the `!cardInfo.studentId` test beside it is implied. */
  predicate IsStudentIdText(s: string) {
    1 <= |s| <= StudentIdWidth && forall i | 0 <= i < |s| :: IsDigit(s[i])
  }

  /** The student number field of a parsed record: the 12-character field with its trailing zeros removed. */
  predicate IsTrailingStripped(id: string, field: string) {
    |id| <= |field| && id == field[..|id|]
    && (id == [] || id[|id| - 1] != '0')
    && forall i | |id| <= i < |field| :: field[i] == '0'
  }

  /**
   * `parseCardData`: null unless the text is a wire record; then flag
   * characters '1' mean true (anything else, 'A' included, false), the
   * balance is the 16-bit value of characters 2..5 (not range checked),
   * and the student number is characters 6..17 with trailing zeros
   * removed. Characters 18..31 are never read.
   */
  function ParseCardData(data: string): (r: Option<CardInfo>)
    ensures r.Some? <==> IsWireRecord(data)
    ensures r.Some? ==> (r.value.isRegistered <==> data[0] == '1')
    ensures r.Some? ==> (r.value.isLost <==> data[1] == '1')
    ensures r.Some? ==> 0 <= r.value.balance <= 0xFFFF && r.value.balance == HexValue(data[2..6])
    ensures r.Some? ==> IsTrailingStripped(r.value.studentId, data[6..18])
  {
    if !IsWireRecord(data) then None
    else
      assert Pow16(4) == 0x10000;
      Some(CardInfo(data[0] == '1', data[1] == '1', HexValue(data[2..6]), StripTrailingZeros(data[6..18])))
  }

  /** Characters 18..31 of a wire record never affect what `parseCardData` returns. */
  lemma ParseIgnoresPadding(a: string, b: string)
    requires IsWireRecord(a) && IsWireRecord(b) && a[..18] == b[..18]
    ensures ParseCardData(a) == ParseCardData(b)
  {
    assert a[2..6] == a[..18][2..6] == b[..18][2..6] == b[2..6];
    assert a[6..18] == a[..18][6..] == b[..18][6..] == b[6..18];
  }

  /** The student number a parsed record holds keeps its leading zeros. */
  lemma ParseKeepsLeadingZeros(data: string)
    requires IsWireRecord(data) && data[6] == '0' && data[17] != '0'
    ensures ParseCardData(data).Some? && ParseCardData(data).value.studentId == data[6..18]
  {
  }

  /** `isRegistered ? '1' : '0'` (and the same for `isLost`). */
  function Flag(b: bool): (c: char)
    ensures c == '0' || c == '1'
    ensures c == '1' <==> b
  {
    if b then '1' else '0'
  }

  /** `balance.toString(16).toUpperCase().padStart(4, '0')`: four hexadecimal digits worth `balance`. */
  function BalanceField(balance: int): (f: string)
    requires 0 <= balance <= MaxBalance
    ensures |f| == 4 && IsUpperHex(f) && HexValue(f) == balance
  {
    var hex := HexString(balance);
    assert Pow16(4) == 0x10000;
    HexStringLength(balance, 4);
    HexValueLeadingZeros(4 - |hex|, hex);
    var f := PadStart(hex, 4, '0');
    assert f == Fill('0', 4 - |hex|) + hex;
    f
  }

  /** `studentId.padStart(12, '0')`: the number behind as many '0' characters as make 12. */
  function StudentIdField(id: string): (f: string)
    requires IsStudentIdText(id)
    ensures |f| == StudentIdWidth && IsUpperHex(f)
    ensures f == Fill('0', StudentIdWidth - |id|) + id
  {
    var zeros := Fill('0', StudentIdWidth - |id|);
    var f := PadStart(id, StudentIdWidth, '0');
    assert f == zeros + id;
    assert IsUpperHex(f) by {
      forall i | 0 <= i < |f| ensures IsUpperHexDigit(f[i]) {
        if i >= |zeros| {
          assert f[i] == id[i - |zeros|];
        }
      }
    }
    f
  }

  /** The 18 characters shared by both builders: two flags, four balance digits and twelve student number digits. */
  function EncodeFields(info: CardInfo): (s: string)
    requires 0 <= info.balance <= MaxBalance && IsStudentIdText(info.studentId)
    ensures |s| == 18 && IsUpperHex(s)
    ensures s[0] == Flag(info.isRegistered) && s[1] == Flag(info.isLost)
    ensures s[2..6] == BalanceField(info.balance)
    ensures s[6..18] == StudentIdField(info.studentId)
  {
    var flags := [Flag(info.isRegistered), Flag(info.isLost)];
    var balance := BalanceField(info.balance);
    var id := StudentIdField(info.studentId);
    assert IsUpperHex(flags);
    UpperHexAppend(flags, balance);
    UpperHexAppend(flags + balance, id);
    var s := flags + balance + id;
    assert s[2..6] == balance by {
      assert forall i | 0 <= i < 4 :: s[2 + i] == balance[i];
    }
    assert s[6..18] == id by {
      assert forall i | 0 <= i < 12 :: s[6 + i] == id[i];
    }
    s
  }

  /**
   * The trailer as written: `'FF'.repeat(16 - (1 + 1 + 2 + 6))` subtracts
   * byte counts from 16 bytes, but each flag is one character, not one
   * byte, so this is 12 characters where 14 are needed.
   */
  const TrailerAsWritten: string := Repeat("FF", 16 - (1 + 1 + 2 + 6))

  /** Both trailers are runs of 'F': 12 of them as written, 14 as intended. */
  lemma Trailers()
    ensures TrailerAsWritten == Fill('F', 12) && IsUpperHex(TrailerAsWritten)
    ensures TrailerCorrected == Fill('F', 14) && IsUpperHex(TrailerCorrected)
  {
    assert "FF" == Fill('F', 2);
    RepeatOfFill('F', 2, 6);
    RepeatOfFill('F', 2, 7);
  }

  /**
   * `buildCardData`: null when the balance is outside 0..9999 or the
   * student number is not 1 to 12 ASCII digits; otherwise the 18 field
   * characters followed by 'F' padding. The result is 30 characters long,
   * not 32.
   */
  function BuildCardData(info: CardInfo): (r: Option<string>)
    ensures r.None? <==> info.balance < 0 || info.balance > MaxBalance || !IsStudentIdText(info.studentId)
    ensures r.Some? ==> |r.value| == 30 && IsUpperHex(r.value) && r.value[..18] == EncodeFields(info)
    ensures r.Some? ==> forall i | 18 <= i < 30 :: r.value[i] == 'F'
  {
    if info.balance < 0 || info.balance > MaxBalance then None
    else if !IsStudentIdText(info.studentId) then None
    else
      var fields := EncodeFields(info);
      Trailers();
      UpperHexAppend(fields, TrailerAsWritten);
      var s := fields + TrailerAsWritten;
      assert s[..18] == fields;
      Some(s)
  }

  /** A text `buildCardData` returns is never accepted by `parseCardData` (nor by the write command's validator). */
  lemma BuildNeverParses(info: CardInfo)
    requires BuildCardData(info).Some?
    ensures !IsWireRecord(BuildCardData(info).value)
    ensures ParseCardData(BuildCardData(info).value).None?
  {
  }

  /** The four fields of a text are those of the 18 characters it starts with. */
  lemma HeadFields(text: string, head: string)
    requires 18 <= |text| && text[..18] == head
    ensures text[0] == head[0] && text[1] == head[1]
    ensures text[2..6] == head[2..6] && text[6..18] == head[6..18]
  {
  }

  /**
   * Decoding the encoded fields by hand: the flags and the balance come
   * back; the student number comes back from leading-zero removal up to
   * the leading zeros of the number itself, while trailing-zero removal
   * (what `parseCardData` does) gives it back only for a 12-digit number
   * that does not end in '0'.
   */
  lemma {:induction false} FieldsDecode(info: CardInfo)
    requires 0 <= info.balance <= MaxBalance && IsStudentIdText(info.studentId)
    ensures var e := EncodeFields(info);
      && (e[0] == '1' <==> info.isRegistered)
      && (e[1] == '1' <==> info.isLost)
      && HexValue(e[2..6]) == info.balance
      && StripLeadingZeros(e[6..18]) == StripLeadingZeros(info.studentId)
      && (StripTrailingZeros(e[6..18]) == info.studentId <==>
            |info.studentId| == StudentIdWidth && info.studentId[StudentIdWidth - 1] != '0')
  {
    StripLeadingZerosOfField(info.studentId);
    StripTrailingZerosOfPadded(info.studentId);
  }

  /** Leading-zero removal sees through the padding of the student number field. */
  lemma StripLeadingZerosOfField(id: string)
    requires IsStudentIdText(id)
    ensures StripLeadingZeros(StudentIdField(id)) == StripLeadingZeros(id)
  {
    var z := StudentIdWidth - |id|;
    var field := StudentIdField(id);
    assert field == Fill('0', z) + id;
    StripLeadingZerosOfPadded(z, id);
    assert StripLeadingZeros(field) == StripLeadingZeros(id);
  }

  /**
   * Trailing-zero removal undoes the left padding of a student number
   * only when there was no padding and the number does not end in '0'.
   */
  lemma StripTrailingZerosOfPadded(id: string)
    requires IsStudentIdText(id)
    ensures StripTrailingZeros(StudentIdField(id)) == id <==> |id| == StudentIdWidth && id[StudentIdWidth - 1] != '0'
  {
    var padded := StudentIdField(id);
    var t := StripTrailingZeros(padded);
    assert padded[StudentIdWidth - 1] == id[|id| - 1];
    if id[|id| - 1] != '0' {
      // the last character survives, so nothing is removed
      assert |t| == StudentIdWidth;
      assert t == padded;
      if |id| == StudentIdWidth {
        assert padded == id;
      }
    }
  }

  /** The same decoding, on the text `buildCardData` returns. */
  lemma BuiltFieldsDecode(info: CardInfo)
    requires BuildCardData(info).Some?
    ensures var out := BuildCardData(info).value;
      && (out[0] == '1' <==> info.isRegistered)
      && (out[1] == '1' <==> info.isLost)
      && HexValue(out[2..6]) == info.balance
      && StripLeadingZeros(out[6..18]) == StripLeadingZeros(info.studentId)
      && (StripTrailingZeros(out[6..18]) == info.studentId <==>
            |info.studentId| == StudentIdWidth && info.studentId[StudentIdWidth - 1] != '0')
  {
    HeadFields(BuildCardData(info).value, EncodeFields(info));
    FieldsDecode(info);
  }

  /** Removing leading zeros cannot tell a number from the same number with zeros in front. */
  lemma {:induction false} StripLeadingZerosOfPadded(z: nat, s: string)
    ensures StripLeadingZeros(Fill('0', z) + s) == StripLeadingZeros(s)
    decreases z
  {
    var padded := Fill('0', z) + s;
    if z == 0 {
      assert padded == s;
    } else {
      var shorter := Fill('0', z - 1);
      assert padded[1..] == shorter + s;
      StripLeadingZerosOfPadded(z - 1, s);
    }
  }

  /** The bytes the record ought to end with: 32 minus the 18 field characters, all 'F'. */
  const TrailerCorrected: string := Repeat("FF", (RecordLength - 18) / 2)

  /** `buildCardData` with the trailer that makes the record 32 characters long. */
  function BuildCardDataCorrected(info: CardInfo): (r: Option<string>)
    ensures r.None? <==> BuildCardData(info).None?
    ensures r.Some? ==> IsWireRecord(r.value) && r.value[..18] == EncodeFields(info)
    ensures r.Some? ==> forall i | 18 <= i < RecordLength :: r.value[i] == 'F'
  {
    if info.balance < 0 || info.balance > MaxBalance then None
    else if !IsStudentIdText(info.studentId) then None
    else
      var fields := EncodeFields(info);
      Trailers();
      UpperHexAppend(fields, TrailerCorrected);
      var s := fields + TrailerCorrected;
      assert s[..18] == fields;
      Some(s)
  }

  /** `parseCardData` with the inverse of the builder's left padding: leading zeros are removed instead of trailing ones. */
  function ParseCardDataCorrected(data: string): (r: Option<CardInfo>)
    ensures r.Some? <==> IsWireRecord(data)
    ensures r.Some? ==> r.value.isRegistered == ParseCardData(data).value.isRegistered && r.value.isLost == ParseCardData(data).value.isLost
    ensures r.Some? ==> r.value.balance == ParseCardData(data).value.balance
    ensures r.Some? ==> r.value.studentId == StripLeadingZeros(data[6..18])
  {
    if !IsWireRecord(data) then None
    else Some(CardInfo(data[0] == '1', data[1] == '1', HexValue(data[2..6]), StripLeadingZeros(data[6..18])))
  }

  /**
   * The corrected pair round-trips every valid record up to the leading
   * zeros of its student number, and gives back the card itself exactly
   * when that number does not start with '0'.
   */
  lemma {:induction false} CorrectedRoundTrip(info: CardInfo)
    requires BuildCardDataCorrected(info).Some?
    ensures ParseCardDataCorrected(BuildCardDataCorrected(info).value)
         == Some(CardInfo(info.isRegistered, info.isLost, info.balance, StripLeadingZeros(info.studentId)))
    ensures info.studentId[0] != '0' <==> ParseCardDataCorrected(BuildCardDataCorrected(info).value) == Some(info)
  {
    var out := BuildCardDataCorrected(info).value;
    var expected := CardInfo(info.isRegistered, info.isLost, info.balance, StripLeadingZeros(info.studentId));
    CorrectedFieldsDecode(info);
    ParsedFieldsCorrected(out, expected);
  }

  /** Each field of a record the corrected builder makes decodes to the field it was built from. */
  lemma CorrectedFieldsDecode(info: CardInfo)
    requires BuildCardDataCorrected(info).Some?
    ensures var out := BuildCardDataCorrected(info).value;
      && (out[0] == '1') == info.isRegistered && (out[1] == '1') == info.isLost
      && HexValue(out[2..6]) == info.balance
      && StripLeadingZeros(out[6..18]) == StripLeadingZeros(info.studentId)
  {
    HeadFields(BuildCardDataCorrected(info).value, EncodeFields(info));
    FieldsDecode(info);
  }

  /** A wire record whose four fields decode to those of `info` parses (corrected) to `info`. */
  lemma ParsedFieldsCorrected(data: string, info: CardInfo)
    requires IsWireRecord(data)
    requires (data[0] == '1') == info.isRegistered && (data[1] == '1') == info.isLost
    requires HexValue(data[2..6]) == info.balance && StripLeadingZeros(data[6..18]) == info.studentId
    ensures ParseCardDataCorrected(data) == Some(info)
  {
  }

  /** The example balance, 1500, is the field "05DC". */
  lemma ExampleBalance()
    ensures BalanceField(1500) == "05DC"
  {
    assert HexString(5) == "5";
    assert HexString(93) == "5D";
    assert HexString(1500) == "5DC";
    assert Fill('0', 1) == "0";
  }

  /** The example student number, "202310001", is the field "000202310001". */
  lemma ExampleStudentId()
    ensures IsStudentIdText("202310001")
    ensures StudentIdField("202310001") == "000202310001"
  {
    assert Fill('0', 3) == "000";
  }

  /** The example card: registered, lost, a balance of 1500 and student number "202310001". */
  const ExampleCard := CardInfo(true, true, 1500, "202310001")

  /** The example card's 18 field characters. */
  lemma ExampleFields()
    ensures EncodeFields(ExampleCard) == "1105DC000202310001"
  {
    assert "11" + "05DC" == "1105DC";
    assert "1105DC" + "000202310001" == "1105DC000202310001";
    ExampleBalance();
    ExampleStudentId();
    var f := EncodeFields(ExampleCard);
    assert f[..2] == "11";
    assert f == f[..2] + f[2..6] + f[6..18];
  }
}
