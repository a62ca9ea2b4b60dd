/** GroupChangeMemberRequest: three words and a list of users.  The parser in the repository reads the
    first word into `reqUserId` and then reads the second there again, so `changeType` never arrives. */
module GroupChangeMember {
  import opened WireFormat
  import opened RawBytes
  import opened ByteStreams
  import opened TeamTalkPdu

  const BODY_LAYOUT: Layout := [Word, Word, Word, List([Word])]

  ghost function BodyWires(changeType: UInt32, reqUserId: UInt32, groupId: UInt32, users: seq<UInt32>): seq<Wire> {
    [U32(changeType), U32(reqUserId), U32(groupId), Arr(WordRows(users))]
  }

  lemma BodyTyped(changeType: UInt32, reqUserId: UInt32, groupId: UInt32, users: seq<UInt32>)
    ensures Typed(BODY_LAYOUT, BodyWires(changeType, reqUserId, groupId, users)) && Solid(BODY_LAYOUT)
  {
    WordRowsTyped(users);
  }

  /** Where an encoded request starts, these are its bytes. */
  lemma MessageFields(d: Bytes, changeType: UInt32, reqUserId: UInt32, groupId: UInt32, users: seq<UInt32>,
                      base: BaseTeamTalkPdu)
    requires var ws := BodyWires(changeType, reqUserId, groupId, users) + base.AttachWires();
             Sits(d, 0, ws) && Size(ws) < TWO_32
    ensures
      && WordAt(d, 0, changeType)
      && WordAt(d, 4, reqUserId)
      && WordAt(d, 8, groupId)
      && WordsAt(d, 12, users)
      && (base.attachDataType != NullType ==> TextAt(d, 16 + 4 * |users|, base.attachData))
  {
    hide Encode, EncodeRows, EncodeOne, WordRows, Offset, Sits, ItemSits, WordAt, TextAt, WordsAt;
    var ws := BodyWires(changeType, reqUserId, groupId, users);
    AttachSits(d, ws, base);
    ItemsSit(d, 0, ws);
    assert ws[0] == U32(changeType) && ws[1] == U32(reqUserId) && ws[2] == U32(groupId) &&
           ws[3] == Arr(WordRows(users));
    ContainerSize(users);
    WordSits(d, 0, changeType);
    WordSits(d, 4, reqUserId);
    WordSits(d, 8, groupId);
    WordsSit(d, 12, users);
  }

  class GroupChangeMemberRequest {
    const base: BaseTeamTalkPdu
    var changeType: UInt32
    var reqUserId: UInt32
    var groupId: UInt32
    var userList: seq<UInt32>

    constructor ()
      ensures userList == [] && fresh(base)
      ensures base.attachDataType == DbType && base.attachData == []
    {
      base := new BaseTeamTalkPdu(DbType);
      userList := [];
      changeType, reqUserId, groupId := *, *, *;
    }

    ghost function Wires(): seq<Wire>
      reads this, base
    {
      BodyWires(changeType, reqUserId, groupId, userList) + base.AttachWires()
    }

    function PduLayout(): Layout {
      BODY_LAYOUT + base.AttachLayout()
    }

    function ByteSize(): (size: UInt32)
      reads this, base
      ensures size == Low32(Size(Wires()))
    {
      hide Size, Encode, EncodeRows, WordRows;
      SizeSnoc();
      AppendFour([], U32(changeType), U32(reqUserId), U32(groupId), Arr(WordRows(userList)));
      ghost var body := BodyWires(changeType, reqUserId, groupId, userList);
      assert [] + body == body;
      SizeConcat(body, base.AttachWires());
      ContainerSizeWraps(userList);
      Low32Add(12 + SizeOne(Arr(WordRows(userList))), Size(base.AttachWires()));
      Low32Add(12 + base.ByteSize(), SizeOne(Arr(WordRows(userList))));
      Low32(base.ByteSize() + 4 + 4 + 4 + CalculateContainerByteSize(userList))
    }

    /** As written: the first word is overwritten by the second, and `changeType` keeps its old value. */
    method ParseFromByteStream(reader: ByteReader) returns (result: bool, ghost lost: UInt32)
      requires reader.Valid()
      modifies this, reader
      ensures old(userList) <= userList && changeType == old(changeType)
      ensures reader.Took(BODY_LAYOUT, BodyWires(lost, reqUserId, groupId, userList[|old(userList)|..]))
      ensures result == !reader.fail
    {
      hide Decode, DecodeOne, DecodeRows, Run, Outcome, WordRows, CountAhead;
      hide ByteReader.Valid, ByteReader.Rest, ByteReader.Kept;
      reqUserId := reader.ReadWord(reqUserId);
      lost := reqUserId;
      reqUserId := reader.ReadWord(reqUserId);
      groupId := reader.ReadWord(groupId);
      userList := ParseWords(reader, userList);
      AppendFour(old(reader.layout), Word, Word, Word, List([Word]));
      AppendFour(old(reader.seen), U32(lost), U32(reqUserId), U32(groupId),
        Arr(WordRows(userList[|old(userList)|..])));
      result := !reader.fail;
    }

    /** As the serializer's order intends. */
    method ParseIntended(reader: ByteReader) returns (result: bool)
      requires reader.Valid()
      modifies this, reader
      ensures old(userList) <= userList
      ensures reader.Took(BODY_LAYOUT, BodyWires(changeType, reqUserId, groupId, userList[|old(userList)|..]))
      ensures result == !reader.fail
      ensures result ==>
                var d, p, users := reader.input, old(reader.pos), userList[|old(userList)|..];
                && WordAt(d, p, changeType)
                && WordAt(d, p + 4, reqUserId)
                && WordAt(d, p + 8, groupId)
                && WordsAt(d, p + 12, users)
    {
      hide Decode, DecodeOne, DecodeRows, Run, Outcome, WordRows, CountAhead, WordAt, WordsAt;
      hide ByteReader.Valid, ByteReader.Rest, ByteReader.Kept;
      changeType := reader.ReadWord(changeType);
      reqUserId := reader.ReadWord(reqUserId);
      groupId := reader.ReadWord(groupId);
      userList := ParseWords(reader, userList);
      AppendFour(old(reader.layout), Word, Word, Word, List([Word]));
      AppendFour(old(reader.seen), U32(changeType), U32(reqUserId), U32(groupId),
        Arr(WordRows(userList[|old(userList)|..])));
      result := !reader.fail;
    }

    method SerializeToByteStream(writer: ByteWriter) returns (result: bool)
      requires writer.Valid()
      modifies writer, writer.data
      ensures writer.Sends(BodyWires(changeType, reqUserId, groupId, userList)) && result == !writer.fail
    {
      hide Encode, EncodeOne, EncodeRows, Size, WordRows, ByteWriter.Valid;
      writer.WriteWord(changeType);
      writer.WriteWord(reqUserId);
      writer.WriteWord(groupId);
      SerializeWords(writer, userList);
      AppendFour(old(writer.sent), U32(changeType), U32(reqUserId), U32(groupId), Arr(WordRows(userList)));
      result := !writer.fail;
    }

    method ParseFromArray(data: array<Byte>, dataLen: UInt32) returns (result: bool, ghost lost: UInt32)
      requires dataLen <= data.Length
      modifies this, base
      ensures old(userList) <= userList && changeType == old(changeType)
      ensures match Decode(PduLayout(), data[..dataLen])
              case Fail => !result
              case Done(ws, _) =>
                result &&
                ws == BodyWires(lost, reqUserId, groupId, userList[|old(userList)|..]) + base.AttachWires()
      ensures result ==>
                var d, users := data[..dataLen], userList[|old(userList)|..];
                && WordAt(d, 0, lost)
                && WordAt(d, 4, reqUserId)
                && WordAt(d, 8, groupId)
                && WordsAt(d, 12, users)
                && (base.attachDataType != NullType ==> TextAt(d, 16 + 4 * |users|, base.attachData))
    {
      hide Decode, DecodeOne, DecodeRows, WordRows, WordAt, TextAt, WordsAt, Sits;
      var reader := new ByteReader(data, dataLen);
      result, lost := ParseFromByteStream(reader);
      assert reader.layout == BODY_LAYOUT;
      assert reader.seen == BodyWires(lost, reqUserId, groupId, userList[|old(userList)|..]);
      result := base.ParseAttachData(reader, result);
      if result {
        AcceptedSits(PduLayout(), data[..dataLen]);
        MessageFields(data[..dataLen], lost, reqUserId, groupId, userList[|old(userList)|..], base);
      }
    }

    method SerializeToArray(data: array<Byte>, dataLen: UInt32) returns (result: bool)
      requires dataLen <= data.Length
      modifies data
      ensures result <==> Size(Wires()) <= dataLen
      ensures result ==> data[..] == Encode(Wires()) + old(data[Size(Wires())..])
      ensures data[dataLen..] == old(data[dataLen..])
      ensures result ==>
                var d, users := data[..], userList;
                && WordAt(d, 0, changeType)
                && WordAt(d, 4, reqUserId)
                && WordAt(d, 8, groupId)
                && WordsAt(d, 12, users)
                && (base.attachDataType != NullType ==> TextAt(d, 16 + 4 * |users|, base.attachData))
    {
      hide Encode, EncodeOne, EncodeRows, Size, WordRows, WordAt, TextAt, WordsAt, Sits;
      var writer := new ByteWriter(data, dataLen);
      result := SerializeToByteStream(writer);
      assert writer.sent == BodyWires(changeType, reqUserId, groupId, userList);
      result := base.SerializeAttachData(writer, result);
      writer.Written();
      if result {
        WrittenSits(Wires(), old(data[Size(Wires())..]));
        MessageFields(data[..], changeType, reqUserId, groupId, userList, base);
      }
    }
  }

  /** Parsing a serialised request into `copy`, an object with an empty list: everything comes back but
      `changeType`, so the request is restored exactly when `copy` already held its change type. */
  method RoundTripAsWritten(msg: GroupChangeMemberRequest, copy: GroupChangeMemberRequest, dataLen: UInt32)
    returns (ok: bool)
    requires msg.base.attachDataType == DbType && copy.base.attachDataType == DbType
    requires copy.userList == [] && copy != msg && copy.base != msg.base
    modifies copy, copy.base
    ensures ok <==> Size(msg.Wires()) <= dataLen
    ensures ok ==> copy.reqUserId == msg.reqUserId && copy.groupId == msg.groupId && copy.userList == msg.userList
    ensures ok ==> copy.base.attachData == msg.base.attachData
    ensures copy.changeType == old(copy.changeType)
    ensures ok ==> (copy.Wires() == msg.Wires() <==> msg.changeType == old(copy.changeType))
  {
    hide Decode, Encode, EncodeOne, EncodeRows, DecodeOne, DecodeRows, WordRows, Typed, Solid;
    hide WordAt, TextAt, WordsAt;
    var buffer := new Byte[dataLen](_ => 0);
    ok := msg.SerializeToArray(buffer, dataLen);
    if ok {
      ghost var sent, body := msg.Wires(), BodyWires(msg.changeType, msg.reqUserId, msg.groupId, msg.userList);
      assert buffer[..] == buffer[..dataLen] == Encode(sent) + buffer[Size(sent)..];
      BodyTyped(msg.changeType, msg.reqUserId, msg.groupId, msg.userList);
      PduRoundTrip(BODY_LAYOUT, body, msg.base, buffer[Size(sent)..]);
      ghost var lost: UInt32;
      var parsed: bool;
      parsed, lost := copy.ParseFromArray(buffer, dataLen);
      assert copy.userList[0..] == copy.userList;
      SameFields(sent, lost, copy.reqUserId, copy.groupId, copy.userList, copy.base.attachData, msg);
      assert copy.Wires()[0] == U32(copy.changeType) && sent[0] == U32(msg.changeType);
    }
  }

  /** With the intended parser every field comes back. */
  method RoundTripIntended(msg: GroupChangeMemberRequest, dataLen: UInt32)
    returns (ok: bool, copy: GroupChangeMemberRequest)
    requires msg.base.attachDataType == DbType
    ensures ok <==> Size(msg.Wires()) <= dataLen
    ensures ok ==> copy.changeType == msg.changeType && copy.reqUserId == msg.reqUserId
    ensures ok ==> copy.groupId == msg.groupId && copy.userList == msg.userList
    ensures ok ==> copy.base.attachData == msg.base.attachData
  {
    hide Decode, Encode, EncodeOne, EncodeRows, DecodeOne, DecodeRows, WordRows, Typed, Solid;
    hide WordAt, TextAt, WordsAt;
    var buffer := new Byte[dataLen](_ => 0);
    ok := msg.SerializeToArray(buffer, dataLen);
    copy := new GroupChangeMemberRequest();
    if ok {
      ghost var sent, body := msg.Wires(), BodyWires(msg.changeType, msg.reqUserId, msg.groupId, msg.userList);
      assert buffer[..] == buffer[..dataLen] == Encode(sent) + buffer[Size(sent)..];
      BodyTyped(msg.changeType, msg.reqUserId, msg.groupId, msg.userList);
      PduRoundTrip(BODY_LAYOUT, body, msg.base, buffer[Size(sent)..]);
      var reader := new ByteReader(buffer, dataLen);
      var parsed := copy.ParseIntended(reader);
      assert copy.userList[0..] == copy.userList && reader.layout == BODY_LAYOUT;
      assert reader.seen == BodyWires(copy.changeType, copy.reqUserId, copy.groupId, copy.userList);
      parsed := copy.base.ParseAttachData(reader, parsed);
      assert parsed;
      SameFields(sent, copy.changeType, copy.reqUserId, copy.groupId, copy.userList, copy.base.attachData, msg);
    }
  }

  /** Serializing again what was parsed into `copy`, an object with an empty list, reproduces the bytes
      consumed if and only if their first word is the change type that `copy` held. */
  method ReserializeAsWritten(data: array<Byte>, dataLen: UInt32, copy: GroupChangeMemberRequest)
    returns (accepted: bool, ok: bool, buffer: array<Byte>)
    requires dataLen <= data.Length && copy.base.attachDataType == DbType && copy.userList == []
    modifies copy, copy.base
    ensures buffer.Length == dataLen && (accepted <==> Decode(BODY_LAYOUT + [Text], data[..dataLen]).Done?)
    ensures accepted ==> ok && Size(copy.Wires()) <= dataLen && TakeWord(data[..dataLen]).Done?
    ensures accepted ==> Decode(BODY_LAYOUT + [Text], data[..dataLen]).rest == data[Size(copy.Wires())..dataLen]
    ensures accepted ==> (buffer[..Size(copy.Wires())] == data[..Size(copy.Wires())] <==>
                          TakeWord(data[..dataLen]).value == old(copy.changeType))
  {
    hide Decode, Encode, EncodeOne, EncodeRows, DecodeOne, DecodeRows, WordRows, Typed, Solid, Fits, TakeWord;
    hide WordAt, TextAt, WordsAt;
    ghost var lost: UInt32;
    accepted, lost := copy.ParseFromArray(data, dataLen);
    buffer := new Byte[dataLen](_ => 0);
    ok := copy.SerializeToArray(buffer, dataLen);
    if accepted {
      assert copy.userList[0..] == copy.userList;
      Consumed(data[..dataLen], copy, lost);
    }
  }

  /** What accepted bytes are, for an object that holds all their values but the first. */
  lemma Consumed(b: Bytes, copy: GroupChangeMemberRequest, lost: UInt32)
    requires copy.base.attachDataType == DbType && Decode(BODY_LAYOUT + [Text], b).Done?
    requires Decode(BODY_LAYOUT + [Text], b).value ==
             BodyWires(lost, copy.reqUserId, copy.groupId, copy.userList) + copy.base.AttachWires()
    ensures TakeWord(b).Done? && TakeWord(b).value == lost
    ensures Size(copy.Wires()) + |Decode(BODY_LAYOUT + [Text], b).rest| == |b|
    ensures b[Size(copy.Wires())..] == Decode(BODY_LAYOUT + [Text], b).rest
    ensures Encode(copy.Wires()) == b[..Size(copy.Wires())] <==> lost == copy.changeType
  {
    hide Decode, Encode, EncodeOne, EncodeRows, DecodeRows, WordRows, Solid, TakeWord, PutWord;
    hide WordAt, TextAt, WordsAt;
    var Done(ws, rest) := Decode(BODY_LAYOUT + [Text], b);
    var us := copy.Wires();
    var tail := ws[1..];
    EncodeDecode(BODY_LAYOUT + [Text], b);
    assert ws == [U32(lost)] + tail && us == [U32(copy.changeType)] + tail;
    assert Typed(BODY_LAYOUT + [Text], us);
    assert Fits(us) by {
      assert forall i | 0 < i < |us| :: FitsOne(ws[i]) && us[i] == ws[i];
    }
    EncodeConcat([U32(lost)], tail);
    EncodeConcat([U32(copy.changeType)], tail);
    EncodeWord(lost);
    EncodeWord(copy.changeType);
    assert b == PutWord(lost) + (Encode(tail) + rest);
    TakePutWord(lost, Encode(tail) + rest);
    assert b[..|Encode(ws)|] == Encode(ws);
    if Encode(us) == Encode(ws) {
      EncodeInjective(BODY_LAYOUT + [Text], us, ws);
      assert us[0] == ws[0];
    }
  }

  /** With the intended parser the bytes consumed are always reproduced. */
  method ReserializeIntended(data: array<Byte>, dataLen: UInt32)
    returns (accepted: bool, ok: bool, copy: GroupChangeMemberRequest, buffer: array<Byte>)
    requires dataLen <= data.Length
    ensures buffer.Length == dataLen && (accepted <==> Decode(BODY_LAYOUT + [Text], data[..dataLen]).Done?)
    ensures accepted ==> ok && Size(copy.Wires()) <= dataLen
    ensures accepted ==> buffer[..Size(copy.Wires())] == data[..Size(copy.Wires())]
    ensures accepted ==> Decode(BODY_LAYOUT + [Text], data[..dataLen]) ==
                         Done(copy.Wires(), data[Size(copy.Wires())..dataLen])
  {
    hide Decode, Encode, EncodeOne, EncodeRows, DecodeOne, DecodeRows, WordRows, Typed, Solid, Fits;
    hide WordAt, TextAt, WordsAt;
    copy := new GroupChangeMemberRequest();
    var reader := new ByteReader(data, dataLen);
    accepted := copy.ParseIntended(reader);
    assert copy.userList[0..] == copy.userList && reader.layout == BODY_LAYOUT;
    assert reader.seen == BodyWires(copy.changeType, copy.reqUserId, copy.groupId, copy.userList);
    accepted := copy.base.ParseAttachData(reader, accepted);
    buffer := new Byte[dataLen](_ => 0);
    ok := copy.SerializeToArray(buffer, dataLen);
    if accepted {
      EncodeDecode(BODY_LAYOUT + [Text], data[..dataLen]);
      var Done(ws, rest) := Decode(BODY_LAYOUT + [Text], data[..dataLen]);
      assert ws == copy.Wires() && data[..dataLen] == Encode(ws) + rest;
    }
  }

  lemma SameFields(ws: seq<Wire>, c: UInt32, r: UInt32, g: UInt32, users: seq<UInt32>, attach: Bytes,
                   msg: GroupChangeMemberRequest)
    requires msg.base.attachDataType == DbType
    requires ws == msg.Wires() == BodyWires(c, r, g, users) + [Str(attach)]
    ensures c == msg.changeType && r == msg.reqUserId && g == msg.groupId && users == msg.userList
    ensures attach == msg.base.attachData
  {
    var v := BodyWires(c, r, g, users) + [Str(attach)];
    assert ws[0] == v[0] && ws[1] == v[1] && ws[2] == v[2] && ws[3] == v[3] && ws[4] == v[4];
    WordRowsInjective(users, msg.userList);
  }
}
