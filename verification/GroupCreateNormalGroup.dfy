/** GroupCreateNormalGroupNotify: strings and a list of users in a message that carries no attach data. */
module GroupCreateNormalGroup {
  import opened WireFormat
  import opened RawBytes
  import opened ByteStreams
  import opened TeamTalkPdu

  const BODY_LAYOUT: Layout := [Word, Text, Text, List([Word])]

  ghost function BodyWires(groupId: UInt32, groupName: Bytes, avatarName: Bytes, users: seq<UInt32>): seq<Wire> {
    [U32(groupId), Str(groupName), Str(avatarName), Arr(WordRows(users))]
  }

  lemma BodyTyped(groupId: UInt32, groupName: Bytes, avatarName: Bytes, users: seq<UInt32>)
    ensures Typed(BODY_LAYOUT, BodyWires(groupId, groupName, avatarName, users)) && Solid(BODY_LAYOUT)
  {
    WordRowsTyped(users);
  }

  /** Where an encoded body starts, these are its bytes. */
  lemma BodyFields(d: Bytes, groupId: UInt32, groupName: Bytes, avatarName: Bytes, users: seq<UInt32>)
    requires var ws := BodyWires(groupId, groupName, avatarName, users); Sits(d, 0, ws) && Size(ws) < TWO_32
    ensures
      && WordAt(d, 0, groupId)
      && TextAt(d, 4, groupName)
      && TextAt(d, 8 + |groupName|, avatarName)
      && WordsAt(d, 12 + |groupName| + |avatarName|, users)
  {
    hide Encode, EncodeRows, EncodeOne, WordRows, Offset, Sits, ItemSits, WordAt, TextAt, WordsAt;
    var ws := BodyWires(groupId, groupName, avatarName, users);
    ItemsSit(d, 0, ws);
    assert ws[0] == U32(groupId) && ws[1] == Str(groupName) && ws[2] == Str(avatarName) &&
           ws[3] == Arr(WordRows(users));
    WordSits(d, 0, groupId);
    TextSize(groupName);
    TextSize(avatarName);
    ContainerSize(users);
    TextSits(d, 4, groupName);
    TextSits(d, 8 + |groupName|, avatarName);
    WordsSit(d, 12 + |groupName| + |avatarName|, users);
  }

  class GroupCreateNormalGroupNotify {
    const base: BaseTeamTalkPdu
    var groupId: UInt32
    var groupName: Bytes
    var avatarName: Bytes
    var userList: seq<UInt32>

    constructor ()
      ensures userList == [] && groupName == avatarName == [] && fresh(base)
      ensures base.attachDataType == NullType && base.attachData == []
    {
      base := new BaseTeamTalkPdu(NullType);
      groupName, avatarName, userList := [], [], [];
      groupId := *;
    }

    ghost function Wires(): seq<Wire>
      reads this
    {
      BodyWires(groupId, groupName, avatarName, userList)
    }

    function ByteSize(): (size: UInt32)
      requires base.attachDataType == NullType
      reads this, base
      ensures size == Low32(Size(Wires()))
    {
      hide Size, Encode, EncodeRows, WordRows;
      SizeSnoc();
      AppendFour([], U32(groupId), Str(groupName), Str(avatarName), Arr(WordRows(userList)));
      assert [] + Wires() == Wires();
      ContainerSizeWraps(userList);
      Low32Add(12 + |groupName| + |avatarName|, SizeOne(Arr(WordRows(userList))));
      Low32(base.ByteSize() + 4 + (4 + |groupName|) + (4 + |avatarName|) + CalculateContainerByteSize(userList))
    }

    method ParseFromByteStream(reader: ByteReader) returns (result: bool)
      requires reader.Valid()
      modifies this, reader
      ensures old(userList) <= userList
      ensures reader.Took(BODY_LAYOUT, BodyWires(groupId, groupName, avatarName, userList[|old(userList)|..]))
      ensures result == !reader.fail
    {
      hide Decode, DecodeOne, DecodeRows, Run, Outcome, WordRows, CountAhead;
      hide ByteReader.Valid, ByteReader.Rest, ByteReader.Kept;
      groupId := reader.ReadWord(groupId);
      groupName := reader.ReadString(groupName);
      avatarName := reader.ReadString(avatarName);
      userList := ParseWords(reader, userList);
      AppendFour(old(reader.layout), Word, Text, Text, List([Word]));
      AppendFour(old(reader.seen), U32(groupId), Str(groupName), Str(avatarName),
        Arr(WordRows(userList[|old(userList)|..])));
      result := !reader.fail;
    }

    method SerializeToByteStream(writer: ByteWriter) returns (result: bool)
      requires writer.Valid()
      modifies writer, writer.data
      ensures writer.Sends(Wires()) && result == !writer.fail
    {
      hide Encode, EncodeOne, EncodeRows, Size, WordRows, ByteWriter.Valid;
      writer.WriteWord(groupId);
      writer.WriteString(groupName);
      writer.WriteString(avatarName);
      SerializeWords(writer, userList);
      AppendFour(old(writer.sent), U32(groupId), Str(groupName), Str(avatarName), Arr(WordRows(userList)));
      result := !writer.fail;
    }

    /** What follows the body is neither read nor required: the attach data stays as it was. */
    method ParseFromArray(data: array<Byte>, dataLen: UInt32) returns (result: bool)
      requires dataLen <= data.Length && base.attachDataType == NullType
      modifies this, base
      ensures old(userList) <= userList && base.attachData == old(base.attachData)
      ensures match Decode(BODY_LAYOUT, data[..dataLen])
              case Fail => !result
              case Done(ws, _) =>
                result && ws == BodyWires(groupId, groupName, avatarName, userList[|old(userList)|..])
      ensures result ==>
                var d, users := data[..dataLen], userList[|old(userList)|..];
                && WordAt(d, 0, groupId)
                && TextAt(d, 4, groupName)
                && TextAt(d, 8 + |groupName|, avatarName)
                && WordsAt(d, 12 + |groupName| + |avatarName|, users)
    {
      hide Decode, DecodeOne, DecodeRows, WordRows, WordAt, TextAt, WordsAt, Sits;
      var reader := new ByteReader(data, dataLen);
      result := ParseFromByteStream(reader);
      assert reader.layout + [] == reader.layout == BODY_LAYOUT;
      ghost var body := BodyWires(groupId, groupName, avatarName, userList[|old(userList)|..]);
      assert reader.seen + [] == reader.seen == body;
      result := base.ParseAttachData(reader, result);
      if result {
        AcceptedSits(BODY_LAYOUT, data[..dataLen]);
        BodyFields(data[..dataLen], groupId, groupName, avatarName, userList[|old(userList)|..]);
      }
    }

    /** Whatever the attach setters were called with, exactly the body is written. */
    method SerializeToArray(data: array<Byte>, dataLen: UInt32) returns (result: bool)
      requires dataLen <= data.Length && base.attachDataType == NullType
      modifies data
      ensures result <==> Size(Wires()) <= dataLen
      ensures result ==> data[..] == Encode(Wires()) + old(data[Size(Wires())..])
      ensures data[dataLen..] == old(data[dataLen..])
      ensures result ==>
                var d, users := data[..], userList;
                && WordAt(d, 0, groupId)
                && TextAt(d, 4, groupName)
                && TextAt(d, 8 + |groupName|, avatarName)
                && WordsAt(d, 12 + |groupName| + |avatarName|, users)
    {
      hide Encode, EncodeOne, EncodeRows, Size, WordRows, WordAt, TextAt, WordsAt, Sits;
      var writer := new ByteWriter(data, dataLen);
      result := SerializeToByteStream(writer);
      assert writer.sent + [] == writer.sent == Wires();
      result := base.SerializeAttachData(writer, result);
      writer.Written();
      if result {
        WrittenSits(Wires(), old(data[Size(Wires())..]));
        BodyFields(data[..], groupId, groupName, avatarName, userList);
      }
    }
  }

  /** The attach data a caller tried to set leaves no trace: the message comes back from any buffer that
      holds its body, and the copy's own attach data stays empty. */
  method RoundTrip(msg: GroupCreateNormalGroupNotify, attach: Bytes, dataLen: UInt32)
    returns (ok: bool, copy: GroupCreateNormalGroupNotify)
    requires msg.base.attachDataType == NullType
    modifies msg.base
    ensures ok <==> Size(msg.Wires()) <= dataLen
    ensures ok ==> copy.groupId == msg.groupId && copy.groupName == msg.groupName
    ensures ok ==> copy.avatarName == msg.avatarName && copy.userList == msg.userList
    ensures msg.base.attachData == old(msg.base.attachData) && copy.base.attachData == []
  {
    hide Decode, Encode, EncodeOne, EncodeRows, DecodeOne, DecodeRows, WordRows, Typed, Solid;
    hide WordAt, TextAt, WordsAt;
    msg.base.SetAttachData(attach);
    var buffer := new Byte[dataLen](_ => 0);
    ok := msg.SerializeToArray(buffer, dataLen);
    copy := new GroupCreateNormalGroupNotify();
    if ok {
      ghost var sent := msg.Wires();
      assert buffer[..] == buffer[..dataLen] == Encode(sent) + buffer[Size(sent)..];
      BodyTyped(msg.groupId, msg.groupName, msg.avatarName, msg.userList);
      WireFormat.RoundTrip(BODY_LAYOUT, sent, buffer[Size(sent)..]);
      var parsed := copy.ParseFromArray(buffer, dataLen);
      ghost var got := copy.Wires();
      assert copy.userList[0..] == copy.userList;
      assert got[0] == sent[0] && got[1] == sent[1] && got[2] == sent[2] && got[3] == sent[3];
      WordRowsInjective(copy.userList, msg.userList);
    }
  }

  /** Whatever array is accepted, serializing the parsed object again reproduces the bytes that were
      consumed. */
  method Reserialize(data: array<Byte>, dataLen: UInt32)
    returns (accepted: bool, ok: bool, copy: GroupCreateNormalGroupNotify, buffer: array<Byte>)
    requires dataLen <= data.Length
    ensures buffer.Length == dataLen && (accepted <==> Decode(BODY_LAYOUT, data[..dataLen]).Done?)
    ensures accepted ==> ok && Size(copy.Wires()) <= dataLen
    ensures accepted ==> buffer[..Size(copy.Wires())] == data[..Size(copy.Wires())]
    ensures accepted ==>
              Decode(BODY_LAYOUT, data[..dataLen]) == Done(copy.Wires(), data[Size(copy.Wires())..dataLen])
  {
    hide Decode, Encode, EncodeOne, EncodeRows, DecodeOne, DecodeRows, WordRows, Typed, Solid, Fits;
    hide WordAt, TextAt, WordsAt;
    copy := new GroupCreateNormalGroupNotify();
    accepted := copy.ParseFromArray(data, dataLen);
    buffer := new Byte[dataLen](_ => 0);
    ok := copy.SerializeToArray(buffer, dataLen);
    if accepted {
      EncodeDecode(BODY_LAYOUT, data[..dataLen]);
      var Done(ws, rest) := Decode(BODY_LAYOUT, data[..dataLen]);
      assert copy.userList[0..] == copy.userList;
      assert ws == copy.Wires() && data[..dataLen] == Encode(ws) + rest;
    }
  }
}
