/** MsgListResponse: a list of chat messages, with strings on both sides of scalars. */
module MsgList {
  import opened WireFormat
  import opened RawBytes
  import opened ByteStreams
  import opened TeamTalkPdu
  import opened BaseData

  // ----- one message

  const MSG_LAYOUT: Layout := [Word, Text, Text, Text, Word, Octet, Text]

  ghost function MsgWires(item: ServerMsg): seq<Wire> {
    [U32(item.fromUserId), Str(item.fromName), Str(item.fromNickName), Str(item.fromAvatarUrl),
     U32(item.createTime), U8(item.msgType), Str(item.msgData)]
  }

  lemma MsgTyped(item: ServerMsg)
    ensures Typed(MSG_LAYOUT, MsgWires(item))
  {
  }

  lemma MsgWiresDetermine(x: ServerMsg, y: ServerMsg)
    ensures MsgWires(x) == MsgWires(y) <==> x == y
  {
    var u, v := MsgWires(x), MsgWires(y);
    if u == v {
      assert u[0] == v[0] && u[1] == v[1] && u[2] == v[2] && u[3] == v[3] && u[4] == v[4] && u[5] == v[5] &&
             u[6] == v[6];
    }
  }

  function MsgByteSize(item: ServerMsg): UInt32 {
    Low32(4 + (4 + |item.fromName|) + (4 + |item.fromNickName|) + (4 + |item.fromAvatarUrl|) + 4 + 1 +
          (4 + |item.msgData|))
  }

  lemma MsgSizeExact(item: ServerMsg)
    ensures MsgByteSize(item) == Low32(Size(MsgWires(item)))
  {
    hide Size, MsgWires;
    MsgSize(item);
  }

  /** The bytes that a record takes, and where its fields are among them. */
  function MsgBytes(item: ServerMsg): nat {
    25 + |item.fromName| + |item.fromNickName| + |item.fromAvatarUrl| + |item.msgData|
  }

  predicate MsgAt(d: Bytes, p: nat, item: ServerMsg) {
    var q := p + 16 + |item.fromName| + |item.fromNickName| + |item.fromAvatarUrl|;
    && WordAt(d, p, item.fromUserId)
    && TextAt(d, p + 4, item.fromName)
    && TextAt(d, p + 8 + |item.fromName|, item.fromNickName)
    && TextAt(d, p + 12 + |item.fromName| + |item.fromNickName|, item.fromAvatarUrl)
    && WordAt(d, q, item.createTime)
    && ByteAt(d, q + 4, item.msgType)
    && TextAt(d, q + 5, item.msgData)
  }

  lemma MsgSize(item: ServerMsg)
    ensures Size(MsgWires(item)) == MsgBytes(item) > 0
  {
    hide Size, Encode, EncodeRows, Low32;
    SizeSnoc();
    AppendSeven(
      [], U32(item.fromUserId), Str(item.fromName), Str(item.fromNickName), Str(item.fromAvatarUrl),
      U32(item.createTime), U8(item.msgType), Str(item.msgData));
    assert [] + MsgWires(item) == MsgWires(item);
  }

  /** Where an encoded record starts, these are its bytes. */
  lemma MsgFields(d: Bytes, p: nat, item: ServerMsg)
    requires Sits(d, p, MsgWires(item)) && MsgBytes(item) < TWO_32
    ensures
      var q := p + 16 + |item.fromName| + |item.fromNickName| + |item.fromAvatarUrl|;
      && WordAt(d, p, item.fromUserId)
      && TextAt(d, p + 4, item.fromName)
      && TextAt(d, p + 8 + |item.fromName|, item.fromNickName)
      && TextAt(d, p + 12 + |item.fromName| + |item.fromNickName|, item.fromAvatarUrl)
      && WordAt(d, q, item.createTime)
      && ByteAt(d, q + 4, item.msgType)
      && TextAt(d, q + 5, item.msgData)
  {
    hide Encode, EncodeRows, EncodeOne, Offset, Sits, ItemSits, WordAt, TextAt;
    var ws := MsgWires(item);
    ItemsSit(d, p, ws);
    assert ws[0] == U32(item.fromUserId) && ws[1] == Str(item.fromName) && ws[2] == Str(item.fromNickName) &&
           ws[3] == Str(item.fromAvatarUrl) && ws[4] == U32(item.createTime) && ws[5] == U8(item.msgType) &&
           ws[6] == Str(item.msgData);
    var q := p + 16 + |item.fromName| + |item.fromNickName| + |item.fromAvatarUrl|;
    WordSits(d, p, item.fromUserId);
    TextSits(d, p + 4, item.fromName);
    TextSits(d, p + 8 + |item.fromName|, item.fromNickName);
    TextSits(d, p + 12 + |item.fromName| + |item.fromNickName|, item.fromAvatarUrl);
    WordSits(d, q, item.createTime);
    ByteSits(d, q + 4, item.msgType);
    TextSits(d, q + 5, item.msgData);
  }

  lemma MsgSits(d: Bytes, p: nat, item: ServerMsg)
    requires Sits(d, p, MsgWires(item)) && MsgBytes(item) < TWO_32
    ensures MsgAt(d, p, item)
  {
    hide WordAt, TextAt, Sits;
    MsgFields(d, p, item);
  }

  method ParseMsg(reader: ByteReader) returns (item: ServerMsg, result: bool)
    requires reader.Valid()
    modifies reader
    ensures reader.Took(MSG_LAYOUT, MsgWires(item)) && result == !reader.fail
    ensures old(reader.fail) ==> reader.fail
    ensures result ==>
              MsgAt(reader.input, old(reader.pos), item) && reader.pos == old(reader.pos) + MsgBytes(item)
  {
    hide Decode, DecodeOne, DecodeRows, Run, Outcome;
    hide WordAt, TextAt, MsgAt, MsgBytes, Sits;
    hide ByteReader.Valid, ByteReader.Rest, ByteReader.Kept;
    reader.Standing();
    ghost var l, s, p, r0 := reader.layout, reader.seen, reader.pos, reader.Rest();
    var fromUserId := reader.ReadWord(0);
    var fromName := reader.ReadString([]);
    var fromNickName := reader.ReadString([]);
    var fromAvatarUrl := reader.ReadString([]);
    var createTime := reader.ReadWord(0);
    var msgType := reader.ReadByte(0);
    var msgData := reader.ReadString([]);
    item := ServerMsg(fromUserId, fromName, fromNickName, fromAvatarUrl, createTime, msgType, msgData);
    AppendSeven(old(reader.layout), Word, Text, Text, Text, Word, Octet, Text);
    AppendSeven(
      old(reader.seen), U32(fromUserId), Str(fromName), Str(fromNickName), Str(fromAvatarUrl), U32(createTime),
      U8(msgType), Str(msgData));
    assert reader.layout == old(reader.layout) + MSG_LAYOUT;
    assert reader.seen == old(reader.seen) + MsgWires(item);
    result := !reader.fail;
    if result {
      MsgSize(item);
      reader.SeenSits(l, s, p, r0, MSG_LAYOUT, MsgWires(item));
      MsgSits(reader.input, p, item);
    }
  }

  method SerializeMsg(item: ServerMsg, writer: ByteWriter) returns (result: bool)
    requires writer.Valid()
    modifies writer, writer.data
    ensures writer.Sends(MsgWires(item)) && result == !writer.fail
    ensures result ==>
              MsgAt(writer.data[..], old(writer.pos), item) && writer.pos == old(writer.pos) + MsgBytes(item)
  {
    hide Encode, EncodeOne, EncodeRows, Size, ByteWriter.Valid;
    hide WordAt, TextAt, MsgAt, MsgBytes, Sits;
    writer.Standing();
    ghost var s, p := writer.sent, writer.pos;
    writer.WriteWord(item.fromUserId);
    writer.WriteString(item.fromName);
    writer.WriteString(item.fromNickName);
    writer.WriteString(item.fromAvatarUrl);
    writer.WriteWord(item.createTime);
    writer.WriteByte(item.msgType);
    writer.WriteString(item.msgData);
    AppendSeven(
      old(writer.sent), U32(item.fromUserId), Str(item.fromName), Str(item.fromNickName),
      Str(item.fromAvatarUrl), U32(item.createTime), U8(item.msgType), Str(item.msgData));
    assert writer.sent == old(writer.sent) + MsgWires(item);
    result := !writer.fail;
    if result {
      MsgSize(item);
      writer.SentSits(s, p, MsgWires(item));
      MsgSits(writer.data[..], p, item);
    }
  }

  // ----- the list

  method ParseMsgs(reader: ByteReader, target: seq<ServerMsg>) returns (items: seq<ServerMsg>)
    requires reader.Valid()
    modifies reader
    ensures |items| == |target| + CountAhead(old(reader.Rest())) && target <= items
    ensures old(reader.fail) ==> reader.fail
    ensures reader.Took([List(MSG_LAYOUT)], [Arr(Rows(MsgWires, items[|target|..]))])
  {
    hide Decode, DecodeRows, DecodeOne, TakeWord;
    ghost var o, l, s, r0 := reader.origin, reader.layout, reader.seen, reader.Rest();
    items := target;
    reader.Begin();
    var n := reader.ReadWord(0);
    reader.Whole([Word], [U32(n)]);
    ghost var r1 := reader.Rest();
    CountSeen(r0, n, r1);
    ghost var rows := [];
    NoRows(MSG_LAYOUT, r1);
    for i := 0 to n
      invariant reader.Valid() && |items| == |target| + i && target <= items
      invariant old(reader.fail) ==> reader.fail
      invariant rows == Rows(MsgWires, items[|target|..])
      invariant RunRows(MSG_LAYOUT, i, r1) == Outcome(rows, reader.Rest())
    {
      ghost var before, mid := items[|target|..], reader.Rest();
      reader.Begin();
      var item, _ := ParseMsg(reader);
      items := items + [item];
      reader.Whole(MSG_LAYOUT, MsgWires(item));
      RowRead(MSG_LAYOUT, r1, rows, mid, MsgWires(item), reader.Rest());
      rows := rows + [Row(MsgWires(item))];
      assert items[|target|..] == before + [item];
      RowsSnoc(MsgWires, before, item);
    }
    reader.EndList(o, l, s, r0, r1, MSG_LAYOUT, rows);
  }

  method SerializeMsgs(writer: ByteWriter, items: seq<ServerMsg>)
    requires writer.Valid()
    modifies writer, writer.data
    ensures writer.Sends([Arr(Rows(MsgWires, items))])
  {
    hide Encode, EncodeRows, EncodeOne;
    ghost var before := writer.sent;
    writer.WriteWord(Low32(|items|));
    ghost var head := Encode(writer.sent);
    NoRowsWritten(head);
    for i := 0 to |items|
      invariant writer.Valid()
      invariant Encode(writer.sent) == head + EncodeRows(Rows(MsgWires, items[..i]))
    {
      RowWritten(head, Rows(MsgWires, items[..i]), writer.sent, MsgWires(items[i]));
      var _ := SerializeMsg(items[i], writer);
      assert items[..i + 1] == items[..i] + [items[i]];
      RowsSnoc(MsgWires, items[..i], items[i]);
    }
    assert items[..|items|] == items;
    writer.FoldList(before, Rows(MsgWires, items));
  }

  // ----- the message

  const BODY_LAYOUT: Layout := [Word, Word, Word, List(MSG_LAYOUT)]

  ghost function BodyWires(requestCmdId: UInt32, fromUserId: UInt32, toUserId: UInt32, items: seq<ServerMsg>)
    : seq<Wire>
  {
    [U32(requestCmdId), U32(fromUserId), U32(toUserId), Arr(Rows(MsgWires, items))]
  }

  lemma BodyTyped(requestCmdId: UInt32, fromUserId: UInt32, toUserId: UInt32, items: seq<ServerMsg>)
    ensures Typed(BODY_LAYOUT, BodyWires(requestCmdId, fromUserId, toUserId, items)) && Solid(BODY_LAYOUT)
  {
    forall item: ServerMsg ensures Typed(MSG_LAYOUT, MsgWires(item)) {
      MsgTyped(item);
    }
    hide MsgWires;
    RowsTyped(MSG_LAYOUT, MsgWires, items);
  }

  lemma BodySize(requestCmdId: UInt32, fromUserId: UInt32, toUserId: UInt32, items: seq<ServerMsg>)
    ensures Size(BodyWires(requestCmdId, fromUserId, toUserId, items)) ==
            16 + |EncodeRows(Rows(MsgWires, items))|
  {
    SizeSnoc();
    assert BodyWires(requestCmdId, fromUserId, toUserId, items) ==
           [U32(requestCmdId)] + [U32(fromUserId)] + [U32(toUserId)] + [Arr(Rows(MsgWires, items))];
  }

  /** Where header, records and attach data are in a message. */
  lemma MessageSits(d: Bytes, requestCmdId: UInt32, fromUserId: UInt32, toUserId: UInt32, items: seq<ServerMsg>,
                    base: BaseTeamTalkPdu)
    requires var ws := BodyWires(requestCmdId, fromUserId, toUserId, items) + base.AttachWires();
             Sits(d, 0, ws) && Size(ws) < TWO_32
    ensures
      && WordAt(d, 0, requestCmdId)
      && WordAt(d, 4, fromUserId)
      && WordAt(d, 8, toUserId)
      && WordAt(d, 12, |items|)
      && (forall i | 0 <= i < |items| :: MsgAt(d, 16 + Sum(MsgBytes, items[..i]), items[i]))
      && (base.attachDataType != NullType ==> TextAt(d, 16 + Sum(MsgBytes, items), base.attachData))
  {
    hide *;
    AttachSits(d, BodyWires(requestCmdId, fromUserId, toUserId, items), base);
    BodySits(d, requestCmdId, fromUserId, toUserId, items);
    BodyBytes(requestCmdId, fromUserId, toUserId, items);
  }

  lemma BodyBytes(requestCmdId: UInt32, fromUserId: UInt32, toUserId: UInt32, items: seq<ServerMsg>)
    ensures Size(BodyWires(requestCmdId, fromUserId, toUserId, items)) == 16 + Sum(MsgBytes, items)
  {
    hide *;
    BodySize(requestCmdId, fromUserId, toUserId, items);
    forall item: ServerMsg ensures Size(MsgWires(item)) == MsgBytes(item) {
      MsgSize(item);
    }
    RowsSize(MsgWires, MsgBytes, items);
  }

  lemma BodySits(d: Bytes, requestCmdId: UInt32, fromUserId: UInt32, toUserId: UInt32, items: seq<ServerMsg>)
    requires Sits(d, 0, BodyWires(requestCmdId, fromUserId, toUserId, items))
    requires Size(BodyWires(requestCmdId, fromUserId, toUserId, items)) < TWO_32
    ensures
      && WordAt(d, 0, requestCmdId)
      && WordAt(d, 4, fromUserId)
      && WordAt(d, 8, toUserId)
      && WordAt(d, 12, |items|)
      && (forall i | 0 <= i < |items| :: MsgAt(d, 16 + Sum(MsgBytes, items[..i]), items[i]))
  {
    hide Encode, EncodeRows, EncodeOne, Rows, Offset, Sits, ItemSits, WordAt, TextAt, MsgAt, MsgWires, Sum;
    hide MsgBytes;
    var ws := BodyWires(requestCmdId, fromUserId, toUserId, items);
    ItemsSit(d, 0, ws);
    assert ws[0] == U32(requestCmdId) && ws[1] == U32(fromUserId) && ws[2] == U32(toUserId) &&
           ws[3] == Arr(Rows(MsgWires, items));
    WordSits(d, 0, requestCmdId);
    WordSits(d, 4, fromUserId);
    WordSits(d, 8, toUserId);
    forall item: ServerMsg ensures Size(MsgWires(item)) == MsgBytes(item) > 0 {
      MsgSize(item);
    }
    RowsSit(d, 12, MsgWires, MsgBytes, items);
    forall i | 0 <= i < |items| ensures MsgAt(d, 16 + Sum(MsgBytes, items[..i]), items[i]) {
      MsgSits(d, 16 + Sum(MsgBytes, items[..i]), items[i]);
    }
  }

  class MsgListResponse {
    const base: BaseTeamTalkPdu
    var requestCmdId: UInt32
    var fromUserId: UInt32
    var toUserId: UInt32
    var msgList: seq<ServerMsg>

    constructor ()
      ensures msgList == [] && fresh(base)
      ensures base.attachDataType == DbType && base.attachData == []
    {
      base := new BaseTeamTalkPdu(DbType);
      msgList := [];
      requestCmdId := *;
      fromUserId := *;
      toUserId := *;
    }

    /** The whole message on the wire, leaving out the first `k` elements of the list. */
    ghost function WiresFrom(k: nat): seq<Wire>
      requires k <= |msgList|
      reads this, base
    {
      BodyWires(requestCmdId, fromUserId, toUserId, msgList[k..]) + base.AttachWires()
    }

    ghost function Wires(): seq<Wire>
      reads this, base
    {
      WiresFrom(0)
    }

    function PduLayout(): Layout {
      BODY_LAYOUT + base.AttachLayout()
    }

    method ByteSize() returns (size: UInt32)
      ensures size == Low32(Size(Wires()))
    {
      hide Size, SizeOne, Rows, MsgWires, Encode, EncodeRows, EncodeOne, Low32;
      size := base.ByteSize();
      Low32Add(4 + 4 + 4, Size(base.AttachWires()));
      size := Low32(size + 4 + 4 + 4);
      Low32Add(4, Size(base.AttachWires()) + 4 + 4 + 4);
      size := Low32(size + 4);
      ghost var start: nat := Size(base.AttachWires()) + 16;
      assert msgList[..0] == [];
      NoRowsWritten([]);
      assert Rows(MsgWires, msgList[..0]) == [];
      for i := 0 to |msgList|
        invariant size == Low32(start + |EncodeRows(Rows(MsgWires, msgList[..i]))|)
      {
        MsgSizeExact(msgList[i]);
        ListSizeStep(MsgWires, msgList, i, start, MsgByteSize(msgList[i]));
        size := Low32(size + MsgByteSize(msgList[i]));
      }
      assert msgList[..|msgList|] == msgList == msgList[0..];
      BodySize(requestCmdId, fromUserId, toUserId, msgList);
      SizeConcat(BodyWires(requestCmdId, fromUserId, toUserId, msgList), base.AttachWires());
    }

    method ParseFromByteStream(reader: ByteReader) returns (result: bool)
      requires reader.Valid()
      modifies this, reader
      ensures old(msgList) <= msgList
      ensures reader.Took(BODY_LAYOUT, BodyWires(requestCmdId, fromUserId, toUserId, msgList[|old(msgList)|..]))
      ensures result == !reader.fail
      ensures result ==>
                var d, p := reader.input, old(reader.pos);
                WordAt(d, p, requestCmdId) && WordAt(d, p + 4, fromUserId) && WordAt(d, p + 8, toUserId)
    {
      hide Decode, DecodeOne, DecodeRows, Run, Outcome, Rows, CountAhead, WordAt;
      hide ByteReader.Valid, ByteReader.Rest, ByteReader.Kept;
      requestCmdId := reader.ReadWord(requestCmdId);
      fromUserId := reader.ReadWord(fromUserId);
      toUserId := reader.ReadWord(toUserId);
      msgList := ParseMsgs(reader, msgList);
      AppendFour(old(reader.layout), Word, Word, Word, List(MSG_LAYOUT));
      AppendFour(old(reader.seen), U32(requestCmdId), U32(fromUserId), U32(toUserId),
        Arr(Rows(MsgWires, msgList[|old(msgList)|..])));
      result := !reader.fail;
    }

    method SerializeToByteStream(writer: ByteWriter) returns (result: bool)
      requires writer.Valid()
      modifies writer, writer.data
      ensures writer.Sends(BodyWires(requestCmdId, fromUserId, toUserId, msgList)) && result == !writer.fail
    {
      hide Encode, EncodeOne, EncodeRows, Size, Rows;
      writer.WriteWord(requestCmdId);
      writer.WriteWord(fromUserId);
      writer.WriteWord(toUserId);
      SerializeMsgs(writer, msgList);
      result := !writer.fail;
    }

    method ParseFromArray(data: array<Byte>, dataLen: UInt32) returns (result: bool)
      requires dataLen <= data.Length
      modifies this, base
      ensures old(msgList) <= msgList
      ensures match Decode(PduLayout(), data[..dataLen])
              case Fail => !result
              case Done(ws, _) => result && ws == WiresFrom(|old(msgList)|)
      ensures result ==>
                var d, items := data[..dataLen], msgList[|old(msgList)|..];
                && WordAt(d, 0, requestCmdId)
                && WordAt(d, 4, fromUserId)
                && WordAt(d, 8, toUserId)
                && WordAt(d, 12, |items|)
                && (forall i | 0 <= i < |items| :: MsgAt(d, 16 + Sum(MsgBytes, items[..i]), items[i]))
                && (base.attachDataType != NullType ==> TextAt(d, 16 + Sum(MsgBytes, items), base.attachData))
    {
      hide Decode, DecodeOne, DecodeRows, Rows;
      hide Sits, WordAt, TextAt, MsgAt, Sum;
      var reader := new ByteReader(data, dataLen);
      result := ParseFromByteStream(reader);
      assert reader.layout == BODY_LAYOUT;
      result := base.ParseAttachData(reader, result);
      if result {
        AcceptedSits(PduLayout(), data[..dataLen]);
        assert Decode(PduLayout(), data[..dataLen]).value == WiresFrom(|old(msgList)|);
        MessageSits(data[..dataLen], requestCmdId, fromUserId, toUserId, msgList[|old(msgList)|..], base);
      }
    }

    method SerializeToArray(data: array<Byte>, dataLen: UInt32) returns (result: bool)
      requires dataLen <= data.Length
      modifies data
      ensures result <==> Size(Wires()) <= dataLen
      ensures result ==> data[..] == Encode(Wires()) + old(data[Size(Wires())..])
      ensures data[dataLen..] == old(data[dataLen..])
      ensures result ==>
                var d, items := data[..], msgList;
                && WordAt(d, 0, requestCmdId)
                && WordAt(d, 4, fromUserId)
                && WordAt(d, 8, toUserId)
                && WordAt(d, 12, |items|)
                && (forall i | 0 <= i < |items| :: MsgAt(d, 16 + Sum(MsgBytes, items[..i]), items[i]))
                && (base.attachDataType != NullType ==> TextAt(d, 16 + Sum(MsgBytes, items), base.attachData))
    {
      hide Encode, EncodeOne, EncodeRows, Size, Rows;
      hide Sits, WordAt, TextAt, MsgAt, Sum;
      var writer := new ByteWriter(data, dataLen);
      result := SerializeToByteStream(writer);
      assert writer.sent == BodyWires(requestCmdId, fromUserId, toUserId, msgList) && msgList[0..] == msgList;
      result := base.SerializeAttachData(writer, result);
      writer.Written();
      if result {
        WrittenSits(Wires(), old(data[Size(Wires())..]));
        MessageSits(data[..], requestCmdId, fromUserId, toUserId, msgList, base);
      }
    }
  }

  /** Serialising into a buffer of `dataLen` bytes and parsing those bytes into a new object works
      exactly when the message fits, and then every field comes back. */
  method RoundTrip(msg: MsgListResponse, dataLen: UInt32) returns (ok: bool, copy: MsgListResponse)
    requires msg.base.attachDataType == DbType
    ensures ok <==> Size(msg.Wires()) <= dataLen
    ensures ok ==> copy.requestCmdId == msg.requestCmdId
    ensures ok ==> copy.fromUserId == msg.fromUserId
    ensures ok ==> copy.toUserId == msg.toUserId
    ensures ok ==> copy.base.attachData == msg.base.attachData
    ensures ok ==> copy.msgList == msg.msgList
  {
    hide Decode, Encode, EncodeOne, EncodeRows, DecodeOne, DecodeRows, Rows, Typed, Solid;
    hide Sum, MsgAt, WordAt, TextAt;
    var buffer := new Byte[dataLen](_ => 0);
    ok := msg.SerializeToArray(buffer, dataLen);
    copy := new MsgListResponse();
    if ok {
      ghost var sent := msg.Wires();
      var parsed := copy.ParseFromArray(buffer, dataLen);
      ghost var body := BodyWires(msg.requestCmdId, msg.fromUserId, msg.toUserId, msg.msgList[0..]);
      BodyTyped(msg.requestCmdId, msg.fromUserId, msg.toUserId, msg.msgList[0..]);
      PduRoundTrip(BODY_LAYOUT, body, msg.base, buffer[Size(sent)..]);
      assert buffer[..] == buffer[..dataLen] == Encode(sent) + buffer[Size(sent)..];
      assert parsed && copy.Wires() == sent;
      SameWires(copy, msg);
    }
  }

  /** A buffer of exactly `ByteSize()` bytes takes the message if and only if its true size does not wrap
      in 32 bits. */
  method ToBuffer(msg: MsgListResponse) returns (ok: bool, buffer: array<Byte>)
    ensures ok <==> Size(msg.Wires()) < TWO_32
    ensures ok ==> buffer[..] == Encode(msg.Wires())
  {
    hide Encode, EncodeOne, EncodeRows, Rows;
    hide Sum, MsgAt, WordAt, TextAt;
    var size := msg.ByteSize();
    ByteSizeSuffices(msg.Wires());
    buffer := new Byte[size](_ => 0);
    ok := msg.SerializeToArray(buffer, size);
    if ok {
      assert buffer[..] == Encode(msg.Wires()) + [];
    }
  }

  /** Whatever bytes are accepted, serialising what was parsed from them reproduces the bytes that the
      parse consumed. */
  method Reserialize(data: array<Byte>, dataLen: UInt32)
    returns (accepted: bool, ok: bool, copy: MsgListResponse, buffer: array<Byte>)
    requires dataLen <= data.Length
    ensures accepted <==> Decode(BODY_LAYOUT + [Text], data[..dataLen]).Done?
    ensures accepted ==> ok && buffer.Length <= dataLen && buffer[..] == data[..buffer.Length]
    ensures accepted ==> Decode(BODY_LAYOUT + [Text], data[..dataLen]) ==
                         Done(copy.Wires(), data[buffer.Length..dataLen])
  {
    hide Decode, Encode, EncodeOne, EncodeRows, DecodeOne, DecodeRows, Rows, Typed, Solid, Fits;
    hide Sum, MsgAt, WordAt, TextAt;
    copy := new MsgListResponse();
    accepted := copy.ParseFromArray(data, dataLen);
    ok, buffer := ToBuffer(copy);
    if accepted {
      EncodeDecode(BODY_LAYOUT + [Text], data[..dataLen]);
      var Done(ws, rest) := Decode(BODY_LAYOUT + [Text], data[..dataLen]);
      assert ws == copy.Wires() && data[..dataLen] == Encode(ws) + rest;
    }
  }

  lemma SameWires(x: MsgListResponse, y: MsgListResponse)
    requires x.base.attachDataType == y.base.attachDataType == DbType && x.Wires() == y.Wires()
    ensures x.requestCmdId == y.requestCmdId && x.fromUserId == y.fromUserId && x.toUserId == y.toUserId
    ensures x.base.attachData == y.base.attachData
    ensures |x.msgList| == |y.msgList|
    ensures forall i | 0 <= i < |x.msgList| :: x.msgList[i] == y.msgList[i]
  {
    hide MsgWires;
    var u, v := x.Wires(), y.Wires();
    assert u[0] == v[0] && u[1] == v[1] && u[2] == v[2] && u[3] == v[3] && u[4] == v[4];
    assert x.msgList[0..] == x.msgList && y.msgList[0..] == y.msgList;
    forall i | 0 <= i < |x.msgList| ensures x.msgList[i] == y.msgList[i] {
      assert Rows(MsgWires, x.msgList)[i] == Rows(MsgWires, y.msgList)[i];
      MsgWiresDetermine(x.msgList[i], y.msgList[i]);
    }
  }
}
