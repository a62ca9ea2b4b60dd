/** GroupDialogListResponse: a list of groups, each holding a list of member ids. */
module GroupDialogList {
  import opened WireFormat
  import opened RawBytes
  import opened ByteStreams
  import opened TeamTalkPdu
  import opened BaseData

  // ----- one group

  const GROUP_LAYOUT: Layout := [Word, Text, Text, Word, Word, Word, List([Word])]

  ghost function GroupWires(group: GroupInfo): seq<Wire> {
    [U32(group.groupId), Str(group.groupName), Str(group.groupAvatar), U32(group.groupType),
     U32(group.groupCreatorId), U32(group.groupUpdated), Arr(WordRows(group.memberList))]
  }

  lemma GroupTyped(group: GroupInfo)
    ensures Typed(GROUP_LAYOUT, GroupWires(group))
  {
    WordRowsTyped(group.memberList);
    hide WordRows;
  }

  lemma GroupWiresDetermine(x: GroupInfo, y: GroupInfo)
    ensures GroupWires(x) == GroupWires(y) <==> x == y
  {
    var u, v := GroupWires(x), GroupWires(y);
    if u == v {
      assert u[0] == v[0] && u[1] == v[1] && u[2] == v[2] && u[3] == v[3] && u[4] == v[4] && u[5] == v[5] &&
             u[6] == v[6];
      WordRowsInjective(x.memberList, y.memberList);
    }
  }

  function GroupByteSize(group: GroupInfo): UInt32 {
    Low32(4 + (4 + |group.groupName|) + (4 + |group.groupAvatar|) + 4 + 4 + 4 +
          CalculateContainerByteSize(group.memberList))
  }

  lemma GroupSizeExact(group: GroupInfo)
    ensures GroupByteSize(group) == Low32(Size(GroupWires(group)))
  {
    hide Size, GroupWires, WordRows;
    GroupSize(group);
    Low32Add(GroupBytes(group) - 4 - 4 * |group.memberList|, 4 + 4 * |group.memberList|);
  }

  /** The bytes that a record takes, and where its fields are among them. */
  function GroupBytes(group: GroupInfo): nat {
    28 + |group.groupName| + |group.groupAvatar| + 4 * |group.memberList|
  }

  predicate GroupAt(d: Bytes, p: nat, group: GroupInfo) {
    var q := p + 12 + |group.groupName| + |group.groupAvatar|;
    && WordAt(d, p, group.groupId)
    && TextAt(d, p + 4, group.groupName)
    && TextAt(d, p + 8 + |group.groupName|, group.groupAvatar)
    && WordAt(d, q, group.groupType)
    && WordAt(d, q + 4, group.groupCreatorId)
    && WordAt(d, q + 8, group.groupUpdated)
    && WordsAt(d, q + 12, group.memberList)
  }

  lemma GroupSize(group: GroupInfo)
    ensures Size(GroupWires(group)) == GroupBytes(group) > 0
  {
    hide Size, Encode, EncodeRows, WordRows, Low32;
    SizeSnoc();
    ContainerSize(group.memberList);
    AppendSeven(
      [], U32(group.groupId), Str(group.groupName), Str(group.groupAvatar), U32(group.groupType),
      U32(group.groupCreatorId), U32(group.groupUpdated), Arr(WordRows(group.memberList)));
    assert [] + GroupWires(group) == GroupWires(group);
  }

  /** Where an encoded record starts, these are its bytes. */
  lemma GroupFields(d: Bytes, p: nat, group: GroupInfo)
    requires Sits(d, p, GroupWires(group)) && GroupBytes(group) < TWO_32
    ensures
      var q := p + 12 + |group.groupName| + |group.groupAvatar|;
      && WordAt(d, p, group.groupId)
      && TextAt(d, p + 4, group.groupName)
      && TextAt(d, p + 8 + |group.groupName|, group.groupAvatar)
      && WordAt(d, q, group.groupType)
      && WordAt(d, q + 4, group.groupCreatorId)
      && WordAt(d, q + 8, group.groupUpdated)
      && WordsAt(d, q + 12, group.memberList)
  {
    hide Encode, EncodeRows, EncodeOne, WordRows, Offset, Sits, ItemSits, WordAt, TextAt, WordsAt;
    var ws := GroupWires(group);
    ItemsSit(d, p, ws);
    assert ws[0] == U32(group.groupId) && ws[1] == Str(group.groupName) && ws[2] == Str(group.groupAvatar) &&
           ws[3] == U32(group.groupType) && ws[4] == U32(group.groupCreatorId) &&
           ws[5] == U32(group.groupUpdated) && ws[6] == Arr(WordRows(group.memberList));
    var q := p + 12 + |group.groupName| + |group.groupAvatar|;
    WordSits(d, p, group.groupId);
    TextSits(d, p + 4, group.groupName);
    TextSits(d, p + 8 + |group.groupName|, group.groupAvatar);
    WordSits(d, q, group.groupType);
    WordSits(d, q + 4, group.groupCreatorId);
    WordSits(d, q + 8, group.groupUpdated);
    WordsSit(d, q + 12, group.memberList);
  }

  lemma GroupSits(d: Bytes, p: nat, group: GroupInfo)
    requires Sits(d, p, GroupWires(group)) && GroupBytes(group) < TWO_32
    ensures GroupAt(d, p, group)
  {
    hide WordAt, TextAt, Sits, WordsAt;
    GroupFields(d, p, group);
  }

  method ParseGroup(reader: ByteReader) returns (group: GroupInfo, result: bool)
    requires reader.Valid()
    modifies reader
    ensures reader.Took(GROUP_LAYOUT, GroupWires(group)) && result == !reader.fail
    ensures result ==>
              GroupAt(reader.input, old(reader.pos), group) && reader.pos == old(reader.pos) + GroupBytes(group)
  {
    hide Decode, DecodeOne, DecodeRows, WordRows, CountAhead, Run, Outcome;
    hide WordAt, TextAt, WordsAt, GroupAt, GroupBytes, Sits;
    hide ByteReader.Valid, ByteReader.Rest, ByteReader.Kept;
    reader.Standing();
    ghost var l, s, p, r0 := reader.layout, reader.seen, reader.pos, reader.Rest();
    var groupId := reader.ReadWord(0);
    var groupName := reader.ReadString([]);
    var groupAvatar := reader.ReadString([]);
    var groupType := reader.ReadWord(0);
    var groupCreatorId := reader.ReadWord(0);
    var groupUpdated := reader.ReadWord(0);
    var memberList := ParseWords(reader, []);
    group := GroupInfo(
      groupId, groupName, groupAvatar, groupCreatorId, groupType, groupUpdated, memberList);
    AppendSeven(old(reader.layout), Word, Text, Text, Word, Word, Word, List([Word]));
    AppendSeven(
      old(reader.seen), U32(groupId), Str(groupName), Str(groupAvatar), U32(groupType), U32(groupCreatorId),
      U32(groupUpdated), Arr(WordRows(memberList)));
    assert reader.layout == old(reader.layout) + GROUP_LAYOUT;
    assert reader.seen == old(reader.seen) + GroupWires(group);
    result := !reader.fail;
    if result {
      GroupSize(group);
      reader.SeenSits(l, s, p, r0, GROUP_LAYOUT, GroupWires(group));
      GroupSits(reader.input, p, group);
    }
  }

  method SerializeGroup(group: GroupInfo, writer: ByteWriter) returns (result: bool)
    requires writer.Valid()
    modifies writer, writer.data
    ensures writer.Sends(GroupWires(group)) && result == !writer.fail
    ensures result ==>
              GroupAt(writer.data[..], old(writer.pos), group) && writer.pos == old(writer.pos) + GroupBytes(group)
  {
    hide Encode, EncodeOne, EncodeRows, Size, WordRows, ByteWriter.Valid;
    hide WordAt, TextAt, WordsAt, GroupAt, GroupBytes, Sits;
    writer.Standing();
    ghost var s, p := writer.sent, writer.pos;
    writer.WriteWord(group.groupId);
    writer.WriteString(group.groupName);
    writer.WriteString(group.groupAvatar);
    writer.WriteWord(group.groupType);
    writer.WriteWord(group.groupCreatorId);
    writer.WriteWord(group.groupUpdated);
    SerializeWords(writer, group.memberList);
    AppendSeven(
      old(writer.sent), U32(group.groupId), Str(group.groupName), Str(group.groupAvatar), U32(group.groupType),
      U32(group.groupCreatorId), U32(group.groupUpdated), Arr(WordRows(group.memberList)));
    assert writer.sent == old(writer.sent) + GroupWires(group);
    result := !writer.fail;
    if result {
      GroupSize(group);
      writer.SentSits(s, p, GroupWires(group));
      GroupSits(writer.data[..], p, group);
    }
  }

  // ----- the list

  method ParseGroups(reader: ByteReader, target: seq<GroupInfo>) returns (groups: seq<GroupInfo>)
    requires reader.Valid()
    modifies reader
    ensures |groups| == |target| + CountAhead(old(reader.Rest())) && target <= groups
    ensures reader.Took([List(GROUP_LAYOUT)], [Arr(Rows(GroupWires, groups[|target|..]))])
  {
    hide Decode, DecodeRows, DecodeOne, TakeWord;
    ghost var o, l, s, r0 := reader.origin, reader.layout, reader.seen, reader.Rest();
    groups := target;
    reader.Begin();
    var n := reader.ReadWord(0);
    reader.Whole([Word], [U32(n)]);
    ghost var r1 := reader.Rest();
    CountSeen(r0, n, r1);
    ghost var rows := [];
    NoRows(GROUP_LAYOUT, r1);
    for i := 0 to n
      invariant reader.Valid() && |groups| == |target| + i && target <= groups
      invariant rows == Rows(GroupWires, groups[|target|..])
      invariant RunRows(GROUP_LAYOUT, i, r1) == Outcome(rows, reader.Rest())
    {
      ghost var before, mid := groups[|target|..], reader.Rest();
      reader.Begin();
      var group, _ := ParseGroup(reader);
      groups := groups + [group];
      reader.Whole(GROUP_LAYOUT, GroupWires(group));
      RowRead(GROUP_LAYOUT, r1, rows, mid, GroupWires(group), reader.Rest());
      rows := rows + [Row(GroupWires(group))];
      assert groups[|target|..] == before + [group];
      RowsSnoc(GroupWires, before, group);
    }
    reader.EndList(o, l, s, r0, r1, GROUP_LAYOUT, rows);
  }

  method SerializeGroups(writer: ByteWriter, groups: seq<GroupInfo>)
    requires writer.Valid()
    modifies writer, writer.data
    ensures writer.Sends([Arr(Rows(GroupWires, groups))])
  {
    hide Encode, EncodeRows, EncodeOne;
    ghost var before := writer.sent;
    writer.WriteWord(Low32(|groups|));
    ghost var head := Encode(writer.sent);
    NoRowsWritten(head);
    for i := 0 to |groups|
      invariant writer.Valid()
      invariant Encode(writer.sent) == head + EncodeRows(Rows(GroupWires, groups[..i]))
    {
      RowWritten(head, Rows(GroupWires, groups[..i]), writer.sent, GroupWires(groups[i]));
      var _ := SerializeGroup(groups[i], writer);
      assert groups[..i + 1] == groups[..i] + [groups[i]];
      RowsSnoc(GroupWires, groups[..i], groups[i]);
    }
    assert groups[..|groups|] == groups;
    writer.FoldList(before, Rows(GroupWires, groups));
  }

  // ----- the message

  const BODY_LAYOUT: Layout := [Word, List(GROUP_LAYOUT)]

  ghost function BodyWires(reqUserId: UInt32, groups: seq<GroupInfo>)
    : seq<Wire>
  {
    [U32(reqUserId), Arr(Rows(GroupWires, groups))]
  }

  lemma BodyTyped(reqUserId: UInt32, groups: seq<GroupInfo>)
    ensures Typed(BODY_LAYOUT, BodyWires(reqUserId, groups)) && Solid(BODY_LAYOUT)
  {
    forall group: GroupInfo ensures Typed(GROUP_LAYOUT, GroupWires(group)) {
      GroupTyped(group);
    }
    hide GroupWires;
    RowsTyped(GROUP_LAYOUT, GroupWires, groups);
  }

  lemma BodySize(reqUserId: UInt32, groups: seq<GroupInfo>)
    ensures Size(BodyWires(reqUserId, groups)) ==
            8 + |EncodeRows(Rows(GroupWires, groups))|
  {
    SizeSnoc();
    assert BodyWires(reqUserId, groups) ==
           [U32(reqUserId)] + [Arr(Rows(GroupWires, groups))];
  }

  /** Where header, records and attach data are in a message. */
  lemma MessageSits(d: Bytes, reqUserId: UInt32, groups: seq<GroupInfo>, base: BaseTeamTalkPdu)
    requires var ws := BodyWires(reqUserId, groups) + base.AttachWires(); Sits(d, 0, ws) && Size(ws) < TWO_32
    ensures
      && WordAt(d, 0, reqUserId)
      && WordAt(d, 4, |groups|)
      && (forall i | 0 <= i < |groups| :: GroupAt(d, 8 + Sum(GroupBytes, groups[..i]), groups[i]))
      && (base.attachDataType != NullType ==> TextAt(d, 8 + Sum(GroupBytes, groups), base.attachData))
  {
    hide *;
    AttachSits(d, BodyWires(reqUserId, groups), base);
    BodySits(d, reqUserId, groups);
    BodyBytes(reqUserId, groups);
  }

  lemma BodyBytes(reqUserId: UInt32, groups: seq<GroupInfo>)
    ensures Size(BodyWires(reqUserId, groups)) == 8 + Sum(GroupBytes, groups)
  {
    hide *;
    BodySize(reqUserId, groups);
    forall group: GroupInfo ensures Size(GroupWires(group)) == GroupBytes(group) {
      GroupSize(group);
    }
    RowsSize(GroupWires, GroupBytes, groups);
  }

  lemma BodySits(d: Bytes, reqUserId: UInt32, groups: seq<GroupInfo>)
    requires Sits(d, 0, BodyWires(reqUserId, groups)) && Size(BodyWires(reqUserId, groups)) < TWO_32
    ensures
      && WordAt(d, 0, reqUserId)
      && WordAt(d, 4, |groups|)
      && (forall i | 0 <= i < |groups| :: GroupAt(d, 8 + Sum(GroupBytes, groups[..i]), groups[i]))
  {
    hide Encode, EncodeRows, EncodeOne, Rows, Offset, Sits, ItemSits, WordAt, TextAt, GroupAt, GroupWires, Sum;
    hide GroupBytes;
    var ws := BodyWires(reqUserId, groups);
    ItemsSit(d, 0, ws);
    assert ws[0] == U32(reqUserId) && ws[1] == Arr(Rows(GroupWires, groups));
    WordSits(d, 0, reqUserId);
    forall group: GroupInfo ensures Size(GroupWires(group)) == GroupBytes(group) > 0 {
      GroupSize(group);
    }
    RowsSit(d, 4, GroupWires, GroupBytes, groups);
    forall i | 0 <= i < |groups| ensures GroupAt(d, 8 + Sum(GroupBytes, groups[..i]), groups[i]) {
      GroupSits(d, 8 + Sum(GroupBytes, groups[..i]), groups[i]);
    }
  }

  class GroupDialogListResponse {
    const base: BaseTeamTalkPdu
    var reqUserId: UInt32
    var groupList: seq<GroupInfo>

    constructor ()
      ensures groupList == [] && fresh(base)
      ensures base.attachDataType == DbType && base.attachData == []
    {
      base := new BaseTeamTalkPdu(DbType);
      groupList := [];
      reqUserId := *;
    }

    /** The whole message on the wire, leaving out the first `k` elements of the list. */
    ghost function WiresFrom(k: nat): seq<Wire>
      requires k <= |groupList|
      reads this, base
    {
      BodyWires(reqUserId, groupList[k..]) + base.AttachWires()
    }

    ghost function Wires(): seq<Wire>
      reads this, base
    {
      WiresFrom(0)
    }

    function PduLayout(): Layout {
      BODY_LAYOUT + base.AttachLayout()
    }

    method ByteSize() returns (size: UInt32)
      ensures size == Low32(Size(Wires()))
    {
      hide Size, SizeOne, Rows, GroupWires, Encode, EncodeRows, EncodeOne, Low32;
      size := base.ByteSize();
      Low32Add(4, Size(base.AttachWires()));
      size := Low32(size + 4);
      Low32Add(4, Size(base.AttachWires()) + 4);
      size := Low32(size + 4);
      ghost var start: nat := Size(base.AttachWires()) + 8;
      assert groupList[..0] == [];
      NoRowsWritten([]);
      assert Rows(GroupWires, groupList[..0]) == [];
      for i := 0 to |groupList|
        invariant size == Low32(start + |EncodeRows(Rows(GroupWires, groupList[..i]))|)
      {
        GroupSizeExact(groupList[i]);
        ListSizeStep(GroupWires, groupList, i, start, GroupByteSize(groupList[i]));
        size := Low32(size + GroupByteSize(groupList[i]));
      }
      assert groupList[..|groupList|] == groupList == groupList[0..];
      BodySize(reqUserId, groupList);
      SizeConcat(BodyWires(reqUserId, groupList), base.AttachWires());
    }

    method ParseFromByteStream(reader: ByteReader) returns (result: bool)
      requires reader.Valid()
      modifies this, reader
      ensures old(groupList) <= groupList
      ensures reader.Took(BODY_LAYOUT, BodyWires(reqUserId, groupList[|old(groupList)|..]))
      ensures result == !reader.fail
    {
      hide Decode, DecodeOne, DecodeRows, Run, Outcome, Rows, CountAhead;
      hide ByteReader.Valid, ByteReader.Rest, ByteReader.Kept;
      reqUserId := reader.ReadWord(reqUserId);
      groupList := ParseGroups(reader, groupList);
      result := !reader.fail;
    }

    method SerializeToByteStream(writer: ByteWriter) returns (result: bool)
      requires writer.Valid()
      modifies writer, writer.data
      ensures writer.Sends(BodyWires(reqUserId, groupList)) && result == !writer.fail
    {
      hide Encode, EncodeOne, EncodeRows, Size, Rows;
      writer.WriteWord(reqUserId);
      SerializeGroups(writer, groupList);
      result := !writer.fail;
    }

    method ParseFromArray(data: array<Byte>, dataLen: UInt32) returns (result: bool)
      requires dataLen <= data.Length
      modifies this, base
      ensures old(groupList) <= groupList
      ensures match Decode(PduLayout(), data[..dataLen])
              case Fail => !result
              case Done(ws, _) => result && ws == WiresFrom(|old(groupList)|)
      ensures result ==>
                var d, groups := data[..dataLen], groupList[|old(groupList)|..];
                && WordAt(d, 0, reqUserId)
                && WordAt(d, 4, |groups|)
                && (forall i | 0 <= i < |groups| :: GroupAt(d, 8 + Sum(GroupBytes, groups[..i]), groups[i]))
                && (base.attachDataType != NullType ==> TextAt(d, 8 + Sum(GroupBytes, groups), base.attachData))
    {
      hide Decode, DecodeOne, DecodeRows, Rows;
      hide Sits, WordAt, TextAt, GroupAt, Sum;
      var reader := new ByteReader(data, dataLen);
      result := ParseFromByteStream(reader);
      assert reader.layout == BODY_LAYOUT;
      result := base.ParseAttachData(reader, result);
      if result {
        AcceptedSits(PduLayout(), data[..dataLen]);
        assert Decode(PduLayout(), data[..dataLen]).value == WiresFrom(|old(groupList)|);
        MessageSits(data[..dataLen], reqUserId, groupList[|old(groupList)|..], base);
      }
    }

    method SerializeToArray(data: array<Byte>, dataLen: UInt32) returns (result: bool)
      requires dataLen <= data.Length
      modifies data
      ensures result <==> Size(Wires()) <= dataLen
      ensures result ==> data[..] == Encode(Wires()) + old(data[Size(Wires())..])
      ensures data[dataLen..] == old(data[dataLen..])
      ensures result ==>
                var d, groups := data[..], groupList;
                && WordAt(d, 0, reqUserId)
                && WordAt(d, 4, |groups|)
                && (forall i | 0 <= i < |groups| :: GroupAt(d, 8 + Sum(GroupBytes, groups[..i]), groups[i]))
                && (base.attachDataType != NullType ==> TextAt(d, 8 + Sum(GroupBytes, groups), base.attachData))
    {
      hide Encode, EncodeOne, EncodeRows, Size, Rows;
      hide Sits, WordAt, TextAt, GroupAt, Sum;
      var writer := new ByteWriter(data, dataLen);
      result := SerializeToByteStream(writer);
      assert writer.sent == BodyWires(reqUserId, groupList) && groupList[0..] == groupList;
      result := base.SerializeAttachData(writer, result);
      writer.Written();
      if result {
        WrittenSits(Wires(), old(data[Size(Wires())..]));
        MessageSits(data[..], reqUserId, groupList, base);
      }
    }
  }

  /** Serialising into a buffer of `dataLen` bytes and parsing those bytes into a new object works
      exactly when the message fits, and then every field comes back. */
  method RoundTrip(msg: GroupDialogListResponse, dataLen: UInt32) returns (ok: bool, copy: GroupDialogListResponse)
    requires msg.base.attachDataType == DbType
    ensures ok <==> Size(msg.Wires()) <= dataLen
    ensures ok ==> copy.reqUserId == msg.reqUserId
    ensures ok ==> copy.base.attachData == msg.base.attachData
    ensures ok ==> copy.groupList == msg.groupList
  {
    hide Decode, Encode, EncodeOne, EncodeRows, DecodeOne, DecodeRows, Rows, Typed, Solid;
    hide Sum, GroupAt, WordAt, TextAt;
    var buffer := new Byte[dataLen](_ => 0);
    ok := msg.SerializeToArray(buffer, dataLen);
    copy := new GroupDialogListResponse();
    if ok {
      ghost var sent := msg.Wires();
      var parsed := copy.ParseFromArray(buffer, dataLen);
      ghost var body := BodyWires(msg.reqUserId, msg.groupList[0..]);
      BodyTyped(msg.reqUserId, msg.groupList[0..]);
      PduRoundTrip(BODY_LAYOUT, body, msg.base, buffer[Size(sent)..]);
      assert buffer[..] == buffer[..dataLen] == Encode(sent) + buffer[Size(sent)..];
      assert parsed && copy.Wires() == sent;
      SameWires(copy, msg);
    }
  }

  /** A buffer of exactly `ByteSize()` bytes takes the message if and only if its true size does not wrap
      in 32 bits. */
  method ToBuffer(msg: GroupDialogListResponse) returns (ok: bool, buffer: array<Byte>)
    ensures ok <==> Size(msg.Wires()) < TWO_32
    ensures ok ==> buffer[..] == Encode(msg.Wires())
  {
    hide Encode, EncodeOne, EncodeRows, Rows;
    hide Sum, GroupAt, WordAt, TextAt;
    var size := msg.ByteSize();
    ByteSizeSuffices(msg.Wires());
    buffer := new Byte[size](_ => 0);
    ok := msg.SerializeToArray(buffer, size);
    if ok {
      assert buffer[..] == Encode(msg.Wires()) + [];
    }
  }

  /** Whatever bytes are accepted, serialising what was parsed from them reproduces the bytes that the
      parse consumed. */
  method Reserialize(data: array<Byte>, dataLen: UInt32)
    returns (accepted: bool, ok: bool, copy: GroupDialogListResponse, buffer: array<Byte>)
    requires dataLen <= data.Length
    ensures accepted <==> Decode(BODY_LAYOUT + [Text], data[..dataLen]).Done?
    ensures accepted ==> ok && buffer.Length <= dataLen && buffer[..] == data[..buffer.Length]
    ensures accepted ==> Decode(BODY_LAYOUT + [Text], data[..dataLen]) ==
                         Done(copy.Wires(), data[buffer.Length..dataLen])
  {
    hide Decode, Encode, EncodeOne, EncodeRows, DecodeOne, DecodeRows, Rows, Typed, Solid, Fits;
    hide Sum, GroupAt, WordAt, TextAt;
    copy := new GroupDialogListResponse();
    accepted := copy.ParseFromArray(data, dataLen);
    ok, buffer := ToBuffer(copy);
    if accepted {
      EncodeDecode(BODY_LAYOUT + [Text], data[..dataLen]);
      var Done(ws, rest) := Decode(BODY_LAYOUT + [Text], data[..dataLen]);
      assert ws == copy.Wires() && data[..dataLen] == Encode(ws) + rest;
    }
  }

  lemma SameWires(x: GroupDialogListResponse, y: GroupDialogListResponse)
    requires x.base.attachDataType == y.base.attachDataType == DbType && x.Wires() == y.Wires()
    ensures x.reqUserId == y.reqUserId
    ensures x.base.attachData == y.base.attachData
    ensures |x.groupList| == |y.groupList|
    ensures forall i | 0 <= i < |x.groupList| :: x.groupList[i] == y.groupList[i]
  {
    hide GroupWires;
    var u, v := x.Wires(), y.Wires();
    assert u[0] == v[0] && u[1] == v[1] && u[2] == v[2];
    assert x.groupList[0..] == x.groupList && y.groupList[0..] == y.groupList;
    forall i | 0 <= i < |x.groupList| ensures x.groupList[i] == y.groupList[i] {
      assert Rows(GroupWires, x.groupList)[i] == Rows(GroupWires, y.groupList)[i];
      GroupWiresDetermine(x.groupList[i], y.groupList[i]);
    }
  }
}
