/** UsersInfoResponse: a list of users.  `userUpdated` is not on the wire. */
module UsersInfo {
  import opened WireFormat
  import opened RawBytes
  import opened ByteStreams
  import opened TeamTalkPdu
  import opened BaseData

  // ----- one user

  const USER_LAYOUT: Layout := [Word, Text, Text, Text, Text, Text, Word, Word, Word, Word, Text, Text]

  ghost function UserWires(user: UserInfo): seq<Wire> {
    [U32(user.userId), Str(user.name), Str(user.nickName), Str(user.avatarUrl), Str(user.title),
     Str(user.position), U32(user.roleStatus), U32(user.sex), U32(user.departId), U32(user.jobNum),
     Str(user.telphone), Str(user.email)]
  }

  lemma UserTyped(user: UserInfo)
    ensures Typed(USER_LAYOUT, UserWires(user))
  {
  }

  /** What survives the wire: fields that are not sent come back zero-initialised. */
  function Carried(user: UserInfo): UserInfo {
    user.(userUpdated := 0)
  }

  lemma UserWiresDetermine(x: UserInfo, y: UserInfo)
    ensures UserWires(x) == UserWires(y) <==> Carried(x) == Carried(y)
  {
    var u, v := UserWires(x), UserWires(y);
    if u == v {
      assert u[0] == v[0] && u[1] == v[1] && u[2] == v[2] && u[3] == v[3] && u[4] == v[4] && u[5] == v[5] &&
             u[6] == v[6] && u[7] == v[7] && u[8] == v[8] && u[9] == v[9] && u[10] == v[10] && u[11] == v[11];
    }
  }

  function UserByteSize(user: UserInfo): UInt32 {
    Low32(4 + (4 + |user.name|) + (4 + |user.nickName|) + (4 + |user.avatarUrl|) + (4 + |user.title|) +
          (4 + |user.position|) + 4 + 4 + 4 + 4 + (4 + |user.telphone|) + (4 + |user.email|))
  }

  lemma UserSizeExact(user: UserInfo)
    ensures UserByteSize(user) == Low32(Size(UserWires(user)))
  {
    hide Size, UserWires;
    UserSize(user);
  }

  /** The bytes that a record takes, and where its fields are among them. */
  function UserBytes(user: UserInfo): nat {
    48 + |user.name| + |user.nickName| + |user.avatarUrl| + |user.title| + |user.position| + |user.telphone| +
    |user.email|
  }

  predicate UserAt(d: Bytes, p: nat, user: UserInfo) {
    var q := p + 20 + |user.name| + |user.nickName| + |user.avatarUrl| + |user.title|;
    && WordAt(d, p, user.userId)
    && TextAt(d, p + 4, user.name)
    && TextAt(d, p + 8 + |user.name|, user.nickName)
    && TextAt(d, p + 12 + |user.name| + |user.nickName|, user.avatarUrl)
    && TextAt(d, p + 16 + |user.name| + |user.nickName| + |user.avatarUrl|, user.title)
    && TextAt(d, q, user.position)
    && WordAt(d, q + 4 + |user.position|, user.roleStatus)
    && WordAt(d, q + 8 + |user.position|, user.sex)
    && WordAt(d, q + 12 + |user.position|, user.departId)
    && WordAt(d, q + 16 + |user.position|, user.jobNum)
    && TextAt(d, q + 20 + |user.position|, user.telphone)
    && TextAt(d, q + 24 + |user.position| + |user.telphone|, user.email)
  }

  /** The fields up to the position, and those behind it. */
  ghost function UserFront(user: UserInfo): seq<Wire> {
    [U32(user.userId), Str(user.name), Str(user.nickName), Str(user.avatarUrl), Str(user.title),
     Str(user.position)]
  }

  ghost function UserBack(user: UserInfo): seq<Wire> {
    [U32(user.roleStatus), U32(user.sex), U32(user.departId), U32(user.jobNum), Str(user.telphone),
     Str(user.email)]
  }

  lemma FrontSize(user: UserInfo)
    ensures Size(UserFront(user)) ==
            24 + |user.name| + |user.nickName| + |user.avatarUrl| + |user.title| + |user.position|
  {
    hide Size, Encode, EncodeRows, Low32;
    SizeSnoc();
    assert UserFront(user) ==
           [U32(user.userId)] + [Str(user.name)] + [Str(user.nickName)] + [Str(user.avatarUrl)] +
           [Str(user.title)] + [Str(user.position)];
  }

  lemma BackSize(user: UserInfo)
    ensures Size(UserBack(user)) == 24 + |user.telphone| + |user.email|
  {
    hide Size, Encode, EncodeRows, Low32;
    SizeSnoc();
    assert UserBack(user) ==
           [U32(user.roleStatus)] + [U32(user.sex)] + [U32(user.departId)] + [U32(user.jobNum)] +
           [Str(user.telphone)] + [Str(user.email)];
  }

  lemma UserSize(user: UserInfo)
    ensures Size(UserWires(user)) == UserBytes(user) > 0
  {
    hide Size, Encode, Low32;
    FrontSize(user);
    BackSize(user);
    assert UserWires(user) == UserFront(user) + UserBack(user);
    SizeConcat(UserFront(user), UserBack(user));
  }

  lemma FrontFields(d: Bytes, p: nat, user: UserInfo)
    requires Sits(d, p, UserFront(user)) && UserBytes(user) < TWO_32
    ensures
      && WordAt(d, p, user.userId)
      && TextAt(d, p + 4, user.name)
      && TextAt(d, p + 8 + |user.name|, user.nickName)
      && TextAt(d, p + 12 + |user.name| + |user.nickName|, user.avatarUrl)
      && TextAt(d, p + 16 + |user.name| + |user.nickName| + |user.avatarUrl|, user.title)
      && TextAt(d, p + 20 + |user.name| + |user.nickName| + |user.avatarUrl| + |user.title|, user.position)
  {
    hide Encode, EncodeRows, EncodeOne, Offset, Sits, ItemSits, WordAt, TextAt;
    var ws := UserFront(user);
    ItemsSit(d, p, ws);
    assert ws[0] == U32(user.userId) && ws[1] == Str(user.name) && ws[2] == Str(user.nickName) &&
           ws[3] == Str(user.avatarUrl) && ws[4] == Str(user.title) && ws[5] == Str(user.position);
    WordSits(d, p, user.userId);
    TextSits(d, p + 4, user.name);
    TextSits(d, p + 8 + |user.name|, user.nickName);
    TextSits(d, p + 12 + |user.name| + |user.nickName|, user.avatarUrl);
    TextSits(d, p + 16 + |user.name| + |user.nickName| + |user.avatarUrl|, user.title);
    TextSits(d, p + 20 + |user.name| + |user.nickName| + |user.avatarUrl| + |user.title|, user.position);
  }

  lemma BackFields(d: Bytes, p: nat, user: UserInfo)
    requires Sits(d, p, UserBack(user)) && UserBytes(user) < TWO_32
    ensures
      && WordAt(d, p, user.roleStatus)
      && WordAt(d, p + 4, user.sex)
      && WordAt(d, p + 8, user.departId)
      && WordAt(d, p + 12, user.jobNum)
      && TextAt(d, p + 16, user.telphone)
      && TextAt(d, p + 20 + |user.telphone|, user.email)
  {
    hide Encode, EncodeRows, EncodeOne, Offset, Sits, ItemSits, WordAt, TextAt;
    var ws := UserBack(user);
    ItemsSit(d, p, ws);
    assert ws[0] == U32(user.roleStatus) && ws[1] == U32(user.sex) && ws[2] == U32(user.departId) &&
           ws[3] == U32(user.jobNum) && ws[4] == Str(user.telphone) && ws[5] == Str(user.email);
    WordSits(d, p, user.roleStatus);
    WordSits(d, p + 4, user.sex);
    WordSits(d, p + 8, user.departId);
    WordSits(d, p + 12, user.jobNum);
    TextSits(d, p + 16, user.telphone);
    TextSits(d, p + 20 + |user.telphone|, user.email);
  }

  /** Where an encoded record starts, these are its bytes. */
  lemma UserFields(d: Bytes, p: nat, user: UserInfo)
    requires Sits(d, p, UserWires(user)) && UserBytes(user) < TWO_32
    ensures
      var q := p + 20 + |user.name| + |user.nickName| + |user.avatarUrl| + |user.title|;
      && WordAt(d, p, user.userId)
      && TextAt(d, p + 4, user.name)
      && TextAt(d, p + 8 + |user.name|, user.nickName)
      && TextAt(d, p + 12 + |user.name| + |user.nickName|, user.avatarUrl)
      && TextAt(d, p + 16 + |user.name| + |user.nickName| + |user.avatarUrl|, user.title)
      && TextAt(d, q, user.position)
      && WordAt(d, q + 4 + |user.position|, user.roleStatus)
      && WordAt(d, q + 8 + |user.position|, user.sex)
      && WordAt(d, q + 12 + |user.position|, user.departId)
      && WordAt(d, q + 16 + |user.position|, user.jobNum)
      && TextAt(d, q + 20 + |user.position|, user.telphone)
      && TextAt(d, q + 24 + |user.position| + |user.telphone|, user.email)
  {
    hide Encode, Sits, WordAt, TextAt, Size;
    assert UserWires(user) == UserFront(user) + UserBack(user);
    SitsBoth(d, p, UserFront(user), UserBack(user));
    FrontSize(user);
    FrontFields(d, p, user);
    BackFields(d, p + 24 + |user.name| + |user.nickName| + |user.avatarUrl| + |user.title| + |user.position|, user);
  }

  lemma UserSits(d: Bytes, p: nat, user: UserInfo)
    requires Sits(d, p, UserWires(user)) && UserBytes(user) < TWO_32
    ensures UserAt(d, p, user)
  {
    hide WordAt, TextAt, Sits;
    UserFields(d, p, user);
  }

  method ParseUser(reader: ByteReader) returns (user: UserInfo, result: bool)
    requires reader.Valid()
    modifies reader
    ensures reader.Took(USER_LAYOUT, UserWires(user)) && result == !reader.fail
    ensures result ==>
              UserAt(reader.input, old(reader.pos), user) && reader.pos == old(reader.pos) + UserBytes(user)
    ensures user.userUpdated == 0
  {
    hide Decode, DecodeOne, DecodeRows, Run, Outcome;
    hide WordAt, TextAt, UserAt, UserBytes, Sits;
    hide ByteReader.Valid, ByteReader.Rest, ByteReader.Kept;
    reader.Standing();
    ghost var l, s, p, r0 := reader.layout, reader.seen, reader.pos, reader.Rest();
    var userId := reader.ReadWord(0);
    var name := reader.ReadString([]);
    var nickName := reader.ReadString([]);
    var avatarUrl := reader.ReadString([]);
    var title := reader.ReadString([]);
    var position := reader.ReadString([]);
    var roleStatus := reader.ReadWord(0);
    var sex := reader.ReadWord(0);
    var departId := reader.ReadWord(0);
    var jobNum := reader.ReadWord(0);
    var telphone := reader.ReadString([]);
    var email := reader.ReadString([]);
    user := UserInfo(
      userId, name, nickName, avatarUrl, title, position, roleStatus, sex, departId, jobNum, telphone, email, 0);
    AppendTwelve(old(reader.layout), Word, Text, Text, Text, Text, Text, Word, Word, Word, Word, Text, Text);
    AppendTwelve(
      old(reader.seen), U32(userId), Str(name), Str(nickName), Str(avatarUrl), Str(title), Str(position),
      U32(roleStatus), U32(sex), U32(departId), U32(jobNum), Str(telphone), Str(email));
    assert reader.layout == old(reader.layout) + USER_LAYOUT;
    assert reader.seen == old(reader.seen) + UserWires(user);
    result := !reader.fail;
    if result {
      UserSize(user);
      reader.SeenSits(l, s, p, r0, USER_LAYOUT, UserWires(user));
      UserSits(reader.input, p, user);
    }
  }

  method SerializeUser(user: UserInfo, writer: ByteWriter) returns (result: bool)
    requires writer.Valid()
    modifies writer, writer.data
    ensures writer.Sends(UserWires(user)) && result == !writer.fail
    ensures result ==>
              UserAt(writer.data[..], old(writer.pos), user) && writer.pos == old(writer.pos) + UserBytes(user)
  {
    hide Encode, EncodeOne, EncodeRows, Size, ByteWriter.Valid;
    hide WordAt, TextAt, UserAt, UserBytes, Sits;
    writer.Standing();
    ghost var s, p := writer.sent, writer.pos;
    writer.WriteWord(user.userId);
    writer.WriteString(user.name);
    writer.WriteString(user.nickName);
    writer.WriteString(user.avatarUrl);
    writer.WriteString(user.title);
    writer.WriteString(user.position);
    writer.WriteWord(user.roleStatus);
    writer.WriteWord(user.sex);
    writer.WriteWord(user.departId);
    writer.WriteWord(user.jobNum);
    writer.WriteString(user.telphone);
    writer.WriteString(user.email);
    AppendTwelve(
      old(writer.sent), U32(user.userId), Str(user.name), Str(user.nickName), Str(user.avatarUrl),
      Str(user.title), Str(user.position), U32(user.roleStatus), U32(user.sex), U32(user.departId),
      U32(user.jobNum), Str(user.telphone), Str(user.email));
    assert writer.sent == old(writer.sent) + UserWires(user);
    result := !writer.fail;
    if result {
      UserSize(user);
      writer.SentSits(s, p, UserWires(user));
      UserSits(writer.data[..], p, user);
    }
  }

  // ----- the list

  method ParseUsers(reader: ByteReader, target: seq<UserInfo>) returns (users: seq<UserInfo>)
    requires reader.Valid()
    modifies reader
    ensures |users| == |target| + CountAhead(old(reader.Rest())) && target <= users
    ensures reader.Took([List(USER_LAYOUT)], [Arr(Rows(UserWires, users[|target|..]))])
    ensures forall i | |target| <= i < |users| :: users[i] == Carried(users[i])
  {
    hide Decode, DecodeRows, DecodeOne, TakeWord;
    ghost var o, l, s, r0 := reader.origin, reader.layout, reader.seen, reader.Rest();
    users := target;
    reader.Begin();
    var n := reader.ReadWord(0);
    reader.Whole([Word], [U32(n)]);
    ghost var r1 := reader.Rest();
    CountSeen(r0, n, r1);
    ghost var rows := [];
    NoRows(USER_LAYOUT, r1);
    for i := 0 to n
      invariant reader.Valid() && |users| == |target| + i && target <= users
      invariant forall j | |target| <= j < |users| :: users[j] == Carried(users[j])
      invariant rows == Rows(UserWires, users[|target|..])
      invariant RunRows(USER_LAYOUT, i, r1) == Outcome(rows, reader.Rest())
    {
      ghost var before, mid := users[|target|..], reader.Rest();
      reader.Begin();
      var user, _ := ParseUser(reader);
      users := users + [user];
      reader.Whole(USER_LAYOUT, UserWires(user));
      RowRead(USER_LAYOUT, r1, rows, mid, UserWires(user), reader.Rest());
      rows := rows + [Row(UserWires(user))];
      assert users[|target|..] == before + [user];
      RowsSnoc(UserWires, before, user);
    }
    reader.EndList(o, l, s, r0, r1, USER_LAYOUT, rows);
  }

  method SerializeUsers(writer: ByteWriter, users: seq<UserInfo>)
    requires writer.Valid()
    modifies writer, writer.data
    ensures writer.Sends([Arr(Rows(UserWires, users))])
  {
    hide Encode, EncodeRows, EncodeOne;
    ghost var before := writer.sent;
    writer.WriteWord(Low32(|users|));
    ghost var head := Encode(writer.sent);
    NoRowsWritten(head);
    for i := 0 to |users|
      invariant writer.Valid()
      invariant Encode(writer.sent) == head + EncodeRows(Rows(UserWires, users[..i]))
    {
      RowWritten(head, Rows(UserWires, users[..i]), writer.sent, UserWires(users[i]));
      var _ := SerializeUser(users[i], writer);
      assert users[..i + 1] == users[..i] + [users[i]];
      RowsSnoc(UserWires, users[..i], users[i]);
    }
    assert users[..|users|] == users;
    writer.FoldList(before, Rows(UserWires, users));
  }

  // ----- the message

  const BODY_LAYOUT: Layout := [Word, List(USER_LAYOUT)]

  ghost function BodyWires(fromUserId: UInt32, users: seq<UserInfo>)
    : seq<Wire>
  {
    [U32(fromUserId), Arr(Rows(UserWires, users))]
  }

  lemma BodyTyped(fromUserId: UInt32, users: seq<UserInfo>)
    ensures Typed(BODY_LAYOUT, BodyWires(fromUserId, users)) && Solid(BODY_LAYOUT)
  {
    forall user: UserInfo ensures Typed(USER_LAYOUT, UserWires(user)) {
      UserTyped(user);
    }
    hide UserWires;
    RowsTyped(USER_LAYOUT, UserWires, users);
  }

  lemma BodySize(fromUserId: UInt32, users: seq<UserInfo>)
    ensures Size(BodyWires(fromUserId, users)) ==
            8 + |EncodeRows(Rows(UserWires, users))|
  {
    SizeSnoc();
    assert BodyWires(fromUserId, users) ==
           [U32(fromUserId)] + [Arr(Rows(UserWires, users))];
  }

  /** Where header, records and attach data are in a message. */
  lemma MessageSits(d: Bytes, fromUserId: UInt32, users: seq<UserInfo>, base: BaseTeamTalkPdu)
    requires var ws := BodyWires(fromUserId, users) + base.AttachWires(); Sits(d, 0, ws) && Size(ws) < TWO_32
    ensures
      && WordAt(d, 0, fromUserId)
      && WordAt(d, 4, |users|)
      && (forall i | 0 <= i < |users| :: UserAt(d, 8 + Sum(UserBytes, users[..i]), users[i]))
      && (base.attachDataType != NullType ==> TextAt(d, 8 + Sum(UserBytes, users), base.attachData))
  {
    hide *;
    AttachSits(d, BodyWires(fromUserId, users), base);
    BodySits(d, fromUserId, users);
    BodyBytes(fromUserId, users);
  }

  lemma BodyBytes(fromUserId: UInt32, users: seq<UserInfo>)
    ensures Size(BodyWires(fromUserId, users)) == 8 + Sum(UserBytes, users)
  {
    hide *;
    BodySize(fromUserId, users);
    forall user: UserInfo ensures Size(UserWires(user)) == UserBytes(user) {
      UserSize(user);
    }
    RowsSize(UserWires, UserBytes, users);
  }

  lemma BodySits(d: Bytes, fromUserId: UInt32, users: seq<UserInfo>)
    requires Sits(d, 0, BodyWires(fromUserId, users)) && Size(BodyWires(fromUserId, users)) < TWO_32
    ensures
      && WordAt(d, 0, fromUserId)
      && WordAt(d, 4, |users|)
      && (forall i | 0 <= i < |users| :: UserAt(d, 8 + Sum(UserBytes, users[..i]), users[i]))
  {
    hide Encode, EncodeRows, EncodeOne, Rows, Offset, Sits, ItemSits, WordAt, TextAt, UserAt, UserWires, Sum;
    hide UserBytes;
    var ws := BodyWires(fromUserId, users);
    ItemsSit(d, 0, ws);
    assert ws[0] == U32(fromUserId) && ws[1] == Arr(Rows(UserWires, users));
    WordSits(d, 0, fromUserId);
    forall user: UserInfo ensures Size(UserWires(user)) == UserBytes(user) > 0 {
      UserSize(user);
    }
    RowsSit(d, 4, UserWires, UserBytes, users);
    forall i | 0 <= i < |users| ensures UserAt(d, 8 + Sum(UserBytes, users[..i]), users[i]) {
      UserSits(d, 8 + Sum(UserBytes, users[..i]), users[i]);
    }
  }

  class UsersInfoResponse {
    const base: BaseTeamTalkPdu
    var fromUserId: UInt32
    var userInfoList: seq<UserInfo>

    constructor ()
      ensures userInfoList == [] && fresh(base)
      ensures base.attachDataType == DbType && base.attachData == []
    {
      base := new BaseTeamTalkPdu(DbType);
      userInfoList := [];
      fromUserId := *;
    }

    /** The whole message on the wire, leaving out the first `k` elements of the list. */
    ghost function WiresFrom(k: nat): seq<Wire>
      requires k <= |userInfoList|
      reads this, base
    {
      BodyWires(fromUserId, userInfoList[k..]) + base.AttachWires()
    }

    ghost function Wires(): seq<Wire>
      reads this, base
    {
      WiresFrom(0)
    }

    function PduLayout(): Layout {
      BODY_LAYOUT + base.AttachLayout()
    }

    method ByteSize() returns (size: UInt32)
      ensures size == Low32(Size(Wires()))
    {
      hide Size, SizeOne, Rows, UserWires, Encode, EncodeRows, EncodeOne, Low32;
      size := base.ByteSize();
      Low32Add(4, Size(base.AttachWires()));
      size := Low32(size + 4);
      Low32Add(4, Size(base.AttachWires()) + 4);
      size := Low32(size + 4);
      ghost var start: nat := Size(base.AttachWires()) + 8;
      assert userInfoList[..0] == [];
      NoRowsWritten([]);
      assert Rows(UserWires, userInfoList[..0]) == [];
      for i := 0 to |userInfoList|
        invariant size == Low32(start + |EncodeRows(Rows(UserWires, userInfoList[..i]))|)
      {
        UserSizeExact(userInfoList[i]);
        ListSizeStep(UserWires, userInfoList, i, start, UserByteSize(userInfoList[i]));
        size := Low32(size + UserByteSize(userInfoList[i]));
      }
      assert userInfoList[..|userInfoList|] == userInfoList == userInfoList[0..];
      BodySize(fromUserId, userInfoList);
      SizeConcat(BodyWires(fromUserId, userInfoList), base.AttachWires());
    }

    method ParseFromByteStream(reader: ByteReader) returns (result: bool)
      requires reader.Valid()
      modifies this, reader
      ensures old(userInfoList) <= userInfoList
      ensures reader.Took(BODY_LAYOUT, BodyWires(fromUserId, userInfoList[|old(userInfoList)|..]))
      ensures result == !reader.fail
      ensures forall i | |old(userInfoList)| <= i < |userInfoList| :: userInfoList[i] == Carried(userInfoList[i])
    {
      hide Decode, DecodeOne, DecodeRows, Run, Outcome, Rows, CountAhead;
      hide ByteReader.Valid, ByteReader.Rest, ByteReader.Kept;
      fromUserId := reader.ReadWord(fromUserId);
      userInfoList := ParseUsers(reader, userInfoList);
      result := !reader.fail;
    }

    method SerializeToByteStream(writer: ByteWriter) returns (result: bool)
      requires writer.Valid()
      modifies writer, writer.data
      ensures writer.Sends(BodyWires(fromUserId, userInfoList)) && result == !writer.fail
    {
      hide Encode, EncodeOne, EncodeRows, Size, Rows;
      writer.WriteWord(fromUserId);
      SerializeUsers(writer, userInfoList);
      result := !writer.fail;
    }

    method ParseFromArray(data: array<Byte>, dataLen: UInt32) returns (result: bool)
      requires dataLen <= data.Length
      modifies this, base
      ensures old(userInfoList) <= userInfoList
      ensures forall i | |old(userInfoList)| <= i < |userInfoList| :: userInfoList[i] == Carried(userInfoList[i])
      ensures match Decode(PduLayout(), data[..dataLen])
              case Fail => !result
              case Done(ws, _) => result && ws == WiresFrom(|old(userInfoList)|)
      ensures result ==>
                var d, users := data[..dataLen], userInfoList[|old(userInfoList)|..];
                && WordAt(d, 0, fromUserId)
                && WordAt(d, 4, |users|)
                && (forall i | 0 <= i < |users| :: UserAt(d, 8 + Sum(UserBytes, users[..i]), users[i]))
                && (base.attachDataType != NullType ==> TextAt(d, 8 + Sum(UserBytes, users), base.attachData))
    {
      hide Decode, DecodeOne, DecodeRows, Rows;
      hide Sits, WordAt, TextAt, UserAt, Sum;
      var reader := new ByteReader(data, dataLen);
      result := ParseFromByteStream(reader);
      assert reader.layout == BODY_LAYOUT;
      result := base.ParseAttachData(reader, result);
      if result {
        AcceptedSits(PduLayout(), data[..dataLen]);
        assert Decode(PduLayout(), data[..dataLen]).value == WiresFrom(|old(userInfoList)|);
        MessageSits(data[..dataLen], fromUserId, userInfoList[|old(userInfoList)|..], base);
      }
    }

    method SerializeToArray(data: array<Byte>, dataLen: UInt32) returns (result: bool)
      requires dataLen <= data.Length
      modifies data
      ensures result <==> Size(Wires()) <= dataLen
      ensures result ==> data[..] == Encode(Wires()) + old(data[Size(Wires())..])
      ensures data[dataLen..] == old(data[dataLen..])
      ensures result ==>
                var d, users := data[..], userInfoList;
                && WordAt(d, 0, fromUserId)
                && WordAt(d, 4, |users|)
                && (forall i | 0 <= i < |users| :: UserAt(d, 8 + Sum(UserBytes, users[..i]), users[i]))
                && (base.attachDataType != NullType ==> TextAt(d, 8 + Sum(UserBytes, users), base.attachData))
    {
      hide Encode, EncodeOne, EncodeRows, Size, Rows;
      hide Sits, WordAt, TextAt, UserAt, Sum;
      var writer := new ByteWriter(data, dataLen);
      result := SerializeToByteStream(writer);
      assert writer.sent == BodyWires(fromUserId, userInfoList) && userInfoList[0..] == userInfoList;
      result := base.SerializeAttachData(writer, result);
      writer.Written();
      if result {
        WrittenSits(Wires(), old(data[Size(Wires())..]));
        MessageSits(data[..], fromUserId, userInfoList, base);
      }
    }
  }

  /** Serialising into a buffer of `dataLen` bytes and parsing those bytes into a new object works
      exactly when the message fits, and then everything the wire carries comes back. */
  method RoundTrip(msg: UsersInfoResponse, dataLen: UInt32) returns (ok: bool, copy: UsersInfoResponse)
    requires msg.base.attachDataType == DbType
    ensures ok <==> Size(msg.Wires()) <= dataLen
    ensures ok ==> copy.fromUserId == msg.fromUserId
    ensures ok ==> copy.base.attachData == msg.base.attachData
    ensures ok ==> |copy.userInfoList| == |msg.userInfoList|
    ensures ok ==> forall i | 0 <= i < |msg.userInfoList| ::
                     copy.userInfoList[i] == msg.userInfoList[i].(userUpdated := 0)
  {
    hide Decode, Encode, EncodeOne, EncodeRows, DecodeOne, DecodeRows, Rows, Typed, Solid;
    hide Sum, UserAt, WordAt, TextAt;
    var buffer := new Byte[dataLen](_ => 0);
    ok := msg.SerializeToArray(buffer, dataLen);
    copy := new UsersInfoResponse();
    if ok {
      ghost var sent := msg.Wires();
      var parsed := copy.ParseFromArray(buffer, dataLen);
      ghost var body := BodyWires(msg.fromUserId, msg.userInfoList[0..]);
      BodyTyped(msg.fromUserId, msg.userInfoList[0..]);
      PduRoundTrip(BODY_LAYOUT, body, msg.base, buffer[Size(sent)..]);
      assert buffer[..] == buffer[..dataLen] == Encode(sent) + buffer[Size(sent)..];
      assert parsed && copy.Wires() == sent;
      SameWires(copy, msg);
    }
  }

  /** A buffer of exactly `ByteSize()` bytes takes the message if and only if its true size does not wrap
      in 32 bits. */
  method ToBuffer(msg: UsersInfoResponse) returns (ok: bool, buffer: array<Byte>)
    ensures ok <==> Size(msg.Wires()) < TWO_32
    ensures ok ==> buffer[..] == Encode(msg.Wires())
  {
    hide Encode, EncodeOne, EncodeRows, Rows;
    hide Sum, UserAt, WordAt, TextAt;
    var size := msg.ByteSize();
    ByteSizeSuffices(msg.Wires());
    buffer := new Byte[size](_ => 0);
    ok := msg.SerializeToArray(buffer, size);
    if ok {
      assert buffer[..] == Encode(msg.Wires()) + [];
    }
  }

  /** Whatever bytes are accepted, serialising what was parsed from them reproduces the bytes that the
      parse consumed. */
  method Reserialize(data: array<Byte>, dataLen: UInt32)
    returns (accepted: bool, ok: bool, copy: UsersInfoResponse, buffer: array<Byte>)
    requires dataLen <= data.Length
    ensures accepted <==> Decode(BODY_LAYOUT + [Text], data[..dataLen]).Done?
    ensures accepted ==> ok && buffer.Length <= dataLen && buffer[..] == data[..buffer.Length]
    ensures accepted ==> Decode(BODY_LAYOUT + [Text], data[..dataLen]) ==
                         Done(copy.Wires(), data[buffer.Length..dataLen])
  {
    hide Decode, Encode, EncodeOne, EncodeRows, DecodeOne, DecodeRows, Rows, Typed, Solid, Fits;
    hide Sum, UserAt, WordAt, TextAt;
    copy := new UsersInfoResponse();
    accepted := copy.ParseFromArray(data, dataLen);
    ok, buffer := ToBuffer(copy);
    if accepted {
      EncodeDecode(BODY_LAYOUT + [Text], data[..dataLen]);
      var Done(ws, rest) := Decode(BODY_LAYOUT + [Text], data[..dataLen]);
      assert ws == copy.Wires() && data[..dataLen] == Encode(ws) + rest;
    }
  }

  lemma SameWires(x: UsersInfoResponse, y: UsersInfoResponse)
    requires x.base.attachDataType == y.base.attachDataType == DbType && x.Wires() == y.Wires()
    ensures x.fromUserId == y.fromUserId
    ensures x.base.attachData == y.base.attachData
    ensures |x.userInfoList| == |y.userInfoList|
    ensures forall i | 0 <= i < |x.userInfoList| :: Carried(x.userInfoList[i]) == Carried(y.userInfoList[i])
  {
    hide UserWires;
    var u, v := x.Wires(), y.Wires();
    assert u[0] == v[0] && u[1] == v[1] && u[2] == v[2];
    assert x.userInfoList[0..] == x.userInfoList && y.userInfoList[0..] == y.userInfoList;
    forall i | 0 <= i < |x.userInfoList| ensures Carried(x.userInfoList[i]) == Carried(y.userInfoList[i]) {
      assert Rows(UserWires, x.userInfoList)[i] == Rows(UserWires, y.userInfoList)[i];
      UserWiresDetermine(x.userInfoList[i], y.userInfoList[i]);
    }
  }
}
