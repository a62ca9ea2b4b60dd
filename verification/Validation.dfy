/** ValidateResponse: a name, a result word, and a user that the serializer writes when the result is
    zero.  The parser in the repository tests the result the other way round; both senses are
    modelled, and what each gives is proved. */
module Validation {
  import opened WireFormat
  import opened RawBytes
  import opened ByteStreams
  import opened TeamTalkPdu
  import opened BaseData

  // ----- the user, sent without its name

  const USER_LAYOUT: Layout := [Word, Text, Text, Text, Text, Word, Word, Word, Word, Text, Text]

  ghost function UserWires(user: UserInfo): seq<Wire> {
    [U32(user.userId), Str(user.nickName), Str(user.avatarUrl), Str(user.title), Str(user.position),
     U32(user.roleStatus), U32(user.sex), U32(user.departId), U32(user.jobNum), Str(user.telphone),
     Str(user.email)]
  }

  lemma UserTyped(user: UserInfo)
    ensures Typed(USER_LAYOUT, UserWires(user))
  {
  }

  /** What survives the wire when the user is parsed into a new object. */
  function Carried(user: UserInfo): UserInfo {
    user.(name := [], userUpdated := 0)
  }

  lemma UserWiresDetermine(x: UserInfo, y: UserInfo)
    ensures UserWires(x) == UserWires(y) <==> Carried(x) == Carried(y)
  {
    var u, v := UserWires(x), UserWires(y);
    if u == v {
      assert u[0] == v[0] && u[1] == v[1] && u[2] == v[2] && u[3] == v[3] && u[4] == v[4] && u[5] == v[5] &&
             u[6] == v[6] && u[7] == v[7] && u[8] == v[8] && u[9] == v[9] && u[10] == v[10];
    }
  }

  function UserByteSize(user: UserInfo): UInt32 {
    Low32(4 + (4 + |user.nickName|) + (4 + |user.avatarUrl|) + (4 + |user.title|) + (4 + |user.position|) +
          4 + 4 + 4 + 4 + (4 + |user.telphone|) + (4 + |user.email|))
  }

  lemma UserSizeExact(user: UserInfo)
    ensures UserByteSize(user) == Low32(Size(UserWires(user)))
    ensures Size(UserWires(user)) >= 44
  {
    hide Size, UserWires;
    UserSize(user);
  }

  /** The bytes that a record takes, and where its fields are among them. */
  function UserBytes(user: UserInfo): nat {
    44 + |user.nickName| + |user.avatarUrl| + |user.title| + |user.position| + |user.telphone| + |user.email|
  }

  predicate UserAt(d: Bytes, p: nat, user: UserInfo) {
    var q := p + 20 + |user.nickName| + |user.avatarUrl| + |user.title| + |user.position|;
    && WordAt(d, p, user.userId)
    && TextAt(d, p + 4, user.nickName)
    && TextAt(d, p + 8 + |user.nickName|, user.avatarUrl)
    && TextAt(d, p + 12 + |user.nickName| + |user.avatarUrl|, user.title)
    && TextAt(d, p + 16 + |user.nickName| + |user.avatarUrl| + |user.title|, user.position)
    && WordAt(d, q, user.roleStatus)
    && WordAt(d, q + 4, user.sex)
    && WordAt(d, q + 8, user.departId)
    && WordAt(d, q + 12, user.jobNum)
    && TextAt(d, q + 16, user.telphone)
    && TextAt(d, q + 20 + |user.telphone|, user.email)
  }

  /** The fields up to the position, and those behind it. */
  ghost function UserFront(user: UserInfo): seq<Wire> {
    [U32(user.userId), Str(user.nickName), Str(user.avatarUrl), Str(user.title), Str(user.position)]
  }

  ghost function UserBack(user: UserInfo): seq<Wire> {
    [U32(user.roleStatus), U32(user.sex), U32(user.departId), U32(user.jobNum), Str(user.telphone),
     Str(user.email)]
  }

  lemma FrontSize(user: UserInfo)
    ensures Size(UserFront(user)) == 20 + |user.nickName| + |user.avatarUrl| + |user.title| + |user.position|
  {
    hide Size, Encode, EncodeRows, Low32;
    SizeSnoc();
    assert UserFront(user) ==
           [U32(user.userId)] + [Str(user.nickName)] + [Str(user.avatarUrl)] + [Str(user.title)] +
           [Str(user.position)];
  }

  lemma BackSize(user: UserInfo)
    ensures Size(UserBack(user)) == 24 + |user.telphone| + |user.email|
  {
    hide Size, Encode, EncodeRows, Low32;
    SizeSnoc();
    assert UserBack(user) ==
           [U32(user.roleStatus)] + [U32(user.sex)] + [U32(user.departId)] + [U32(user.jobNum)] +
           [Str(user.telphone)] + [Str(user.email)];
  }

  lemma UserSize(user: UserInfo)
    ensures Size(UserWires(user)) == UserBytes(user) > 0
  {
    hide Size, Encode, Low32;
    FrontSize(user);
    BackSize(user);
    assert UserWires(user) == UserFront(user) + UserBack(user);
    SizeConcat(UserFront(user), UserBack(user));
  }

  lemma FrontFields(d: Bytes, p: nat, user: UserInfo)
    requires Sits(d, p, UserFront(user)) && UserBytes(user) < TWO_32
    ensures
      && WordAt(d, p, user.userId)
      && TextAt(d, p + 4, user.nickName)
      && TextAt(d, p + 8 + |user.nickName|, user.avatarUrl)
      && TextAt(d, p + 12 + |user.nickName| + |user.avatarUrl|, user.title)
      && TextAt(d, p + 16 + |user.nickName| + |user.avatarUrl| + |user.title|, user.position)
  {
    hide Encode, EncodeRows, EncodeOne, Offset, Sits, ItemSits, WordAt, TextAt;
    var ws := UserFront(user);
    ItemsSit(d, p, ws);
    assert ws[0] == U32(user.userId) && ws[1] == Str(user.nickName) && ws[2] == Str(user.avatarUrl) &&
           ws[3] == Str(user.title) && ws[4] == Str(user.position);
    WordSits(d, p, user.userId);
    TextSits(d, p + 4, user.nickName);
    TextSits(d, p + 8 + |user.nickName|, user.avatarUrl);
    TextSits(d, p + 12 + |user.nickName| + |user.avatarUrl|, user.title);
    TextSits(d, p + 16 + |user.nickName| + |user.avatarUrl| + |user.title|, user.position);
  }

  lemma BackFields(d: Bytes, p: nat, user: UserInfo)
    requires Sits(d, p, UserBack(user)) && UserBytes(user) < TWO_32
    ensures
      && WordAt(d, p, user.roleStatus)
      && WordAt(d, p + 4, user.sex)
      && WordAt(d, p + 8, user.departId)
      && WordAt(d, p + 12, user.jobNum)
      && TextAt(d, p + 16, user.telphone)
      && TextAt(d, p + 20 + |user.telphone|, user.email)
  {
    hide Encode, EncodeRows, EncodeOne, Offset, Sits, ItemSits, WordAt, TextAt;
    var ws := UserBack(user);
    ItemsSit(d, p, ws);
    assert ws[0] == U32(user.roleStatus) && ws[1] == U32(user.sex) && ws[2] == U32(user.departId) &&
           ws[3] == U32(user.jobNum) && ws[4] == Str(user.telphone) && ws[5] == Str(user.email);
    WordSits(d, p, user.roleStatus);
    WordSits(d, p + 4, user.sex);
    WordSits(d, p + 8, user.departId);
    WordSits(d, p + 12, user.jobNum);
    TextSits(d, p + 16, user.telphone);
    TextSits(d, p + 20 + |user.telphone|, user.email);
  }

  /** Where an encoded record starts, these are its bytes. */
  lemma UserFields(d: Bytes, p: nat, user: UserInfo)
    requires Sits(d, p, UserWires(user)) && UserBytes(user) < TWO_32
    ensures
      var q := p + 20 + |user.nickName| + |user.avatarUrl| + |user.title| + |user.position|;
      && WordAt(d, p, user.userId)
      && TextAt(d, p + 4, user.nickName)
      && TextAt(d, p + 8 + |user.nickName|, user.avatarUrl)
      && TextAt(d, p + 12 + |user.nickName| + |user.avatarUrl|, user.title)
      && TextAt(d, p + 16 + |user.nickName| + |user.avatarUrl| + |user.title|, user.position)
      && WordAt(d, q, user.roleStatus)
      && WordAt(d, q + 4, user.sex)
      && WordAt(d, q + 8, user.departId)
      && WordAt(d, q + 12, user.jobNum)
      && TextAt(d, q + 16, user.telphone)
      && TextAt(d, q + 20 + |user.telphone|, user.email)
  {
    hide Encode, Sits, WordAt, TextAt, Size;
    assert UserWires(user) == UserFront(user) + UserBack(user);
    SitsBoth(d, p, UserFront(user), UserBack(user));
    FrontSize(user);
    FrontFields(d, p, user);
    BackFields(d, p + 20 + |user.nickName| + |user.avatarUrl| + |user.title| + |user.position|, user);
  }

  lemma UserSits(d: Bytes, p: nat, user: UserInfo)
    requires Sits(d, p, UserWires(user)) && UserBytes(user) < TWO_32
    ensures UserAt(d, p, user)
  {
    hide WordAt, TextAt, Sits;
    UserFields(d, p, user);
  }

  method ParseUser(target: UserInfo, reader: ByteReader) returns (user: UserInfo, result: bool)
    requires reader.Valid()
    modifies reader
    ensures reader.Took(USER_LAYOUT, UserWires(user)) && result == !reader.fail
    ensures result ==>
              UserAt(reader.input, old(reader.pos), user) && reader.pos == old(reader.pos) + UserBytes(user)
    ensures user.name == target.name && user.userUpdated == target.userUpdated
  {
    hide Decode, DecodeOne, DecodeRows, Run, Outcome, ByteReader.Valid, ByteReader.Rest, ByteReader.Kept;
    hide WordAt, TextAt, UserAt, UserBytes, Sits;
    reader.Standing();
    ghost var l, s, p, r0 := reader.layout, reader.seen, reader.pos, reader.Rest();
    var userId := reader.ReadWord(target.userId);
    var nickName := reader.ReadString(target.nickName);
    var avatarUrl := reader.ReadString(target.avatarUrl);
    var title := reader.ReadString(target.title);
    var position := reader.ReadString(target.position);
    var roleStatus := reader.ReadWord(target.roleStatus);
    var sex := reader.ReadWord(target.sex);
    var departId := reader.ReadWord(target.departId);
    var jobNum := reader.ReadWord(target.jobNum);
    var telphone := reader.ReadString(target.telphone);
    var email := reader.ReadString(target.email);
    user := UserInfo(
      userId, target.name, nickName, avatarUrl, title, position, roleStatus, sex, departId, jobNum, telphone,
      email, target.userUpdated);
    AppendEleven(old(reader.layout), Word, Text, Text, Text, Text, Word, Word, Word, Word, Text, Text);
    AppendEleven(old(reader.seen), U32(userId), Str(nickName), Str(avatarUrl), Str(title), Str(position),
      U32(roleStatus), U32(sex), U32(departId), U32(jobNum), Str(telphone), Str(email));
    assert reader.layout == old(reader.layout) + USER_LAYOUT;
    assert reader.seen == old(reader.seen) + UserWires(user);
    result := !reader.fail;
    if result {
      UserSize(user);
      reader.SeenSits(l, s, p, r0, USER_LAYOUT, UserWires(user));
      UserSits(reader.input, p, user);
    }
  }

  method SerializeUser(user: UserInfo, writer: ByteWriter) returns (result: bool)
    requires writer.Valid()
    modifies writer, writer.data
    ensures writer.Sends(UserWires(user)) && result == !writer.fail
    ensures result ==>
              UserAt(writer.data[..], old(writer.pos), user) && writer.pos == old(writer.pos) + UserBytes(user)
  {
    hide Encode, EncodeOne, EncodeRows, Size, ByteWriter.Valid;
    hide WordAt, TextAt, UserAt, UserBytes, Sits;
    writer.Standing();
    ghost var s, p := writer.sent, writer.pos;
    writer.WriteWord(user.userId);
    writer.WriteString(user.nickName);
    writer.WriteString(user.avatarUrl);
    writer.WriteString(user.title);
    writer.WriteString(user.position);
    writer.WriteWord(user.roleStatus);
    writer.WriteWord(user.sex);
    writer.WriteWord(user.departId);
    writer.WriteWord(user.jobNum);
    writer.WriteString(user.telphone);
    writer.WriteString(user.email);
    AppendEleven(old(writer.sent), U32(user.userId), Str(user.nickName), Str(user.avatarUrl), Str(user.title),
      Str(user.position), U32(user.roleStatus), U32(user.sex), U32(user.departId), U32(user.jobNum),
      Str(user.telphone), Str(user.email));
    assert writer.sent == old(writer.sent) + UserWires(user);
    result := !writer.fail;
    if result {
      UserSize(user);
      writer.SentSits(s, p, UserWires(user));
      UserSits(writer.data[..], p, user);
    }
  }

  // ----- the message

  /** What a body looks like to a parser that reads the user exactly when `(result == 0) == onZero`.
      The serializer's sense is `true`; the repository's parser has `false`. */
  const SENT_SENSE := true
  const READ_SENSE := false

  function BodyLayout(onZero: bool): Layout {
    [Text, Tagged(onZero, USER_LAYOUT)]
  }

  ghost function BodyWires(userName: Bytes, result: UInt32, user: Option<UserInfo>, onZero: bool): seq<Wire>
    requires (result == 0) == onZero ==> user.Some?
  {
    [Str(userName), Tail(result, if (result == 0) == onZero then UserWires(user.value) else [])]
  }

  lemma BodyTyped(userName: Bytes, result: UInt32, user: Option<UserInfo>, onZero: bool)
    requires (result == 0) == onZero ==> user.Some?
    ensures Typed(BodyLayout(onZero), BodyWires(userName, result, user, onZero)) && Solid(BodyLayout(onZero))
  {
    if user.Some? {
      UserTyped(user.value);
    }
    hide UserWires;
    assert Solid(USER_LAYOUT);
  }

  lemma BodySize(userName: Bytes, result: UInt32, user: Option<UserInfo>, onZero: bool)
    requires (result == 0) == onZero ==> user.Some?
    ensures Size(BodyWires(userName, result, user, onZero)) ==
            8 + |userName| + if (result == 0) == onZero then Size(UserWires(user.value)) else 0
  {
    hide UserWires;
    SizeSnoc();
    var ws := BodyWires(userName, result, user, onZero);
    assert ws == [Str(userName)] + [ws[1]];
  }

  /** Where name, result, user and attach data are in a message whose user is there exactly when
      `(result == 0) == onZero`. */
  lemma MessageFields(d: Bytes, userName: Bytes, result: UInt32, user: Option<UserInfo>, onZero: bool,
                      base: BaseTeamTalkPdu)
    requires (result == 0) == onZero ==> user.Some?
    requires var ws := BodyWires(userName, result, user, onZero) + base.AttachWires();
             Sits(d, 0, ws) && Size(ws) < TWO_32
    ensures
      var q := 8 + |userName| + if (result == 0) == onZero then UserBytes(user.value) else 0;
      && TextAt(d, 0, userName)
      && WordAt(d, 4 + |userName|, result)
      && ((result == 0) == onZero ==> UserAt(d, 8 + |userName|, user.value))
      && (base.attachDataType != NullType ==> TextAt(d, q, base.attachData))
  {
    hide Encode, EncodeRows, EncodeOne, Offset, Sits, ItemSits, WordAt, TextAt, UserAt, UserWires, UserBytes;
    var ws := BodyWires(userName, result, user, onZero);
    AttachSits(d, ws, base);
    BodySize(userName, result, user, onZero);
    ItemsSit(d, 0, ws);
    assert ws[0] == Str(userName) && ws[1].Tail? && ws[1].tag == result;
    TextSize(userName);
    TextSits(d, 0, userName);
    TailSits(d, 4 + |userName|, result, ws[1].body);
    if (result == 0) == onZero {
      UserSize(user.value);
      UserSits(d, 8 + |userName|, user.value);
    }
  }

  class ValidateResponse {
    const base: BaseTeamTalkPdu
    var userName: Bytes
    var result: UInt32
    var user: Option<UserInfo>

    constructor ()
      ensures userName == [] && user == None && fresh(base)
      ensures base.attachDataType == DbType && base.attachData == []
    {
      base := new BaseTeamTalkPdu(DbType);
      userName, user := [], None;
      result := *;
    }

    /** The serializer dereferences the user when the result is zero. */
    ghost predicate Sendable()
      reads this
    {
      result == 0 ==> user.Some?
    }

    /** The declared convention: there is a user exactly when the result is zero. */
    ghost predicate Declared()
      reads this
    {
      result == 0 <==> user.Some?
    }

    ghost function Wires(): seq<Wire>
      requires Sendable()
      reads this, base
    {
      BodyWires(userName, result, user, SENT_SENSE) + base.AttachWires()
    }

    function PduLayout(onZero: bool): Layout {
      BodyLayout(onZero) + base.AttachLayout()
    }

    function ByteSize(): UInt32
      reads this, base
    {
      var size := base.ByteSize();
      var size := Low32(size + (4 + |userName|) + 4);
      Low32(size + if user.Some? then UserByteSize(user.value) else 0)
    }

    /** `ByteSize` counts a user that the serializer leaves out. */
    lemma ByteSizeCounts()
      requires Sendable()
      ensures ByteSize() ==
              Low32(Size(Wires()) + if user.Some? && result != 0 then Size(UserWires(user.value)) else 0)
    {
      hide Size, SizeOne, Encode, EncodeOne, UserWires, UserByteSize, BodyWires, Low32;
      BodySize(userName, result, user, SENT_SENSE);
      SizeConcat(BodyWires(userName, result, user, SENT_SENSE), base.AttachWires());
      var attach := Size(base.AttachWires());
      Low32Add(|userName| + 8, attach);
      Low32Add(0, attach + |userName| + 8);
      if user.Some? {
        UserSizeExact(user.value);
        Low32Add(attach + |userName| + 8, Size(UserWires(user.value)));
      }
    }

    /** So it is exact modulo 2^32 under the declared convention, and (for a user of any real size) only
        then. */
    lemma ByteSizeExact()
      requires Sendable()
      ensures Declared() ==> ByteSize() == Low32(Size(Wires()))
      ensures !Declared() && Size(UserWires(user.value)) < TWO_32 ==> ByteSize() != Low32(Size(Wires()))
    {
      hide Size, Encode, UserWires, Wires, ByteSize;
      ByteSizeCounts();
      if user.Some? {
        UserSizeExact(user.value);
      }
    }

    /** The body of `ParseFromByteStream`, with the sense of its test as a parameter. */
    method ParseBody(reader: ByteReader, onZero: bool) returns (ok: bool)
      requires reader.Valid()
      modifies this, reader
      ensures (result == 0) == onZero ==> user.Some?
      ensures reader.Took(BodyLayout(onZero), BodyWires(userName, result, user, onZero))
      ensures ok == !reader.fail
      ensures if (result == 0) == onZero
              then var was := old(user).GetOr(NEW_USER);
                   user.value.name == was.name && user.value.userUpdated == was.userUpdated
              else user == old(user)
    {
      hide Decode, DecodeOne, DecodeRows, TakeWord, UserWires, ByteReader.Kept;
      hide WordAt, TextAt, UserAt, UserBytes;
      userName := reader.ReadString(userName);
      ghost var o, l, s, r0 := reader.origin, reader.layout, reader.seen, reader.Rest();
      reader.Begin();
      result := reader.ReadWord(result);
      reader.Whole([Word], [U32(result)]);
      ghost var r1 := reader.Rest();
      if (result == 0) == onZero {
        reader.Begin();
        var parsed, _ := ParseUser(user.GetOr(NEW_USER), reader);
        user := Some(parsed);
        reader.Whole(USER_LAYOUT, UserWires(parsed));
        reader.EndTail(o, l, s, r0, r1, onZero, USER_LAYOUT, result, UserWires(parsed));
      } else {
        reader.EndTail(o, l, s, r0, r1, onZero, USER_LAYOUT, result, []);
      }
      AppendTwo(old(reader.layout), Text, Tagged(onZero, USER_LAYOUT));
      AppendTwo(old(reader.seen), Str(userName), BodyWires(userName, result, user, onZero)[1]);
      ok := !reader.fail;
    }

    /** As written: `if (result_)`. */
    method ParseFromByteStream(reader: ByteReader) returns (ok: bool)
      requires reader.Valid()
      modifies this, reader
      ensures result != 0 ==> user.Some?
      ensures reader.Took(BodyLayout(READ_SENSE), BodyWires(userName, result, user, READ_SENSE))
      ensures ok == !reader.fail
      ensures result == 0 ==> user == old(user)
    {
      ok := ParseBody(reader, READ_SENSE);
    }

    method SerializeToByteStream(writer: ByteWriter) returns (ok: bool)
      requires writer.Valid() && Sendable()
      modifies writer, writer.data
      ensures writer.Sends(BodyWires(userName, result, user, SENT_SENSE)) && ok == !writer.fail
    {
      hide Encode, EncodeOne, EncodeRows, Size, UserWires;
      writer.WriteString(userName);
      ghost var before := writer.sent;
      writer.WriteWord(result);
      if result == 0 {
        var _ := SerializeUser(user.value, writer);
        writer.FoldTail(before, result, UserWires(user.value));
      } else {
        assert writer.sent == before + [U32(result)] + [];
        writer.FoldTail(before, result, []);
      }
      ok := !writer.fail;
    }

    /** `ParseFromArray` over a body parser of either sense. */
    method ParseFromArray(data: array<Byte>, dataLen: UInt32, onZero: bool) returns (ok: bool)
      requires dataLen <= data.Length
      modifies this, base
      ensures (result == 0) == onZero ==> user.Some?
      ensures match Decode(PduLayout(onZero), data[..dataLen])
              case Fail => !ok
              case Done(ws, _) => ok && ws == BodyWires(userName, result, user, onZero) + base.AttachWires()
      ensures if (result == 0) == onZero
              then var was := old(user).GetOr(NEW_USER);
                   user.value.name == was.name && user.value.userUpdated == was.userUpdated
              else user == old(user)
      ensures ok ==>
                var d := data[..dataLen];
                var q := 8 + |userName| + if (result == 0) == onZero then UserBytes(user.value) else 0;
                && TextAt(d, 0, userName)
                && WordAt(d, 4 + |userName|, result)
                && ((result == 0) == onZero ==> UserAt(d, 8 + |userName|, user.value))
                && (base.attachDataType != NullType ==> TextAt(d, q, base.attachData))
    {
      hide Decode, DecodeOne, DecodeRows, UserWires, WordAt, TextAt, UserAt, UserBytes, Sits;
      var reader := new ByteReader(data, dataLen);
      ok := ParseBody(reader, onZero);
      assert reader.layout == BodyLayout(onZero);
      assert reader.seen == BodyWires(userName, result, user, onZero);
      ok := base.ParseAttachData(reader, ok);
      if ok {
        AcceptedSits(PduLayout(onZero), data[..dataLen]);
        MessageFields(data[..dataLen], userName, result, user, onZero, base);
      }
    }

    method SerializeToArray(data: array<Byte>, dataLen: UInt32) returns (ok: bool)
      requires dataLen <= data.Length && Sendable()
      modifies data
      ensures ok <==> Size(Wires()) <= dataLen
      ensures ok ==> data[..] == Encode(Wires()) + old(data[Size(Wires())..])
      ensures data[dataLen..] == old(data[dataLen..])
      ensures ok ==>
                var d := data[..];
                var q := 8 + |userName| + if result == 0 then UserBytes(user.value) else 0;
                && TextAt(d, 0, userName)
                && WordAt(d, 4 + |userName|, result)
                && (result == 0 ==> UserAt(d, 8 + |userName|, user.value))
                && (base.attachDataType != NullType ==> TextAt(d, q, base.attachData))
    {
      hide Encode, EncodeOne, EncodeRows, Size, UserWires, WordAt, TextAt, UserAt, UserBytes, Sits;
      var writer := new ByteWriter(data, dataLen);
      ok := SerializeToByteStream(writer);
      assert writer.sent == BodyWires(userName, result, user, SENT_SENSE);
      ok := base.SerializeAttachData(writer, ok);
      writer.Written();
      if ok {
        WrittenSits(Wires(), old(data[Size(Wires())..]));
        MessageFields(data[..], userName, result, user, SENT_SENSE, base);
      }
    }
  }

  /** What `new UserInfo()` holds. */
  const NEW_USER := UserInfo(0, [], [], [], [], [], 0, 0, 0, 0, [], [], 0)

  // ----- what each sense gives

  /** How either parser reads what the serializer wrote.  A parser of the other sense skips a user that
      is there and looks for one that is not. */
  lemma ReadsSent(userName: Bytes, result: UInt32, user: Option<UserInfo>, onZero: bool, rest: Bytes)
    requires (result == 0 ==> user.Some?) && |userName| < TWO_32
    ensures var sent := BodyWires(userName, result, user, SENT_SENSE);
            var after := Encode(sent[1].body) + rest;
            Decode(BodyLayout(onZero), Encode(sent) + rest) ==
            if (result == 0) != onZero then Done([Str(userName), Tail(result, [])], after)
            else match Decode(USER_LAYOUT, after)
                 case Fail => Fail
                 case Done(ws, r) => Done([Str(userName), Tail(result, ws)], r)
  {
    hide Decode, Encode, EncodeOne, UserWires, TakeWord, PutWord;
    var sent := BodyWires(userName, result, user, SENT_SENSE);
    var after := Encode(sent[1].body) + rest;
    SplitBody(userName, result, sent[1].body, rest);
    DecodeOneEncodeOne(Text, Str(userName), PutWord(result) + after);
    assert BodyLayout(onZero) == [Text] + [Tagged(onZero, USER_LAYOUT)];
    DecodeSnoc([Text], Tagged(onZero, USER_LAYOUT), Encode(sent) + rest);
    DecodeSingle(Text, Encode(sent) + rest);
    TakePutWord(result, after);
    assert forall w: Wire :: [Str(userName)] + [w] == [Str(userName), w];
  }

  lemma SplitBody(userName: Bytes, result: UInt32, body: seq<Wire>, rest: Bytes)
    ensures Encode([Str(userName), Tail(result, body)]) + rest ==
            EncodeOne(Str(userName)) + (PutWord(result) + (Encode(body) + rest))
  {
    hide PutWord;
    var ws := [Str(userName), Tail(result, body)];
    assert ws == [] + [Str(userName)] + [Tail(result, body)];
    EncodeSnoc([] + [Str(userName)], Tail(result, body));
    EncodeSnoc([], Str(userName));
  }

  /** The parser as written never reads the values that were sent: a user that was sent is not read, and
      where none was sent it demands one. */
  lemma AsWrittenNeverInverts(userName: Bytes, result: UInt32, user: Option<UserInfo>, rest: Bytes)
    requires (result == 0 ==> user.Some?) && |userName| < TWO_32
    ensures var sent := BodyWires(userName, result, user, SENT_SENSE);
            match Decode(BodyLayout(READ_SENSE), Encode(sent) + rest)
            case Fail => result != 0
            case Done(ws, r) =>
              && |ws| == 2 && ws != sent
              && ws[0] == sent[0] && ws[1].Tail? && ws[1].tag == result
              && (ws[1].body == [] <==> result == 0)
              && (result == 0 ==> |r| >= |rest| + 44)
  {
    hide Encode, Decode;
    ReadsSent(userName, result, user, READ_SENSE, rest);
    if result == 0 {
      UserSizeExact(user.value);
    } else if Decode(USER_LAYOUT, Encode([]) + rest).Done? {
      EncodeDecode(USER_LAYOUT, Encode([]) + rest);
    }
  }

  /** On the bytes of the body alone the parser as written accepts exactly the messages with result 0, and
      leaves all of the user unread. */
  lemma AsWrittenOnBodyAlone(userName: Bytes, result: UInt32, user: Option<UserInfo>)
    requires (result == 0 ==> user.Some?) && |userName| < TWO_32
    ensures var sent := BodyWires(userName, result, user, SENT_SENSE);
            Decode(BodyLayout(READ_SENSE), Encode(sent)) ==
            if result == 0 then Done([Str(userName), Tail(0, [])], Encode(UserWires(user.value))) else Fail
  {
    hide UserWires;
    ReadsSent(userName, result, user, READ_SENSE, []);
    var sent := BodyWires(userName, result, user, SENT_SENSE);
    assert Encode(sent) + [] == Encode(sent);
    assert Encode(sent[1].body) + [] == Encode(sent[1].body);
    if result != 0 {
      EmptyBody();
      UserNeedsBytes([]);
    }
  }

  /** The bytes behind the user id in a serialised message with result 0, up to the end of a buffer whose
      unused bytes are `junk`. */
  ghost function BehindUserId(msg: ValidateResponse, junk: Bytes): Bytes
    requires msg.user.Some?
    reads msg, msg.base
  {
    UserSizeExact(msg.user.value);
    (Encode(UserWires(msg.user.value)) + (Encode(msg.base.AttachWires()) + junk))[4..]
  }

  /** The bytes that a parser takes for attach data, as many as the user id says, are the attach data. */
  ghost predicate TakenForAttach(msg: ValidateResponse, junk: Bytes)
    requires msg.user.Some?
    reads msg, msg.base
  {
    var userId, behind := msg.user.value.userId, BehindUserId(msg, junk);
    userId <= |behind| && msg.base.attachData == behind[..userId]
  }

  ghost predicate Same(x: ValidateResponse, y: ValidateResponse)
    reads x, x.base, y, y.base
  {
    x.userName == y.userName && x.result == y.result && x.user == y.user && x.base.attachData == y.base.attachData
  }

  ghost function Zeros(n: nat): Bytes {
    seq(n, _ => 0)
  }

  /** End to end with the parser as written, into any object.  When the result is 0 the unread user is taken
      for attach data, so the array is accepted exactly when the user id does not exceed the number of bytes
      behind it; and a declared message is restored exactly when its result is 0, the object already held
      its user, and what is taken for attach data happens to be the attach data. */
  method RoundTripAsWritten(msg: ValidateResponse, copy: ValidateResponse, dataLen: UInt32)
    returns (ok: bool, parsed: bool)
    requires msg.base.attachDataType == DbType && copy.base.attachDataType == DbType && msg.Sendable()
    requires copy != msg && copy.base != msg.base
    modifies copy, copy.base
    ensures ok <==> Size(msg.Wires()) <= dataLen
    ensures parsed ==> ok && copy.userName == msg.userName && copy.result == msg.result
    ensures parsed && msg.result == 0 ==> copy.user == old(copy.user)
    ensures parsed && msg.result != 0 ==> copy.user.Some?
    ensures ok && msg.result == 0 ==> (parsed <==> msg.user.value.userId <= dataLen - 12 - |msg.userName|)
    ensures ok && msg.result != 0 && dataLen < |msg.userName| + 8 + 44 + 4 ==> !parsed
    ensures ok && msg.Declared() ==>
              (parsed && Same(copy, msg) <==>
               && msg.result == 0
               && old(copy.user) == msg.user
               && TakenForAttach(msg, Zeros(dataLen - Size(msg.Wires()))))
  {
    hide Decode, Encode, EncodeOne, DecodeOne, UserWires, Typed, Solid, BehindUserId;
    hide WordAt, TextAt, UserAt, UserBytes;
    var buffer := new Byte[dataLen](_ => 0);
    ok := msg.SerializeToArray(buffer, dataLen);
    parsed := false;
    if ok {
      ghost var sent, junk := msg.Wires(), Zeros(dataLen - Size(msg.Wires()));
      assert buffer[..dataLen] == buffer[..] == Encode(sent) + junk;
      parsed := copy.ParseFromArray(buffer, dataLen, READ_SENSE);
      AsWrittenOutcome(msg, junk, dataLen);
      if parsed {
        ghost var got := Decode(copy.PduLayout(READ_SENSE), Encode(sent) + junk).value;
        assert got[0] == Str(copy.userName) && got[1].tag == copy.result && got[2] == Str(copy.base.attachData);
      }
    }
  }

  lemma AsWrittenOutcome(msg: ValidateResponse, junk: Bytes, dataLen: UInt32)
    requires msg.base.attachDataType == DbType && msg.Sendable()
    requires Size(msg.Wires()) + |junk| == dataLen
    ensures match Decode(msg.PduLayout(READ_SENSE), Encode(msg.Wires()) + junk)
            case Fail => msg.result == 0 ==> msg.user.value.userId > dataLen - 12 - |msg.userName|
            case Done(ws, _) =>
              && |ws| == 3 && ws[0] == Str(msg.userName)
              && ws[1].Tail? && ws[1].tag == msg.result
              && (msg.result == 0 ==>
                    && msg.user.value.userId <= dataLen - 12 - |msg.userName| == |BehindUserId(msg, junk)|
                    && ws[2] == Str(BehindUserId(msg, junk)[..msg.user.value.userId]))
              && (msg.result != 0 ==> dataLen >= |msg.userName| + 8 + 44 + 4)
    ensures msg.result == 0 ==> |BehindUserId(msg, junk)| == dataLen - 12 - |msg.userName|
  {
    hide Decode, Encode, EncodeOne, DecodeOne, UserWires, Typed, Solid, TakeWord, PutWord;
    var body := BodyWires(msg.userName, msg.result, msg.user, SENT_SENSE);
    var rest := Encode(msg.base.AttachWires()) + junk;
    EncodeConcat(body, msg.base.AttachWires());
    assert Encode(msg.Wires()) + junk == Encode(body) + rest;
    BodySize(msg.userName, msg.result, msg.user, SENT_SENSE);
    ReadsSent(msg.userName, msg.result, msg.user, READ_SENSE, rest);
    DecodeConcat(BodyLayout(READ_SENSE), [Text], Encode(body) + rest);
    var after := Encode(body[1].body) + rest;
    EmptyBody();
    assert |after| == dataLen - 8 - |msg.userName|;
    if msg.result == 0 {
      UserSizeExact(msg.user.value);
      UserIdLeads(msg.user.value, rest);
      assert BehindUserId(msg, junk) == after[4..];
    } else if Decode(USER_LAYOUT, after).Done? {
      var Done(ws, r) := Decode(USER_LAYOUT, after);
      UserNeedsBytes(after);
      TextNeedsFour(r);
    }
  }

  /** So a new object has a user exactly when none was sent, and no declared message is ever restored into
      it. */
  method NeverIntoNew(msg: ValidateResponse, dataLen: UInt32)
    returns (ok: bool, parsed: bool, copy: ValidateResponse)
    requires msg.base.attachDataType == DbType && msg.Sendable()
    ensures ok <==> Size(msg.Wires()) <= dataLen
    ensures parsed ==> ok && copy.userName == msg.userName && copy.result == msg.result
    ensures parsed ==> (copy.user.Some? <==> msg.result != 0)
    ensures parsed && msg.Declared() ==> (copy.user.Some? <==> msg.user.None?)
  {
    copy := new ValidateResponse();
    ok, parsed := RoundTripAsWritten(msg, copy, dataLen);
  }

  /** A user with id 0 is taken for empty attach data, whatever else the message and the buffer hold. */
  lemma ZeroIdTakesNothing(msg: ValidateResponse, junk: Bytes)
    requires msg.user.Some? && msg.user.value.userId == 0
    ensures TakenForAttach(msg, junk) <==> msg.base.attachData == []
  {
  }

  /** No user takes fewer than 44 bytes. */
  lemma UserNeedsBytes(b: Bytes)
    ensures match Decode(USER_LAYOUT, b) case Fail => true case Done(_, r) => |b| >= 44 + |r|
    ensures |b| < 44 ==> Decode(USER_LAYOUT, b) == Fail
  {
    hide Decode, Encode, Typed, Fits, Least;
    if Decode(USER_LAYOUT, b).Done? {
      EncodeDecode(USER_LAYOUT, b);
      LeastIsLower(USER_LAYOUT, Decode(USER_LAYOUT, b).value);
      LeastWithoutOctets(USER_LAYOUT);
    }
  }

  lemma TextNeedsFour(r: Bytes)
    ensures match Decode([Text], r) case Fail => true case Done(ws, _) => |ws| == 1 && |r| >= 4
  {
    DecodeSingle(Text, r);
  }

  /** Read as a string, an encoded user is as long as its user id says. */
  lemma UserIdLeads(user: UserInfo, rest: Bytes)
    ensures var b := Encode(UserWires(user)) + rest;
            match Decode([Text], b)
            case Fail => user.userId > |b| - 4
            case Done(ws, _) => user.userId <= |b| - 4 && ws == [Str(b[4..][..user.userId])]
  {
    hide Encode, EncodeOne, PutWord, Decode;
    var b := Encode(UserWires(user)) + rest;
    var tail := UserWires(user)[1..];
    assert UserWires(user) == [U32(user.userId)] + tail;
    EncodeConcat([U32(user.userId)], tail);
    EncodeWord(user.userId);
    assert b == PutWord(user.userId) + (Encode(tail) + rest);
    TakePutWord(user.userId, Encode(tail) + rest);
    DecodeSingle(Text, b);
  }

  /** End to end with a parser of the serializer's sense: every declared message comes back, save the
      fields that are never sent. */
  method RoundTripIntended(msg: ValidateResponse, dataLen: UInt32) returns (ok: bool, copy: ValidateResponse)
    requires msg.base.attachDataType == DbType && msg.Declared()
    ensures ok <==> Size(msg.Wires()) <= dataLen
    ensures ok ==> copy.userName == msg.userName && copy.result == msg.result
    ensures ok ==> copy.base.attachData == msg.base.attachData
    ensures ok ==>
              copy.user == match msg.user case None => None case Some(u) => Some(u.(name := [], userUpdated := 0))
  {
    hide Decode, Encode, EncodeOne, DecodeOne, UserWires, Typed, Solid;
    hide WordAt, TextAt, UserAt, UserBytes;
    var buffer := new Byte[dataLen](_ => 0);
    ok := msg.SerializeToArray(buffer, dataLen);
    copy := new ValidateResponse();
    if ok {
      ghost var sent, junk := msg.Wires(), buffer[Size(msg.Wires())..];
      assert buffer[..] == buffer[..dataLen] == Encode(sent) + junk;
      var parsed := copy.ParseFromArray(buffer, dataLen, SENT_SENSE);
      ghost var body := BodyWires(msg.userName, msg.result, msg.user, SENT_SENSE);
      BodyTyped(msg.userName, msg.result, msg.user, SENT_SENSE);
      PduRoundTrip(BodyLayout(SENT_SENSE), body, msg.base, junk);
      assert parsed && copy.Wires() == sent;
      assert copy.Wires()[0] == sent[0] && copy.Wires()[1] == sent[1] && copy.Wires()[2] == sent[2];
      if msg.result == 0 {
        UserWiresDetermine(copy.user.value, msg.user.value);
      }
    }
  }

  // ----- printing what was parsed

  /** With a parser of the serializer's sense, serializing the parsed message reproduces the bytes that were
      consumed. */
  method ReserializeIntended(data: array<Byte>, dataLen: UInt32)
    returns (accepted: bool, ok: bool, copy: ValidateResponse, buffer: array<Byte>)
    requires dataLen <= data.Length
    ensures buffer.Length == dataLen && copy.base.attachDataType == DbType && copy.Sendable()
    ensures accepted <==> Decode(copy.PduLayout(SENT_SENSE), data[..dataLen]).Done?
    ensures accepted ==> ok && Size(copy.Wires()) <= dataLen
    ensures accepted ==> buffer[..Size(copy.Wires())] == data[..Size(copy.Wires())]
    ensures accepted ==> Decode(copy.PduLayout(SENT_SENSE), data[..dataLen]) ==
                         Done(copy.Wires(), data[Size(copy.Wires())..dataLen])
  {
    hide Decode, Encode, EncodeOne, DecodeOne, UserWires, Typed, Solid, Fits;
    hide WordAt, TextAt, UserAt, UserBytes;
    copy := new ValidateResponse();
    accepted := copy.ParseFromArray(data, dataLen, SENT_SENSE);
    buffer := new Byte[dataLen](_ => 0);
    ok := copy.SerializeToArray(buffer, dataLen);
    if accepted {
      EncodeDecode(copy.PduLayout(SENT_SENSE), data[..dataLen]);
      var Done(ws, rest) := Decode(copy.PduLayout(SENT_SENSE), data[..dataLen]);
      assert ws == copy.Wires() && data[..dataLen] == Encode(ws) + rest;
    }
  }

  /** With the parser as written it never does, whatever object is parsed into: the user that was read is not
      written again, and one that was kept is written anew. */
  method ReserializeAsWritten(data: array<Byte>, dataLen: UInt32, copy: ValidateResponse)
    returns (accepted: bool)
    requires dataLen <= data.Length && copy.base.attachDataType == DbType
    modifies copy, copy.base
    ensures accepted <==> Decode(copy.PduLayout(READ_SENSE), data[..dataLen]).Done?
    ensures accepted && copy.result == 0 ==> copy.user == old(copy.user)
    ensures accepted && copy.Sendable() ==>
              var used := dataLen - |Decode(copy.PduLayout(READ_SENSE), data[..dataLen]).rest|;
              if copy.result == 0 then Size(copy.Wires()) >= used + 44 else used >= Size(copy.Wires()) + 44
  {
    hide Decode, Encode, EncodeOne, DecodeOne, UserWires, Typed, Solid, Fits;
    hide WordAt, TextAt, UserAt, UserBytes;
    accepted := copy.ParseFromArray(data, dataLen, READ_SENSE);
    if accepted && copy.Sendable() {
      EncodeDecode(copy.PduLayout(READ_SENSE), data[..dataLen]);
      var n, r, u, attach := copy.userName, copy.result, copy.user, copy.base.AttachWires();
      BodySize(n, r, u, READ_SENSE);
      BodySize(n, r, u, SENT_SENSE);
      SizeConcat(BodyWires(n, r, u, READ_SENSE), attach);
      SizeConcat(BodyWires(n, r, u, SENT_SENSE), attach);
      UserSizeExact(u.value);
    }
  }
}
