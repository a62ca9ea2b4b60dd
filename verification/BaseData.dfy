/** The records that list messages carry, as plain values. */
module BaseData {
  import opened WireFormat

  datatype GroupInfo = GroupInfo(
    groupId: UInt32,
    groupName: Bytes,
    groupAvatar: Bytes,
    groupCreatorId: UInt32,
    groupType: UInt32,
    groupUpdated: UInt32,
    memberList: seq<UInt32>)

  datatype UserInfo = UserInfo(
    userId: UInt32,
    name: Bytes,
    nickName: Bytes,
    avatarUrl: Bytes,
    title: Bytes,
    position: Bytes,
    roleStatus: UInt32,
    sex: UInt32,
    departId: UInt32,
    jobNum: UInt32,
    telphone: Bytes,
    email: Bytes,
    userUpdated: UInt32)

  datatype ServerMsg = ServerMsg(
    fromUserId: UInt32,
    fromName: Bytes,
    fromNickName: Bytes,
    fromAvatarUrl: Bytes,
    createTime: UInt32,
    msgType: Byte,
    msgData: Bytes)
}
