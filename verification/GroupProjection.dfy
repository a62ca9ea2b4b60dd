/** How the two group lists relate: GroupListResponse is GroupDialogListResponse with `groupUpdated`
    projected away. */
module GroupProjection {
  import opened WireFormat
  import opened RawBytes
  import opened TeamTalkPdu
  import opened BaseData
  import Dialog = GroupDialogList
  import Plain = GroupList

  ghost predicate AgreeButUpdated(a: seq<GroupInfo>, b: seq<GroupInfo>) {
    |a| == |b| && forall i | 0 <= i < |a| :: Plain.Carried(a[i]) == Plain.Carried(b[i])
  }

  lemma RowsAgree(a: seq<GroupInfo>, b: seq<GroupInfo>)
    ensures Rows(Plain.GroupWires, a) == Rows(Plain.GroupWires, b) <==> AgreeButUpdated(a, b)
  {
    hide Plain.GroupWires, Plain.Carried;
    if |a| == |b| {
      forall i | 0 <= i < |a|
        ensures Rows(Plain.GroupWires, a)[i] == Rows(Plain.GroupWires, b)[i] <==>
                Plain.Carried(a[i]) == Plain.Carried(b[i])
      {
        Plain.GroupWiresDetermine(a[i], b[i]);
      }
    }
  }

  /** Two group lists have the same bytes exactly when they differ in nothing but `groupUpdated`. */
  lemma SameBytesIffAgree(id: UInt32, a: seq<GroupInfo>, b: seq<GroupInfo>)
    requires Size(Plain.BodyWires(id, a)) < TWO_32
    requires Size(Plain.BodyWires(id, b)) < TWO_32
    ensures Encode(Plain.BodyWires(id, a)) == Encode(Plain.BodyWires(id, b)) <==> AgreeButUpdated(a, b)
  {
    hide Encode, Typed, Solid, Fits, Rows, AgreeButUpdated, Plain.GroupWires;
    var u, v := Plain.BodyWires(id, a), Plain.BodyWires(id, b);
    RowsAgree(a, b);
    if Encode(u) == Encode(v) {
      Plain.BodyTyped(id, a);
      Plain.BodyTyped(id, b);
      SmallFits(Plain.BODY_LAYOUT, u);
      SmallFits(Plain.BODY_LAYOUT, v);
      EncodeInjective(Plain.BODY_LAYOUT, u, v);
      assert u[1] == v[1];
    }
  }

  /** The dialog list is longer by the size of `groupUpdated` for every group, whatever trails the
      body. */
  lemma DialogIsLonger(id: UInt32, groups: seq<GroupInfo>, base: BaseTeamTalkPdu)
    ensures Size(Dialog.BodyWires(id, groups) + base.AttachWires()) ==
            Size(Plain.BodyWires(id, groups) + base.AttachWires()) + 4 * |groups|
  {
    hide Encode, EncodeRows, Size, Rows;
    Dialog.BodySize(id, groups);
    Plain.BodySize(id, groups);
    SizeConcat(Dialog.BodyWires(id, groups), base.AttachWires());
    SizeConcat(Plain.BodyWires(id, groups), base.AttachWires());
    RowsLonger(groups);
  }

  lemma {:induction false} RowsLonger(groups: seq<GroupInfo>)
    ensures |EncodeRows(Rows(Dialog.GroupWires, groups))| ==
            |EncodeRows(Rows(Plain.GroupWires, groups))| + 4 * |groups|
  {
    if groups != [] {
      hide Encode, EncodeRows, Rows, Dialog.GroupWires, Plain.GroupWires;
      var k := |groups| - 1;
      RowsLonger(groups[..k]);
      assert groups == groups[..k] + [groups[k]];
      RowsSnoc(Dialog.GroupWires, groups[..k], groups[k]);
      RowsSnoc(Plain.GroupWires, groups[..k], groups[k]);
      EncodeRowsSnoc(Rows(Dialog.GroupWires, groups[..k]), Dialog.GroupWires(groups[k]));
      EncodeRowsSnoc(Rows(Plain.GroupWires, groups[..k]), Plain.GroupWires(groups[k]));
      GroupLonger(groups[k]);
    }
  }

  // ----- the bytes of one are the bytes of the other, less those of `groupUpdated`

  /** Bytes that hold the records of a dialog list, without the four bytes of each `groupUpdated`. */
  function WithoutUpdated(groups: seq<GroupInfo>, b: Bytes): Bytes
    requires |b| == Sum(Dialog.GroupBytes, groups)
  {
    if groups == [] then []
    else
      var k := |groups| - 1;
      var start := Sum(Dialog.GroupBytes, groups[..k]);
      var updated := start + 20 + |groups[k].groupName| + |groups[k].groupAvatar|;
      WithoutUpdated(groups[..k], b[..start]) + (b[start..updated] + b[updated + 4..])
  }

  lemma RecordWithoutUpdated(group: GroupInfo)
    ensures var b, updated := Encode(Dialog.GroupWires(group)), 20 + |group.groupName| + |group.groupAvatar|;
            updated + 4 <= |b| && Encode(Plain.GroupWires(group)) == b[..updated] + b[updated + 4..]
  {
    hide Encode, EncodeOne, EncodeRows, WordRows;
    var front := [U32(group.groupId), Str(group.groupName), Str(group.groupAvatar), U32(group.groupType),
                  U32(group.groupCreatorId)];
    var back := [Arr(WordRows(group.memberList))];
    assert Dialog.GroupWires(group) == (front + [U32(group.groupUpdated)]) + back;
    assert Plain.GroupWires(group) == front + back;
    EncodeConcat(front, back);
    EncodeConcat(front + [U32(group.groupUpdated)], back);
    EncodeSnoc(front, U32(group.groupUpdated));
    WordSize(group.groupUpdated);
    Dialog.GroupSize(group);
    ContainerSize(group.memberList);
    SizeSnoc();
    var u, w, v := Encode(front), EncodeOne(U32(group.groupUpdated)), Encode(back);
    assert (u + w + v)[..|u|] == u && (u + w + v)[|u| + 4..] == v;
  }

  lemma OneMoreRecord(groups: seq<GroupInfo>, group: GroupInfo, a: Bytes, r: Bytes)
    requires |a| == Sum(Dialog.GroupBytes, groups) && |r| == Dialog.GroupBytes(group)
    ensures var updated := 20 + |group.groupName| + |group.groupAvatar|;
            && |a + r| == Sum(Dialog.GroupBytes, groups + [group])
            && WithoutUpdated(groups + [group], a + r) ==
               WithoutUpdated(groups, a) + (r[..updated] + r[updated + 4..])
  {
    var n := 20 + |group.groupName| + |group.groupAvatar|;
    assert (groups + [group])[..|groups|] == groups;
    assert (a + r)[..|a|] == a && (a + r)[|a|..|a| + n] == r[..n] && (a + r)[|a| + n + 4..] == r[n + 4..];
  }

  lemma {:induction false} RowsWithoutUpdated(groups: seq<GroupInfo>)
    ensures var b := EncodeRows(Rows(Dialog.GroupWires, groups));
            && |b| == Sum(Dialog.GroupBytes, groups)
            && EncodeRows(Rows(Plain.GroupWires, groups)) == WithoutUpdated(groups, b)
  {
    if groups != [] {
      hide Encode, EncodeRows, Rows, Dialog.GroupWires, Plain.GroupWires, WithoutUpdated, Sum, Dialog.GroupBytes;
      var k := |groups| - 1;
      var front, group := groups[..k], groups[k];
      RowsWithoutUpdated(front);
      assert groups == front + [group];
      RowsSnoc(Dialog.GroupWires, front, group);
      RowsSnoc(Plain.GroupWires, front, group);
      EncodeRowsSnoc(Rows(Dialog.GroupWires, front), Dialog.GroupWires(group));
      EncodeRowsSnoc(Rows(Plain.GroupWires, front), Plain.GroupWires(group));
      RecordWithoutUpdated(group);
      Dialog.GroupSize(group);
      var r := Encode(Dialog.GroupWires(group));
      OneMoreRecord(front, group, EncodeRows(Rows(Dialog.GroupWires, front)), r);
    }
  }

  /** Deleting the four bytes of `groupUpdated` from every record of an encoded dialog list, and nothing
      else, gives the encoded group list of the same groups, whatever attach data trails both. */
  lemma PlainIsDialogWithoutUpdated(id: UInt32, groups: seq<GroupInfo>, base: BaseTeamTalkPdu)
    ensures var b := Encode(Dialog.BodyWires(id, groups) + base.AttachWires());
            var n := 8 + Sum(Dialog.GroupBytes, groups);
            && n <= |b|
            && Encode(Plain.BodyWires(id, groups) + base.AttachWires()) ==
               b[..8] + WithoutUpdated(groups, b[8..n]) + b[n..]
  {
    hide Encode, EncodeRows, PutWord, Rows, WithoutUpdated, Sum;
    RowsWithoutUpdated(groups);
    EncodeConcat(Dialog.BodyWires(id, groups), base.AttachWires());
    EncodeConcat(Plain.BodyWires(id, groups), base.AttachWires());
    TwoItems(U32(id), Arr(Rows(Dialog.GroupWires, groups)));
    TwoItems(U32(id), Arr(Rows(Plain.GroupWires, groups)));
    var head, rows, tail := PutWord(id) + PutWord(Low32(|groups|)), EncodeRows(Rows(Dialog.GroupWires, groups)),
      Encode(base.AttachWires());
    assert Encode(Dialog.BodyWires(id, groups) + base.AttachWires()) == head + rows + tail;
    assert (head + rows + tail)[..8] == head && (head + rows + tail)[8..8 + |rows|] == rows;
    assert (head + rows + tail)[8 + |rows|..] == tail;
  }

  lemma TwoItems(v: Wire, w: Wire)
    ensures Encode([v, w]) == EncodeOne(v) + EncodeOne(w)
  {
    hide EncodeOne, EncodeRows;
    assert [v, w] == [] + [v] + [w];
    EncodeSnoc([] + [v], w);
    EncodeSnoc([], v);
  }

  function Members(groups: seq<GroupInfo>): nat {
    if groups == [] then 0 else Members(groups[..|groups| - 1]) + |groups[|groups| - 1].memberList|
  }

  lemma {:induction false} RowsCost(groups: seq<GroupInfo>)
    ensures |EncodeRows(Rows(Dialog.GroupWires, groups))| >= 28 * |groups| + 4 * Members(groups)
  {
    if groups != [] {
      hide Encode, EncodeRows, Rows, Dialog.GroupWires;
      var k := |groups| - 1;
      RowsCost(groups[..k]);
      assert groups == groups[..k] + [groups[k]];
      RowsSnoc(Dialog.GroupWires, groups[..k], groups[k]);
      EncodeRowsSnoc(Rows(Dialog.GroupWires, groups[..k]), Dialog.GroupWires(groups[k]));
      GroupLonger(groups[k]);
    }
  }

  /** However large the counts in a received dialog list claim to be, what is accepted is paid for by the
      input: 28 bytes for each group and 4 for each member of any of them. */
  lemma AcceptedGroupsAreBounded(b: Bytes, id: UInt32, groups: seq<GroupInfo>, attach: Bytes, rest: Bytes)
    requires Decode(Dialog.BODY_LAYOUT + [Text], b) == Done(Dialog.BodyWires(id, groups) + [Str(attach)], rest)
    ensures 12 + 28 * |groups| + 4 * Members(groups) + |attach| + |rest| <= |b|
  {
    hide Decode, Encode, EncodeRows, EncodeOne, Rows, Typed, Fits, Members;
    EncodeDecode(Dialog.BODY_LAYOUT + [Text], b);
    EncodeSnoc(Dialog.BodyWires(id, groups), Str(attach));
    TextSize(attach);
    Dialog.BodySize(id, groups);
    RowsCost(groups);
  }

  lemma GroupLonger(group: GroupInfo)
    ensures Size(Dialog.GroupWires(group)) == Size(Plain.GroupWires(group)) + 4
    ensures Size(Dialog.GroupWires(group)) ==
            28 + |group.groupName| + |group.groupAvatar| + 4 * |group.memberList|
  {
    hide Size, Dialog.GroupWires, Plain.GroupWires;
    Dialog.GroupSize(group);
    Plain.GroupSize(group);
  }
}
