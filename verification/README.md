# The TeamTalk message codec and the dispatch of received packets, modelled and proved in Dafny

Two parts of the server are modelled.

**The message codec** (`proto/`). A message is a body, written and read by three hand-kept functions
(`ByteSize`, `ParseFromByteStream`, `SerializeToByteStream`), and, for most types, a trailing attach-data
string. Bodies mix 8- and 32-bit integers, length-prefixed strings, counted arrays of words, counted arrays
of records, and records that hold counted arrays themselves.

* `WireFormat.dfy` describes such formats by layouts and proves the codec laws once, for every layout:
  parsing inverts printing whatever follows, printing inverts parsing, encodings are prefix-free and
  injective, the parser accepts exactly the inputs that start with an encoding, accepted counts are paid for
  by input bytes, and a true size below 2^32 means that no 32-bit cast cuts anything.
* `RawBytes.dfy` says what lies where in raw bytes without naming printer or parser: a word is the sum of four
  bytes by their weights, a string its length and characters, a list its count and elements. It proves that
  words compare as their bytes do, first byte first, and that no other order of the four bytes has that property.
* `ByteStreams.dfy` is the stream the programs read and write, as two classes with a cursor and a sticky
  failure flag. A ghost transcript ties every read to the parser that stops at the first failure. The
  programs never look at the flag before the end, so each parser's contract, stated with `Decode`, says that
  testing the flag once at the end accepts the same inputs with the same values.
* `TeamTalkPdu.dfy` is the base class, the array macros and the size arithmetic modulo 2^32.
* `GroupDialogList.dfy`, `GroupList.dfy`, `UsersInfo.dfy`, `MsgList.dfy`, `Validation.dfy`,
  `GroupChangeMember.dfy` and `GroupCreateNormalGroup.dfy` are the messages, as classes whose methods follow
  the C++ ones; each is proved against its wire contents and then end to end, and the place of every field is
  stated in the bytes of the array, for what is written and for what is accepted. `GroupProjection.dfy` relates
  the two group lists: deleting the bytes of `group_updated` turns the one into the other.

**The dispatch** (`zaresd/`). `Dispatch.dfy` holds the handler thread, its manager and the connection handler
as objects. `LoadBalance.dfy` is the arithmetic of the wrapping ticket counter. `Interleavings.dfy` is the
transition system in which any number of reactors and workers take their steps in any order; after every
sequence of steps each packet is in exactly one place. `RunBalance.dfy` and `RunOrder.dfy` say how even the
loads are and in what order a session's tasks are run, over every run. `Coupling.dfy` ties the objects to the
system: each object method is one or two steps of it, and every run can be replayed on the objects.

What the model found where the code and its conventions part:

* `ValidateResponse` is serialized with its user when `result_` is 0 and parsed for a user when it is not
  (`proto/validate_response.cc:75` against `:85`). The parser therefore never reads the values that were sent
  (`AsWrittenNeverInverts`). When the result is 0 the unread user is taken for attach data, so the array is
  accepted exactly when the numeric user id is at most the number of bytes behind it. The parsing object keeps
  the user it had, so a message of the declared convention is restored exactly when its result is 0, the object
  already held the same user, and the bytes taken for attach data are the attach data (`RoundTripAsWritten`);
  for a user id of 0 the last means that there is none (`ZeroIdTakesNothing`). A new object is never restored
  to what was sent (`NeverIntoNew`). With the serializer's sense every message of the convention comes back.
* `GroupChangeMemberRequest` parses its first word into `req_user_id_` and overwrites it. A request is
  restored exactly when the receiving object already held its change type.
* `UserInfo.user_updated` is never on the wire (and `group_updated` not in `GroupListResponse`, nor the name
  in `ValidateResponse`). The round trips say so: such fields come back as a new record has them.
* `ByteSize` wraps. A buffer of exactly `ByteSize()` bytes takes a message if and only if its true size is
  below 2^32 (`ToBuffer`). `ValidateResponse::ByteSize` also counts a user that the serializer leaves out;
  it is exact under the declared convention and, for users of any size below 2^32, only then.
* Round robin is exact for ever if and only if the pool size divides 2^32 (`RoundRobinIff`), and the same
  condition decides whether loads stay within one packet of each other (`AlwaysFairIff`, `FairRunsIff`). For
  any other pool size each wrap of the counter can cost one packet of balance, and for every number of wraps
  there is a run over which it does (`WrapBoundIsSharp`, `BoundAttained`).
* A session's packets may overtake each other: every run keeps each session's arrival order if and only if
  there is one worker (`ArrivalOrderIff`). Within a worker the order of the draws is always kept.

Assumptions about code outside the repository: `net::ByteStream` writes words most significant byte first
and strings as a 32-bit length followed by their bytes; its failure flag is sticky; a read or write that does
not fit moves nothing and leaves its target as it was; parsing through a `const ByteStream&` still advances
it. `AtomicSequenceNumber::GetNext` starts at 0, returns the value before its increment and wraps at 32 bits.
A record made by `new GroupInfo()` and the like is zero-initialised, having no constructor of its own
(`proto/base_data.h:21-94`). A posted task enters its message loop's queue at the back, and the loop takes
tasks from the front. A connection belongs to one reactor, which handles one packet at a time. One connection handler object stands for
those of all connections, the session travelling with the packet.

## Model

The array and size macros (lines 321-379 of `proto/base_teamtalk_pdu.h`), the base `ByteSize` (its lines
240-242) and `PostDataToDbHandler` (`zaresd/zares_handler_thread_manager.cc`, lines 59-62) are cited below at
the lines that use them.

| member | source | states |
|---|---|---|
| WireFormat.DecodeEncode | proto/group_dialog_list_response.cc:22-70 | for every layout, parsing an encoding followed by any bytes gives the value back and stops exactly at its end |
| WireFormat.EncodeDecode | proto/users_info_response.cc:41-91 | whatever is accepted has the layout's type, and the bytes consumed are exactly its encoding |
| WireFormat.AcceptsExactlyEncodings | proto/msg_list_response.cc:22-32 | an input is accepted if and only if it starts with an encoding, and then the value and the bytes used are unique |
| WireFormat.PrefixRejected | proto/msg_list_response.cc:22-74 | every proper prefix of an encoding is rejected |
| WireFormat.EncodeInjective | proto/users_info_response.cc:58-73 | two values of a layout with the same bytes are the same value |
| WireFormat.DecodeConcat | proto/base_teamtalk_pdu.cc:307-316 | parsing two layouts in a row is parsing one and then the other on what is left, failing as soon as the first does |
| WireFormat.AcceptedCountIsBounded | proto/group_dialog_list_response.cc:56-62 | an accepted list has as many rows as its count, and that many times the least row size is covered by input bytes |
| WireFormat.RoundTrip | proto/group_dialog_list_response.cc:64-70 | every value whose true size is below 2^32 survives, although lengths and counts are cast to 32 bits |
| RawBytes.OrderOfBytes | proto/group_dialog_list_response.cc:23 | words compare as their four bytes do, from the first byte on |
| RawBytes.OnlyThisOrder | proto/group_dialog_list_response.cc:35 | no other order of the four bytes compares so |
| ByteStreams.ByteReader.ReadWord | proto/group_dialog_list_response.cc:23 | reads the sum of the next four bytes by their weights, 2^24 first, and passes them; fails exactly when fewer are left |
| ByteStreams.ByteReader.ReadString | proto/group_dialog_list_response.cc:24-25 | reads a length word and that many bytes behind it |
| ByteStreams.ByteWriter.WriteWord | proto/group_dialog_list_response.cc:35 | leaves at the cursor four bytes whose sum by their weights, 2^24 first, is the word; fails exactly when they do not fit |
| ByteStreams.ByteWriter.WriteString | proto/group_dialog_list_response.cc:36-37 | leaves a length word and the bytes behind it |
| TeamTalkPdu.ParseWords | proto/group_dialog_list_response.cc:29 | appends as many words as the count says whatever fails, agrees with the parser that stops at the first failure, and reads count and words at their places in the input |
| TeamTalkPdu.SerializeWords | proto/group_dialog_list_response.cc:41 | writes the count and then the words in order, four bytes each, at the cursor |
| TeamTalkPdu.AttachSits | proto/base_teamtalk_pdu.cc:318-327 | attach data lies right behind the body, as a length and its bytes |
| TeamTalkPdu.ContainerSizeWraps | proto/base_teamtalk_pdu.cc:380-382 | the container size is the encoded length modulo 2^32, and equals it exactly below 2^30 - 1 elements |
| TeamTalkPdu.ListSizeStep | proto/group_dialog_list_response.cc:51 | adding one element's 32-bit size to the 32-bit sum keeps it equal to the true sum modulo 2^32 |
| TeamTalkPdu.BaseTeamTalkPdu.ByteSize | proto/group_dialog_list_response.cc:49 | the base size is the encoded size of what trails the body, modulo 2^32, and 0 without attach data |
| TeamTalkPdu.BaseTeamTalkPdu.SetAttachData | proto/base_teamtalk_pdu.cc:349-361 | sets the attach data of every type but the one that carries none, whose wire contents stay unchanged |
| TeamTalkPdu.BaseTeamTalkPdu.GetAttachData | proto/base_teamtalk_pdu.cc:363-369 | returns exactly the string that trails the body, or nothing where nothing does |
| TeamTalkPdu.BaseTeamTalkPdu.ParseAttachData | proto/base_teamtalk_pdu.cc:307-316 | the result is true exactly when the eager parser accepts the body followed by the attach string; on failure the attach data is untouched |
| TeamTalkPdu.BaseTeamTalkPdu.SerializeAttachData | proto/base_teamtalk_pdu.cc:318-327 | the result is true exactly when body and attach string fit the buffer together |
| TeamTalkPdu.PduRoundTrip | proto/base_teamtalk_pdu.cc:307-327 | body and attach data of any message below 2^32 bytes are parsed back, whatever follows |
| TeamTalkPdu.PduPrefixRejected | proto/base_teamtalk_pdu.cc:307-316 | every truncated message is rejected |
| TeamTalkPdu.AttachIsATail | proto/base_teamtalk_pdu.cc:318-327 | messages that differ in attach data only share the encoded body, and the body's parser stops where the attach data starts |
| GroupDialogList.GroupSizeExact | proto/group_dialog_list_response.cc:12-20 | a group's 32-bit size is its encoded length modulo 2^32 |
| GroupDialogList.GroupFields | proto/group_dialog_list_response.cc:34-44 | the place of every field of a group in its bytes: id, name, avatar, type, creator, update time and members, in this order |
| GroupDialogList.ParseGroup | proto/group_dialog_list_response.cc:22-32 | fills a group, inner list included, as the eager parser would, with one test at the end; each field is what the input holds at its place |
| GroupDialogList.SerializeGroup | proto/group_dialog_list_response.cc:34-44 | leaves every field, inner list included, at its place behind the cursor and advances by the size of the group |
| GroupDialogList.ParseGroups | proto/group_dialog_list_response.cc:59 | appends as many groups as the count says, and agrees with the eager parser on the nested lists |
| GroupDialogList.SerializeGroups | proto/group_dialog_list_response.cc:67 | writes the list of groups, in order, as one wire item |
| GroupDialogList.GroupDialogListResponse.ByteSize | proto/group_dialog_list_response.cc:48-54 | the accumulated 32-bit size is the true encoded size modulo 2^32, for all messages |
| GroupDialogList.GroupDialogListResponse.ParseFromByteStream | proto/group_dialog_list_response.cc:56-62 | reads header and list, appending to the list the object already had |
| GroupDialogList.GroupDialogListResponse.SerializeToByteStream | proto/group_dialog_list_response.cc:64-70 | writes exactly the body's wire contents |
| GroupDialogList.GroupDialogListResponse.ParseFromArray | proto/base_teamtalk_pdu.cc:307-316 | accepts exactly what the eager parser accepts, with the values it gives; header, count, every group and the attach data are what the array holds at their places |
| GroupDialogList.GroupDialogListResponse.SerializeToArray | proto/base_teamtalk_pdu.cc:318-327 | succeeds exactly when the true size fits, leaves header, count, every group and the attach data at their places in the buffer and every byte behind them unchanged |
| GroupDialogList.RoundTrip | proto/group_dialog_list_response.cc:22-70 | serializing and parsing restores every field, every group in order, every member list and the attach data, exactly when the message fits |
| GroupDialogList.ToBuffer | proto/group_dialog_list_response.cc:48-70 | a buffer of ByteSize() bytes takes the message if and only if its true size is below 2^32 |
| GroupDialogList.Reserialize | proto/group_dialog_list_response.cc:22-70 | whatever array is accepted, serializing the parsed object reproduces the bytes consumed |
| GroupList.GroupFields | proto/group_list_response.cc:34-44 | the place of every field of a group in its bytes: id, name, avatar, type, creator and members, in this order |
| GroupList.ParseGroup | proto/group_list_response.cc:22-32 | fills a group as the eager parser would; each field is what the input holds at its place and groupUpdated stays 0 |
| GroupList.GroupListResponse.ByteSize | proto/group_list_response.cc:48-53 | the accumulated 32-bit size is the true encoded size modulo 2^32 |
| GroupList.RoundTrip | proto/group_list_response.cc:22-69 | the round trip restores everything but groupUpdated, which comes back as 0 |
| GroupList.Reserialize | proto/group_list_response.cc:22-69 | whatever array is accepted, serializing the parsed object reproduces the bytes consumed |
| GroupProjection.SameBytesIffAgree | proto/group_list_response.cc:34-44 | two group lists have the same bytes if and only if they differ in groupUpdated only |
| GroupProjection.DialogIsLonger | proto/group_dialog_list_response.cc:12-20 | with the same groups and attach data the dialog list is longer by exactly four bytes a group |
| GroupProjection.PlainIsDialogWithoutUpdated | proto/group_list_response.cc:34-44 | deleting the four bytes of groupUpdated from every record of an encoded dialog list, and nothing else, gives the encoded group list of the same groups |
| GroupProjection.AcceptedGroupsAreBounded | proto/group_dialog_list_response.cc:22-32 | an accepted dialog list pays 28 bytes of input for each group and 4 for each member of any group |
| UsersInfo.UserSizeExact | proto/users_info_response.cc:26-39 | the twelve-field size is the encoded length modulo 2^32 |
| UsersInfo.UserFields | proto/users_info_response.cc:58-73 | the place of each of the twelve fields of a user in its bytes |
| UsersInfo.ParseUser | proto/users_info_response.cc:41-56 | each of the twelve fields is what the input holds at its place; the update time stays 0 |
| UsersInfo.SerializeUser | proto/users_info_response.cc:58-73 | leaves each of the twelve fields at its place behind the cursor |
| UsersInfo.UsersInfoResponse.ByteSize | proto/users_info_response.cc:77-82 | the accumulated 32-bit size is the true encoded size modulo 2^32 |
| UsersInfo.UsersInfoResponse.ParseFromArray | proto/users_info_response.cc:85-91 | accepts exactly what the eager parser accepts; header, count, every user and the attach data are what the array holds at their places |
| UsersInfo.UsersInfoResponse.SerializeToArray | proto/users_info_response.cc:93-98 | succeeds exactly when the true size fits and leaves header, count, every user and the attach data at their places |
| UsersInfo.RoundTrip | proto/users_info_response.cc:41-98 | the round trip restores every user in order, save userUpdated |
| UsersInfo.Reserialize | proto/users_info_response.cc:41-98 | whatever array is accepted, serializing the parsed object reproduces the bytes consumed |
| MsgList.MsgListResponse.ByteSize | proto/msg_list_response.cc:48-53 | the accumulated 32-bit size is the true encoded size modulo 2^32, with the 8-bit message type |
| MsgList.MsgFields | proto/msg_list_response.cc:34-44 | the place of every field of a chat message in its bytes |
| MsgList.MsgListResponse.ParseFromByteStream | proto/msg_list_response.cc:56-64 | reads command, sender and receiver from the three words at the cursor and then the list, appending |
| MsgList.MsgListResponse.ParseFromArray | proto/msg_list_response.cc:56-64 | for every accepted array the words at 0, 4, 8 and 12 are command, sender, receiver and the number of messages appended, and every message and the attach data are at their places |
| MsgList.MsgListResponse.SerializeToArray | proto/msg_list_response.cc:66-74 | the same places hold the same in the buffer after a successful write |
| MsgList.RoundTrip | proto/msg_list_response.cc:22-74 | the round trip restores the header, every message in order and the attach data |
| MsgList.Reserialize | proto/msg_list_response.cc:22-74 | whatever array is accepted, serializing the parsed object reproduces the bytes consumed |
| Validation.ValidateResponse.ParseFromByteStream | proto/validate_response.cc:72-80 | as written: reads a user exactly when the result is not 0, and otherwise keeps the one it had |
| Validation.ValidateResponse.SerializeToByteStream | proto/validate_response.cc:82-89 | writes the user exactly when the result is 0 |
| Validation.UserFields | proto/validate_response.cc:46-61 | the place of each of the eleven fields of the user in its bytes |
| Validation.ValidateResponse.ParseFromArray | proto/validate_response.cc:72-80 | for either sense, name, result, the user if it is read and the attach data are what an accepted array holds at their places |
| Validation.ValidateResponse.SerializeToArray | proto/validate_response.cc:82-89 | name, result, the user exactly when the result is 0 and the attach data are left at their places |
| Validation.ValidateResponse.ByteSizeExact | proto/validate_response.cc:65-70 | the size is exact modulo 2^32 if the user is there exactly when the result is 0, and (for a user below 2^32 bytes) only then |
| Validation.ReadsSent | proto/validate_response.cc:72-89 | what a parser of either sense makes of the bytes the serializer wrote, for all values and all following bytes |
| Validation.AsWrittenNeverInverts | proto/validate_response.cc:75-87 | the parser as written never gives back what was sent; a sent user is left unread, 44 bytes at least |
| Validation.AsWrittenOnBodyAlone | proto/validate_response.cc:72-80 | on the body's own bytes the parser as written accepts exactly the messages with result 0, leaving the whole user unread |
| Validation.RoundTripAsWritten | proto/validate_response.cc:72-89 | end to end into any object: name and result come back; with result 0 the array is accepted if and only if the user id is at most the number of bytes behind it; a declared message is restored if and only if its result is 0, the object held its user, and the bytes taken for attach data are the attach data |
| Validation.NeverIntoNew | proto/validate_response.cc:72-89 | a new object ends with a user exactly when none was sent under the declared convention, so no declared message is restored into it |
| Validation.ReserializeIntended | proto/validate_response.cc:72-89 | with the serializer's sense, serializing whatever was accepted reproduces the bytes consumed |
| Validation.ReserializeAsWritten | proto/validate_response.cc:75-87 | with the parser as written the parsed message is always at least a whole user longer or shorter than the bytes consumed, so these are never reproduced |
| Validation.RoundTripIntended | proto/validate_response.h:37-38 | with the serializer's sense every message of the declared convention comes back, save the user's name and userUpdated |
| GroupChangeMember.GroupChangeMemberRequest.ByteSize | proto/group_change_member_request.h:26-32 | the size is the true encoded size modulo 2^32 |
| GroupChangeMember.GroupChangeMemberRequest.ParseFromByteStream | proto/group_change_member_request.cc:10-18 | as written: the first word is lost, changeType keeps its old value, the rest is read in order |
| GroupChangeMember.GroupChangeMemberRequest.SerializeToByteStream | proto/group_change_member_request.cc:20-28 | writes change type, requester, group and list |
| GroupChangeMember.GroupChangeMemberRequest.ParseFromArray | proto/group_change_member_request.cc:10-18 | requester, group, list and attach data are what an accepted array holds from its second word on; the first word is lost |
| GroupChangeMember.GroupChangeMemberRequest.SerializeToArray | proto/group_change_member_request.cc:20-28 | change type, requester, group, list and attach data are left at their places |
| GroupChangeMember.RoundTripAsWritten | proto/group_change_member_request.cc:10-28 | requester, group, list and attach data are restored; the whole request is, if and only if the receiving object already held its change type |
| GroupChangeMember.RoundTripIntended | proto/group_change_member_request.cc:20-28 | a parser in the serializer's order restores every field |
| GroupChangeMember.ReserializeAsWritten | proto/group_change_member_request.cc:10-28 | serializing whatever was accepted reproduces the bytes consumed if and only if their first word is the change type that the object held |
| GroupChangeMember.ReserializeIntended | proto/group_change_member_request.cc:20-28 | with the parser in the serializer's order they are always reproduced |
| GroupCreateNormalGroup.GroupCreateNormalGroupNotify.ByteSize | proto/group_create_normal_group_notify.h:26-32 | the size is the true encoded size modulo 2^32, without attach data |
| GroupCreateNormalGroup.GroupCreateNormalGroupNotify.ParseFromArray | proto/group_create_normal_group_notify.cc:10-19 | accepts exactly the arrays that start with a body, reads id, two names and list from their places, and never touches attach data |
| GroupCreateNormalGroup.GroupCreateNormalGroupNotify.SerializeToArray | proto/group_create_normal_group_notify.cc:21-30 | leaves id, two names and list at their places and writes nothing else |
| GroupCreateNormalGroup.RoundTrip | proto/group_create_normal_group_notify.h:15-16 | whatever attach data a caller tries to set, exactly the body is written and comes back |
| GroupCreateNormalGroup.Reserialize | proto/group_create_normal_group_notify.cc:10-19 | whatever array is accepted, serializing the parsed object reproduces the bytes consumed |
| LoadBalance.FairWithinTurn | zaresd/zares_handler_thread_manager.h:35-42 | over packets between two wraps no worker gets more than one packet more than another |
| LoadBalance.BlockVisitsAll | zaresd/zares_handler_thread_manager.h:35-42 | as many consecutive packets as there are workers visit each worker exactly once, between wraps |
| LoadBalance.FairAcrossWraps | zaresd/zares_handler_thread_manager.h:39-40 | over any window the loads differ by at most one plus the wraps of the 32-bit counter in it |
| LoadBalance.FairWhenDividing | zaresd/zares_handler_thread_manager.h:39-40 | over any window the loads differ by at most one if the pool size divides 2^32 |
| LoadBalance.RoundRobinIff | zaresd/zares_handler_thread_manager.h:39-40 | each packet goes to the worker after its predecessor's for ever if and only if the pool size divides 2^32 |
| LoadBalance.WrapBoundIsSharp | zaresd/zares_handler_thread_manager.h:39-40 | for every pool size that does not divide 2^32 and every number of wraps there is a window with that many wraps over which two loads differ by one plus the wraps |
| LoadBalance.AlwaysFairIff | zaresd/zares_handler_thread_manager.h:39-40 | over all windows any two loads differ by at most one if and only if the pool size divides 2^32 |
| Dispatch.HandlerThreadManager.GetNextThread | zaresd/zares_handler_thread_manager.h:35-42 | picks the worker of the ticket and advances the counter modulo 2^32, except that a pool of one draws no ticket |
| Dispatch.HandlerThreadManager.PostDataToDbHandler | zaresd/client_comm_handler.cc:58-59 | exactly the chosen worker gets the packet, at the back of its queue |
| Dispatch.HandlerThread.OnMessageDataHandler | zaresd/zares_handler_thread.cc:68-75 | takes the oldest task; if it parses it is dispatched and otherwise discarded, and nothing else changes |
| Dispatch.VerdictOf | proto/const_message_pdu_types.h:90-93 | a packet is a heartbeat if and only if its type is module 7 with command 1; of the rest those with a handler are accepted |
| Dispatch.ClientCommHandler.OnDataReceived | zaresd/client_comm_handler.cc:45-65 | a packet whose type is module 7 with command 1 is echoed, another without handler is rejected, and one with a handler is queued at the back of the drawn thread; nothing else changes |
| Coupling.Received | zaresd/client_comm_handler.cc:45-65 | on objects that hold a state of the transition system, OnDataReceived ends in the state reached by receiving the packet and, if it is accepted, posting it |
| Coupling.Worked | zaresd/zares_handler_thread.cc:68-75 | there OnMessageDataHandler ends in the state reached by one step of its worker |
| Coupling.Chosen | zaresd/zares_handler_thread_manager.h:35-42 | there GetNextThread alone ends in the state reached by receiving an accepted packet, its thread being the one about to be posted to |
| Coupling.Posted | zaresd/zares_handler_thread.cc:64-66 | there queueing the task at that thread ends in the state reached by posting |
| Coupling.Replay | zaresd/client_comm_handler.cc:45-65 | every run of the transition system, in any interleaving, is a sequence of calls on the objects that ends in the run's last state |
| Coupling.Delivered | zaresd/zares_handler_thread.cc:64-75 | so when no task waits, the thread objects have together dispatched each accepted packet that parses once, discarded each accepted one that does not once, and touched no other |
| Interleavings.Conserved | zaresd/zares_handler_thread.cc:64-75 | after any interleaving, what is echoed, rejected, being posted, queued, dispatched and discarded is together exactly what arrived, each packet once and unaltered |
| Interleavings.ExactlyOnce | zaresd/client_comm_handler.cc:55-63 | each arrival is echoed once if its type is module 7 with command 1, rejected once if it is another without handler, and otherwise is once among those being posted, queued, dispatched or discarded; dispatched only if it parses, discarded only if it does not |
| RunOrder.EchoedAndRejected | zaresd/client_comm_handler.cc:55-63 | after any interleaving, in order of arrival, echoed are exactly the packets of module 7 and command 1, and rejected exactly the others without handler |
| RunOrder.WorkersSeeOnlyAccepted | zaresd/client_comm_handler.cc:55-63 | whatever is being posted, queued, dispatched or discarded has a handler and is no heartbeat |
| Interleavings.Drained | zaresd/zares_handler_thread.cc:64-75 | once nothing is being posted or queued, every accepted packet has been dispatched exactly once if it parses and discarded exactly once if not, and no other packet has been either |
| RunBalance.Balanced | zaresd/zares_handler_thread_manager.h:35-42 | after any interleaving, over any window of accepted packets, two workers' loads differ by at most one plus the wraps, and by at most one if the pool divides 2^32 |
| RunBalance.BoundAttained | zaresd/zares_handler_thread_manager.h:39-40 | for every other pool size and every number of wraps there is a run and a window of it over which the loads differ by one plus the wraps |
| RunBalance.FairRunsIff | zaresd/zares_handler_thread_manager.h:39-40 | in every run all loads over all windows differ by at most one, if and only if the pool size divides 2^32 |
| RunOrder.AlwaysInOrder | zaresd/zares_handler_thread.cc:64-75 | for each session and worker: run, then queued, then being posted, is exactly what was drawn for that worker, in order |
| RunOrder.AlwaysSifted | zaresd/zares_handler_thread.cc:68-75 | in every run a worker's dispatched and discarded tasks are those it has run, in order, told apart by whether they parse |
| RunOrder.WorkersKeepDrawOrder | zaresd/zares_handler_thread.cc:64-75 | what a worker has dispatched of a session is an initial part of what was drawn for it and parses, in the order of the draws, and all of it once nothing waits |
| RunOrder.OneWorkerKeepsArrivalOrder | zaresd/zares_handler_thread_manager.h:36-37 | with one worker each session's accepted packets that parse are dispatched in order of arrival, and all of them once nothing waits |
| RunOrder.ArrivalOrderIff | zaresd/zares_handler_thread_manager.h:36-41 | every run handles every session's accepted packets in order of arrival, over all workers, if and only if there is one worker |

## Left out

- Records (GroupInfo, UserInfo, ServerMsg) are values: the lists of pointers to them become sequences, so two list entries that are the same object, and changing an element through its pointer, are not modelled.
- AllUserResponse: its record codec and list codec are line for line those of UsersInfoResponse, so its model would be the same class under another name.
- DepartmentResponse, FileHasOfflineRes, GroupMsgListResponse, GroupUserListResponse, MsgData, UserActionLog and the flat messages: further instances of the same laws.
- Inheritance: the base class is a component of each message, and each message repeats the two short framing methods instead of inheriting them.
- GroupDialogList.GroupDialogListResponse.ParseFromByteStream: does not state the fields of a message whose parse failed, beyond the old list staying at the front.
- ByteStreams: net::ByteStream is not part of this repository; the two classes state what the messages rely on, and the contents of a buffer after a failed write are stated only from the buffer's end on.
- The assertion that aborts debug builds when attach data is set on a type without it: the release behaviour is modelled.
- The reserved header word, message types of the messages and the message factory: outside the body. The handler table is an arbitrary set of message types, fixed while packets arrive.
- Socket input and output, the reactor, session lookup, logging, configuration, timers, thread start and stop, and reference counting: library calls. A heartbeat is modelled as recorded for echo.
- MutableAttachData (`proto/base_teamtalk_pdu.cc:371-377`): it returns a pointer into the object, and values have none.
- Validation.ReserializeAsWritten: says nothing of a parsed message with result 0 and no user, for which the serializer would dereference a null pointer.
- One connection handler stands for those of all connections; which connection a heartbeat is echoed to is the session in the packet.
- Whether a packet parses is an arbitrary predicate in the dispatch; the handlers behind it and their database access are not modelled.
- attach_data.cc: its attach-data classes are not used by the message layer, which carries attach data as an opaque string.
- The code under `#if 0` in proto/base_teamtalk_pdu.cc and proto/base_teamtalk_pdu.h.
