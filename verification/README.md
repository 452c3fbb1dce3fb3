# Messages and worker pool of the IM server

This project models the two parts of the server that carry its correctness, and proves what they promise.

## The wire codec of the five messages

`server/IM.User.Msg.pb.cc` and `.pb.h` hold, for each message, a parse loop that dispatches on tags, a serializer, a
size computation with a fast and a slow path, and merge, copy, clear and swap, all around a word of has-bits whose bit
order is not the field order. The model has two levels.

* `Varint`, `Wire`, `Messages`: the format on values. A message is the map of its present fields and the list of the
  records no field recognised. Reading, absorbing, merging and writing are functions, for any schema whose field
  numbers are below 16 and whose fields are all required; the schemas of the five messages are four constants, as
  `IMRspMsg` and `IMQuestionMsg` declare the same numbers and wire types (a string and a bytes field travel alike).
  `WireTheorems` and `Codec` hold the laws: round trip, last record wins, merging by concatenation, truncation, normal
  form, all for every schema.
  `WireBytes` says the same in literal numbers, byte by byte, with worked examples.
* `WireIO`, `ParseLoop`, `RegisterReq`, `LoginReq`, `RspMsg`, `InsertMsg`: the code. Each message is a class with
  its fields, has-bits, unknown list and cached size; its methods follow the branches of the source and are proved to
  compute the functions of the first level, through `View()`, the message as a value. `Valid()` is the hidden invariant
  that the optimised `Clear` rests on: a field whose bit is clear holds its default. `RegisterRuns` puts the methods
  together.

The readers and writers of the protobuf runtime that the generated code calls are not part of the repository. They are
written here as byte loops after the Protocol Buffers "Encoding" guide, sections "Base 128 Varints", "Message
Structure", "Signed Integers", "Length-Delimited Records", "Last One Wins" and "Groups".

When a parse fails the loop goes through `success:` and still stores the bits it has collected
(`server/IM.User.Msg.pb.cc:377-382`). What that leaves is a function of the input, but for one value: the complete
records before the failure have all been absorbed; if the tag after them is that of a field, this field is present
and its value is left open; otherwise no field changes, and at most one record with the number of that tag is left in
the unknown list. The contract of `InternalParse` says so (`Torn` in `ParseLoop`), and that the invariant is kept.

## The worker pool

`server/threadpoll.cpp` is a mutex, a condition variable and a first-in first-out list, with n workers, any number of
appenders and a thread that constructs and destroys the pool. `Pool` models it as a step relation with a program
counter for every thread; a step is one access to shared state, so every interleaving is a run. `_running` is read and
written sequentially consistently. Histories of the pushes, the pops and the calls of `Task` make the theorems of
`PoolSafety`, `PoolShutdown`, `PoolJoin`, `PoolClose` and `PoolWakes` statements about whole runs. The steps model
these lines: `Spawn` and `SetControl` 8-13, `ReadFlag`, `ClearFlag`, `NotifyAll` and `Join` 18-24, `LockToPush`, `Push`, `UnlockPushed` and
`NotifyOne` 34-37, `Check` 45, `Lock` 51, `Test` 52-54, `Relock` 54, `Retest` 57-67, `Unlock` 68, `CallTask` and
`Return` 70. `Spurious` is an optional extra step. The invariants hold with it; the theorems of `PoolShutdown` from
`TailDecreases` on, of `PoolJoin` and of `PoolClose` are about schedules without it, and those of `PoolWakes` say in
each case what it changes.

`PoolTrace` tells the pool a second time, without any state: for each thread, after which of its own statements the next
one may come, given what it read there, and what was pushed, taken and called, all read off the list of steps. It is
proved that the runs of the step relation are exactly the lists of steps allowed in this way.

Two details of the source are modelled as written, not as meant:

* `continue` at line 66 sits inside `do ... while (0)` and leaves only that loop. A worker that wakes to an empty queue
  goes on to call `Task` with an empty pair. `EmptyHandedIff` and `EmptyWakesBounded` say when and how often.
* The destructor clears `_running` and notifies without holding `_mtx`. A worker between its read of `_running` and its
  wait misses the notification and, if it does not wake spuriously, `join` never returns. `DestructorCanHang` gives such
  a state. `DestructorSafeIff` is the exact answer at the moment the destructor is called, `DestructorReturnsIff` the
  one after notify_all, and `Shutdown` says which workers end up parked.

Two more promises hold under a condition only. `Clear` gives the default message unless a string was written through a
pointer that was kept across the clearing of its field (`Perform`, `LateWriteSurvivesClear`). `Task` finds `_control`
set unless a worker wakes spuriously while the constructor still runs (`ControlSetBeforeTask`, `EarlyCallIff`).

## Model

| member | source | states |
|---|---|---|
| `RegisterReq.IMRegisterReq.constructor` | server/IM.User.Msg.pb.cc:267-274 | a new request holds the default of every field, no has-bit and no unknown record |
| `RegisterReq.IMRegisterReq.Switch` | server/IM.User.Msg.pb.cc:326-366 | the switch on the field number with its low-byte test goes to field n exactly on the tag of n with its own wire type; every other tag, known numbers with a wrong wire type included, goes to `handle_unusual` |
| `RegisterReq.IMRegisterReq.ParseField` | server/IM.User.Msg.pb.cc:322-375 | one turn of the loop does to the message what the next item of the input says: absorb one record, leave at an end tag, or fail and spoil at most the field whose tag was read |
| `RegisterReq.IMRegisterReq.InternalParse` | server/IM.User.Msg.pb.cc:319-384 | on every input and from every message: the loop ends the way the format says; unless it failed, fields, has-bits and unknown list are those of the value-level parse and `ptr` is where it stopped; on failure all complete records are absorbed and at most the field whose tag comes next is spoiled, its has-bit set; the invariant, if it held, survives |
| `RegisterReq.IMRegisterReq.InternalSerialize` | server/IM.User.Msg.pb.cc:386-431 | the output is the encoding of the present fields in field-number order followed by the unknown records |
| `RegisterReq.IMRegisterReq.RequiredFieldsByteSizeFallback` | server/IM.User.Msg.pb.cc:433-466 | for every mask, the length of the encoding of the present fields |
| `RegisterReq.IMRegisterReq.ByteSizeLong` | server/IM.User.Msg.pb.cc:467-506 | on both paths the total is the exact length of the serialization; the cached int equals it below 2^31 and is its low 32 bits otherwise |
| `RegisterReq.IMRegisterReq.Clear` | server/IM.User.Msg.pb.cc:295-317 | resetting only what the has-bits name gives exactly the default message if and only if every field out of its reach already held its default, which the invariant guarantees |
| `RegisterReq.IMRegisterReq.MergeFrom` | server/IM.User.Msg.pb.cc:523-548 | whatever the two messages hold, the result is their merge and the source is untouched; the invariant is kept if it held |
| `RegisterReq.IMRegisterReq.CopyFrom` | server/IM.User.Msg.pb.cc:557-562 | from any prior state the target is the same message as the source, unknown records included; where both kept the invariant every stored field is equal too; copying from itself changes nothing |
| `RegisterReq.IMRegisterReq.IsInitialized` | server/IM.User.Msg.pb.cc:564-567 | true if and only if every required field is present |
| `RegisterReq.IMRegisterReq.InternalSwap` | server/IM.User.Msg.pb.cc:569-580 | the two messages are exchanged, each with its invariant; the cached sizes stay |
| `RegisterReq.IMRegisterReq.SetId` | server/IM.User.Msg.pb.h:1011-1018 | the message with that one field set, nothing else changed; the invariant is kept if it held |
| `RegisterReq.IMRegisterReq.ClearId` | server/IM.User.Msg.pb.h:1000-1003 | the message without that field, nothing else changed; the invariant is kept if it held |
| `RegisterReq.IMRegisterReq.SetType` | server/IM.User.Msg.pb.h:1181-1188 | the message with that one field set, nothing else changed; the invariant is kept if it held |
| `RegisterReq.IMRegisterReq.ClearType` | server/IM.User.Msg.pb.h:1170-1173 | the message without that field, nothing else changed; the invariant is kept if it held |
| `RegisterReq.IMRegisterReq.SetName` | server/IM.User.Msg.pb.h:1036-1050 | the message with that one field set, nothing else changed |
| `RegisterReq.IMRegisterReq.ClearName` | server/IM.User.Msg.pb.h:1028-1031 | the message without that field, nothing else changed |
| `RegisterReq.IMRegisterReq.MutableName` | server/IM.User.Msg.pb.h:1069-1072 | an absent string becomes present and empty; a present one is handed out unchanged |
| `RegisterReq.IMRegisterReq.WriteThroughName` | server/IM.User.Msg.pb.h:1069-1072 | a write through the pointer handed out at any earlier time stores the string, is seen only while the bit is set, and keeps the invariant if and only if the bit is set or the string is empty |
| `RegisterReq.IMRegisterReq.ReleaseName` | server/IM.User.Msg.pb.h:1073-1080 | gives the string if it was present and nothing otherwise; the field is absent afterwards |
| `RegisterReq.IMRegisterReq.SetAllocatedName` | server/IM.User.Msg.pb.h:1081-1089 | sets the field to the string given, or removes it when given none |
| `RegisterReq.IMRegisterReq.SetPasswd` | server/IM.User.Msg.pb.h:1107-1121 | the message with that one field set, nothing else changed |
| `RegisterReq.IMRegisterReq.ClearPasswd` | server/IM.User.Msg.pb.h:1099-1102 | the message without that field, nothing else changed |
| `RegisterReq.IMRegisterReq.MutablePasswd` | server/IM.User.Msg.pb.h:1140-1143 | an absent string becomes present and empty; a present one is handed out unchanged |
| `RegisterReq.IMRegisterReq.WriteThroughPasswd` | server/IM.User.Msg.pb.h:1140-1143 | a write through the pointer handed out at any earlier time stores the string, is seen only while the bit is set, and keeps the invariant if and only if the bit is set or the string is empty |
| `RegisterReq.IMRegisterReq.ReleasePasswd` | server/IM.User.Msg.pb.h:1144-1151 | gives the string if it was present and nothing otherwise; the field is absent afterwards |
| `RegisterReq.IMRegisterReq.SetAllocatedPasswd` | server/IM.User.Msg.pb.h:1152-1160 | sets the field to the string given, or removes it when given none |
| `RegisterReq.SameFields` | server/IM.User.Msg.pb.cc:295-317 | under the has-bit invariant a message, as a value, determines every stored field and bit |
| `RegisterReq.MergeFields` | server/IM.User.Msg.pb.cc:530-547 | taking each field from the second message where its bit is set and from the first elsewhere is merging them, and keeps the invariant |
| `RegisterReq.Layout` | server/IM.User.Msg.pb.cc:392-423 | what the written message looks like: each present field in field-number order though bits 1 and 2 are in the other order |
| `RegisterRuns.Perform` | server/IM.User.Msg.pb.h:1000-1188 | every operation on a request, late writes through a kept pointer included, has its effect on the two messages as values, and keeps the has-bit invariant of both if and only if it meets its guard: a late write needs the bit set or an empty string |
| `RegisterRuns.PerformAll` | server/IM.User.Msg.pb.h:1000-1188 | a run of any operations ends with the invariant when each late write met its guard; the run is given by what both messages were after each operation |
| `RegisterRuns.ClearAfterAnyRun` | server/IM.User.Msg.pb.cc:295-317 | after such a run of accessors, merges, copies, swaps, clears and parses, failed ones included, `Clear` leaves exactly the default message |
| `RegisterRuns.LateWriteSurvivesClear` | server/IM.User.Msg.pb.cc:302-309 | the smallest run that misses the guard: a string written through a pointer kept across `clear_name` survives `Clear` and comes back as the value of the field |
| `RegisterRuns.SerializeThenParse` | server/IM.User.Msg.pb.cc:319-431 | serializing one request and parsing the bytes into any other cleared one gives the same message; under the invariant every stored field and has-bit is the same |
| `RegisterRuns.ParseBothOrMerge` | server/IM.User.Msg.pb.cc:523-548 | parsing two serializations one after the other gives the same message as `MergeFrom` |
| `LoginReq.SameFields` | server/IM.User.Msg.pb.cc:650-667 | under the has-bit invariant a message, as a value, determines every stored field and bit |
| `LoginReq.SerializeThenParse` | server/IM.User.Msg.pb.cc:669-760 | serializing a message and parsing the bytes into any other cleared one gives the same message; under the invariant every stored field and has-bit is the same |
| `LoginReq.ParseBothOrMerge` | server/IM.User.Msg.pb.cc:840-861 | parsing two serializations one after the other gives the same message as `MergeFrom` |
| `LoginReq.IMLoginReq.constructor` | server/IM.User.Msg.pb.cc:624-630 | a new message is the default message |
| `LoginReq.IMLoginReq.Switch` | server/IM.User.Msg.pb.cc:676-705 | each tag goes to the field it belongs to, all others to `handle_unusual` |
| `LoginReq.IMLoginReq.ParseField` | server/IM.User.Msg.pb.cc:672-714 | one turn of the loop does to the message what the next item of the input says |
| `LoginReq.IMLoginReq.InternalParse` | server/IM.User.Msg.pb.cc:669-723 | the parse loop computes the value-level parse for this schema on every input; on failure all complete records are absorbed and at most the field whose tag comes next is spoiled; the invariant is kept |
| `LoginReq.IMLoginReq.InternalSerialize` | server/IM.User.Msg.pb.cc:725-760 | the output is the encoding of the present fields in order, then the unknown records |
| `LoginReq.IMLoginReq.RequiredFieldsByteSizeFallback` | server/IM.User.Msg.pb.cc:762-788 | the length of the encoding of the present fields, for every mask |
| `LoginReq.IMLoginReq.ByteSizeLong` | server/IM.User.Msg.pb.cc:789-823 | the exact length of the serialization on both paths, and what is cached of it |
| `LoginReq.IMLoginReq.Clear` | server/IM.User.Msg.pb.cc:650-667 | leaves exactly the default message if and only if every field out of reach held its default |
| `LoginReq.IMLoginReq.MergeFrom` | server/IM.User.Msg.pb.cc:840-861 | whatever the two messages hold, the result is their merge |
| `LoginReq.IMLoginReq.CopyFrom` | server/IM.User.Msg.pb.cc:870-875 | the target is the same message as the source whatever it held before, and field by field where both kept the invariant |
| `LoginReq.IMLoginReq.IsInitialized` | server/IM.User.Msg.pb.cc:877-880 | true if and only if every required field is present |
| `LoginReq.IMLoginReq.InternalSwap` | server/IM.User.Msg.pb.cc:882-890 | the two messages are exchanged |
| `RspMsg.SameFields` | server/IM.User.Msg.pb.cc:954-967 | under the has-bit invariant a message, as a value, determines every stored field and bit |
| `RspMsg.SerializeThenParse` | server/IM.User.Msg.pb.cc:969-1039 | serializing a message and parsing the bytes into any other cleared one gives the same message; under the invariant every stored field and has-bit is the same |
| `RspMsg.ParseBothOrMerge` | server/IM.User.Msg.pb.cc:1107-1125 | parsing two serializations one after the other gives the same message as `MergeFrom` |
| `RspMsg.IMRspMsg.constructor` | server/IM.User.Msg.pb.cc:930-934 | a new message is the default message |
| `RspMsg.IMRspMsg.Switch` | server/IM.User.Msg.pb.cc:976-994 | each tag goes to the field it belongs to, all others to `handle_unusual` |
| `RspMsg.IMRspMsg.ParseField` | server/IM.User.Msg.pb.cc:972-1003 | one turn of the loop does to the message what the next item of the input says |
| `RspMsg.IMRspMsg.InternalParse` | server/IM.User.Msg.pb.cc:969-1012 | the parse loop computes the value-level parse for this schema on every input; on failure all complete records are absorbed and at most the field whose tag comes next is spoiled; the invariant is kept |
| `RspMsg.IMRspMsg.InternalSerialize` | server/IM.User.Msg.pb.cc:1014-1039 | the output is the encoding of the present fields in order, then the unknown records |
| `RspMsg.IMRspMsg.RequiredFieldsByteSizeFallback` | server/IM.User.Msg.pb.cc:1041-1060 | the length of the encoding of the present fields, for every mask |
| `RspMsg.IMRspMsg.ByteSizeLong` | server/IM.User.Msg.pb.cc:1061-1090 | the exact length of the serialization on both paths, and what is cached of it |
| `RspMsg.IMRspMsg.Clear` | server/IM.User.Msg.pb.cc:954-967 | leaves exactly the default message if and only if every field out of reach held its default |
| `RspMsg.IMRspMsg.MergeFrom` | server/IM.User.Msg.pb.cc:1107-1125 | whatever the two messages hold, the result is their merge |
| `RspMsg.IMRspMsg.CopyFrom` | server/IM.User.Msg.pb.cc:1134-1139 | the target is the same message as the source whatever it held before, and field by field where both kept the invariant |
| `RspMsg.IMRspMsg.IsInitialized` | server/IM.User.Msg.pb.cc:1141-1144 | true if and only if every required field is present |
| `RspMsg.IMRspMsg.InternalSwap` | server/IM.User.Msg.pb.cc:1146-1153 | the two messages are exchanged |
| `InsertMsg.SameFields` | server/IM.User.Msg.pb.cc:1487-1504 | under the has-bit invariant a message, as a value, determines every stored field and bit |
| `InsertMsg.SerializeThenParse` | server/IM.User.Msg.pb.cc:1506-1590 | serializing a message and parsing the bytes into any other cleared one gives the same message; under the invariant every stored field and has-bit is the same |
| `InsertMsg.ParseBothOrMerge` | server/IM.User.Msg.pb.cc:1670-1691 | parsing two serializations one after the other gives the same message as `MergeFrom` |
| `InsertMsg.IMInsertMsg.constructor` | server/IM.User.Msg.pb.cc:1461-1467 | a new message is the default message |
| `InsertMsg.IMInsertMsg.Switch` | server/IM.User.Msg.pb.cc:1513-1539 | each tag goes to the field it belongs to, all others to `handle_unusual` |
| `InsertMsg.IMInsertMsg.ParseField` | server/IM.User.Msg.pb.cc:1509-1548 | one turn of the loop does to the message what the next item of the input says |
| `InsertMsg.IMInsertMsg.InternalParse` | server/IM.User.Msg.pb.cc:1506-1557 | the parse loop computes the value-level parse for this schema on every input; on failure all complete records are absorbed and at most the field whose tag comes next is spoiled; the invariant is kept |
| `InsertMsg.IMInsertMsg.InternalSerialize` | server/IM.User.Msg.pb.cc:1559-1590 | the output is the encoding of the present fields in order, then the unknown records |
| `InsertMsg.IMInsertMsg.RequiredFieldsByteSizeFallback` | server/IM.User.Msg.pb.cc:1592-1618 | the length of the encoding of the present fields, for every mask |
| `InsertMsg.IMInsertMsg.ByteSizeLong` | server/IM.User.Msg.pb.cc:1619-1653 | the exact length of the serialization on both paths, and what is cached of it |
| `InsertMsg.IMInsertMsg.Clear` | server/IM.User.Msg.pb.cc:1487-1504 | leaves exactly the default message if and only if every field out of reach held its default |
| `InsertMsg.IMInsertMsg.MergeFrom` | server/IM.User.Msg.pb.cc:1670-1691 | whatever the two messages hold, the result is their merge |
| `InsertMsg.IMInsertMsg.CopyFrom` | server/IM.User.Msg.pb.cc:1700-1705 | the target is the same message as the source whatever it held before, and field by field where both kept the invariant |
| `InsertMsg.IMInsertMsg.IsInitialized` | server/IM.User.Msg.pb.cc:1707-1710 | true if and only if every required field is present |
| `InsertMsg.IMInsertMsg.InternalSwap` | server/IM.User.Msg.pb.cc:1712-1720 | the two messages are exchanged |
| `Codec.LastRecordWins` | server/IM.User.Msg.pb.cc:322-378 | each field holds the payload of its last correctly typed record, or what it held before; a field is present iff it was or such a record occurred; all other records are appended to the unknown list in order |
| `Codec.LastExists` | server/IM.User.Msg.pb.cc:326-364 | a field has a last record exactly when some record has its number and its wire type |
| `Codec.AbsorbAppend` | server/IM.User.Msg.pb.cc:322-376 | absorbing two runs of records one after the other is absorbing their concatenation |
| `Codec.AbsorbMerges` | server/IM.User.Msg.pb.cc:523-548 | absorbing the records of a message is merging it |
| `Codec.ParseConcat` | server/IM.User.Msg.pb.cc:322-379 | parsing a ++ b is parsing b into the result of parsing a, when a ends on a record boundary |
| `Codec.ParseSerialized` | server/IM.User.Msg.pb.cc:319-431 | parsing a serialized message into any other message is merging it |
| `Codec.RoundTrip` | server/IM.User.Msg.pb.cc:319-431 | parsing a serialization from default consumes all of it, and gives the message back if and only if its unknown list holds no record one of its own fields recognises |
| `Codec.ConcatenationMerges` | server/IM.User.Msg.pb.cc:523-548 | concatenated serializations parse to the merge, unknown records included |
| `Codec.MergeIdentity` | server/IM.User.Msg.pb.cc:523-548 | the default message is a left and right identity of merging |
| `Codec.MergeAssociative` | server/IM.User.Msg.pb.cc:523-548 | merging is associative |
| `Codec.ParseFits` | server/IM.User.Msg.pb.cc:365-379 | whatever the input, what was parsed can be serialized, and its unknown list holds no recognisable record |
| `Codec.NormalForm` | server/IM.User.Msg.pb.cc:365-431 | for every input, over-long varints, duplicates and any record order included, re-serializing and parsing again changes nothing |
| `Codec.SerializeInjective` | server/IM.User.Msg.pb.cc:386-431 | messages a parse can produce serialize alike only if they are equal |
| `Codec.AbsorbSame` | server/IM.User.Msg.pb.cc:322-378 | two record lists leave the same message if and only if their last records and their leftovers agree |
| `Codec.SameNormalForm` | server/IM.User.Msg.pb.cc:365-431 | two inputs re-serialize to identical bytes if and only if their last records and their unknown sequences agree |
| `Codec.InitializedIff` | server/IM.User.Msg.pb.cc:564-567 | parsing from default initializes the message iff the input holds a correctly typed record of every required field; holds for all schemas |
| `Codec.PrefixInitializes` | server/IM.User.Msg.pb.cc:564-567 | the first j written records initialize the message iff j covers all required fields |
| `Codec.Truncation` | server/IM.User.Msg.pb.cc:386-431 | a prefix of a serialization parses to an initialized message iff it is cut between records after the last required field; without unknown records no proper prefix does |
| `Codec.SerializeSplits` | server/IM.User.Msg.pb.cc:392-428 | the known part and the unknown part of the output are independent |
| `Codec.FieldSize` | server/IM.User.Msg.pb.cc:438-463 | a field takes one byte of tag plus the size of its payload |
| `WireTheorems.AllReadSound` | server/IM.User.Msg.pb.cc:322-383 | every turn of the loop uses at least one byte and never reads past the end, so there are at most as many turns as bytes; it stops early only on failure or on a zero or end-group tag; every record read could have been written |
| `WireTheorems.AllExtend` | server/IM.User.Msg.pb.cc:322-376 | bytes after a record boundary never change how what comes before is read |
| `WireTheorems.RecordRoundTrip` | server/IM.User.Msg.pb.cc:425-428 | a written record, nested groups included, is read back whatever follows it |
| `WireTheorems.AllRoundTrip` | server/IM.User.Msg.pb.cc:425-428 | a written record list is read back whatever follows it |
| `WireTheorems.RecordTruncated` | server/IM.User.Msg.pb.cc:366-373 | a record cut anywhere before its end is malformed |
| `WireTheorems.AllTruncated` | server/IM.User.Msg.pb.cc:366-376 | a cut record list reads as its complete records, and succeeds only when cut between records |
| `WireTheorems.WriteAllInjective` | server/IM.User.Msg.pb.cc:425-428 | the encoding of a record list determines the list |
| `ParseLoop.Advance` | server/IM.User.Msg.pb.cc:322-383 | one turn advances the parse of the whole input: it continues strictly further on, ends it at a tag, or fails it |
| `ParseLoop.ReadInt32Field` | server/IM.User.Msg.pb.cc:339-345 | the int32 branch: a 64-bit varint stored into an int32, or a failure that spoils that field only |
| `ParseLoop.ReadBlobField` | server/IM.User.Msg.pb.cc:328-337 | the string branch: a length-delimited payload, or a failure that spoils that field only |
| `ParseLoop.HandleUnusual` | server/IM.User.Msg.pb.cc:365-374 | end tags leave the loop; every other record is kept unknown |
| `WireIO.ReadVarint` | server/IM.User.Msg.pb.cc:324 | the byte loop reads exactly the varint of the format, within its byte limit |
| `WireIO.ReadTagAt` | server/IM.User.Msg.pb.cc:324 | a tag is a varint of at most five bytes |
| `WireIO.ReadVarint64At` | server/IM.User.Msg.pb.cc:342 | an integer is a varint of at most ten bytes, modulo 2^64 |
| `WireIO.InlineGreedyStringParser` | server/IM.User.Msg.pb.cc:331 | a length and that many bytes, or failure when they are not there |
| `WireIO.UnknownFieldParse` | server/IM.User.Msg.pb.cc:371 | adds exactly the record after the tag, whatever its wire type, nested groups included |
| `WireIO.ParseUnknownSet` | server/IM.User.Msg.pb.cc:371 | the record loop inside a group computes the value-level reading |
| `WireIO.WriteVarint` | server/IM.User.Msg.pb.cc:406 | the byte loop appends the encoding |
| `WireIO.WriteInt32ToArray` | server/IM.User.Msg.pb.cc:406 | appends the record of an int32 field, sign-extended to 64 bits |
| `WireIO.WriteStringMaybeAliased` | server/IM.User.Msg.pb.cc:399-400 | appends the record of a string field |
| `WireIO.InternalSerializeUnknownFieldsToArray` | server/IM.User.Msg.pb.cc:426-427 | appends the encoding of the unknown records, groups included, in order |
| `WireIO.StringSize` | server/IM.User.Msg.pb.cc:440-441 | length prefix plus bytes |
| `WireIO.ComputeUnknownFieldsSize` | server/IM.User.Msg.pb.cc:499-502 | the length of what the unknown records are written as |
| `Varint.Conversions` | server/IM.User.Msg.pb.cc:339-345 | an int32 is sent as its value modulo 2^64, and every 64-bit pattern, sign extension or not, is stored as its value modulo 2^32 |
| `Varint.NegativeBytes` | server/IM.User.Msg.pb.cc:406 | the payload of a negative int32 is ten bytes: 255 at indices 5 to 8 and 1 at index 9; for -1, nine 255 and a 1 |
| `Varint.EncodeSpells` | server/IM.User.Msg.pb.cc:403-407 | the bytes of an encoding spell the number to base 128, all but the last are marked, and none is superfluous |
| `Varint.DecodeEnds` | server/IM.User.Msg.pb.cc:324 | reading succeeds iff an unmarked byte comes within the limit |
| `Varint.DecodeSpells` | server/IM.User.Msg.pb.cc:324 | it ends at the first unmarked byte and yields what the bytes up to there spell |
| `WireBytes.RecordBytes` | server/IM.User.Msg.pb.cc:399-427 | each kind of record begins with eight times its number plus 0, 1, 2, 3 or 5, and a group ends with 4 in that place |
| `WireBytes.FirstByte` | server/IM.User.Msg.pb.cc:399-422 | for numbers below 16 that is the first byte |
| `WireBytes.TagBytes` | server/IM.User.Msg.pb.cc:324 | a tag ends within five bytes and is what they spell, modulo 2^32 |
| `WireBytes.NumberBytes` | server/IM.User.Msg.pb.cc:342 | an integer ends within ten bytes and is what they spell, modulo 2^64 |
| `WireBytes.StringBytes` | server/IM.User.Msg.pb.cc:331 | a string is read iff its length ends within five bytes, is below 2 GiB, and that many bytes follow |
| `WireBytes.PayloadByType` | server/IM.User.Msg.pb.cc:371 | for each value of the low three bits of a tag: an integer, eight bytes, a string, a group up to its own end tag, four bytes, or failure |
| `WireBytes.ItemByTag` | server/IM.User.Msg.pb.cc:323-374 | what the loop meets: a malformed tag, a zero or end-group tag, the number 0, or a record of that number |
| `WireBytes.GuideExamples` | server/IM.User.Msg.pb.cc:386-431 | the byte strings of the Encoding guide for the integer 150 and the string "testing", and an unknown four-byte field |
| `WireBytes.ErrorResponse` | server/pdu.h:24 | the bytes of the response the server sends on an error, with return value -1 |
| `Varint.DecodeEncode` | server/IM.User.Msg.pb.cc:322-342 | a varint is read back whatever follows it |
| `Varint.DecodeTruncated` | server/IM.User.Msg.pb.cc:322-345 | no proper prefix of an encoding is a varint |
| `Varint.EncodeLength` | server/IM.User.Msg.pb.cc:454-462 | an encoding has as many bytes as the value has base-128 digits |
| `Varint.Int32SizeAgrees` | server/IM.User.Msg.pb.cc:454-462 | the size function agrees with the encoder: ten bytes exactly for negative values, one to five for the others |
| `Varint.Int32RoundTrip` | server/IM.User.Msg.pb.cc:339-345 | every int32 written as the varint of its 64-bit sign extension and stored back into an int32 is unchanged |
| `PoolSafety.InvReachable` | server/threadpoll.cpp:4-73 | every reachable state of any number of workers and appenders keeps mutual exclusion, the life cycle of threads and flags, conservation and hand ownership |
| `PoolSafety.ExclusionStep` | server/threadpoll.cpp:34-35 | every step keeps that exactly the thread recorded in the lock is in its critical section |
| `PoolSafety.ConservationAndOrder` | server/threadpoll.cpp:34-62 | over all interleavings the pairs appended, in lock order, are the pairs popped in lock order followed by the queue |
| `PoolSafety.EachTaskOnce` | server/threadpoll.cpp:57-70 | every popped pair is in the hand of the worker that popped it or was passed to `Task` by it, never both, never twice |
| `PoolSafety.WorkConservation` | server/threadpoll.cpp:29-73 | min(queued, workers) is at most the workers not parked plus the appenders between push and notify_one |
| `PoolSafety.QuietMeansParked` | server/threadpoll.cpp:29-73 | there is no deadlock: when nothing can go on each worker is parked or has exited and no append is under way |
| `PoolSafety.NoForgottenTask` | server/threadpoll.cpp:29-73 | a running pool never comes to rest with a queued task |
| `PoolShutdown.BoundedTail` | server/threadpoll.cpp:45-70 | once `_running` is cleared each worker starts at most one more `Task`, at most n in all |
| `PoolShutdown.LeftoverIsSuffix` | server/threadpoll.cpp:16-27 | when all workers have exited the leftover queue is exactly the suffix of the appended pairs that was never passed to `Task` |
| `PoolShutdown.TailDecreases` | server/threadpoll.cpp:16-27 | after notify_all every step of the wind-down decreases a well-founded measure |
| `PoolShutdown.WindDownEnds` | server/threadpoll.cpp:16-27 | every schedule of the wind-down has at most 8n + 1 steps |
| `PoolShutdown.WindDown` | server/threadpoll.cpp:16-27 | it ends with every worker exited, or parked by a wait entered after notify_all; the destructor returns iff none is parked |
| `PoolClose.DestructorSafeIff` | server/threadpoll.cpp:16-27 | called on a living pool with no append starting any more, the destructor returns on every schedule if and only if the pool has no workers, or at the moment of the call every worker is parked in wait and no append is under way |
| `PoolClose.CloseEnds` | server/threadpoll.cpp:16-73 | every schedule from the call on, workers and appends under way included, has at most 8 steps a queued task, 19 a worker, 21 an appender and 5 more |
| `PoolClose.SomeClose` | server/threadpoll.cpp:16-73 | from every state of a built pool there is a schedule to a state where nothing more can happen |
| `PoolClose.CalmReturns` | server/threadpoll.cpp:16-27 | from rest the destructor returns on every schedule |
| `PoolClose.RestlessHangs` | server/threadpoll.cpp:16-54 | with a worker not parked or an append under way there is a schedule on which the destructor overtakes a worker about to wait, and never returns |
| `PoolClose.DrainsAlways` | server/threadpoll.cpp:29-73 | while `_running` holds and no append starts, every schedule is finite, and where it ends the queue is empty, every worker is parked and `Task` was called with every pair ever appended |
| `PoolClose.Shutdown` | server/threadpoll.cpp:16-27 | from notify_all on, appends under way included: each worker ends parked or exited; the parked ones entered wait after notify_all and had read `_running` as true before it; the destructor returns iff there is none. Without appends under way they are exactly those that entered wait after it, and with an empty queue exactly the workers then between that read and their wait |
| `PoolShutdown.DestructorCanHang` | server/threadpoll.cpp:18-25 | a reachable state in which the join never returns: `_running` is cleared and notified without the mutex, between a worker's read and its wait |
| `PoolJoin.SomeSchedule` | server/threadpoll.cpp:16-27 | from every state after notify_all with appends stopped, a schedule to a state where nothing more can happen |
| `PoolJoin.HungerBalance` | server/threadpoll.cpp:45-67 | while the queue is not empty, the difference between workers on their way to it and tasks in it never changes |
| `PoolJoin.NeverHangs` | server/threadpoll.cpp:16-27 | outside the hanging condition the destructor returns on every schedule |
| `PoolJoin.Starve` | server/threadpoll.cpp:52-65 | when the workers on their way to the queue outnumber its tasks, the others can take all of them and leave any worker that has yet to take the mutex waiting for ever |
| `PoolJoin.DestructorReturnsIff` | server/threadpoll.cpp:16-27 | once notify_all is done, the destructor returns on every schedule if and only if no worker is parked, none is about to wait on an empty queue, and none that has read `_running` as true and not yet taken the mutex faces fewer tasks than there are workers on their way to them |
| `PoolTrace.RunIffLawful` | server/threadpoll.cpp:4-73 | the runs of the pool are exactly the lists of steps in which every thread follows its own program text, given what it read, who holds the mutex and who was woken |
| `PoolTrace.HistoryTells` | server/threadpoll.cpp:4-73 | queue, pushes, pops, calls and flags are what the steps alone say: each append pushes the pair it was called with |
| `PoolTrace.PlacesTell` | server/threadpoll.cpp:42-73 | a worker is parked, exited or not yet created exactly when its last statement and what it read there say so |
| `PoolTrace.ReadBeforeLock` | server/threadpoll.cpp:45-51 | before a worker takes the mutex it has read `_running`, before that was cleared, and done nothing in between |
| `PoolTrace.ParkedHadRead` | server/threadpoll.cpp:45-54 | a parked worker read `_running` before it was cleared, took the mutex, found the queue empty, and has done nothing since |
| `PoolTrace.ClearedAtLoopHead` | server/threadpoll.cpp:45 | a worker at the head of its loop when `_running` is cleared takes no other step than reading it once more |
| `PoolTrace.NeverParked` | server/threadpoll.cpp:45 | such a worker is never parked again, takes no mutex and calls no `Task` |
| `PoolTrace.PushedWasBrought` | server/threadpoll.cpp:29-36 | every pair in the queue is one that some append was called with |
| `PoolTrace.CalledWithBrought` | server/threadpoll.cpp:57-70 | `Task` is called with a pair that some append was called with, the one pushed at the same place in the order |
| `PoolWakes.EmptyWakesBounded` | server/threadpoll.cpp:52-70 | without spurious wakeups, calls of `Task` with no pair number at most the notify_one calls, plus n after notify_all |
| `PoolWakes.EmptyHandedIff` | server/threadpoll.cpp:57-67 | a worker leaves its critical section with nothing iff it came through wait and found the queue empty, and then changes nothing but its own position |
| `PoolWakes.ControlSetBeforeTask` | server/threadpoll.cpp:8-13 | `Task` is never called before the constructor has set `_control`, unless a worker woke spuriously before that |
| `PoolWakes.EarlyCallIff` | server/threadpoll.cpp:8-13 | from every state under construction, with any number of workers, worker steps and spurious wakeups alone can bring a worker to call `Task` without a `_control`, exactly when its thread has been created |
| `PoolWakes.SpuriousCallBeforeControl` | server/threadpoll.cpp:8-13 | the smallest such state: one worker |

## Left out

- IMQuestionMsg: `server/IM.User.Msg.pb.cc:1162-1420` differs from `IMRspMsg` only in the name of the number (`num` for `ret`), so it has no class of its own.
- Accessors of the messages other than IMRegisterReq: the same few lines with other bits.
- Has-bits as a machine word: `_has_bits_[0]` is the set of its 1-positions, so masks are set operations and shifts are not modelled.
- RegisterReq.IMRegisterReq.InternalParse: the value of the one field a failed parse stopped in is left unspecified, as it depends on runtime code that is not part of this model; LoginReq, RspMsg and InsertMsg likewise.
- RegisterReq.IMRegisterReq.WriteThroughName: the pointer that mutable_name hands out is modelled as a write of any string at any later time, not as an alias; so the model also allows such writes when no pointer to the string is left. WriteThroughPasswd likewise.
- Codec.RoundTrip: messages are assumed to stay within the format, that is strings below 2 GiB, field numbers below 2^29 and 64-bit integers in the unknown list; the runtime's own slightly smaller limit on lengths and its limit on nested groups are not modelled.
- Buffering on both sides (the slop region behind the input, `EpsCopyOutputStream`): input and output are byte sequences.
- UTF-8 verification of strings, which only reports.
- The copy constructors, arenas, descriptors, reflection and the overloads that take a `Message` and downcast.
- `client/IM.User.Msg.pb.cc` and `.pb.h`, the same generated code.
- The class `ThreadPoll` as Dafny methods: its methods interleave, so they are steps of `Pool` instead.
- `Task` and the handlers it dispatches to: an opaque call that returns; frames, MySQL, Redis, sockets, balancing, clients and logging are not modelled.
- Weak-memory effects of the plain `bool _running`: it is modelled as sequentially consistent.
- PoolClose.DestructorSafeIff: appends that start after the call of the destructor, which use a pool being destroyed, and spurious wakeups, which could free a worker, are left out of its schedules.
- A destructor that runs while the constructor has not returned, and appends after the pool is gone: callers' errors.
