# Verified model of NSD's zone transfer and answer machinery

NSD is an authoritative DNS name server.  This project models, in Dafny, the parts
of it in which many small steps have to add up to one promise, and proves the
promise for all inputs and all runs.

* **Incremental transfer, from end to end.**  Two versions of a zone are compared
  by a merge walk over a spool file (`Diff`, `Create`, `Creator`, `CreateResults`);
  the difference is kept in a bounded, linked history (`IxfrChain`, `IxfrFiles`);
  a request is answered by streaming the history record by record into the bytes of
  packets (`Wire`, `IxfrServe`); a secondary reads the records from these bytes
  (`RdataFields`, `Rdata`, `RdataResults`), its transfer daemon checks them packet by packet
  (`XfrCheck`, `XfrCheckResults`), and a complete transfer is applied to its zone in
  memory (`Apply`, `Transfer`, `TransferResults`, `Applier`, `Arrival`).  `EndToEnd`
  and `IxfrCycle` put these together: whichever stored version a secondary holds, one
  exchange leaves it as it was or gives it a version with the newest serial, with the
  exact condition for each, and each update of the primary keeps the store such a
  history.
* **Full transfer.**  `Axfr` and `AxfrResults` model the resumable nested walk over
  a zone and the record iterator.
* **NSEC3.**  `Nsec3` models the precompiled index that is only repaired where the
  chain of hashes changed, and `Nsec3Answer` the name-error proof built from it.
* **Names.**  `Names` has the canonical order; `PacketName` the decoder for
  compressed names; `Compression`, `PacketRr` and `PacketWriter` the encoder that
  fills packets; `NameText` printing and parsing; `DomainTable`, `NumList` and
  `DomainNumbers` the table of domain names with its existence flags and its numbered
  list.
* **The zone list file.**  `ZoneListText`, `ZoneListRead` and `ZoneList` model the
  text file in which lines are slots that are freed, reused and compacted.

Names are sequences of labels from the root down, and the root is the empty
sequence.  Records hold their owner, type, class, TTL and rdata atoms.  Red-black
trees are modelled by the ordered sets they represent; search, insertion and rotation
are modelled on trees (`RbTree`).  Code that changes
things step by step is modelled by methods and classes that do the same, each
proved against functions and predicates over plain values.

Five promises do not hold for every input.  Each is stated with the exact condition
under which it does hold:

* walking the history backwards can skip an entry; it finds the previous entry if
  and only if the newest entry does not lead back to the same serial and lie nearer
  to it (`PrevIsPrevious`, with a history of forward steps that shows it in
  `PrevCanMiss`);
* for that reason a difference can be left without its file: all differences are on
  disk, numbered from the newest, if and only if none that has to be walked over is
  hidden in this way (`WriteToFile`, and `AFileIsMissing` on that history);
* a full transfer does not always replace the zone: records whose owner is not at or
  below the apex stay, so the zone is replaced if and only if the transfer repeats
  all of these (`AxfrReplaces`, and `ForeignRecordStays` for two transfers in a row);
* an incremental transfer does not always bring the newest version, although every
  update moved the serial forward: the check on the receiving side compares serials as
  plain numbers and counts the SOA records with the newest one.  A reply is taken if
  and only if some packet ends where the first version with the newest serial ends and
  in no packet before it a serial falls or passes the newest (`CutDecides`,
  `ResponseArrives`), and it then leads to that version.  In every cut the newest
  version arrives if the serials never fall and only the last is the newest
  (`SteadyArrives`), and in one packet only then (`OnePacketDecides`).  The history
  0xFFFFFFF0, 0xFFFFFFFF, 5 is refused in every cut (`WrapIsRefused`), and one that
  goes once round the circle can end at its first step (`CircleStopsEarly`);
* the zone list file gives back its zones if and only if every line has fewer than
  1024 characters and no pattern of a live zone contains a space (`ReadsBack`).  The
  callers of the file never pass a pattern with a space, so only the length can fail;
  a zone `a` with a pattern name of 1018 letters shows it (`SomeLinesAreLost`).

A transfer whose last packet holds no record would leave the zone without its SOA
record (`LastPacketDecides`), but the check never hands one on (`LastPacketCloses`).

Where code and comments disagree the code is followed: a comment in namedb.c says
that a domain can be the closest wildcard match of its parent only, which the code
does not guarantee, and that pointer is not part of this model.

## Model

| member | source | states |
|---|---|---|
| `Names.Total` | dname.c:311-346 | the canonical order of names is total and irreflexive |
| `Names.Transitive` | dname.c:311-346 | the canonical order is transitive |
| `Names.BelowIsAfter` | dname.c:293-346 | a subdomain never sorts before its ancestor |
| `Names.Contiguous` | dname.c:293-346 | the subdomains of a name are one contiguous block of the order |
| `Names.LabelOrder` | dname.c:349-375 | the first byte in which two labels differ orders them by its value, and a proper prefix comes first |
| `Names.NameOrder` | dname.c:311-346 | with the same labels above, the next label decides, byte by byte, whatever lies below it; a name comes before the names below it |
| `Names.CompareLabels` | dname.c:349-375 | three-way comparison of two labels agrees with the label order, and is zero exactly for equal labels |
| `Names.Compare` | dname.c:311-346 | the comparison loop computes the canonical order of section 6.1 of RFC 4034, and is zero exactly for equal names |
| `Names.TestSubdomain` | dname.c:293-308 | the loop answers exactly whether one name is at or below the other |
| `Names.LabelMatchCount` | dname.c:378-395 | the number of labels two names share from the root, the root label included |
| `Apply.DeleteContents` | difffile.c:667-779 | deleting keeps the RRsets well formed and removes exactly the record that matches, whichever slot it is in |
| `Apply.DeleteWithoutMatch` | difffile.c:667-779 | without a match a SOA record of the apex still removes the SOA there, and any other deletion changes nothing and is a soft failure |
| `Apply.AddContents` | difffile.c:781-892 | adding puts in exactly the record, unless one matches (soft failure) or the RRset has 65535 records (refused) |
| `Records.SameIs` | difffile.c:439-461 | two records are the same exactly when neither type, class nor any rdata field differs; names match in any case of their letters, SOA records by their serial alone, and the TTL does not count |
| `Apply.AlikeIsFound` | difffile.c:439-461 | a record that does not differ from a stored one deletes that one and is not added |
| `Apply.TtlIsIgnored` | difffile.c:439-461 | so does the stored record with any TTL, and a SOA record with the same serial |
| `Apply.DifferentIsNew` | difffile.c:439-461 | a record that differs from all stored ones of its name deletes nothing, except that a SOA record for the apex does, and is added while its RRset is not full |
| `Apply.ContentsUnique` | difffile.c:439-461 | no two stored records match each other |
| `Apply.RrsetSize` | difffile.c:781-892 | the length of an RRset array is the number of records with that owner and type |
| `Applier.ZoneInMemory.FindRrNum` | difffile.c:439-461 | the loop finds the first matching record or none |
| `Applier.ZoneInMemory.DeleteRr` | difffile.c:667-779 | the in-memory deletion does what the specification of deletion says, swap with the last record included |
| `Applier.ZoneInMemory.AddRr` | difffile.c:781-892 | the in-memory addition does what the specification of addition says, the 16-bit limit included |
| `Applier.ZoneInMemory.DeleteZoneRrs` | difffile.c:933-960 | the RRsets at and below the apex go, and exactly the others stay |
| `Apply.OutsideContents` | difffile.c:933-960 | what stays are the records whose owner is not at or below the apex, and they are as well formed as before |
| `Applier.ZoneInMemory.ApplyRecord` | difffile.c:1105-1230 | one record of a transfer moves the state exactly as the specified step does: first SOA, second SOA, mode switches at later SOAs, last SOA, full-transfer fallback |
| `Applier.ZoneInMemory.ApplyIxfr` | difffile.c:994-1251 | one packet of a transfer runs its records in order, and its result code is that of the specified run |
| `Applier.ZoneInMemory.ApplyParts` | difffile.c:1278-1424 | all packets of a transfer give the specified outcome; result 1 exactly when every record was processed |
| `Transfer.RunPartSplit` | difffile.c:1085-1240 | a packet can be cut anywhere without changing what its records do |
| `Transfer.PartsDoNotMatter` | difffile.c:1330-1390 | however a transfer is cut into packets, if the last one holds a record the outcome is that of one single packet |
| `Transfer.EmptyLastPart` | difffile.c:1085-1240 | with an empty last packet no record is treated as the final one, whatever came before |
| `TransferResults.AxfrLeaves` | difffile.c:994-1251 | after a full transfer the zone holds its records outside the apex and the records sent that match none of these, each once; it fails exactly when an RRset outgrows 65535 records |
| `TransferResults.AxfrReplaces` | difffile.c:994-1251 | so it replaces the zone by the records sent if and only if it repeats every record the zone held outside the apex |
| `TransferResults.ForeignRecordStays` | difffile.c:781-811 | a record of another name that one full transfer brings in is still there after the next one without it |
| `TransferResults.FirstRecordDecides` | difffile.c:1105-1150 | anything but the announced SOA record of the zone in first place is fatal and leaves the zone as it was; that record itself changes nothing |
| `TransferResults.BadStartFails` | difffile.c:1105-1150 | so a transfer that starts otherwise fails as a whole, however it is cut |
| `TransferResults.NoSoaSkips` | difffile.c:1151-1167 | an incremental transfer to a zone without a SOA record is dropped at its second record, with the zone as it was |
| `TransferResults.MalformedSoaFails` | difffile.c:1105-1130 | a malformed SOA record is fatal wherever it is, and nothing behind it is applied |
| `TransferResults.PseudoIsSkipped` | difffile.c:1217-1222 | a signature or option record behind the first two changes nothing |
| `TransferResults.RunVersion` | difffile.c:994-1251 | one version's deletions and additions move the contents of that version to those of the next |
| `TransferResults.RunBodies` | difffile.c:994-1251 | all versions of a collated response in turn, with the SOA between two versions removed and put back |
| `TransferResults.ResponseApplies` | difffile.c:994-1251 | applying the collated response of section 4 of RFC 1995 to the oldest version gives exactly the newest version, without soft failure; without a recognised final record the newest version lacks its SOA |
| `ZoneTree.DomainFindRrset` | namedb.c:514-526 | the first RRset of the zone and type in the list, or none |
| `Diff.WalkExact` | ixfrcreate.c:835-865 | a record is in the deletions exactly when it is in the old zone only, and in the additions exactly when it is in the new zone only, SOA records aside |
| `Diff.WalkDistinct` | ixfrcreate.c:835-865 | no record is stored twice in a section |
| `Diff.WalkIsDelta` | ixfrcreate.c:835-865 | so the walk over both zones yields a difference that a transfer applies exactly |
| `Create.SpoolDomains` | ixfrcreate.c:137-158 | the spool holds, in the order of the zone, exactly the names with records of the zone |
| `Create.SpoolKeeps` | ixfrcreate.c:92-158 | the spool has the same records as the zone and is as well ordered |
| `Create.SortMarks` | ixfrcreate.c:386-396 | the marks are sorted and none is lost or invented |
| `Creator.IxfrCreate.FindRdata` | ixfrcreate.c:370-384 | the first record of the RRset with the same TTL and rdata, or none |
| `Creator.IxfrCreate.MarkRrset` | ixfrcreate.c:398-440 | the first loop of an RRset comparison: records only on the spool become deletions, the positions of the others are marked |
| `Creator.IxfrCreate.AddUnmarkedRecords` | ixfrcreate.c:440-469 | the second loop, over sorted marks: exactly the unmarked records become additions |
| `Creator.IxfrCreate.DiffRrset` | ixfrcreate.c:398-469 | one RRset contributes exactly its deletions and additions; a second SOA is refused |
| `Creator.IxfrCreate.SpoolDelRrset` | ixfrcreate.c:472-511 | all records of a vanished RRset become deletions, its SOA the old SOA |
| `Creator.IxfrCreate.AddRrset` | ixfrcreate.c:513-527 | all records of a new RRset but its SOA become additions |
| `Creator.IxfrCreate.AddUnmarked` | ixfrcreate.c:530-550 | the RRsets of this zone whose type was not seen on the spool become additions, in order |
| `Creator.IxfrCreate.DelDomain` | ixfrcreate.c:625-656 | a name that is gone contributes all its records to the deletions |
| `Creator.IxfrCreate.DiffDomain` | ixfrcreate.c:553-608 | a name in both zones contributes exactly its differences, types that vanish and types that appear included |
| `Creator.IxfrCreate.TooLarge` | ixfrcreate.c:709-729 | the difference is given up exactly when its size passes the limit, and stays given up |
| `Creator.IxfrCreate.IterNext` | ixfrcreate.c:682-706 | the spool cursor moves to the next name unless the current one is still to be processed |
| `Creator.IxfrCreate.SpoolBeforeDomain` | ixfrcreate.c:732-771 | all spooled names before the domain are deletions; afterwards the spool stands at or after it |
| `Creator.IxfrCreate.SpoolForDomain` | ixfrcreate.c:774-805 | processing one domain of the new zone keeps what the store will finally hold |
| `Creator.IxfrCreate.SpoolRemaining` | ixfrcreate.c:808-832 | the names left on the spool are deletions; success exactly when the final difference has one old SOA and is not too large |
| `Creator.IxfrCreate.WalkZone` | ixfrcreate.c:835-865 | the whole walk stores the exact difference, or refuses exactly when it must |
| `CreateResults.OneSoa` | ixfrcreate.c:323-338 | a zone's spool has one SOA record, the zone's |
| `CreateResults.TheDeltaIsDelta` | ixfrcreate.c:835-865 | what the walk stores for two zones is exactly the difference of their records |
| `CreateResults.ForwardIs` | ixfrcreate.c:1065-1066 | the serial moves forward exactly when the new one is ahead by at least one and at most half the circle |
| `CreateResults.PerformCreate` | ixfrcreate.c:1055-1113 | creation yields that difference exactly when the new serial is ahead of the old one by at most half the circle of serials, it is not on disk already, and its size with the SOA records that end its sections is within the limit |
| `IxfrChain.CompareIs` | util.c:825-839 | serial arithmetic of section 3.2 of RFC 1982 as a distance on the circle: behind means less than half of it, and half of it apart each is after the other |
| `IxfrChain.NextData` | ixfr.c:547-570 | the entry that starts at the serial where this one ends, or none at the newest entry or when there is no such entry |
| `IxfrChain.ZoneIxfr.Next` | ixfr.c:547-570 | the search in the tree computes that entry |
| `IxfrChain.ZoneIxfr.NextIsNext` | ixfr.c:547-570 | in a linked history the next entry is the one that follows in time, serial wrap-around included |
| `IxfrChain.ZoneIxfr.Prev` | ixfr.c:573-614 | the backwards search returns the nearest smaller serial, wrapping around, whose entry ends where this one starts |
| `IxfrChain.ZoneIxfr.PrevIsPrevious` | ixfr.c:573-614 | it is the previous entry unless, and only unless, the newest entry ends at the same serial and is met first; then it is the newest entry |
| `IxfrChain.ZoneIxfr.FreshEndNeverShadows` | ixfr.c:573-614 | that condition holds when the history's end serial was never a start |
| `IxfrChain.ZoneIxfr.StepBack` | ixfr.c:573-614 | one step of a walk back along the history, both cases |
| `IxfrChain.PrevCanMiss` | ixfr.c:573-614 | a history in which every serial moves forward, once round the circle from 5 over 7 to 6 and 7, has a previous entry that the search misses |
| `IxfrChain.ZoneIxfr.RemoveOldest` | ixfr.c:1572-1592 | the oldest entry goes, the rest stays linked, and the total size stays the sum of the sizes |
| `IxfrChain.ZoneIxfr.Remove` | ixfr.c:1634-1639 | an entry leaves the tree and its size leaves the total |
| `IxfrChain.ZoneIxfr.Add` | ixfr.c:1641-1657 | a newer entry continues the history, an older one leads into it; sizes and end markers stay right |
| `IxfrChain.ZoneIxfr.MakeSpaceByNumber` | ixfr.c:1594-1612 | removes from the oldest until one more entry respects the number limit, and no more |
| `IxfrChain.ZoneIxfr.MakeSpaceBySize` | ixfr.c:1612-1632 | removes from the oldest until the new entry respects the size limit, each removal being needed; gives up exactly when the entry alone is too large |
| `IxfrChain.ZoneIxfr.MakeSpace` | ixfr.c:1594-1632 | both limits together: as few entries as possible are removed, and exactly when the new entry cannot fit it is given up |
| `IxfrChain.ZoneIxfr.StoreFinish` | ixfr.c:1057-1089 | afterwards the new entry is the newest of a linked history within both limits, or it was given up exactly for its size, which empties the history, or a zero limit, which leaves it |
| `IxfrChain.ZoneIxfr.Clear` | ixfr.c:1539-1551 | the history is empty and all markers are reset |
| `IxfrChain.ZoneIxfr.Connect` | ixfr.c:617-638 | following the history from an entry reaches its end, and yields the end serial |
| `Wire.CountRrLength` | ixfr.c:641-675 | the loop measures the record that starts at a position, or 0 for a truncated or malformed one |
| `Wire.BoundaryRecovered` | ixfr.c:641-675 | in a row of stored records the measured lengths find exactly the record boundaries |
| `Wire.SplitJoin` | ixfr.c:641-675 | cutting the stored bytes at the measured lengths gives back the stored records |
| `Wire.EncodeIsWire` | ixfr.c:1257-1307 | what is stored for a record is one whole record in wire format |
| `IxfrServe.ChainFollows` | ixfr.c:547-570 | stepping through the tree visits the history from any entry to its newest |
| `IxfrServe.IxfrQuery.Put` | ixfr.c:268-441 | a stored record goes into the packet whole, so that the packet then holds one record more and is within the limits, or the packet stays as it is, for lack of room or compression reach only |
| `IxfrServe.IxfrQuery.OpenPacket` | ixfr.c:858-880 | a packet starts with its header alone, and every remembered offset is right |
| `IxfrServe.IxfrQuery.CopySection` | ixfr.c:712-745 | writes whole records from a section into the packet until one does not fit; the cursor stands at the first record not written |
| `IxfrServe.IxfrQuery.CopyRrs` | ixfr.c:678-747 | the records written are the next ones of the stream, across new SOA, old SOA, deletions and additions; where the newest SOA ends is known |
| `IxfrServe.IxfrQuery.FillPacket` | ixfr.c:882-915 | a packet takes the next records of the stream across history entries until one is not taken, at least one if it has room for it; its bytes hold exactly these records, and the transfer is done exactly when the stream is used up |
| `IxfrServe.IxfrQuery.NextPacket` | ixfr.c:749-937 | packet and remaining stream together are the stream before, the bytes hold the records of the packet within the limits and the count is right; over TCP a packet with room for the next record has one, and a packet that is not the last ends at a record that was not taken; over UDP the answer is the whole stream or, truncated, the newest SOA alone, and it is truncated only if the stream written out is beyond a limit |
| `IxfrServe.IxfrQuery.Truncate` | ixfr.c:907-930 | a UDP answer that does not fit is cut back to the bytes of the newest SOA record, or stays empty when even that did not fit |
| `EndToEnd.ServedIsResponse` | ixfr.c:749-937 | the stream from version i is the wire form of the collated response from that version |
| `EndToEnd.Begin` | ixfr.c:800-871 | a requester gets the SOA alone exactly when the served serial is not ahead of its own by less than half the circle; the history is used exactly when it starts at the requested serial and ends at the served one; otherwise a full transfer |
| `EndToEnd.ServeOne` | ixfr.c:749-937 | one call over TCP takes a non-empty packet off the stream |
| `EndToEnd.ServeAll` | ixfr.c:749-937 | if each record of the stream has room behind a packet's header, all packets together are the stream, none is empty, and the number of calls is finite |
| `EndToEnd.ReadMessages` | difffile.c:1064-1103 | reading the bytes of all packets gives exactly the records of the zone that were sent, packet by packet, and no packet has more records than are accepted |
| `Applier.ZoneInMemory.ApplyForZone` | difffile.c:1278-1424 | a transfer without packets, or on top of another serial than that of the zone, is not applied; otherwise its packets give the specified outcome, and one that fails or cannot be applied cleanly is fatal |
| `EndToEnd.SoaInMemory` | difffile.c:1253-1276 | a transfer is on top of another serial exactly when the serial in its file is not zero and not that of the SOA record of the zone |
| `XfrCheck.XfrdZone.CheckSoa` | xfrd.c:2050-2100 | the SOA cases: the start of an incremental transfer, one more SOA of the newest serial, a serial in the middle |
| `XfrCheck.XfrdZone.CheckRrs` | xfrd.c:2000-2105 | the loop over the records of a packet computes the specified state or refuses, with the temporary serial starting again in each packet |
| `XfrCheck.XfrdZone.CheckFirst` | xfrd.c:2264-2349 | the first record must be the SOA of the zone and offer a newer serial |
| `XfrCheck.FirstDecides` | xfrd.c:2264-2349 | the verdict on the first record, case by case: not the SOA of the zone, the serial on disk, behind it, or newer |
| `XfrCheck.XfrdZone.ParsePacket` | xfrd.c:2163-2392 | the verdict on a packet and the state kept for the next one are the specified ones |
| `XfrCheck.XfrdZone.HandlePacket` | xfrd.c:2451-2625 | a packet that passes is added to the transfer file, any other removes the file; the last packet sets the serial on disk; a reply whose first record is not the SOA of the zone is bad, one that offers the serial on disk is a new lease, and one that offers an older serial is bad unless the zone expired |
| `XfrCheck.XfrdZone.Receive` | xfrd.c:2451-2625 | of the packets of a reply exactly the specified number is kept, or none; the serials of the transfer are that of its first record and that on disk |
| `XfrCheckResults.TakeReply` | xfrd.c:2000-2105 | however a reply is cut: it is complete with the packet that ends with the third SOA of the newest serial, if there is one and in each packet so far the serials in the middle rise |
| `XfrCheckResults.CutDecides` | xfrd.c:2000-2105 | the same for the response of a history: complete exactly where the first version with the newest serial ends at the end of a packet, and no serial fell or passed the newest in a packet before |
| `XfrCheckResults.SteadyArrives` | xfrd.c:2000-2105 | if the serials as plain numbers never fall and only the last is the newest, the whole response is taken in every cut |
| `XfrCheckResults.OnePacketDecides` | xfrd.c:2000-2105 | a response in one packet is taken if and only if the serials are such |
| `XfrCheckResults.AboveIsRefused` | xfrd.c:2083-2089 | a serial in the middle above the newest has the response refused in every cut |
| `XfrCheckResults.WrapIsRefused` | xfrd.c:2083-2089 | forward steps 0xFFFFFFF0, 0xFFFFFFFF, 5 are refused in every cut |
| `XfrCheckResults.AgainStopsEarly` | xfrd.c:2074-2082 | if the first step already has the newest serial, the response is refused in one packet, and that version is taken for the newest if a packet ends there |
| `XfrCheckResults.CircleStopsEarly` | xfrd.c:2074-2082 | forward steps once round the circle of serials are such a history |
| `XfrCheckResults.FullIsTaken` | xfrd.c:2163-2392 | a full transfer is taken as a whole however it is cut, unless it offers nothing newer; SOA records of other serials inside it do not matter, but for the second record |
| `XfrCheckResults.StartDecides` | xfrd.c:2050-2072 | a SOA record of another serial in second place starts an incremental transfer and is refused unless it has the serial on disk |
| `XfrCheckResults.MalformedIsRefused` | xfrd.c:2040-2060 | a malformed SOA record has its packet refused, wherever it is |
| `XfrCheckResults.WrongStartIsRefused` | xfrd.c:2050-2072 | a reply that starts from another serial than the one on disk is never taken, however it is cut |
| `XfrCheckResults.LastPacketCloses` | xfrd.c:2000-2105 | every transfer that is handed on ends with the SOA of the serial offered, so its last packet is not empty |
| `EndToEnd.Receive` | difffile.c:1278-1424 | the messages are read as the records sent and checked; those of a complete transfer are applied, and otherwise the zone stays as it was |
| `Arrival.MovesToVersion` | difffile.c:994-1251 | however the records between two versions are cut into packets, behind any SOA with the serial of the later one, applying them gives exactly that version |
| `Arrival.MovesToNewest` | difffile.c:994-1251 | however the response for version i is cut into packets, applying them to version i gives exactly the newest version |
| `Arrival.ResponseArrives` | xfrd.c:2451-2625 | what the packets of a response do to version i, checked and applied: they are taken if and only if they pass, and then give the first later version with the newest serial, which is the newest version in every cut if the serials are steady |
| `Arrival.LastPacketDecides` | difffile.c:994-1251 | of all ways to cut the response, those with a record in the last packet, and only those, leave the newest version; the others leave it without its SOA |
| `EndToEnd.Exchange` | ixfr.c:749-937 | a whole exchange over TCP, through the bytes of the packets and the check of the receiving side, between a server holding the history and a secondary at version i: exactly when the packets pass, the secondary holds the first later version with the newest serial, and otherwise it stays as it was; with steady serials that is the newest version; a packet must have room for each record |
| `IxfrCycle.Publish` | ixfrcreate.c:1055-1113 | an update is stored exactly when the new serial is ahead by at most half the circle, differences are kept and it is not too large; the store is then again a history of exact differences that ends at the new zone; otherwise it is emptied or stays as it was, and it ends at the zone being served exactly when it was stored or is empty |
| `IxfrCycle.UpdateReaches` | ixfrcreate.c:1055-1113 | from zone to zone: after a new zone is loaded, compared and stored, a secondary that holds any version of the history and asks over TCP stays as it was or holds a version with the newest serial; it holds exactly the records of the new zone if its serial is still in the store, the new one is ahead of it by less than half the circle and the serials up to the new one are steady; its serial is in the store exactly when its version was not among the oldest that were dropped |
| `IxfrCycle.FirstUpdate` | ixfrcreate.c:1055-1113 | from zone to zone for the first difference of a primary: nothing is assumed about the store or the stored form; if the new serial is ahead by less than half the circle, differences are kept and this one is not too large, it is stored and a secondary with the old zone gets exactly the new one |
| `IxfrCycle.EntrySize` | ixfr.c:952-956 | the size tested when a difference is made is the size tested when it is stored |
| `IxfrChain.EntriesAfter` | ixfr.c:1594-1657 | the stored entries after an update are the old ones without the oldest few, and the new one |
| `IxfrFiles.IxfrStore.WriteToFile` | ixfr.c:2230-2251 | only the newest differences, as many as wanted, are kept; all of them are on disk, the j-th newest in file j, and no file follows, if and only if the backward search hides none that the loops have to pass; those it reaches are in their files in any case |
| `IxfrFiles.IxfrStore.FileAll` | ixfr.c:2244-2250 | renaming and writing together, with the same condition |
| `IxfrFiles.AFileIsMissing` | ixfr.c:2198-2228 | on a history of forward steps once round the circle of serials the oldest difference is not written |
| `IxfrFiles.IxfrStore.DeleteSuperfluousFiles` | ixfr.c:1843-1852 | only files numbered above the target go, and the one after it is gone |
| `IxfrFiles.IxfrStore.DeleteMemoryItems` | ixfr.c:1874-1889 | only the oldest differences leave memory, the files of the others are still there, and walks back over them end where they would have |
| `IxfrFiles.IxfrStore.ToTemporary` | ixfr.c:1909-1935 | every kept file moves to its temporary name with its content |
| `IxfrFiles.IxfrStore.ToFinal` | ixfr.c:1937-1960 | walking back from the newest file, every file up to where the search misses reaches its final number, none that is kept is overwritten, and the others keep their temporary names |
| `IxfrFiles.IxfrStore.RenameFiles` | ixfr.c:1892-1962 | the written differences move up to leave the low numbers to the unwritten ones, as far as the walk back gets |
| `IxfrFiles.IxfrStore.WriteFiles` | ixfr.c:2198-2228 | walking back from the newest, the unwritten differences up to where the search misses get the low numbers, without touching other files |
| `IxfrFiles.IxfrStore.StoreFinish` | ixfr.c:1057-1089 | a new difference is stored without a file exactly when it is allowed, after the oldest made room for it; those that stay keep their files and numbers |
| `Axfr.AxfrQuery.FillRrset` | axfr.c:107-135 | the records of an RRset go into the packet in order until one does not fit; a first record may use the larger limit, and is then the only one |
| `Axfr.AxfrQuery.FillDomain` | axfr.c:102-139 | the RRsets of a domain go in order, those of other zones and the SOA skipped, resuming where the last packet stopped |
| `Axfr.AxfrQuery.FillZone` | axfr.c:92-143 | the walk over the domains stops where the subdomains of the apex end, or where the packet takes no more |
| `Axfr.AxfrQuery.NextPacket` | axfr.c:46-163 | each packet is the next non-empty part of the stream, within the limit of a message for one record and the usual limit for more, and one that is not the last has no room for the record that follows it |
| `AxfrResults.TransferZone` | axfr.c:46-163 | however packets fill up, together they are SOA, the rest of the zone, SOA, and the transfer ends; every packet keeps to the limit, and none is ended while the next record would fit |
| `AxfrResults.StreamIsZone` | axfr.c:92-155 | the stream has every record of the zone at or below the apex exactly once, the SOA first and again last, and no record of another zone |
| `AxfrResults.ZoneRrIter.Next` | namedb.c:706-758 | the iterator returns the same sequence without the last SOA, then nothing |
| `AxfrResults.ZoneRrIter.SkipAhead` | namedb.c:737-750 | skips to the next RRset of the zone that is not its SOA, over domains outside the zone |
| `AxfrResults.PastEnd` | namedb.c:737-750 | behind the block of subdomains no domain is below the apex again |
| `Nsec3.Nsec3Zone.FindCover` | nsec3.c:498-530 | the owner at or before the hash, the last owner before the first one, and whether it matches |
| `Nsec3.Nsec3Zone.PrecompileDomain` | nsec3.c:532-562 | a name entering the index gets the cover and the match that looking it up gives, for itself and its wildcard child, and none while there is no chain |
| `Nsec3.Nsec3Zone.PrecompileDomainDs` | nsec3.c:564-583 | the same for a delegation's hash in the parent zone |
| `Nsec3.Nsec3Zone.RemoveName` | difffile.c:506-525 | a name leaves the index and every other name stays right or waiting |
| `Nsec3.Nsec3Zone.RemoveDs` | difffile.c:526-538 | the same for a delegation |
| `Nsec3.Nsec3Zone.AddNsec3` | difffile.c:585-605 | after an owner enters the chain, every name whose entry is now wrong has its right cover on the list, and the last owner is right |
| `Nsec3.Nsec3Zone.DeleteNsec3` | difffile.c:465-491 | after an owner leaves a chain of several, every name whose entry is now wrong has its right cover on the list, and the last owner is right; after the only owner leaves, the whole index is cleared |
| `Nsec3.Nsec3Zone.ClearPrecompile` | nsec3.c:375-418 | no chain, no indexed name and nothing waiting is left |
| `Nsec3.Nsec3Zone.PrecompileNewparam` | nsec3.c:615-648 | the chain and the index of a whole zone, also over names that were hashed while there was no chain: every name has the cover and match a fresh lookup gives |
| `Nsec3.Nsec3Zone.AddFirstNsec3` | difffile.c:590-605 | an owner that enters after the chain had gone has the zone indexed anew, with the names that were hashed in between |
| `Nsec3.Nsec3Zone.ChainFindPrev` | nsec3.c:333-348 | the owner before this one around the circle, or none when it is alone |
| `Nsec3.AddKeepsRepairable` | nsec3.c:601-613 | a new owner takes over only names it now covers, and it is on the list |
| `Nsec3.DelKeepsRepairable` | difffile.c:465-491 | the names of a removed owner all fall to the one before it, which is on the list |
| `Nsec3.ProcessFirst` | nsec3.c:681-712 | the first name of the range and whether it is at its start |
| `Nsec3.ProcessEnd` | nsec3.c:715-749 | the first name behind the range |
| `Nsec3.ProcessRange` | nsec3.c:752-815 | exactly the names in the range get the owner as cover, exact only at the start and never for wildcard children |
| `Nsec3.RepairTree` | nsec3.c:818-844 | exactly the names an owner covers are repaired, the wrapped range of the last owner included |
| `Nsec3.Nsec3Zone.PrehashZone` | nsec3.c:846-871 | after any changes and in any order of the list, every name has exactly the cover and match a fresh lookup gives, in all three trees, and the list is empty |
| `Nsec3Answer.CoverDenies` | nsec3.c:498-530 | the cover of a hash is the record at it or the one record of the chain that covers it, and no other record does |
| `Nsec3Answer.Answer.AddRrset` | answer.c:24-58 | no RRset twice, the earlier section kept, nothing beyond the capacity, and a new RRset in the section asked for |
| `Nsec3Answer.AddNonexistProof` | nsec3.c:886-943 | adds to the authority section the record that covers the next closer name, or reports a server failure exactly when that name's hash is in the chain |
| `Nsec3Answer.NameError` | nsec3.c:1173-1180 | the authority section of the answer gets one record denying the next closer name and, as far as the closest encloser is indexed, the record matching it and one for the wildcard, as section 7.2.2 of RFC 5155 asks, and no other record |
| `Nsec3Answer.NeverDeniesAName` | nsec3.c:886-958 | when the chain has every name of the zone, nothing in the zone is ever denied |
| `PacketName.MakeWireFromPacket` | dname.c:104-174 | returns a name exactly when the bytes spell one of at most 255 bytes, namely that name, and the position after it; loops, bad labels, truncation and forbidden pointers all fail |
| `PacketName.SpellsOne` | dname.c:104-174 | bytes spell at most one name |
| `PacketName.LoopSpellsNothing` | dname.c:128-132 | rejecting a visited position only rejects bytes that never end |
| `PacketName.ReadItem` | dname.c:134-165 | the label or pointer at a position, or that there is none |
| `Compression.DnameLength` | ixfr.c:189-214 | the length of the uncompressed name at the start of the data, or 0 when it is malformed, truncated or longer than 255 bytes |
| `PacketWriter.Packet.Insert` | ixfr.c:142-159 | remembers a name at an offset a pointer can reach, unless it is known |
| `PacketWriter.Packet.InsertWithLabels` | ixfr.c:162-186 | every remembered offset spells its name, and the query name and each of its suffixes in reach of a pointer are remembered |
| `PacketWriter.Packet.WriteDname` | ixfr.c:219-264 | a name that fits is spelled by the packet where it was written, and all remembered offsets stay right; from any label on whose name was remembered it takes two bytes, and the name is remembered if it is in reach; it fails only when the uncompressed name would not fit or is malformed |
| `PacketWriter.Packet.WriteField` | ixfr.c:313-404 | one rdata field, a name compressed or bytes as they are, readable again |
| `PacketWriter.Packet.WriteRdata` | ixfr.c:313-404 | the rdata is written field by field so that reading it gives back the uncompressed rdata |
| `PacketWriter.Packet.WriteRr` | ixfr.c:268-441 | a record is written so that reading the packet there gives it back uncompressed, within the limits and no longer than uncompressed, or the packet is unchanged, for lack of room or of compression reach only |
| `PacketWriter.WriteNext` | ixfr.c:678-747 | a packet that holds some records then holds one more, whole, behind them and within the limits, or is as it was |
| `PacketWriter.DnameRoundTrip` | ixfr.c:219-264 | the decoder reads a compressed name back and stops where the writer stopped |
| `PacketRr.PiecesRead` | ixfr.c:313-404 | a reader divides the packet's rdata into the same fields as the writer, although compressed names have other lengths |
| `PacketRr.RrStays` | ixfr.c:268-441 | later records do not change how an earlier one reads |
| `PacketRr.HoldsOne` | ixfr.c:678-747 | a packet reads as one list of records only |
| `Rdata.NameOfWire` | dname.c:25-93 | the name made from a wire form is the name it was written from |
| `Rdata.CaseIsFolded` | dname.c:25-93 | a name with its letters in any case is read as the name in lower case |
| `Rdata.ReadOneField` | rdata.c:1110-1273 | one field is read as its wire format says: names normalised or literal, fixed, counted, gateway by the field before, or what is left |
| `Rdata.ReadRdataAtoms` | rdata.c:1081-1286 | the loop over the fields of a type computes the specified atoms, and fails exactly on truncated rdata, bad names and trailing bytes |
| `Rdata.PlainAtoms` | rdata.c:1081-1286 | rdata in stored form is read back as the atoms it was written from, for every table of types |
| `Rdata.AtomsRead` | rdata.c:1081-1286 | rdata written into a packet with compressed names is read as the atoms it came from, although writer and reader measure fields differently |
| `Rdata.RecordRead` | difffile.c:1076-1100 | a record that a packet holds is read as the record of the zone it was written from |
| `Rdata.StoredRead` | ixfr.c:1257-1307 | the stored form of a record of the zone is read back as that record |
| `Rdata.EncodeInjective` | ixfr.c:1257-1307 | no two records of the zone have the same stored form |
| `Rdata.TypedGoodRr` | ixfr.c:1257-1307 | every record of the zone has a stored form that the packet writer can divide up |
| `RdataFields.StringTakes` | rdata.c:1110-1273 | a character string takes its length byte and that many bytes, for reader and writer |
| `RdataFields.PrefixTakes` | rdata.c:1110-1273 | an address prefix takes four bytes and the length in the low seven bits of the last, negated or not |
| `RdataFields.ParameterTakes` | rdata.c:1110-1273 | a service parameter takes four bytes and its 16-bit length |
| `RdataFields.HostTakes` | rdata.c:1110-1273 | a host identity takes four bytes and the lengths of its tag and its key |
| `RdataFields.GatewayTakes` | rdata.c:1110-1273 | a gateway is nothing, 4 bytes, 16 bytes or a name, by the type in the second field, with the top bit of a relay left out |
| `RdataResults.NameOfGood` | dname.c:25-93 | a name that is read is in lower case, with labels of 1 to 63 bytes, and as long as its wire form |
| `RdataResults.AtomsTyped` | rdata.c:1081-1286 | whatever rdata the reader accepts has the layout of its type: at least the required fields, each measured right, and nothing left over |
| `RdataResults.ReadIsTyped` | difffile.c:1076-1100 | so every record that is read is well typed, unless its names written out make its rdata too long for a record |
| `RdataResults.ReadAgain` | difffile.c:1076-1100 | and its stored form is read as the same record |
| `Rdata.ReadAnswers` | difffile.c:1076-1103 | the record loop of a packet computes the specified records, or fails exactly when one cannot be read |
| `Rdata.HoldsRead` | difffile.c:1076-1103 | a packet that holds the stored forms of records is read as exactly these records |
| `Rdata.HoldsCount` | ixfr.c:882-911 | each record takes at least eleven bytes, so a packet has fewer records than its 16-bit count can say |
| `NameText.ToString` | dname.c:404-450 | the loops print the specified text of a name |
| `NameText.ParseWire` | dname.c:185-258 | the in-place parser computes the specified result for every text, failures included |
| `NameText.RoundTrip` | dname.c:185-258 | parsing the printed text of any legal name gives the name in wire format |
| `NameText.WrittenIsParsed` | dname.c:185-258 | however a name is written, with plain, quoted or decimal bytes and with or without a final dot, it is parsed as itself if it is legal and refused if not |
| `NameText.FinalDotIsOptional` | dname.c:185-258 | any text that ends inside a label gives the same result with a final dot |
| `NameText.PlainPrints` | dname.c:404-450 | labels of letters, digits, hyphens and underscores print as themselves |
| `NameText.ParseLegal` | dname.c:185-258 | whatever text is accepted, the result is a legal name of at most 255 bytes |
| `NameText.PrintFits` | dname.c:398-450 | the printed text is at most four characters per byte of the name, so it fits the buffer of five |
| `DomainTable.Domains.Search` | namedb.c:363-400 | exact exactly for names in the table; the match is the canonical predecessor and the encloser the longest ancestor in the table |
| `DomainTable.PredecessorEncloses` | namedb.c:363-400 | what a name shares with its predecessor is its closest encloser (section 3.3.1 of RFC 4592) |
| `DomainTable.Domains.Insert` | namedb.c:416-469 | adds exactly the name and its missing ancestors, changes no other, and keeps the existence flags right |
| `DomainTable.Domains.AddRrset` | namedb.c:483-511 | a name is flagged exactly when it or a name below it has data, although flagging stops at the first flagged ancestor |
| `DomainTable.Domains.HasDataBelow` | difffile.c:256-269 | the walk over the following names answers exactly whether a name below is flagged |
| `DomainTable.Domains.ZeroNonexistCheck` | difffile.c:272-296 | clearing flags upwards until a name has data restores exactly the right flags |
| `DomainTable.Domains.DeleteRrset` | difffile.c:725-734 | after an RRset goes, the flags are right, only unused ancestors without data are gone, and no ancestor left could go |
| `DomainTable.Domains.CanBeDeleted` | namedb.c:135-147 | looking at the next name alone decides whether any name is below |
| `DomainTable.Domains.DelDomain` | namedb.c:276-288 | removes the name and its ancestors as far as they have no data, no use and nothing below, and nothing else |
| `DomainTable.Domains.LowerUsage` | difffile.c:644-657 | dropping a reference removes only names without data on the way up |
| `NumList.DomainList.Append` | namedb.c:50-58 | a new domain is last and gets the next number |
| `NumList.DomainList.MakeLast` | namedb.c:84-122 | the domain and the last one exchange places and numbers, neighbours or not, and all links stay right |
| `NumList.DomainList.PopLast` | namedb.c:124-132 | the last domain leaves and the rest stays numbered from 1 |
| `NumList.DomainList.Remove` | namedb.c:213-220 | after a removal the numbers are again 1 to n in list order, and only the last domain changed its number |
| `ZoneList.ZoneListFile.Add` | options.c:676-810 | a zone is added exactly when it is acceptable and no zone has its parsed name; the file stays a tiling by live and free lines, other zones keep their lines, and free lines do not come to outnumber zones |
| `ZoneList.ZoneListFile.AddReuse` | options.c:780-810 | a free line of the same length is overwritten in place and leaves the free lines |
| `ZoneList.ZoneListFile.AddLast` | options.c:752-778 | otherwise the line is appended at the end offset |
| `ZoneList.ZoneListFile.AddFirst` | options.c:705-749 | the first zone creates the file with its header |
| `ZoneList.ZoneListFile.Free` | options.c:820-826 | a deleted zone's line becomes a free line of its length; no other byte changes meaning |
| `ZoneList.ZoneListFile.Del` | options.c:813-840 | only that zone goes, and afterwards free lines do not outnumber zones |
| `ZoneList.ZoneListFile.Compact` | options.c:860-949 | the new file holds exactly the zones with their texts and patterns, and no free line |
| `ZoneList.ZoneListFile.ParseFile` | options.c:528-643 | reading installs what the lines say, in order, the first line for each parsed name, and refuses a file without the header |
| `ZoneListRead.LineReads` | options.c:573-594 | a line gives back its zone exactly when the pattern has no space, and a deleted line its slot |
| `ZoneListRead.ReadsBack` | options.c:528-643 | the file reads back as its slots if and only if every line fits the read buffer and no live pattern has a space |
| `ZoneListRead.SomeLinesAreLost` | options.c:566-590 | a zone with a pattern name of 1018 letters is an input on which reading back fails |
| `ZoneList.Reopen` | options.c:528-643 | reading such a file again gives the same zones, positions, free lines and end offset |
| `DomainNumbers.NumberedTable.Insert` | namedb.c:416-470 | a name and its missing ancestors enter the table and, in their order, the end of the list; no number changes |
| `DomainNumbers.NumberedTable.DelDomain` | namedb.c:276-288 | each name of a cascade of deletions leaves the list too, and the list has the nodes of exactly the names in the table |
| `DomainNumbers.NumberedTable.DeleteRrset` | difffile.c:724-734 | the same when the last rrset of a name goes |
| `DomainNumbers.NumberedTable.LowerUsage` | difffile.c:643-657 | the same when the last reference to a name goes |
| `DomainNumbers.NumberedTable.NumbersAreDense` | namedb.c:50-58 | the names in the table are numbered from 1 to their count, each with its own number |
| `Rdata.FormOf` | ixfr.c:1257-1307 | there is a stored form for the records of every table of types |
| `RbTree.InsertOrders` | rbtree.c:200-241 | insertion by going down adds the key and keeps the order |
| `RbTree.RotateLeftKeeps` | rbtree.c:63-90 | rotating left keeps the keys and their order, and rotating right undoes it |
| `RbTree.RotateRightKeeps` | rbtree.c:96-123 | rotating right keeps the keys and their order, and rotating left undoes it |
| `RbTree.FindLessEqual` | rbtree.c:504-540 | the search on a set of keys, through a tree that has them |
| `RbTree.Descend` | rbtree.c:504-540 | going down from the root finds the greatest key not above the given one, and whether it is equal, whatever the shape of the tree |

## Left out

- DNSSEC validation, signing, TSIG, TLS, the event loop, process management and the
  server's answers other than transfers and NSEC3 name errors.
- Zone file parsing, the configuration file, `nsd-control`, the `radtree.c` variant of
  the name tree, memory regions and recycling.
- Catalog zones: lines of the zone list that start with `cat`, and member zones.
- Reading difference files back from disk, and shifting them in ixfrcreate.c.
- Failures of file operations and of memory allocation; every write is modelled as
  succeeding.
- Of the receiving side: message identifiers, return codes, signatures, the limit on
  the size of a transfer, replies over UDP, notifies and asking another primary.  The
  rdata of the first record of a reply is read by the general reader.
- IxfrFiles.IxfrStore.WriteToFile: does not state what a later call does after one that
  was cut short, because renaming then meets files under temporary names and takes the
  failure branch.
- The pointer to the closest wildcard match of a domain.
- Changing the NSEC3 parameters of a zone, the conditions under which a name is hashed,
  and two names with one hash.
- The table of record types in dns.c: reader and writer take the fields of each type
  from a table that is a parameter, and the results hold for every table.
- The sizes of packets: the buffer, the message limits and the space reserved for a
  signature are parameters; a record too large for an empty packet is excluded.
- `ixfr_create_already_done` is a parameter, and reading difference files up in that
  case is not part of this model.
- Storing a difference from a serial that the history already starts from, after the
  serials went once round the circle.
- The colours of red-black trees, deletion from them, and stepping from node to node.
- Names printed relative to an origin.  Letter case is folded where names are made from
  packets; elsewhere names are taken as already lower-case, and the zone list takes the
  parsed name of a text from a parameter.
- Applier.ZoneInMemory.DeleteZoneRrs: does not state which domains remain flagged,
  because the climb with a known encloser stops early.
- PacketWriter.Packet.WriteRr: is about well-formed records, because the store holds no
  others (`TypedGoodRr`); the source leaves a partly written record behind for
  malformed ones and calls them impossible.
- ZoneList.ZoneListFile.Compact: writes the zones in any order, because the order of
  names in the tree of zones does not matter to the file.
- DomainTable.Domains.LowerUsage: counts references per name, not per record.
