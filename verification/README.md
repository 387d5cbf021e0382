# WinNFSdpp: a verified model of its NFSv3 and MOUNT server

WinNFSdpp serves Windows directories over NFS version 3. This project models the
parts of the server whose behaviour spans many steps or many bytes, and proves
what they promise. The Windows API underneath is an abstract file system: files
are byte sequences, directories are entry sequences handed out in buffers, paths
open to an identity or do not.

Run `dafny verify dfyconfig.toml` to check it.

## How the model is laid out

| module | what it holds |
|---|---|
| `Bytes`, `BinaryBuilder`, `BinaryReader` | fixed-width numbers as bytes, the byte builder with its overwriting cursor, views into received buffers |
| `Xdr`, `XdrDecoder` | opaque data as the program reads and writes it, and a decoder written from RFC 1014 |
| `Nfs3Args`, `SetAttr` | the argument readers of the file protocol against the encodings of RFC 1813 |
| `Nfs3Status`, `Attributes`, `Nfs3Results` | status codes, the attributes of objects, and the READDIRPLUS reply writer against a decoder of RFC 1813 |
| `Directory`, `ReadDirPlus` | batched enumeration; pages, byte budgets, cookies and whole reads of a directory |
| `TcpRecords`, `RangeMap`, `Rpc`, `Router`, `RpcSession` | record marking, the range vectors, RPC messages, dispatch, and the router behind a TCP stream |
| `FileHandle`, `MountCache`, `MountImage`, `MountSave`, `MountRestore`, `MountAliases`, `MountProgram` | file handles, the mount cache, its binary image, the alias table, the MNT procedure |
| `HandleProcedures`, `CacheRuns`, `ServerRuns` | how procedures accept and issue handles; runs of one cache; runs of mounts, file procedures and restarts in any order |
| `FileData`, `WinTime` | READ and WRITE on contents; Windows and unix times |

An object whose methods change it is a class (`Builder`, `MountCache`,
`MountAliases`, `RangeMap`, `Router`, `TcpSession`, `OpenFile`), and every method
of it says what the new state is, as a function of the old one; the promises are
lemmas about those functions. Fixed-width arithmetic is written out with `%`.
Each section under one lock is one step. Iterators stored in the mount cache are
mount ids. The callbacks of the router and of the enumeration are functions from
the state they share with the rest of the server to its new value. Operations of
the file system (which paths open, what a name leads to, what a socket delivers,
in which order a hash map is walked) are parameters, and every statement holds
for all of them.

## Where the code does less than its protocol asks

Each of these is stated as an exact condition, for all inputs.

- An opaque is valid exactly when it is non-empty and within its limit, so a
  WRITE of no bytes, an empty name or an empty handle is refused
  (`OpaqueRoundTrip`, `WriteRoundTrip`).
- `uid()`, `gid()` and `fsize()` look at the presence word of the mode. Each is
  decoded right exactly when its own presence equals the mode's (`SattrOwners`); a
  client that sets only the size sets nothing (`SizeAloneIsLost`).
- A WRITE at offset 0 truncates first. It does what the standard asks exactly when
  it covers the old file; and when it fails, it has emptied the file
  (`WriteIsRfcIff`, `FailedWriteChangesIff`).
- `extend_start` does not move the first key, so setting a key below it writes
  outside the vector (`SetInBoundsIff`). Setting key 2^32 - 1 makes the map contain
  no key at all (`TopKeyLosesAll`); every other key is kept (`SetIsKeptIff`).
- A page of READDIRPLUS stays empty and unfinished exactly when the budget refuses
  the next entry, and then a client makes no progress (`StuckIffRefused`). With one
  budget throughout, a client reads everything exactly when the budget admits each
  entry by itself (`ConstantBudgetIff`).
- A page can exceed dircount on the wire. All budgets give pages within dircount
  exactly when, for every run of entries behind the cookie that a budget can admit,
  the charges cover the padding (`DirBudgetIff`, `DirBudgetExceeded`); the charge for
  one entry falls short exactly when its name needs two or three bytes of padding
  (`DirChargeCoversIff`).
- A reply is within maxcount exactly when maxcount is at least 20: the fixed parts
  are counted, but compared only when an entry is charged (`ByteBudget`,
  `EmptyReplyExceeds`).
- The attributes in a listing differ from those that are reported for the object by
  itself, except on a volume with number 7 and for objects with one link
  (`ListedAttrAgreesIff`).
- A derived alias is not compared with the table: aliases stay distinct exactly when
  nothing is added, an alias was asked for, or the derived one is new
  (`AddKeepsDistinctIff`, `DerivedAliasTwice`).
- The verifier of a directory with write time 0 stands for no verifier, and is
  accepted after any change (`VerifierTracksWriteTime`).
- The TCP callback handles at most one record for each receive, so records can
  stay in the buffer while nothing more arrives (`BacklogLaw`). With fewer than four
  bytes it reads zeros for the rest of the header. That does no harm: it drops the
  connection exactly when no continuation has a good header (`DoomedIff`,
  `DropsExactlyOnBadHeader`), so never on well-formed records, wherever they are cut
  (`FramedStaysOpen`).
- A restart keeps every mount exactly when every saved path opens to itself
  (`RestartKeepsIff`). Ids that were given out before stay below the next one
  exactly when none is above all mounts saved (`UsedIdsStayBelowIff`); so after two
  restarts the greatest id is given out again exactly when its path failed to open
  at the first (`SecondRestartIff`, `SecondIdComesAgain`).
- Restoring a path record with the last 64-bit id makes that id the greatest
  without moving the next one (`RestoredIdsIff`); it is one of the two ways in which
  a run leaves an id at or above the next one (`FreshThroughoutIff`).
- Another spelling of the path of a mounted directory is mounted anew, under a
  second handle: a mount is reused exactly when the alias table resolves the path to
  its final name (`MntReusesIff`, `MntDuplicates`).
- Times from 1601 up to 1970 do not survive the conversion to unix time and back;
  all others do, negative ones included (`RoundTripIff`); unix times survive the
  other way exactly when the file time fits 64 bits (`UnixRoundTripIff`); on the wire, seconds are cut to 32 bits
  (`WireAttrFaithful`).

## Model

| member | source | states |
|---|---|---|
| `Bytes.NumOfBe` | src/binary/binary_reader.cpp:5-19 | the number read from a big-endian image is the number written, for every width |
| `Bytes.BeOfNum` | src/binary/binary_builder.cpp:30-42 | writing the number read from any bytes gives those bytes back |
| `Bytes.BeAt` | src/binary/binary_builder.cpp:30-42 | each byte that the shift loop writes is the one at its place in the big-endian image |
| `BinaryBuilder.OverlayTwice` | src/binary/binary_builder.cpp:44-57 | writing two pieces one after the other is writing them at once, wherever the cursor stands |
| `BinaryBuilder.OverlayWindow` | src/binary/binary_builder.cpp:44-57 | inside the vector the written window holds the data and every other byte stays |
| `BinaryBuilder.Builder.SeekTo` | src/binary/binary_builder.cpp:14-17 | moves the cursor only |
| `BinaryBuilder.Builder.SeekEnd` | src/binary/binary_builder.cpp:9-12 | moves the cursor to the end only |
| `BinaryBuilder.Builder.Append8` | src/binary/binary_builder.cpp:19-28 | overwrites under the cursor or extends at the end; with the cursor at the end it appends |
| `BinaryBuilder.Builder.AppendBe` | src/binary/binary_builder.cpp:30-42 | the counting-down loop writes the big-endian image at the cursor |
| `BinaryBuilder.Builder.AppendBinary` | src/binary/binary_builder.cpp:44-57 | the overwriting loop and the insertion behind it together write the data once |
| `BinaryReader.AtSplit` | src/binary/binary_reader.h:43-49 | bytes in a row stand in a view exactly when the first part and, behind it, the second part do |
| `BinaryReader.GetBe` | src/binary/binary_reader.cpp:5-19 | the shifting loop computes the big-endian number; no shift loses a bit |
| `BinaryReader.At32` | src/binary/binary_reader.cpp:5-11 | where the image of a 32-bit number stands, it is read back |
| `BinaryReader.At64` | src/binary/binary_reader.cpp:13-19 | where the image of a 64-bit number stands, it is read back |
| `BinaryReader.GetBinary` | src/binary/binary_reader.cpp:21-25 | fills the buffer with the bytes of the view from the offset on |
| `Xdr.OpaqueRoundTrip` | src/rpc/xdr.h:17-55 | on an RFC 1014 opaque the reader consumes exactly its padded length and yields the data, valid exactly when non-empty and within the limit |
| `Xdr.WriteOpaque` | src/rpc/xdr.h:57-63 | appends length, data and zero bytes up to a multiple of four: the RFC 1014 encoding |
| `Xdr.WriteOpaqueBinary` | src/rpc/xdr.h:65-70 | cuts the data to the limit and answers true all the same |
| `Xdr.WriteOpaqueString` | src/rpc/xdr.h:72-77 | cuts the string to the limit and answers whether it was within it |
| `XdrDecoder.TakeOpaqueOfEnc` | src/rpc/xdr.h:57-63 | an independent decoder takes exactly the written opaque off the front of any bytes |
| `Nfs3Args.DirOpRoundTrip` | src/nfs/nfs3.cpp:19-50 | handle and name of an encoded diropargs3 are found behind any padding; size exact; valid iff both non-empty and the handle at most 64 bytes |
| `Nfs3Args.ReadRoundTrip` | src/nfs/nfs3.cpp:246-265 | the READ reader undoes the encoding, size exact, valid iff the handle is acceptable |
| `Nfs3Args.WriteRoundTrip` | src/nfs/nfs3.cpp:267-290 | the WRITE reader undoes the encoding; valid iff the handle is acceptable and there is data |
| `Nfs3Args.CommitRoundTrip` | src/nfs/nfs3.cpp:171-190 | the COMMIT reader undoes the encoding, size exact, valid iff the handle is acceptable |
| `Nfs3Args.RenameRoundTrip` | src/nfs/nfs3.cpp:353-371 | both diropargs3 of a RENAME are found, the second behind the first |
| `Nfs3Args.ReadDirPlusRoundTrip` | src/nfs/nfs3.cpp:148-169 | the READDIRPLUS reader recovers cookie, verifier and both budgets behind a handle of any length |
| `SetAttr.SattrOffsets` | src/nfs/nfs3.cpp:59-107 | for every combination of present fields the chained sizes land on the fields of the encoded sattr3 |
| `SetAttr.SattrTimes` | src/nfs/nfs3.cpp:56-107 | size is the encoded length, and mode and both times are right, for every combination |
| `SetAttr.SattrOwners` | src/nfs/nfs3.cpp:68-88 | each of uid, gid and size is right if and only if its presence equals the mode's |
| `SetAttr.SattrRead` | src/nfs/nfs3.cpp:109-120 | the composed value, for every combination: mode and both times are right; owner, group and size each if and only if its presence equals the mode's |
| `SetAttr.SattrRoundTrip` | src/nfs/nfs3.cpp:109-120 | exact size, the composed value as far as it goes, and all of it right if and only if owner, group and size travel with the mode |
| `SetAttr.SizeAloneIsLost` | src/nfs/nfs3.cpp:84-88 | a sattr3 with only a size is read as setting no size |
| `SetAttr.SetAttrArgsRoundTrip` | src/nfs/nfs3.cpp:192-224 | the guard of a SETATTR is found behind attributes of any shape; attributes are read as in `SattrRead` |
| `SetAttr.MkdirArgsRoundTrip` | src/nfs/nfs3.cpp:333-351 | name and attributes of a MKDIR are found; valid iff the diropargs3 is; attributes are read as in `SattrRead` |
| `SetAttr.CreateArgsRoundTrip` | src/nfs/nfs3.cpp:292-331 | the exclusive CREATE yields its verifier, the other forms their attributes, with exact sizes; attributes are read as in `SattrRead` |
| `Nfs3Results.WriteFileAttr` | src/nfs/nfs3.cpp:373-391 | appends the seventeen words of fattr3, times cut to 32-bit seconds |
| `Nfs3Results.WritePostOpAttr` | src/nfs/nfs3.cpp:407-411 | appends the presence word and, if set, the attributes |
| `Nfs3Results.WritePostOpHandle` | src/nfs/nfs3.cpp:413-417 | appends the presence word and, if set, at most 64 bytes of handle |
| `Nfs3Results.WriteEntry` | src/nfs/nfs3.cpp:583-589 | appends one entryplus3 |
| `Nfs3Results.WriteEntries` | src/rpc/xdr.h:79-88 | a marker before every entry and a zero word at the end: the linked list of the standard |
| `Nfs3Results.WriteReadDirPlusResult` | src/nfs/nfs3.cpp:577-597 | writes READDIRPLUS3res for success and failure |
| `Nfs3Results.TakeFileAttrOfEnc` | src/nfs/nfs3.cpp:373-391 | an independent decoder recovers all attributes, seconds modulo 2^32 |
| `Nfs3Results.TakeEntriesOfEnc` | src/nfs/nfs3.cpp:583-589 | an independent decoder recovers an entry list of any length and stops behind its terminator |
| `Nfs3Results.ReadDirPlusResultRoundTrip` | src/nfs/nfs3.cpp:577-597 | decoding a written OK reply consumes every byte and recovers entries, attributes, handles, verifier and eof flag |
| `Nfs3Results.ReadDirPlusErrorRoundTrip` | src/nfs/nfs3.cpp:592-594 | decoding a written error reply recovers the status and the directory's attributes |
| `Nfs3Results.WireAttrFaithful` | src/nfs/nfs3.cpp:385-390 | attributes arrive unchanged if and only if all times lie below 2^32 seconds |
| `Directory.Enumerate` | src/winfs/winfs_directory.h:67-98 | for every division of a listing into linked buffers the callback is walked over the flattened listing; the offset walk ends; fails iff the first call does |
| `Directory.WalkConcat` | src/winfs/winfs_directory.h:77-96 | walking two lists in a row is walking their concatenation, unless the first was stopped |
| `Directory.WalkAsksPrefix` | src/winfs/winfs_directory.h:82-83 | the callback sees exactly the entries up to and including its first refusal |
| `ReadDirPlus.ReadDirPlus` | src/nfs/nfs3.cpp:1735-1822 | a stale verifier is refused; else the reply is the greedy page behind the cookie, with the directory's write time as verifier |
| `ReadDirPlus.WalkIsPage` | src/nfs/nfs3.cpp:1753-1812 | the callback, walked over the whole listing, leaves exactly the page |
| `ReadDirPlus.PageIsGreedy` | src/nfs/nfs3.cpp:1760-1779 | a page fits both budgets, as the loop charges them, and one entry more would not |
| `ReadDirPlus.VerifierTracksWriteTime` | src/nfs/nfs3.cpp:1735-1740 | the verifier of a page is accepted later if and only if the write time is unchanged or was 0 |
| `ReadDirPlus.VerifierAcceptedIff` | src/nfs/nfs3.cpp:1735-1739 | any verifier is accepted if and only if it is all zeros or the present one |
| `Attributes.ObjectAttrMeaning` | src/nfs/nfs3.cpp:676-721 | the attributes of an object, field by field: type, permissions, links, sizes, the number of its id, and each time as the instant it stands for |
| `Attributes.WccMeaning` | src/nfs/nfs3.cpp:696-703 | the attributes before a change: size, last write and change |
| `ReadDirPlus.FileAttrLength` | src/nfs/nfs3.cpp:373-391 | a fattr3 is 84 bytes on the wire |
| `ReadDirPlus.EntryBelowCharge` | src/nfs/nfs3.cpp:1769-1775 | an entry's encoded size, padding included, is below what the loop charges for it |
| `ReadDirPlus.ByteBudget` | src/nfs/nfs3.cpp:1746-1779 | for every page, listing, cookie and names, the READDIRPLUS3resok is within maxcount if and only if maxcount has room for the 20 fixed bytes |
| `ReadDirPlus.EmptyReplyExceeds` | src/nfs/nfs3.cpp:1769-1779 | an input that exceeds it: an empty directory with a maxcount of 10 sends 20 bytes |
| `ReadDirPlus.DirBudgetIff` | src/nfs/nfs3.cpp:1760-1779 | all budgets give a page within dircount if and only if the charges cover the padding of every run of entries behind the cookie that a budget can admit |
| `ReadDirPlus.DirChargeCoversIff` | src/nfs/nfs3.cpp:1760-1763 | the charge covers the directory information of an entry on the wire if and only if its name needs at most one byte of padding; it falls short by two bytes at most |
| `ReadDirPlus.PageDirBudget` | src/nfs/nfs3.cpp:1760-1767 | a page exceeds dircount on the wire by at most two bytes for each entry |
| `ReadDirPlus.DirBudgetExceeded` | src/nfs/nfs3.cpp:1760-1767 | an input that does: a name of one byte with a dircount of 22 sends 24 |
| `ReadDirPlus.PageDecodes` | src/nfs/nfs3.cpp:577-597 | the reply written for any page decodes, as the standard says, to that page |
| `ReadDirPlus.NextCookie` | src/nfs/nfs3.cpp:1754-1786 | the last cookie of a page counts the entries sent; a page is final iff it reaches the end |
| `ReadDirPlus.RepliesAt` | src/nfs/nfs3.cpp:1782-1810 | the reply entry at each place is built from the listing entry at that place and numbered by it |
| `ReadDirPlus.PageReports` | src/nfs/nfs3.cpp:1782-1810 | entry i of a page, field by field: the name, the place as cookie, a handle on the very object, the number of its id, type, permissions, sizes, and each time as the instant it stands for |
| `ReadDirPlus.PagingReports` | src/nfs/nfs3.cpp:1742-1812 | the same for everything a client reads page by page |
| `ReadDirPlus.AdmitsIff` | src/nfs/nfs3.cpp:1746-1779 | an entry is admitted by itself if and only if dircount has 21 bytes and maxcount 181 bytes beside its name |
| `ReadDirPlus.ListedAttrAgreesIff` | src/nfs/nfs3.cpp:1788-1800 | listed attributes equal those of src/nfs/nfs3.cpp:705-721 for the same object if and only if the volume's number is 7 and the object has one link |
| `ReadDirPlus.StuckIffRefused` | src/nfs/nfs3.cpp:1764-1779 | a page is empty and unfinished if and only if a budget refuses the next entry |
| `ReadDirPlus.PagingIsSection` | src/nfs/nfs3.cpp:1742-1812 | whatever the budgets, what a client reads page by page is a gapless run of the listing, numbered by place |
| `ReadDirPlus.PagingReachesEnd` | src/nfs/nfs3.cpp:1752-1812 | the run reaches the end if and only if every budget on the way admits the entry it is due |
| `ReadDirPlus.PagingComplete` | src/nfs/nfs3.cpp:1742-1812 | following the last cookie gives exactly the rest of the listing and a final page, if and only if the budgets admit the entries |
| `ReadDirPlus.PagingEnds` | src/nfs/nfs3.cpp:1753-1812 | the run ends within as many pages as entries are left, and only its last page is final or empty |
| `ReadDirPlus.ConstantBudgetIff` | src/nfs/nfs3.cpp:1742-1812 | with one budget throughout, the run reaches the end if and only if the budget admits every entry by itself |
| `ReadDirPlus.LongestNameSuffices` | src/nfs/nfs3.cpp:1742-1812 | budgets with room for the longest name lead to the whole listing, however they vary |
| `TcpRecords.TcpSession.OnReceive` | src/server/rpc_server.cpp:124-143 | the record callback: drops on a bad header, waits for a whole record, answers one and erases it |
| `TcpRecords.TcpSession.Loop` | src/network/tcp.h:112-129 | the receive loop runs the callback after each receive until it refuses or nothing comes |
| `TcpRecords.StreamIsRecords` | src/server/rpc_server.cpp:125-141 | a stream is the frames of its complete records followed by what is left |
| `TcpRecords.RecordsAppend` | src/network/tcp.h:72-79 | more bytes only add records behind those that are there |
| `TcpRecords.RecordsOfFrames` | src/server/rpc_server.cpp:136-138 | the records of framed messages are the messages |
| `TcpRecords.DoomedIff` | src/server/rpc_server.cpp:125-129 | a beginning of any length, completed by zeros, has a bad header if and only if every continuation has |
| `TcpRecords.ProcessMeaning` | src/server/rpc_server.cpp:124-143 | the callback takes the stream's first record, waits, or drops exactly on bytes that no continuation can mend |
| `TcpRecords.SoundStaysOpen` | src/server/rpc_server.cpp:124-143 | on a stream that does not run into a bad header the session stays open, however it is cut |
| `TcpRecords.FramedStaysOpen` | src/server/rpc_server.cpp:124-143 | on well-formed records the session stays open, wherever they are cut, inside headers included, and handles them in order |
| `TcpRecords.RunAccounted` | src/server/rpc_server.cpp:124-143 | in every run, the frames handled followed by the buffer are all bytes received, and the requests handled are the stream's first records |
| `TcpRecords.HandledIsPrefix` | src/server/rpc_server.cpp:124-143 | the same in terms of what was delivered, however it was cut |
| `TcpRecords.DropsExactlyOnBadHeader` | src/server/rpc_server.cpp:127-129 | the connection is dropped if and only if all records delivered have been handled and a bad header, perhaps still incomplete, is next |
| `TcpRecords.BacklogLaw` | src/server/rpc_server.cpp:124-143 | while the session is open, for every cutting, the number handled after n receives is the minimum over j of the records arrived by j plus n - j |
| `TcpRecords.CuttingDoesNotMatter` | src/network/tcp.h:119-126 | two cuttings of one stream handle the same requests in the same order, and agree entirely when equally far |
| `TcpRecords.RunServes` | src/server/rpc_server.cpp:131-140 | the server's state and the bytes sent are those of handling the requests one after the other |
| `TcpRecords.SentIsFrames` | src/server/rpc_server.cpp:135-140 | answers below 2^31 bytes go out as well-formed records, empty ones not at all |
| `RpcSession.ServeAnswers` | src/rpc/rpc_router.cpp:11-75 | serving calls one after the other gives the states and, decoded, the replies that dispatch decides on |
| `RpcSession.SessionAnswersCalls` | src/server/rpc_server.cpp:124-143 | a client sends well-formed calls, cut anywhere: the session stays open, has handled the first so many, and has sent one record for each, in order, that decodes to exactly the reply due |
| `RangeMap.RangeMap.Set` | src/container/range_map.h:22-27 | base, extend down, extend up, assign: the new value of the vector |
| `RangeMap.RangeMap.ExtendStart` | src/container/range_map.h:29-32 | inserts blank cells below without moving the first key |
| `RangeMap.RangeMap.ExtendEnd` | src/container/range_map.h:34-37 | inserts blank cells above, in 32-bit arithmetic |
| `RangeMap.SetInBoundsIff` | src/container/range_map.h:22-32 | set writes inside the vector if and only if the map is empty or the key is not below the first |
| `RangeMap.SetUpdates` | src/container/range_map.h:11-37 | after an admissible set the key holds the data, all other keys keep theirs, gaps are blank, and the range is the smallest with both |
| `RangeMap.TopKeyLosesAll` | src/container/range_map.h:15-18 | once key 2^32 - 1 is set, a map, whatever was set before, contains no key at all |
| `RangeMap.SetIsKeptIff` | src/container/range_map.h:15-27 | a key set within bounds is contained if and only if it is not 2^32 - 1 |
| `RangeMap.BuildLookup` | src/container/range_map.h:11-37 | after any history of admissible sets, a key holds what was last set there, and the range runs from the first to the highest key |
| `Rpc.AuthRoundTrip` | src/rpc/rpc.h:53-69 | the size of authentication data is its encoded length |
| `Rpc.BodyRoundTrip` | src/rpc/rpc.h:82-108 | all fields and the parameters of a call body are found behind authentication data of any length |
| `Rpc.WriteDenied` | src/rpc/rpc.h:195-201 | writes a version denial |
| `Rpc.WriteAnswered` | src/rpc/rpc.h:149-193 | writes an accepted reply with each of the five statuses |
| `Rpc.ReplyRoundTrip` | src/rpc/rpc.h:142-242 | an independent decoder of section 8 of RFC 1057 reads every written reply back, with the xid, and nothing behind it |
| `Router.Router.Add` | src/rpc/rpc_router.cpp:77-80 | sets the program's procedures at its version in the range kept under its number |
| `Router.Router.Handle` | src/rpc/rpc_router.cpp:11-75 | the decision chain from request bytes to reply bytes |
| `Router.RegistryAdd` | src/rpc/rpc_router.cpp:77-80 | adding a program not below its first version is in bounds and takes the registry of those before to the registry with it |
| `Router.TableIsFlat` | src/rpc/rpc_router.cpp:53-65 | a procedure table has exactly the callable procedures last set at each number |
| `Router.BoundsAreFlat` | src/rpc/rpc_router.cpp:43-52 | a program is known iff a version was added; its range runs from the least to the greatest version added |
| `Router.VersionIsFlat` | src/rpc/rpc_router.cpp:48-53 | a version is found with what was last added under it; gaps hold empty programs |
| `Router.SelectIsFlat` | src/rpc/rpc_router.cpp:42-74 | dispatch decides as a plain map from program, version and procedure would; mismatch bounds are the least and greatest versions added; gaps are PROC_UNAVAIL; a callback runs once, and its response or lack of one decides between SUCCESS and GARBAGE_ARGS |
| `Router.CallIsAnswered` | src/rpc/rpc_router.cpp:11-75 | every well-formed call gets exactly one decodable reply with its xid: a denial for a protocol version other than 2, else the dispatcher's decision |
| `Router.NoCallNoReply` | src/rpc/rpc_router.cpp:16-25 | what is not a call gets no reply and changes nothing |
| `FileHandle.ViewOfCreate` | src/nfs/mount_cache.h:31-46 | viewing a created handle gives back mount id, volume and file id |
| `FileHandle.HandleLayout` | src/nfs/mount_cache.h:31-33 | mount id, volume and file id stand in the handle as in the structure, at bytes 0, 8 and 16 |
| `FileHandle.CreateOfView` | src/nfs/mount_cache.h:39-45 | a handle of full size is nothing but the mount, volume and file it says |
| `FileHandle.CreateIsInjective` | src/nfs/mount_cache.h:42-45 | different mounts or files never share a handle |
| `MountCache.MountCache.FindQuery` | src/nfs/mount_cache.h:80-84 | the mount a query leads to, if any |
| `MountCache.MountCache.FindWindows` | src/nfs/mount_cache.h:86-90 | the mount a Windows path leads to, if any |
| `MountCache.MountCache.Get` | src/nfs/mount_cache.h:111-121 | the stored handle of a mount, if there is one |
| `MountCache.MountCache.SafeMountSender` | src/nfs/mount_cache.cpp:95-109 | client and mount list each other; nothing else changes |
| `MountCache.MountCache.SafeMountSenderQuery` | src/nfs/mount_cache.cpp:111-115 | the query leads to the mount, then as for the client |
| `MountCache.MountCache.SafeMountWindowsPath` | src/nfs/mount_cache.cpp:138-158 | files what the path opens to under the id, unless it does not open or the id is taken; keeps an index entry that is there |
| `MountCache.MountCache.SafeMountNew` | src/nfs/mount_cache.cpp:117-126 | takes the next id whether or not the mount succeeds |
| `MountCache.PathIsFiled` | src/nfs/mount_cache.cpp:138-158 | a path is filed exactly when it opens and the id is free; the mount then has the opened object's final path, no clients, and a handle that says the id, the volume and that very file; an index entry that is there stays; nothing else changes |
| `MountCache.SenderIsListed` | src/nfs/mount_cache.cpp:95-109 | the client is then a client of that mount, and nobody of anything else; paths, handles, queries and index stay |
| `MountCache.MountSenderInv` | src/nfs/mount_cache.cpp:95-109 | listing a client keeps the cache invariant |
| `MountCache.MountSenderQueryInv` | src/nfs/mount_cache.cpp:111-115 | adding a query keeps the cache invariant |
| `MountCache.MountWindowsPathInv` | src/nfs/mount_cache.cpp:138-158 | filing a path under any id keeps the cache invariant |
| `MountCache.SafeMountInv` | src/nfs/mount_cache.cpp:117-126 | a new mount keeps the cache invariant: handles carry their own id, all indexes point at live mounts, clients and mounts list each other, no client set is empty |
| `MountCache.SafeMountFresh` | src/nfs/mount_cache.cpp:117-126 | a mount succeeds exactly when its path opens, under an id no mount has |
| `MountImage.ImageOfOne` | src/nfs/mount_cache.cpp:8-44 | the image of a cache with one mount, one query and one client, byte for byte |
| `MountImage.SafeRestore` | src/nfs/mount_cache.cpp:46-93 | the three reading loops with their 32-bit offset, on any bytes |
| `MountImage.RestoredIsReplay` | src/nfs/mount_cache.cpp:46-93 | on an image below 4 GB the loops read exactly its records and replay them in order |
| `MountSave.SafeSave` | src/nfs/mount_cache.cpp:8-44 | writes the image of the cache's records in whatever order the maps are walked |
| `MountRestore.RestoredInv` | src/nfs/mount_cache.cpp:46-93 | restoring any bytes into any good cache keeps the cache invariant |
| `MountRestore.RestoredGrows` | src/nfs/mount_cache.cpp:46-93 | restoring any bytes loses and changes no mount |
| `MountRestore.RestoredNames` | src/nfs/mount_cache.cpp:52-62 | whatever bytes are restored, every mount they add has the final path and a handle on the very object that some path opens to |
| `MountRestore.RestoredIdsIff` | src/nfs/mount_cache.cpp:52-62 | restoring any bytes keeps all ids below the next one if and only if no path record with the last 64-bit id opens, since its successor wraps to 0 |
| `MountRestore.SaveRestore` | src/nfs/mount_cache.cpp:8-93 | saving and restoring into a new cache brings back ids, paths, handles, queries, clients and clients' mounts, and the path index where paths are distinct |
| `MountRestore.WindowsDetermined` | src/nfs/mount_cache.cpp:149-156 | the path indexes of caches with the same mounts have the same keys, and agree where paths are distinct |
| `MountRestore.ClientMountsDetermined` | src/nfs/mount_cache.cpp:95-109 | the clients' mounts are determined by the mounts' clients |
| `MountRestore.RestartNext` | src/nfs/mount_cache.cpp:59-61 | whatever opens, a restored cache goes on exactly one above the greatest saved id, or at the first id if there is none |
| `MountRestore.RestartIds` | src/nfs/mount_cache.cpp:52-62 | a restart keeps the ids of exactly the mounts whose saved paths open |
| `MountRestore.UsedIdsStayBelowIff` | src/nfs/mount_cache.cpp:59-61 | ids given out at any time before stay below the next one over a restart if and only if none is above all saved mounts |
| `MountRestore.SecondRestartIff` | src/nfs/mount_cache.cpp:46-62 | after two restarts all ids of the first save are below the next one if and only if the path of the greatest opened at the first |
| `MountRestore.SecondIdComesAgain` | src/nfs/mount_cache.cpp:46-62 | the smallest case of an id that is given out again |
| `MountRestore.RestartSource` | src/nfs/mount_cache.cpp:138-158 | whatever opens, every restored mount has the final path and a handle on the very object that its saved path opens to |
| `MountRestore.RestartMeaning` | src/nfs/mount_cache.cpp:46-93 | whatever opens, a restart leaves exactly the mounts whose paths open, each with the clients it had, and exactly the queries that led to them |
| `MountRestore.RestartKeepsIff` | src/nfs/mount_cache.cpp:46-62 | a restart keeps every mount, with path and handle, if and only if every saved path opens to itself |
| `MountRestore.ForgottenIds` | src/nfs/mount_cache.cpp:52-62 | when no saved path opens, a second restart leaves a cache as new |
| `MountAliases.MountAliases.ByAliasPath` | src/nfs/mount_aliases.cpp:55-86 | the search loop finds the best entry and turns the slashes of the rest |
| `MountAliases.MountAliases.Add` | src/nfs/mount_aliases.cpp:88-105 | refused when the alias asked for is there or the path does not open; else the entry is the last |
| `MountAliases.MountAliases.SetAliases` | src/nfs/mount_aliases.cpp:107-123 | the erase loop takes out exactly the source's entries, in place, then the new ones are added |
| `MountAliases.MountAliases.Clear` | src/nfs/mount_aliases.h:54-56 | leaves the entries of all other sources |
| `MountAliases.MountAliases.CreateSource` | src/nfs/mount_aliases.h:36-38 | gives out the next source number, modulo 2^32 |
| `MountAliases.WindowsToAliasPath` | src/nfs/mount_aliases.cpp:18-53 | the string edits in place compute the derived alias |
| `MountAliases.MatchesIsComponentPrefix` | src/nfs/mount_aliases.cpp:66-75 | the tests of the loop hold if and only if the alias's components are the first of the path's |
| `MountAliases.ResolveMeaning` | src/nfs/mount_aliases.cpp:55-86 | empty if and only if no alias covers the path; else the latest of the longest covering ones, followed by the rest of the path with slashes turned |
| `MountAliases.AliasOfIsClean` | src/nfs/mount_aliases.cpp:18-53 | a derived alias has no backslash, starts with a slash and does not end with one, unless it is empty |
| `MountAliases.AliasHasComponents` | src/nfs/mount_aliases.cpp:18-53 | a derived alias has exactly the components of the path without its long prefix, the drive letter as the start of the first |
| `MountAliases.AddMeaning` | src/nfs/mount_aliases.cpp:88-105 | an accepted request adds one entry at the end, for the path that opened, under the alias asked for or one with the path's components |
| `MountAliases.AddAllMeaning` | src/nfs/mount_aliases.cpp:119-122 | every entry a list adds is for one of its requests, and every alias asked for whose path opens is there afterwards |
| `MountAliases.AddedResolves` | src/nfs/mount_aliases.cpp:55-105 | a path below an alias just added resolves to the opened path and the rest with slashes turned, as long as no longer alias covers it |
| `MountAliases.AddedAliasResolves` | src/nfs/mount_aliases.cpp:55-105 | an alias just added always resolves to the opened path |
| `MountAliases.WithoutKeepsOrder` | src/nfs/mount_aliases.cpp:110-117 | taking out a source's entries leaves exactly the other ones, each once and in order |
| `MountAliases.AddKeepsDistinctIff` | src/nfs/mount_aliases.cpp:88-101 | adding keeps the aliases distinct if and only if nothing is added, an alias was asked for, or the derived alias is not in the table |
| `MountAliases.DerivedAliasTwice` | src/nfs/mount_aliases.cpp:88-101 | an input that does not: a path, and the same path with its long prefix |
| `MountAliases.ReplaceKeepsOthers` | src/nfs/mount_aliases.cpp:107-123 | setting a source's aliases keeps all others' entries, in order |
| `MountAliases.ReplaceIsIdempotent` | src/nfs/mount_aliases.cpp:107-123 | setting the same aliases again changes nothing while the file system stays |
| `MountProgram.MountProgram.Mount` | src/nfs/mount.cpp:38-68 | known query, mounted path or new mount: the new cache and the handle or ERR_NOENT |
| `MountProgram.MntInv` | src/nfs/mount.cpp:42-65 | MNT keeps the cache invariant, whatever the alias table and the file system |
| `MountProgram.MntGrows` | src/nfs/mount.cpp:42-65 | MNT loses and changes no mount |
| `MountProgram.MntKnown` | src/nfs/mount.cpp:43-46 | a path asked for before is answered with the mount it leads to, and the sender is among its clients |
| `MountProgram.MntMounted` | src/nfs/mount.cpp:48-53 | a fresh path that resolves to a mounted path is answered with the mount in the index, which has that path, and leads there from then on |
| `MountProgram.MntNew` | src/nfs/mount.cpp:54-57 | any other path is answered if and only if it opens and the next id is free, with a new mount under that id whose handle names the very object that was opened; else only the id is used up |
| `MountProgram.MntReusesIff` | src/nfs/mount.cpp:47-57 | a path asked for the first time is served by a mount that was there if and only if it resolves to the final name of a mounted directory |
| `MountProgram.MntDuplicates` | src/nfs/mount.cpp:47-57 | otherwise a mounted directory gets a second mount with the same path and another handle |
| `CacheRuns.After` | src/nfs/mount_cache.cpp:46-158 | the cache invariant holds after any mounts and any restores of any bytes, in any order |
| `CacheRuns.MountsAreForever` | src/nfs/mount_cache.cpp:46-158 | over such runs no mount is lost, and none changes its path or handle |
| `CacheRuns.HandlesAreUnique` | src/nfs/mount_cache.cpp:145-147 | in every reachable state different mounts have different handles |
| `CacheRuns.FreshThroughoutIff` | src/nfs/mount_cache.cpp:59-126 | all ids stay below the next one throughout a run of mounts and restores of any bytes, if and only if no step mounts anew at the last id or restores it |
| `HandleProcedures.LookupNames` | src/nfs/nfs3.cpp:909-949 | LOOKUP succeeds if and only if the directory is reached and the name is "." or plain and there; it then answers with the directory's own handle, or with one on the very object found, on the directory's mount |
| `HandleProcedures.LookupFails` | src/nfs/nfs3.cpp:874-943 | each failing status of LOOKUP, if and only if its cause |
| `HandleProcedures.CreateNames` | src/nfs/nfs3.cpp:1225-1283 | CREATE (and MKDIR, src/nfs/nfs3.cpp:1306-1365) succeeds if and only if the directory may be written and the object is made; its handle names the very object made |
| `HandleProcedures.CreateFails` | src/nfs/nfs3.cpp:1212-1271 | each failing status of CREATE and MKDIR, if and only if its cause |
| `HandleProcedures.ListNames` | src/nfs/nfs3.cpp:1709-1808 | a listing sends handles on the listed objects, on the directory's mount and volume |
| `HandleProcedures.DifferentObjectsDiffer` | src/nfs/nfs3.cpp:947-949 | two names are answered with one handle if and only if they are one object |
| `HandleProcedures.IssuedPassesIff` | src/nfs/nfs3.cpp:947-949 | a handle issued from an accepted one passes the mount and volume check if and only if the object lies on the directory's volume |
| `HandleProcedures.ListedPasses` | src/nfs/nfs3.cpp:1803-1808 | every handle of a READDIRPLUS entry passes the check |
| `HandleProcedures.NeverLeavesMount` | src/nfs/nfs3.cpp:914-949 | every handle that LOOKUP, CREATE, MKDIR or a listing issues names the directory's own, live mount |
| `HandleProcedures.RefusedIssuesNothing` | src/nfs/nfs3.cpp:874-885 | LOOKUP, CREATE and listing answer ERR_BADHANDLE if and only if the check fails |
| `ServerRuns.RunAllPass` | src/nfs/mount_cache.cpp:95-158 | in every reachable state, restarts included, the cache invariant holds and every handle given out passes the check |
| `ServerRuns.RunKeeps` | src/nfs/mount_cache.cpp:8-158 | between any two points of a run no mount is lost or changed, and every query leads where it led |
| `ServerRuns.IdentityAcrossRestarts` | src/nfs/mount_cache.cpp:59-61 | over any number of restarts in which every saved path reopens, no mount id is rebound |
| `ServerRuns.IdsStayFresh` | src/nfs/mount_cache.cpp:117-126 | below 2^64 steps all mount ids stay below the next id, across failed mounts and restarts |
| `ServerRuns.NewIdNeverUsed` | src/nfs/mount_cache.cpp:119-120 | the id of a mount that appears in a run was no mount's id before |
| `ServerRuns.HandleClosure` | src/nfs/nfs3.cpp:874-885 | a handle issued by MNT, LOOKUP, CREATE, MKDIR or READDIRPLUS passes the check at every later point of the run |
| `ServerRuns.MountIsStable` | src/nfs/mount.cpp:42-65 | mounting a mounted path again, by any client and after any change of aliases or restart, answers with the same handle |
| `FileData.OpenFile.Seek` | src/winfs/winfs_file.h:35-39 | moves the file pointer, unless the offset is negative as a signed number |
| `FileData.OpenFile.Truncate` | src/winfs/winfs_file.h:41-43 | the file ends at the file pointer, extended by zeros if it was shorter |
| `FileData.OpenFile.Write` | src/winfs/winfs_file.h:45-55 | puts the bytes at the file pointer and moves it; nothing happens for no bytes |
| `FileData.OpenFile.Read` | src/winfs/winfs_file.h:57-68 | yields the bytes from the file pointer on, cut to what was there, or fails with the operating system; a read of nothing never fails |
| `FileData.Read` | src/nfs/nfs3.cpp:1056-1120 | the refusals in order, the failing read included; else count, bytes at the offset and the end-of-file flag; the attributes whenever they were read |
| `FileData.Write` | src/nfs/nfs3.cpp:1122-1205 | the refusals in order, else truncation or seek, the new contents, the count echoed, the commit level and the verifier; the attributes of the old contents, and after success those of the new |
| `FileData.EofIffEnd` | src/nfs/nfs3.cpp:1113-1115 | end of file is reported if and only if the read reaches the end; a read of nothing, exactly at the end |
| `FileData.ReadMeaning` | src/nfs/nfs3.cpp:1100-1113 | READ is refused if and only if the offset is negative as a signed number; else it returns as many bytes as asked for or there, each from its place |
| `FileData.WriteFailsIff` | src/nfs/nfs3.cpp:1169-1189 | WRITE fails if and only if the offset is negative as a signed number or the bytes go past the limit |
| `FileData.WriteMeaning` | src/nfs/nfs3.cpp:1169-1184 | the contents after a WRITE, byte by byte |
| `FileData.RefusalMeaning` | src/nfs/nfs3.cpp:1061-1098 | each status with which READ and WRITE refuse a handle, if and only if its cause, and what they then know of the object |
| `FileData.WriteIsRfcIff` | src/nfs/nfs3.cpp:1169-1184 | a successful WRITE leaves what RFC 1813 asks for if and only if it is not at offset 0 or covers the old file |
| `FileData.FailedWriteChangesIff` | src/nfs/nfs3.cpp:1169-1189 | a failing WRITE changes the file if and only if it is at offset 0 and the file was not empty |
| `FileData.ReadBack` | src/nfs/nfs3.cpp:1100-1184 | what was written is read back, by one READ or by two that meet inside it |
| `FileData.UploadForgets` | src/nfs/nfs3.cpp:1170-1172 | a WRITE at offset 0 makes all WRITEs before it, and the old contents, irrelevant |
| `FileData.UploadBytes` | src/nfs/nfs3.cpp:1169-1184 | WRITEs behind the start, in any order, overlapping or repeated: each covered byte is the uploaded one, any other is kept or zero |
| `FileData.UploadIff` | src/nfs/nfs3.cpp:1169-1184 | an upload in pieces, over any old contents, yields the file if and only if its WRITEs from the last one at offset 0 on reach the end and leave out only zero bytes |
| `FileData.UploadInOrder` | src/nfs/nfs3.cpp:1169-1184 | contiguous non-empty WRITEs from offset 0 leave exactly their concatenation |
| `FileData.DownloadReturns` | src/nfs/nfs3.cpp:1100-1115 | READs of any positive counts, each behind the last, return exactly the rest of the file |
| `FileData.DownloadEnds` | src/nfs/nfs3.cpp:1113-1115 | they end, within one READ for each byte left, and only the last reports end of file |
| `WinTime.ExactFrom1970` | src/wintime/wintime_convert.h:27-33 | from 1970 on the unix time is the very instant, nanoseconds below 10^9 and in whole hundreds |
| `WinTime.RoundTripIff` | src/wintime/wintime_convert.h:27-47 | there and back is the identity if and only if the time is negative or not before 1970 |
| `WinTime.OrderPreserved` | src/wintime/wintime_convert.h:27-33 | later file times get later unix times, and conversely |
| `WinTime.UnixRoundTripIff` | src/wintime/wintime_convert.h:27-47 | the other way round only rounds nanoseconds down to hundreds, if and only if the file time fits 64 bits |
| `WinTime.HalvesRoundTripIff` | src/wintime/wintime_convert.h:35-55 | by two 32-bit halves, there and back is the identity for all file times but those before 1970, taken as unsigned |
| `WinTime.HalvesExact` | src/wintime/wintime_convert.h:35-40 | a file time in two halves, the high one in front, is converted to the instant it stands for |

## Left out

- Malformed and truncated packets: reads behind the end of a buffer are undefined in the program; `View.Get8` puts a zero there, and no statement about a message rests on it.
- RestoredIdsIff: an image that ends early is read past its end, which is undefined in the program; the zero of `View.Get8` stands in. A path of 2^31 code units or more is filled with a 32-bit counter that never ends in the program. The same holds for all statements about restoring any bytes (`RestoredInv`, `RestoredGrows`, `FreshThroughoutIff`).
- SessionAnswersCalls: answers of 2^31 bytes or more do not fit a record fragment of the standard and are not covered; the record callback gives the router a view into the receive buffer, here the bytes of that view; the two differ only for calls that are not well-formed.
- GetBinary: the loop counter is 32 bits wide in the program, so a fill of 4 GB or more would not end there.
- ByAliasPath: the best length is 32 bits wide in the program; paths of 4 GB are not modelled.
- Resolve: conversion between multibyte and wide strings is the identity on ASCII octets; other code pages are not modelled.
- AliasOfIsClean: stated for one octet per code unit, for the same reason.
- ReadDirPlus: a name is given in the multibyte form it is sent in; the conversion from the directory's wide form is not modelled.
- SafeMountFresh: says nothing once the 64-bit next id has wrapped around; `SafeMountInv` holds even then.
- SecondRestartIff: assumes that both images stay below 4 GB, as do all statements about images, since the restoring loops count offsets in 32 bits.
- SoundStaysOpen: the bytes behind the buffer are the zeros with which each receive extends it by 1500 bytes before it is cut back; reading them is formally outside the vector.
- IdentityAcrossRestarts: assumes that saved images stay below 4 GB, since the restoring loops count offsets in 32 bits, and that every saved path reopens, without which it is false (`RestartKeepsIff`, `SecondRestartIff`).
- HandleClosure: assumes that what is found or made under a name lies on its directory's volume, without which it is false (`IssuedPassesIff`), and that handles given to a procedure have their full 32 bytes, which the program does not check.
- Create: the program does not look whether the new file's identity could be read; here it can.
- Write: a partial write by the operating system is not modelled; here a write that goes past the volume's limit writes nothing.
- HandleProcedures: attributes in the replies of LOOKUP, CREATE and MKDIR.
- READDIR: its reply never has status OK in the program, so nothing is claimed on the wire.
- The remaining argument readers and reply writers: the same shapes as those modelled.
- SETATTR, ACCESS, READLINK, REMOVE, RMDIR, RENAME, FSSTAT, FSINFO, PATHCONF and COMMIT on the file system: single branches over calls of the operating system.
- `unmount` and `unmount_client`: empty in the program.
- `directory_path_reader_t` in `mount.cpp`: its size counts the length word twice; nothing reads that size.
- `check_alias_path`: an assertion about configuration, not part of release builds.
- Threads, locks, sockets, the UDP loop, the session map by sender name, logging, file change notification and the command line.
- The port mapper: a list with unique keys.
- Symbolic links and reparse points: decided by data of the operating system.
