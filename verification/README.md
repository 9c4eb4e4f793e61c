# Sharded file store: coordinator and storage nodes

A small distributed file store. A coordinator (`MainServer`) accepts a client's
request and fans it out to three storage nodes (`ServerSlave`). Each request is
one of four actions:

- **send**: the coordinator cuts the file into three contiguous parts of
  at most `ceil(L / 3)` bytes each; the later parts can be shorter or empty.
  It sends part `i` to node `i` under part number `i + 1`. The node writes it
  to `filename + ".part" + n`.
- **get**: the coordinator asks node `i - 1` for `base + ".part" + i`. It
  concatenates, in node order, the parts that came back found.
- **delete**: every node removes each stored name that starts with the base
  name and reports one of three status strings. The coordinator folds the three
  answers into full success, partial success or failure.
- **list**: every node lists its names. The coordinator answers with their
  union.

The model has five modules:

- `Wire`: the frames on the sockets. A frame is a sequence of fields:
  a `writeUTF` string, a `writeInt`, a `writeLong`, or one raw byte of `write`.
  Each reader of a `DataInputStream` is a function that fails where the stream
  would raise an `IOException`.
- `Partition`: the cutting of a file. It keeps both the cuts as the code
  computes them (`SplitAsWritten`) and the corrected cuts (`Split`).
- `ShardStore`: one node. Its storage directory is a `map<string, seq<byte>>`.
  The names whose `File.delete` fails are a caller-supplied set. The directory's
  listing order is a caller-supplied enumeration.
- `Coordinator`: the coordinator's folds over the three node answers. Each
  answer is an `Exchange`: the reply, or `Unreachable` when the socket exchange
  raised an `IOException`.
- `Cluster`: the coordinator driving three node stores end to end. A
  per-request environment says which nodes cannot be connected to, and are
  therefore never contacted, and which removals fail.

The model follows the code; these behaviours are worth noting:

- **get and list:** an `IOException` on any node is not caught per node. It
  leaves the handler, so the whole request ends without a reply to the client
  (`Gather` and `Union` return `None`).
- **send:** a node that cannot be reached ends the request at that node. The
  nodes before it keep their parts, nothing is rolled back, and no
  acknowledgement is written.
- **delete:** a communication failure is caught per node. It counts the same as
  any reply other than the two expected strings.
- **send of a one-byte file:** the program computes the start of part i as
  `i * partSize` without clamping it, so the third cut of a one-byte file is
  `copyOfRange(data, 2, 1)`, which throws after nodes 0 and 1 already hold their
  parts. A client request is served with these cuts (`Cluster.StoreFileAsWritten`).
  The corrected cuts (`Partition.Split`, `Cluster.StoreFile`) clamp the start; the
  store lemmas of `Cluster` state both, and the two differ only for a one-byte file
  (see Findings).
- **Action tokens** are the lower-case strings `send`, `get`, `delete` and
  `list`. Matching is exact and case-sensitive. Any other action gets no reply
  and changes nothing.

## Model

| member | source | states |
|---|---|---|
| Wire.ReadUtf | ServerSlave.java:62 | readUTF succeeds exactly when the next field is a string, and consumes just that field |
| Wire.ReadInt | ServerSlave.java:82 | readInt succeeds exactly when the next field is a 32-bit integer, and consumes just that field |
| Wire.ReadLong | ServerSlave.java:83 | readLong succeeds exactly when the next field is a 64-bit integer, and consumes just that field |
| Wire.ReadBytes | ServerSlave.java:84-85 | readFully of n bytes succeeds exactly when the next n fields are raw bytes; the stream is those bytes followed by what remains |
| Wire.ReadPayload | MainServer.java:129-131 | reading a payload of the declared size succeeds exactly when the size is not negative and the next that many fields are raw bytes; the stream is then those bytes followed by what remains |
| Wire.ReadUtfs | MainServer.java:201-203 | n successive readUTF calls succeed exactly when the next n fields are strings, and return them in order |
| Wire.ReadBytesOctets | ServerSlave.java:83-85 | bytes written with write are read back unchanged, and the stream is left just past them |
| Wire.NamesFrameRoundTrip | MainServer.java:199-203 | a listing frame (count, then names) read back into a set yields exactly the set of names written, whatever their order |
| Wire.EnumerationCount | MainServer.java:207-210 | a listing that enumerates a set once per element has as many names as the set |
| Partition.PartSize | MainServer.java:91 | the part size is the least p with 3p >= L, which is ceil(L / 3) |
| Partition.CopyOfRange | MainServer.java:95 | Arrays.copyOfRange succeeds exactly when 0 <= from <= L and from <= to; the copy has to - from bytes, taken from the array and zero past its end |
| Partition.Split | MainServer.java:90-95 | a file is cut into exactly three parts, each at most partSize long |
| Partition.SplitConcat | MainServer.java:91-95 | parts 0, 1 and 2 concatenated in order give back the file |
| Partition.EmptyFileSplit | MainServer.java:91-95 | an empty file gives three empty parts |
| Partition.WrittenBoundsInRange | MainServer.java:91-94 | the computed bounds satisfy start <= end <= L exactly when L is not 1 or the part is not the third |
| Partition.SliceAsWrittenAgrees | MainServer.java:93-95 | pins down SliceAsWritten, the program's cut of part i: copyOfRange succeeds for every part of every length except the third part of a one-byte file, and where it succeeds it cuts the corrected part |
| Partition.SplitAsWritten | MainServer.java:91-95 | the program's three cuts are the corrected parts 1 and 2, then the corrected part 3, or a throwing cut when the file is one byte long |
| Partition.OneByteFileThirdCutThrows | MainServer.java:91-95 | for a one-byte file the first cut is the byte, the second is empty and the third throws |
| Partition.OneByteFileSplit | MainServer.java:91-95 | the corrected cuts of a one-byte file are the byte followed by two empty parts |
| Partition.NineThousandByteFile | MainServer.java:91-95 | a 9000-byte file is cut into its three 3000-byte thirds |
| ShardStore.StorePart | ServerSlave.java:80-91 | after a store, filename + ".part" + n holds exactly the bytes received, replacing any earlier contents; every other name and its contents are unchanged |
| ShardStore.FetchPart | ServerSlave.java:94-110 | the reply is found exactly when the exact name is stored, and then carries the stored bytes |
| ShardStore.DeleteByPrefix | ServerSlave.java:112-146 | the names left are exactly those without the prefix plus the matching names whose removal failed, with contents unchanged; the status is none-found iff nothing matched, some-failed iff a matching removal failed, all-deleted iff something matched and every match was removed |
| ShardStore.Execute | ServerSlave.java:62-72 | only send and delete change the store; send and an unknown action get no reply; list answers the stored names |
| ShardStore.ParseRequest | ServerSlave.java:62-72 | a request is read as an unknown action only when its action token is none of the four |
| ShardStore.Handle | ServerSlave.java:55-77 | a frame that does not start with a string, or starts with none of the four actions, changes nothing and gets no reply; only send and delete change the store and send is never answered; a list is answered with the directory's names in its order; a get of a name is answered "found", the length and the bytes when the name is stored and "not found" otherwise; a delete of a base is answered with the status string of removing the names that start with it |
| ShardStore.HandleEncoded | ServerSlave.java:55-77 | every request the coordinator encodes, whatever follows it, changes the store as carrying it out does and is answered with that reply's frame |
| ShardStore.DecimalStringInjective | ServerSlave.java:87 | distinct part numbers have distinct decimal renderings |
| ShardStore.ShardNamePartInjective | ServerSlave.java:87 | with the two lemmas below, pins down ShardName, the stored name filename + ".part" + n: two part numbers of the same file never share a stored name |
| ShardStore.ShardNameFileInjective | MainServer.java:124 | the same part number of two different files never shares a stored name |
| ShardStore.ShardNameExtendsFilename | ServerSlave.java:122 | every stored part name starts with its file name, so a delete by that name reaches it |
| ShardStore.PrefixOfShardName | ServerSlave.java:122 | a base name that prefixes a file name also prefixes every part name of that file |
| ShardStore.StoreThenFetch | ServerSlave.java:87-99 | after storing (f, n, d), fetching f + ".part" + n finds exactly d, and every other name fetches as before |
| ShardStore.DeleteAfterStore | ServerSlave.java:118-137 | when no removal fails, deleting by a file's name after storing one of its parts reports all deleted, and the part is no longer found |
| ShardStore.DeleteIdempotent | ServerSlave.java:118-130 | when the same names fail to be removed both times, a second delete of the same base name leaves the store as the first one left it |
| ShardStore.SecondDeleteFindsNothing | ServerSlave.java:118-144 | with no failing removal, a second delete of the same base name reports nothing found |
| ShardStore.PrefixDeleteReachesOtherFiles | ServerSlave.java:122 | deleting "demo" also removes the parts of "demo_old", leaving nothing |
| ShardStore.EmptyBaseDeletesEverything | ServerSlave.java:122-128 | an empty base name matches every name: only names whose removal fails survive |
| ShardStore.RequestRoundTrip | ServerSlave.java:62-113 | the node reads every request's fields (filename, part number, size, bytes for a store) in the order the coordinator writes them |
| ShardStore.UnknownActionIgnored | ServerSlave.java:62-72 | an action other than the four tokens changes nothing and writes nothing |
| ShardStore.UpperCaseActionIgnored | ServerSlave.java:64 | "SEND" is not a store request: matching is case-sensitive |
| ShardStore.ListReply | ServerSlave.java:150-158 | a listing writes a count equal to the number of stored names, then exactly those names |
| Coordinator.SendsFrom | MainServer.java:92-106 | from part i on, each part is sent in order to its own node under part number index + 1, and the sends stop at the first cut that throws or the first node that cannot be reached |
| Coordinator.Distribute | MainServer.java:92-108 | the sends are the longest run of parts that were cut and whose node was reachable; the acknowledgement is written iff every part was sent |
| Coordinator.DistributeThreeCuts | MainServer.java:92-106 | with three cuts of which the first two succeed, the sends are a prefix of the three parts sent in node order, each to a reachable node; the store is acknowledged exactly when the third cut succeeds and all nodes are reachable; the sending stops early only at an unreachable node or at a throwing third cut |
| Coordinator.SendFileAsWritten | MainServer.java:91-108 | the program's store sends a prefix of the corrected parts in node order, each to a reachable node; it is acknowledged exactly when the file is not one byte long and all three nodes are reachable; it stops early only at an unreachable node or, for a one-byte file, before node 2 |
| Coordinator.SendFileAsWrittenCuts | MainServer.java:92-106 | the program's store sends exactly what the loop sends over the program's cuts |
| Coordinator.Gather | MainServer.java:117-135 | no reply iff some node could not be reached; otherwise found iff some node answered found, and the payload is exactly the found parts in node order |
| Coordinator.Concatenate | MainServer.java:214-219 | the new array holds the first array's bytes followed by the second's |
| Coordinator.Tally | MainServer.java:147-176 | atLeastOneSuccess iff some node answered the success string; allFilesDeleted iff every node answered success or nothing found |
| Coordinator.DeleteVerdict | MainServer.java:179-185 | full success iff some success and every answer clean; partial iff some success and some other answer or failure; failure iff no node succeeded |
| Coordinator.ParseClientRequest | MainServer.java:66-76 | a client request is read as an unknown action only when its action token is none of the four |
| Coordinator.Union | MainServer.java:191-205 | no reply iff some node could not be reached; otherwise a name is listed iff some node listed it |
| Coordinator.SendFileRoutesEveryPart | MainServer.java:92-108 | with every node reachable, part i goes to node i under part number i + 1 and the store is acknowledged; the program's store does the same except for a one-byte file, where only parts 1 and 2 are sent and no acknowledgement is written |
| Coordinator.SendFileAsWrittenAgrees | MainServer.java:91-104 | for every length but 1 the code's cuts send exactly what the corrected cuts send |
| Coordinator.SendFileAsWrittenOneByte | MainServer.java:91-108 | with every node reachable, for a one-byte file nodes 0 and 1 receive their parts, node 2 is never contacted, and no acknowledgement is written |
| Coordinator.SendFileAckedIffAllReachable | MainServer.java:98-108 | with the corrected cuts a store is acknowledged exactly when all three nodes are reachable; the program's store, exactly when moreover the file is not one byte long |
| Coordinator.GatherThreeAnswers | MainServer.java:117-135 | for three answers, found iff one of them is found, and the payload is the found parts in node order |
| Coordinator.GatherMissingMiddle | MainServer.java:117-135 | a part missing from the middle node silently shortens the payload; the file is still reported found |
| Coordinator.FetchReplyRoundTrip | MainServer.java:126-131 | the coordinator reads a node's fetch reply as the node wrote it |
| Coordinator.ReadFetchReply | MainServer.java:126-131 | a node's answer is read as found exactly when its first string is "found", and then it must carry a length and that many bytes, which are the part; any other first string reads as not found |
| Coordinator.NodeReplyReadBack | ServerSlave.java:98-108 | pins down EncodeReply, the node's reply frames: a store writes nothing, a fetch reply is read back by the coordinator as the node meant it, a delete writes exactly its status string (ServerSlave.java:134-145), and a listing is read back as exactly the stored names (ServerSlave.java:151-157) |
| Coordinator.NodeStatusClassified | MainServer.java:164-171 | only the node's all-deleted string counts as success, and only its some-failed string spoils full success |
| Coordinator.NothingFoundAnywhereIsFailure | MainServer.java:179-185 | three nothing-found answers give failure, not success |
| Coordinator.VerdictOfThree | MainServer.java:151-185 | for three node answers: full success iff some answer is a success and all are clean, partial iff some is a success and not all are clean, failure iff none is a success |
| Coordinator.OutcomeMessageInjective | MainServer.java:179-185 | the three verdict strings written to the client are pairwise distinct, so each verdict can be told apart |
| Coordinator.UnreachableNodeMakesDeletePartial | MainServer.java:172-182 | one success and one unreachable node give a partial deletion, whatever the third node answers |
| Coordinator.FoundEmptyLooksNotFound | MainServer.java:137-142 | a found but empty file is written to the client exactly as "not found" |
| Coordinator.PayloadFrameReadBack | MainServer.java:137-139 | a found payload is written as its length followed by exactly its bytes |
| Coordinator.ClientFrameReadBack | MainServer.java:137-142 | pins down ClientFrame, the coordinator's reply frames: no reply writes nothing; a store acknowledgement (line 108) and a delete verdict (lines 179-185) are read back as exactly their string; a found file is read back as its length and then its bytes, a missing one as a bare 0; a listing (lines 207-210) is read back as exactly the set of names |
| Coordinator.ListFrameCount | MainServer.java:207-210 | the listing sent to the client carries the size of the union as its count, then exactly its names |
| Coordinator.ClientRequestRoundTrip | MainServer.java:66-88 | the coordinator reads a client request's fields in the order they are written |
| Cluster.Serve | MainServer.java:66-76 | an unknown action changes nothing and gets no reply; only send and delete change the nodes; delete always answers a status; a store is answered with the acknowledgement exactly when the file is not one byte long and every node is reachable, and with nothing otherwise |
| Cluster.HandleClient | MainServer.java:59-81 | a frame that does not start with a string, or starts with none of the four actions, changes nothing and gets no reply; only send and delete change the nodes; a get, a delete and a list are answered by the fetch, delete and listing folds over the three nodes |
| Cluster.HandleClientEncoded | MainServer.java:59-81 | every request a client encodes, whatever follows it, is served as its action's handler serves it, with the program's cuts for an upload |
| Cluster.StoreRoutesPartToNode | MainServer.java:92-104 | after a store with every node up, node k holds part k + 1 of the file under its part name, nothing else changed, and the store is acknowledged; after the program's store the same holds except that for a one-byte file node 2 is untouched and no acknowledgement is written |
| Cluster.StoreAsWrittenAgrees | MainServer.java:91-108 | pins down StoreFileAsWritten, the store Serve runs, together with OneByteStoreAsWritten and StoreAbortsWithoutRollback: for every length but 1 and any set of unreachable nodes, the program's store leaves the nodes and the reply exactly as the corrected store does |
| Cluster.StoreThenFetch | MainServer.java:117-139 | a file stored with every node up is fetched back whole and reported found; after the program's store of a one-byte file (not acknowledged) the fetch returns the byte followed by whatever node 2 already held as part 3 |
| Cluster.StoreAbortsWithoutRollback | MainServer.java:92-108 | when node k is the first unreachable node, the nodes before k keep their new parts, the nodes from k on are untouched, and no acknowledgement is written; the program's store behaves exactly the same for every k and every length, since a one-byte store stops only before node 2, which a first unreachable node k already keeps it from reaching |
| Cluster.OneByteStoreAsWritten | MainServer.java:91-108 | with every node reachable, the code's store of a one-byte file writes nodes 0 and 1, leaves node 2 untouched and sends no acknowledgement |
| Cluster.OneByteStoreAsWrittenReplies | MainServer.java:117-135 | after that store, nodes 0 and 1 answer found (the byte, then nothing) and node 2 answers whatever it held before |
| Cluster.OneByteStoreAsWrittenThenFetch | MainServer.java:117-139 | after that store a fetch still returns the byte, followed by any stale third part node 2 held |
| Cluster.MissingMiddlePartShortensFile | MainServer.java:117-135 | if the middle node loses its part, the fetch returns parts 1 and 3 joined and reports the file found; after the program's store of a one-byte file, part 3 is whatever node 2 already held |
| Cluster.NineThousandByteFileLosesMiddleThird | MainServer.java:91-135 | a 9000-byte file whose middle part is lost comes back as its first and last thirds, with the program's store as with the corrected one |
| Cluster.FetchAbortsOnUnreachableNode | MainServer.java:117-135 | a node that cannot be reached during a fetch ends the request with no reply |
| Cluster.FetchFileReassembles | MainServer.java:112-143 | pins down FetchFile: no reply exactly when some node cannot be reached; otherwise found exactly when some node holds its part name, and the bytes are the three held parts in node order, a missing part contributing nothing |
| Cluster.DeleteOfStoredFileSucceeds | MainServer.java:151-180 | when every node holds its part and every removal succeeds, the delete is a full success |
| Cluster.NothingFoundAfterDelete | MainServer.java:117-141 | after a delete with every node up and every removal succeeding, the file is not found |
| Cluster.DeleteAfterStore | MainServer.java:145-186 | with every node up and every removal succeeding, deleting a just-stored file is a full success, and afterwards the file is not found, after the corrected store and after the program's store alike |
| Cluster.DeleteWithFirstPartSucceeds | MainServer.java:165-180 | with every node up and every removal succeeding, a delete is a full success as soon as node 0 holds the file's first part |
| Cluster.DeleteSkipsUnreachableNode | MainServer.java:172-185 | a node that cannot be connected to keeps its files through a delete, and the delete is never a full success |
| Cluster.DeleteFileVerdict | MainServer.java:145-186 | pins down DeleteFile: each reachable node loses exactly the names starting with the base that are not undeletable, everything else is kept; the verdict is full success iff some node succeeded and every node answered with nothing undeletable, partial iff some node succeeded and some node did not, failure iff no node succeeded |
| Cluster.NodeDeleteClassified | ServerSlave.java:134-145 | a node's delete answer counts as a success exactly when it held names starting with the base and none was undeletable, and as clean exactly when it answered and none was undeletable |
| Cluster.ListIsUnionOfNodes | MainServer.java:191-205 | pins down ListFiles: with every node up the listing is the union of the three nodes' names; with any node down there is no reply |
| Cluster.StoreOnEmptyNodesKeys | ServerSlave.java:87 | with every node reachable, storing a file on empty nodes leaves node k holding exactly the name of part k + 1; with the program's store a one-byte file leaves node 2 empty |
| Cluster.ListAfterStoreShowsPartNames | MainServer.java:190-211 | with every node reachable, listing after storing a file on empty nodes shows its three part names, not the file's own name; with the program's store a one-byte file shows only the first two |
| Cluster.UnknownClientActionIgnored | MainServer.java:66-76 | an action other than the four tokens changes no node and gets no reply |
| Cluster.NodeExchangeFaithful | MainServer.java:98-104 | each node request is read as written, and each node reply is read back as the node meant it, so an exchange over the wire behaves as the direct call |
| Cluster.EmptyFileLooksAbsent | MainServer.java:137-142 | with every node reachable, an empty file is stored as three empty parts and fetched back found, yet the client receives the frame of a file that does not exist; the program's store does the same |

## Left out

- Client.java: an interactive menu over socket and file I/O. Only the request
  frames it writes are modelled, by `Coordinator.EncodeClientRequest`.
- `loadConfig` in both servers: reading host names, ports and storage paths from
  a configuration file.
- The `main` accept loops and the thread per connection. Each request is
  modelled alone, in one step.
- Byte-level encoding of fields: modified UTF-8 strings and big-endian integers.
  Frames are sequences of abstract fields.
- `Math.ceil(fileSize / 3.0)` is replaced by the integer `(L + 2) / 3`. The two
  agree for every length a Java array can have.
- Java `int` overflow in the cutting loop. For a file of `Integer.MAX_VALUE`
  bytes, `start + partSize` for the third part (MainServer.java:94) exceeds
  `Integer.MAX_VALUE` and wraps to a negative end; the model computes the bounds
  with unbounded integers. `i * partSize` itself stays below 2^31.
- The `(int)` casts of sizes read from the wire (MainServer.java:87 and 130,
  ServerSlave.java:84): declared sizes are assumed to fit an `int`. A frame
  declaring 2^32 + 5 bytes would make the program read only 5 of them; the
  model reads the declared number.
- Real filesystem semantics: path separators in names, directories, disk-write
  failures, and the order of `listFiles` and of `HashSet` iteration. The store
  is a map, failed removals are a caller-supplied set, and listing orders are
  caller-supplied enumerations.
- The node's buffered copy of a file onto the socket: the whole stored contents
  are written.
- Console logging.
- Cluster.Env: a node in `down` is never contacted. A failure after the node
  acted is not modelled: at MainServer.java:161 `readUTF` can throw after the
  node has already removed its files, and the catch at MainServer.java:172 then
  counts it as unclean, so `Cluster.DeleteSkipsUnreachableNode`'s "keeps its
  files" holds only for a node that could not be connected to. The same goes for
  a store whose node wrote its part before the coordinator's stream failed.
- Coordinator.Gather: does not model the `concatenate` array copies; it uses
  sequence concatenation, and `Coordinator.Concatenate` states that the copies
  compute the same thing.

## Findings

| source | as written | input that shows it | evidently intended | confidence | as-written member | corrected member |
|---|---|---|---|---|---|---|
| MainServer.java:91-95 | the start of part i is i * partSize, never clamped to the file length | a one-byte file: partSize is 1, and the third cut is copyOfRange(data, 2, 1), which throws after nodes 0 and 1 already hold their parts; no acknowledgement is written, and a later fetch returns the byte plus any stale third part | clamp the start to the file length, so a short file gets empty trailing parts and the three parts always concatenate to the file | not executed | Partition.OneByteFileThirdCutThrows | Partition.SplitConcat |
