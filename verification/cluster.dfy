/** The coordinator driving its three storage nodes: one client request at a time,
    as MainServer.ClientHandler.run dispatches it, with each node request carried
    out by the node's own logic.

    The environment of a request says which nodes cannot be connected to and, per
    node, which names fail to be removed. Node i always holds part i + 1.
 */
module Cluster {
  import opened Wire
  import opened Partition
  import ShardStore
  import opened Coordinator

  /** The storage directories of the three nodes, in the order of the node table. */
  type Nodes = s: seq<ShardStore.Store> | |s| == PARTS witness [map[], map[], map[]]

  /** What happens around one request: the nodes that cannot be connected to, and
      for each node the names whose File.delete fails. A node in `down` is never
      contacted, so it neither acts on the request nor answers it. */
  datatype Env = Env(down: set<nat>, undeletable: map<nat, set<string>>)

  /** The names whose File.delete fails on node k. */
  function Undeletable(env: Env, k: nat): set<string>
  {
    if k in env.undeletable then env.undeletable[k] else {}
  }

  /** Every node reachable, every removal succeeding. */
  const AllUp := Env({}, map[])

  /** Node k carries out sent[k]; nodes past the end of `sent` receive nothing. */
  function Deliver(nodes: Nodes, sent: seq<ShardStore.Request>): Nodes
    requires |sent| <= PARTS
  {
    seq(PARTS, k requires 0 <= k < PARTS =>
      if k < |sent| then ShardStore.Execute(nodes[k], {}, sent[k]).0 else nodes[k])
  }

  function Complete(nodes: Nodes, run: StoreRun): (Nodes, ClientReply)
    requires |run.sent| <= PARTS
  {
    (Deliver(nodes, run.sent), if run.acked then Ack else NoReply)
  }

  /** A store request as written: copyOfRange's cuts. */
  function StoreFileAsWritten(nodes: Nodes, env: Env, filename: string, data: seq<byte>): (Nodes, ClientReply)
  {
    Complete(nodes, SendFileAsWritten(filename, data, env.down))
  }

  /** Any file but a one-byte one is stored as written exactly as with the corrected cuts. */
  lemma StoreAsWrittenAgrees(nodes: Nodes, env: Env, filename: string, data: seq<byte>)
    requires |data| != 1
    ensures StoreFileAsWritten(nodes, env, filename, data) == StoreFile(nodes, env, filename, data)
  {
    SendFileAsWrittenAgrees(filename, data, env.down);
  }

  /** The bytes a directory holds under a name, none when the name is absent. */
  function StoredPart(store: ShardStore.Store, name: string): seq<byte>
  {
    FoundPart(Answered(ShardStore.FetchPart(store, name)))
  }

  /** What node 2 already holds under the name of part 3: the bytes a fetch appends
      when the store as written never reached node 2. */
  function StaleThird(nodes: Nodes, filename: string): seq<byte>
  {
    StoredPart(nodes[2], ShardStore.ShardName(filename, 3))
  }

  /** A store request with the corrected cuts. */
  function StoreFile(nodes: Nodes, env: Env, filename: string, data: seq<byte>): (Nodes, ClientReply)
  {
    Complete(nodes, SendFile(filename, data, env.down))
  }

  /** What node i answers to the request for part i + 1 of `base`. */
  function FetchReplies(nodes: Nodes, env: Env, base: string): seq<Exchange<ShardStore.FetchReply>>
  {
    seq(PARTS, i requires 0 <= i < PARTS =>
      if i in env.down then Unreachable
      else Answered(ShardStore.FetchPart(nodes[i], ShardStore.ShardName(base, i + 1))))
  }

  function FetchFile(nodes: Nodes, env: Env, base: string): ClientReply
  {
    match Gather(FetchReplies(nodes, env, base))
    case None => NoReply
    case Some((found, data)) => Payload(found, data)
  }

  /** With every node reachable, node i is asked for part i + 1 and answers from its directory. */
  lemma FetchRepliesAllUp(nodes: Nodes, base: string)
    ensures FetchReplies(nodes, AllUp, base) ==
              [Answered(ShardStore.FetchPart(nodes[0], ShardStore.ShardName(base, 1))),
               Answered(ShardStore.FetchPart(nodes[1], ShardStore.ShardName(base, 2))),
               Answered(ShardStore.FetchPart(nodes[2], ShardStore.ShardName(base, 3)))]
  {
  }

  /** A fetch with every node reachable, from what each node answers. */
  lemma FetchThreeParts(nodes: Nodes, base: string, a: ShardStore.FetchReply, b: ShardStore.FetchReply,
                        c: ShardStore.FetchReply)
    requires ShardStore.FetchPart(nodes[0], ShardStore.ShardName(base, 1)) == a
    requires ShardStore.FetchPart(nodes[1], ShardStore.ShardName(base, 2)) == b
    requires ShardStore.FetchPart(nodes[2], ShardStore.ShardName(base, 3)) == c
    ensures FetchFile(nodes, AllUp, base) ==
              Payload(a.Found? || b.Found? || c.Found?,
                      FoundPart(Answered(a)) + FoundPart(Answered(b)) + FoundPart(Answered(c)))
  {
    FetchRepliesAllUp(nodes, base);
    GatherThreeAnswers(a, b, c);
  }

  /** Node i's directory after a delete request, and what the coordinator hears. */
  function DeleteAt(nodes: Nodes, env: Env, base: string, i: nat): (ShardStore.Store, Exchange<string>)
    requires i < PARTS
  {
    if i in env.down then (nodes[i], Unreachable)
    else
      var (s, status) := ShardStore.DeleteByPrefix(nodes[i], base, Undeletable(env, i));
      (s, Answered(ShardStore.DeleteMessage(status)))
  }

  function DeleteReplies(nodes: Nodes, env: Env, base: string): seq<Exchange<string>>
  {
    seq(PARTS, i requires 0 <= i < PARTS => DeleteAt(nodes, env, base, i).1)
  }

  function DeleteFile(nodes: Nodes, env: Env, base: string): (Nodes, ClientReply)
  {
    var nodes' := seq(PARTS, i requires 0 <= i < PARTS => DeleteAt(nodes, env, base, i).0);
    (nodes', Status(DeleteVerdict(DeleteReplies(nodes, env, base))))
  }

  function ListReplies(nodes: Nodes, env: Env): seq<Exchange<set<string>>>
  {
    seq(PARTS, i requires 0 <= i < PARTS => if i in env.down then Unreachable else Answered(nodes[i].Keys))
  }

  function ListFiles(nodes: Nodes, env: Env): ClientReply
  {
    match Union(ListReplies(nodes, env))
    case None => NoReply
    case Some(names) => Names(names)
  }

  /** The dispatch of run: only store and delete change the nodes; a store is
      acknowledged exactly when the file is not one byte long and every node is
      reachable; an unknown action changes nothing and gets no reply. */
  function Serve(nodes: Nodes, env: Env, req: ClientRequest): (r: (Nodes, ClientReply))
    ensures req.Ignored? ==> r == (nodes, NoReply)
    ensures !req.Upload? && !req.Remove? ==> r.0 == nodes
    ensures req.Remove? ==> r.1.Status?
    ensures req.Upload? ==> r.1 == Ack || r.1 == NoReply
    ensures req.Upload? ==>
              (r.1 == Ack <==> |req.data| != 1 && 0 !in env.down && 1 !in env.down && 2 !in env.down)
  {
    match req
    case Upload(filename, data) => StoreFileAsWritten(nodes, env, filename, data)
    case Download(name) => (nodes, FetchFile(nodes, env, name))
    case Remove(base) => DeleteFile(nodes, env, base)
    case ListAll => (nodes, ListFiles(nodes, env))
    case Ignored(_) => (nodes, NoReply)
  }

  /** ClientHandler.run on the coordinator: a request that cannot be read changes
      nothing and gets no reply, and so does an action that is none of the four.
      Only `send` and `delete` change the nodes. HandleClientEncoded states that
      every request a client encodes is served as Serve says. */
  function HandleClient(nodes: Nodes, env: Env, ts: seq<Token>): (r: (Nodes, ClientReply))
    ensures ParseClientRequest(ts).None? ==> r == (nodes, NoReply)
    ensures |ts| == 0 || !ts[0].Utf? || !ShardStore.Recognised(ts[0].text) ==> r == (nodes, NoReply)
    ensures r.0 != nodes ==> |ts| > 0 && (ts[0] == Utf(ShardStore.SEND) || ts[0] == Utf(ShardStore.DELETE))
    ensures |ts| > 0 && ts[0] == Utf(ShardStore.LIST) ==> r == (nodes, ListFiles(nodes, env))
    ensures |ts| > 1 && ts[0] == Utf(ShardStore.GET) && ts[1].Utf? ==>
              r == (nodes, FetchFile(nodes, env, ts[1].text))
    ensures |ts| > 1 && ts[0] == Utf(ShardStore.DELETE) && ts[1].Utf? ==>
              r == DeleteFile(nodes, env, ts[1].text)
  {
    match ParseClientRequest(ts)
    case None => (nodes, NoReply)
    case Some(req) => Serve(nodes, env, req)
  }

  /** Every request a client encodes, whatever follows it on the stream, is served
      exactly as Serve says: the program's store for an upload, and the fetch,
      delete and listing folds for the other three actions. */
  lemma HandleClientEncoded(nodes: Nodes, env: Env, req: ClientRequest, rest: seq<Token>)
    requires req.Ignored? ==> !ShardStore.Recognised(req.action)
    ensures HandleClient(nodes, env, EncodeClientRequest(req) + rest) == Serve(nodes, env, req)
  {
    ClientRequestRoundTrip(req, rest);
  }

  // ---------------------------------------------------------------- properties

  /** After a store with every node reachable, node k holds part k + 1 of the file
      and nothing else on it has changed. As written, a one-byte file is the
      exception: node 2 is never written and no acknowledgement follows. */
  lemma StoreRoutesPartToNode(nodes: Nodes, filename: string, data: seq<byte>)
    ensures var (nodes', reply) := StoreFile(nodes, AllUp, filename, data);
            reply == Ack &&
            forall k :: 0 <= k < PARTS ==>
              nodes'[k] == ShardStore.StorePart(nodes[k], filename, k + 1, Split(data)[k])
    ensures var (nodes', reply) := StoreFileAsWritten(nodes, AllUp, filename, data);
            (reply == Ack <==> |data| != 1) &&
            forall k :: 0 <= k < PARTS ==>
              nodes'[k] == if |data| == 1 && k == 2 then nodes[k]
                           else ShardStore.StorePart(nodes[k], filename, k + 1, Split(data)[k])
  {
    StoreRoutesCorrected(nodes, filename, data);
    StoreRoutesAsWritten(nodes, filename, data);
  }

  /** The corrected half of StoreRoutesPartToNode. */
  lemma StoreRoutesCorrected(nodes: Nodes, filename: string, data: seq<byte>)
    ensures var (nodes', reply) := StoreFile(nodes, AllUp, filename, data);
            reply == Ack &&
            forall k :: 0 <= k < PARTS ==>
              nodes'[k] == ShardStore.StorePart(nodes[k], filename, k + 1, Split(data)[k])
  {
    SendFileRoutesEveryPart(filename, data);
  }

  /** The as-written half of StoreRoutesPartToNode. */
  lemma StoreRoutesAsWritten(nodes: Nodes, filename: string, data: seq<byte>)
    ensures var (nodes', reply) := StoreFileAsWritten(nodes, AllUp, filename, data);
            (reply == Ack <==> |data| != 1) &&
            forall k :: 0 <= k < PARTS ==>
              nodes'[k] == if |data| == 1 && k == 2 then nodes[k]
                           else ShardStore.StorePart(nodes[k], filename, k + 1, Split(data)[k])
  {
    if |data| == 1 {
      OneByteStoreAsWritten(nodes, filename, data);
      OneByteFileSplit(data);
    } else {
      StoreRoutesCorrected(nodes, filename, data);
      StoreAsWrittenAgrees(nodes, AllUp, filename, data);
    }
  }

  /** Round trip: a stored file is fetched back whole, and found. As written, a
      one-byte store is not acknowledged, and the fetch returns the byte followed by
      whatever node 2 already held under the name of part 3. */
  lemma StoreThenFetch(nodes: Nodes, filename: string, data: seq<byte>)
    ensures var (nodes', reply) := StoreFile(nodes, AllUp, filename, data);
            reply == Ack && FetchFile(nodes', AllUp, filename) == Payload(true, data)
    ensures var (nodes', reply) := StoreFileAsWritten(nodes, AllUp, filename, data);
            (reply == Ack <==> |data| != 1) &&
            FetchFile(nodes', AllUp, filename) ==
              Payload(true, if |data| == 1 then data + StaleThird(nodes, filename) else data)
  {
    StoreThenFetchCorrected(nodes, filename, data);
    if |data| == 1 {
      OneByteStoreAsWritten(nodes, filename, data);
      OneByteStoreAsWrittenThenFetch(nodes, filename, data);
      assert data + [] == data;
    } else {
      StoreAsWrittenAgrees(nodes, AllUp, filename, data);
    }
  }

  /** The corrected half of StoreThenFetch. */
  lemma StoreThenFetchCorrected(nodes: Nodes, filename: string, data: seq<byte>)
    ensures var (nodes', reply) := StoreFile(nodes, AllUp, filename, data);
            reply == Ack && FetchFile(nodes', AllUp, filename) == Payload(true, data)
  {
    var parts := Split(data);
    StoreRoutesCorrected(nodes, filename, data);
    var nodes' := StoreFile(nodes, AllUp, filename, data).0;
    var replies := FetchReplies(nodes', AllUp, filename);
    assert replies == [Answered(ShardStore.Found(parts[0])), Answered(ShardStore.Found(parts[1])),
                       Answered(ShardStore.Found(parts[2]))];
    GatherThreeAnswers(ShardStore.Found(parts[0]), ShardStore.Found(parts[1]), ShardStore.Found(parts[2]));
    SplitConcat(data);
  }

  /** A node that cannot be reached ends a store there: the nodes before it keep the
      parts already sent, the nodes from it on are untouched, and no acknowledgement
      is written. The program's store does exactly the same: a one-byte store stops
      only before node 2, and node k being down already stops it there or earlier. */
  lemma StoreAbortsWithoutRollback(nodes: Nodes, env: Env, filename: string, data: seq<byte>, k: nat)
    requires k < PARTS && k in env.down
    requires forall j :: 0 <= j < k ==> j !in env.down
    ensures var (nodes', reply) := StoreFile(nodes, env, filename, data);
            reply == NoReply &&
            (forall j :: 0 <= j < k ==>
               nodes'[j] == ShardStore.StorePart(nodes[j], filename, j + 1, Split(data)[j])) &&
            (forall j :: k <= j < PARTS ==> nodes'[j] == nodes[j])
    ensures var (nodes', reply) := StoreFileAsWritten(nodes, env, filename, data);
            reply == NoReply &&
            (forall j :: 0 <= j < k ==>
               nodes'[j] == ShardStore.StorePart(nodes[j], filename, j + 1, Split(data)[j])) &&
            (forall j :: k <= j < PARTS ==> nodes'[j] == nodes[j])
  {
    StoreAbortsCorrected(nodes, env, filename, data, k);
    var run := SendFileAsWritten(filename, data, env.down);
    assert !run.acked;
    assert |run.sent| <= k;
    assert |data| != 1 ==> |run.sent| == k;
    assert |data| == 1 ==> |run.sent| == if k < 2 then k else 2;
  }

  /** The corrected half of StoreAbortsWithoutRollback. */
  lemma StoreAbortsCorrected(nodes: Nodes, env: Env, filename: string, data: seq<byte>, k: nat)
    requires k < PARTS && k in env.down
    requires forall j :: 0 <= j < k ==> j !in env.down
    ensures var (nodes', reply) := StoreFile(nodes, env, filename, data);
            reply == NoReply &&
            (forall j :: 0 <= j < k ==>
               nodes'[j] == ShardStore.StorePart(nodes[j], filename, j + 1, Split(data)[j])) &&
            (forall j :: k <= j < PARTS ==> nodes'[j] == nodes[j])
  {
    var run := SendFile(filename, data, env.down);
    assert !run.acked;
    assert |run.sent| <= k;
    assert |run.sent| < PARTS ==> |run.sent| in env.down;
  }

  /** The store as written on a one-byte file: nodes 0 and 1 are written, node 2 is not,
      and the client gets no acknowledgement. */
  lemma OneByteStoreAsWritten(nodes: Nodes, filename: string, data: seq<byte>)
    requires |data| == 1
    ensures var (nodes', reply) := StoreFileAsWritten(nodes, AllUp, filename, data);
            reply == NoReply &&
            nodes'[0] == ShardStore.StorePart(nodes[0], filename, 1, data) &&
            nodes'[1] == ShardStore.StorePart(nodes[1], filename, 2, []) &&
            nodes'[2] == nodes[2]
  {
    SendFileAsWrittenOneByte(filename, data);
  }

  /** What the three nodes answer to a fetch after the one-byte store as written. */
  lemma OneByteStoreAsWrittenReplies(nodes: Nodes, filename: string, data: seq<byte>)
    requires |data| == 1
    ensures FetchReplies(StoreFileAsWritten(nodes, AllUp, filename, data).0, AllUp, filename) ==
              [Answered(ShardStore.Found(data)), Answered(ShardStore.Found([])),
               Answered(ShardStore.FetchPart(nodes[2], ShardStore.ShardName(filename, 3)))]
  {
    OneByteStoreAsWritten(nodes, filename, data);
    var nodes' := StoreFileAsWritten(nodes, AllUp, filename, data).0;
    var replies := FetchReplies(nodes', AllUp, filename);
    assert replies[0] == Answered(ShardStore.Found(data));
    assert replies[1] == Answered(ShardStore.Found([]));
    assert replies[2] == Answered(ShardStore.FetchPart(nodes[2], ShardStore.ShardName(filename, 3)));
  }

  /** After the unacknowledged one-byte store, a fetch still finds the byte, followed by
      whatever stale third part node 2 already held under the same name. */
  lemma OneByteStoreAsWrittenThenFetch(nodes: Nodes, filename: string, data: seq<byte>)
    requires |data| == 1
    ensures var nodes' := StoreFileAsWritten(nodes, AllUp, filename, data).0;
            var third := ShardStore.ShardName(filename, 3);
            (third !in nodes[2] ==> FetchFile(nodes', AllUp, filename) == Payload(true, data)) &&
            (third in nodes[2] ==> FetchFile(nodes', AllUp, filename) == Payload(true, data + nodes[2][third]))
  {
    OneByteStoreAsWrittenReplies(nodes, filename, data);
    var third := ShardStore.FetchPart(nodes[2], ShardStore.ShardName(filename, 3));
    GatherThreeAnswers(ShardStore.Found(data), ShardStore.Found([]), third);
    assert data + [] == data;
  }

  /** A part lost from the middle node is skipped silently: the fetch still reports the
      file found, with parts 1 and 3 joined. As written, after a one-byte store the
      third part is whatever node 2 already held under its name. */
  lemma MissingMiddlePartShortensFile(nodes: Nodes, filename: string, data: seq<byte>)
    ensures var stored := StoreFile(nodes, AllUp, filename, data).0;
            var lost := stored[1 := stored[1] - {ShardStore.ShardName(filename, 2)}];
            FetchFile(lost, AllUp, filename) == Payload(true, Split(data)[0] + Split(data)[2])
    ensures var stored := StoreFileAsWritten(nodes, AllUp, filename, data).0;
            var lost := stored[1 := stored[1] - {ShardStore.ShardName(filename, 2)}];
            FetchFile(lost, AllUp, filename) ==
              Payload(true, Split(data)[0] + if |data| == 1 then StaleThird(nodes, filename) else Split(data)[2])
  {
    MissingMiddleCorrected(nodes, filename, data);
    MissingMiddleAsWritten(nodes, filename, data);
  }

  /** The corrected half of MissingMiddlePartShortensFile. */
  lemma MissingMiddleCorrected(nodes: Nodes, filename: string, data: seq<byte>)
    ensures var stored := StoreFile(nodes, AllUp, filename, data).0;
            var lost := stored[1 := stored[1] - {ShardStore.ShardName(filename, 2)}];
            FetchFile(lost, AllUp, filename) == Payload(true, Split(data)[0] + Split(data)[2])
  {
    StoreRoutesCorrected(nodes, filename, data);
    LostMiddleAfterStore(nodes, StoreFile(nodes, AllUp, filename, data).0, filename, Split(data));
  }

  /** The as-written half of MissingMiddlePartShortensFile. */
  lemma MissingMiddleAsWritten(nodes: Nodes, filename: string, data: seq<byte>)
    ensures var stored := StoreFileAsWritten(nodes, AllUp, filename, data).0;
            var lost := stored[1 := stored[1] - {ShardStore.ShardName(filename, 2)}];
            FetchFile(lost, AllUp, filename) ==
              Payload(true, Split(data)[0] + if |data| == 1 then StaleThird(nodes, filename) else Split(data)[2])
  {
    if |data| == 1 {
      OneByteStoreAsWritten(nodes, filename, data);
      OneByteFileSplit(data);
      LostMiddleAfterOneByte(nodes, StoreFileAsWritten(nodes, AllUp, filename, data).0, filename, data);
    } else {
      MissingMiddleCorrected(nodes, filename, data);
      StoreAsWrittenAgrees(nodes, AllUp, filename, data);
    }
  }

  /** Every node written with its part, then part 2 lost: parts 1 and 3 come back. */
  lemma LostMiddleAfterStore(nodes: Nodes, stored: Nodes, filename: string, parts: seq<seq<byte>>)
    requires |parts| == PARTS
    requires forall k :: 0 <= k < PARTS ==>
               stored[k] == ShardStore.StorePart(nodes[k], filename, k + 1, parts[k])
    ensures var lost := stored[1 := stored[1] - {ShardStore.ShardName(filename, 2)}];
            FetchFile(lost, AllUp, filename) == Payload(true, parts[0] + parts[2])
  {
    var lost: Nodes := stored[1 := stored[1] - {ShardStore.ShardName(filename, 2)}];
    assert stored[0] == ShardStore.StorePart(nodes[0], filename, 1, parts[0]);
    assert stored[2] == ShardStore.StorePart(nodes[2], filename, 3, parts[2]);
    FetchThreeParts(lost, filename, ShardStore.Found(parts[0]), ShardStore.NotFound, ShardStore.Found(parts[2]));
    assert FoundPart(Answered(ShardStore.Found(parts[0]))) + FoundPart(Answered(ShardStore.NotFound)) == parts[0];
  }

  /** Nodes 0 and 1 written by the one-byte store as written, then part 2 lost: the
      byte comes back, followed by whatever node 2 already held as part 3. */
  lemma LostMiddleAfterOneByte(nodes: Nodes, stored: Nodes, filename: string, data: seq<byte>)
    requires stored[0] == ShardStore.StorePart(nodes[0], filename, 1, data)
    requires stored[1] == ShardStore.StorePart(nodes[1], filename, 2, [])
    requires stored[2] == nodes[2]
    ensures var lost := stored[1 := stored[1] - {ShardStore.ShardName(filename, 2)}];
            FetchFile(lost, AllUp, filename) == Payload(true, data + StaleThird(nodes, filename))
  {
    var lost: Nodes := stored[1 := stored[1] - {ShardStore.ShardName(filename, 2)}];
    var third := ShardStore.FetchPart(nodes[2], ShardStore.ShardName(filename, 3));
    FetchThreeParts(lost, filename, ShardStore.Found(data), ShardStore.NotFound, third);
    assert FoundPart(Answered(ShardStore.Found(data))) + FoundPart(Answered(ShardStore.NotFound)) == data;
    assert FoundPart(Answered(third)) == StaleThird(nodes, filename);
  }

  /** A 9000-byte file whose middle part is lost comes back as 6000 bytes: the first and
      last thirds; the store as written does the same here. */
  lemma NineThousandByteFileLosesMiddleThird(nodes: Nodes, filename: string, data: seq<byte>)
    requires |data| == 9000
    ensures var stored := StoreFile(nodes, AllUp, filename, data).0;
            var lost := stored[1 := stored[1] - {ShardStore.ShardName(filename, 2)}];
            FetchFile(lost, AllUp, filename) == Payload(true, data[..3000] + data[6000..])
    ensures StoreFileAsWritten(nodes, AllUp, filename, data) == StoreFile(nodes, AllUp, filename, data)
  {
    StoreAsWrittenAgrees(nodes, AllUp, filename, data);
    MissingMiddleCorrected(nodes, filename, data);
    NineThousandByteFile(data);
  }

  /** A node that cannot be reached during a fetch abandons the whole request: no reply. */
  lemma FetchAbortsOnUnreachableNode(nodes: Nodes, env: Env, base: string, i: nat)
    requires i < PARTS && i in env.down
    ensures FetchFile(nodes, env, base) == NoReply
  {
    assert FetchReplies(nodes, env, base)[i].Unreachable?;
  }

  /** When every node holds its part of a file and every removal succeeds, deleting
      the file is reported as a full success. */
  lemma DeleteOfStoredFileSucceeds(nodes: Nodes, filename: string)
    requires forall k :: 0 <= k < PARTS ==> ShardStore.ShardName(filename, k + 1) in nodes[k]
    ensures DeleteFile(nodes, AllUp, filename).1 == Status(Deleted)
  {
    forall k | 0 <= k < PARTS
      ensures DeleteAt(nodes, AllUp, filename, k).1 == Answered(ShardStore.DELETED_MESSAGE)
    {
      ShardStore.ShardNameExtendsFilename(filename, k + 1);
    }
    var replies := DeleteReplies(nodes, AllUp, filename);
    assert IsSuccess(replies[0]);
  }

  /** After a delete with every node reachable and every removal succeeding, no part
      of the file is found. */
  lemma NothingFoundAfterDelete(nodes: Nodes, filename: string)
    ensures FetchFile(DeleteFile(nodes, AllUp, filename).0, AllUp, filename) == Payload(false, [])
  {
    var deleted := DeleteFile(nodes, AllUp, filename).0;
    forall k | 0 <= k < PARTS
      ensures ShardStore.ShardName(filename, k + 1) !in deleted[k]
    {
      ShardStore.ShardNameExtendsFilename(filename, k + 1);
    }
    FetchThreeParts(deleted, filename, ShardStore.NotFound, ShardStore.NotFound, ShardStore.NotFound);
  }

  /** Deleting a stored file with every node reachable and every removal succeeding is a
      full success, and afterwards the file is not found; the same holds after the
      program's store, where a one-byte file reached only nodes 0 and 1. */
  lemma DeleteAfterStore(nodes: Nodes, filename: string, data: seq<byte>)
    ensures var stored := StoreFile(nodes, AllUp, filename, data).0;
            var (deleted, reply) := DeleteFile(stored, AllUp, filename);
            reply == Status(Deleted) && FetchFile(deleted, AllUp, filename) == Payload(false, [])
    ensures var stored := StoreFileAsWritten(nodes, AllUp, filename, data).0;
            var (deleted, reply) := DeleteFile(stored, AllUp, filename);
            reply == Status(Deleted) && FetchFile(deleted, AllUp, filename) == Payload(false, [])
  {
    StoreRoutesCorrected(nodes, filename, data);
    StoreRoutesAsWritten(nodes, filename, data);
    var stored := StoreFile(nodes, AllUp, filename, data).0;
    var stored' := StoreFileAsWritten(nodes, AllUp, filename, data).0;
    DeleteWithFirstPartSucceeds(stored, filename);
    DeleteWithFirstPartSucceeds(stored', filename);
    NothingFoundAfterDelete(stored, filename);
    NothingFoundAfterDelete(stored', filename);
  }

  /** With every node reachable and every removal succeeding, a delete is a full success
      as soon as node 0 holds the first part of the file. */
  lemma DeleteWithFirstPartSucceeds(nodes: Nodes, filename: string)
    requires ShardStore.ShardName(filename, 1) in nodes[0]
    ensures DeleteFile(nodes, AllUp, filename).1 == Status(Deleted)
  {
    ShardStore.ShardNameExtendsFilename(filename, 1);
    assert NodeSucceeded(nodes, AllUp, filename, 0);
    DeleteFileStatus(nodes, AllUp, filename);
  }

  /** A node that cannot be reached keeps its files through a delete, and the delete
      cannot be reported as a full success. */
  lemma DeleteSkipsUnreachableNode(nodes: Nodes, env: Env, base: string, i: nat)
    requires i < PARTS && i in env.down
    ensures DeleteFile(nodes, env, base).0[i] == nodes[i]
    ensures DeleteFile(nodes, env, base).1 != Status(Deleted)
  {
    assert !IsClean(DeleteReplies(nodes, env, base)[i]);
  }

  /** A fetch gets no reply exactly when some node cannot be reached; otherwise the file
      is found when any node holds its part, and its bytes are the three parts held, in
      node order, a missing part contributing nothing. */
  lemma FetchFileReassembles(nodes: Nodes, env: Env, base: string)
    ensures FetchFile(nodes, env, base) == NoReply <==> 0 in env.down || 1 in env.down || 2 in env.down
    ensures 0 !in env.down && 1 !in env.down && 2 !in env.down ==>
              var n1, n2, n3 := ShardStore.ShardName(base, 1), ShardStore.ShardName(base, 2),
                                ShardStore.ShardName(base, 3);
              FetchFile(nodes, env, base) ==
                Payload(n1 in nodes[0] || n2 in nodes[1] || n3 in nodes[2],
                        StoredPart(nodes[0], n1) + StoredPart(nodes[1], n2) + StoredPart(nodes[2], n3))
  {
    if 0 !in env.down && 1 !in env.down && 2 !in env.down {
      var n1, n2, n3 := ShardStore.ShardName(base, 1), ShardStore.ShardName(base, 2),
                        ShardStore.ShardName(base, 3);
      var a, b, c := ShardStore.FetchPart(nodes[0], n1), ShardStore.FetchPart(nodes[1], n2),
                     ShardStore.FetchPart(nodes[2], n3);
      assert FetchReplies(nodes, env, base) == FetchReplies(nodes, AllUp, base);
      FetchThreeParts(nodes, base, a, b, c);
      assert FoundPart(Answered(a)) == StoredPart(nodes[0], n1);
      assert FoundPart(Answered(b)) == StoredPart(nodes[1], n2);
      assert FoundPart(Answered(c)) == StoredPart(nodes[2], n3);
    } else if 0 in env.down {
      FetchAbortsOnUnreachableNode(nodes, env, base, 0);
    } else if 1 in env.down {
      FetchAbortsOnUnreachableNode(nodes, env, base, 1);
    } else {
      FetchAbortsOnUnreachableNode(nodes, env, base, 2);
    }
  }

  /** Node i removes every name of its directory that starts with the base, except the
      undeletable ones, and reports success when it had such names and none of them was
      undeletable. */
  predicate NodeSucceeded(nodes: Nodes, env: Env, base: string, i: nat)
    requires i < PARTS
  {
    i !in env.down &&
    (exists n :: n in nodes[i] && base <= n) &&
    (forall n :: n in nodes[i] && base <= n ==> n !in Undeletable(env, i))
  }

  /** Node i answered and no name starting with the base was undeletable on it. */
  predicate NodeClean(nodes: Nodes, env: Env, base: string, i: nat)
    requires i < PARTS
  {
    i !in env.down && forall n :: n in nodes[i] && base <= n ==> n !in Undeletable(env, i)
  }

  /** A delete removes, on each reachable node, the names starting with the base that are
      not undeletable, and keeps everything else; it reports full success when some node
      succeeded and every node answered with nothing undeletable, partial success when some
      node succeeded but another did not come clean, and failure when no node succeeded. */
  lemma DeleteFileVerdict(nodes: Nodes, env: Env, base: string)
    ensures var nodes' := DeleteFile(nodes, env, base).0;
            forall i, n :: 0 <= i < PARTS ==>
              (n in nodes'[i] <==> n in nodes[i] && (i in env.down || !(base <= n) || n in Undeletable(env, i)))
    ensures var nodes' := DeleteFile(nodes, env, base).0;
            forall i, n :: 0 <= i < PARTS && n in nodes'[i] ==> nodes'[i][n] == nodes[i][n]
    ensures DeleteFile(nodes, env, base).1 == Status(Deleted) <==>
              (NodeSucceeded(nodes, env, base, 0) || NodeSucceeded(nodes, env, base, 1) ||
               NodeSucceeded(nodes, env, base, 2)) &&
              NodeClean(nodes, env, base, 0) && NodeClean(nodes, env, base, 1) && NodeClean(nodes, env, base, 2)
    ensures DeleteFile(nodes, env, base).1 == Status(PartiallyDeleted) <==>
              (NodeSucceeded(nodes, env, base, 0) || NodeSucceeded(nodes, env, base, 1) ||
               NodeSucceeded(nodes, env, base, 2)) &&
              !(NodeClean(nodes, env, base, 0) && NodeClean(nodes, env, base, 1) && NodeClean(nodes, env, base, 2))
    ensures DeleteFile(nodes, env, base).1 == Status(NotDeleted) <==>
              !NodeSucceeded(nodes, env, base, 0) && !NodeSucceeded(nodes, env, base, 1) &&
              !NodeSucceeded(nodes, env, base, 2)
  {
    DeleteFileRemoves(nodes, env, base);
    DeleteFileStatus(nodes, env, base);
  }

  /** The directories half of DeleteFileVerdict. */
  lemma DeleteFileRemoves(nodes: Nodes, env: Env, base: string)
    ensures var nodes' := DeleteFile(nodes, env, base).0;
            forall i, n :: 0 <= i < PARTS ==>
              (n in nodes'[i] <==> n in nodes[i] && (i in env.down || !(base <= n) || n in Undeletable(env, i)))
    ensures var nodes' := DeleteFile(nodes, env, base).0;
            forall i, n :: 0 <= i < PARTS && n in nodes'[i] ==> nodes'[i][n] == nodes[i][n]
  {
    var nodes' := DeleteFile(nodes, env, base).0;
    forall i | 0 <= i < PARTS
      ensures nodes'[i] == DeleteAt(nodes, env, base, i).0
    {
    }
  }

  /** The verdict half of DeleteFileVerdict. */
  lemma DeleteFileStatus(nodes: Nodes, env: Env, base: string)
    ensures DeleteFile(nodes, env, base).1 == Status(Deleted) <==>
              (NodeSucceeded(nodes, env, base, 0) || NodeSucceeded(nodes, env, base, 1) ||
               NodeSucceeded(nodes, env, base, 2)) &&
              NodeClean(nodes, env, base, 0) && NodeClean(nodes, env, base, 1) && NodeClean(nodes, env, base, 2)
    ensures DeleteFile(nodes, env, base).1 == Status(PartiallyDeleted) <==>
              (NodeSucceeded(nodes, env, base, 0) || NodeSucceeded(nodes, env, base, 1) ||
               NodeSucceeded(nodes, env, base, 2)) &&
              !(NodeClean(nodes, env, base, 0) && NodeClean(nodes, env, base, 1) && NodeClean(nodes, env, base, 2))
    ensures DeleteFile(nodes, env, base).1 == Status(NotDeleted) <==>
              !NodeSucceeded(nodes, env, base, 0) && !NodeSucceeded(nodes, env, base, 1) &&
              !NodeSucceeded(nodes, env, base, 2)
  {
    var replies := DeleteReplies(nodes, env, base);
    NodeDeleteClassified(nodes, env, base, 0);
    NodeDeleteClassified(nodes, env, base, 1);
    NodeDeleteClassified(nodes, env, base, 2);
    assert replies == [DeleteAt(nodes, env, base, 0).1, DeleteAt(nodes, env, base, 1).1,
                       DeleteAt(nodes, env, base, 2).1];
    VerdictOfThree(replies[0], replies[1], replies[2]);
  }

  /** What node i answers to a delete is a success exactly when it succeeded, and clean
      exactly when it answered with nothing undeletable. */
  lemma NodeDeleteClassified(nodes: Nodes, env: Env, base: string, i: nat)
    requires i < PARTS
    ensures IsSuccess(DeleteAt(nodes, env, base, i).1) <==> NodeSucceeded(nodes, env, base, i)
    ensures IsClean(DeleteAt(nodes, env, base, i).1) <==> NodeClean(nodes, env, base, i)
  {
    if i !in env.down {
      NodeStatusClassified(ShardStore.DeleteByPrefix(nodes[i], base, Undeletable(env, i)).1);
    }
  }

  /** The listing is the union of the three nodes' names when all answer, and no reply
      at all when one cannot be reached. */
  lemma ListIsUnionOfNodes(nodes: Nodes, env: Env)
    ensures 0 !in env.down && 1 !in env.down && 2 !in env.down ==>
              ListFiles(nodes, env) == Names(nodes[0].Keys + nodes[1].Keys + nodes[2].Keys)
    ensures 0 in env.down || 1 in env.down || 2 in env.down ==> ListFiles(nodes, env) == NoReply
  {
    var listings := ListReplies(nodes, env);
    if 0 !in env.down && 1 !in env.down && 2 !in env.down {
      var r := Union(listings);
      assert r.Some?;
      assert r.value == nodes[0].Keys + nodes[1].Keys + nodes[2].Keys by {
        forall n
          ensures n in r.value <==> n in nodes[0].Keys + nodes[1].Keys + nodes[2].Keys
        {
          if n in nodes[0].Keys + nodes[1].Keys + nodes[2].Keys {
            if n in nodes[0].Keys {
              assert n in listings[0].reply;
            } else if n in nodes[1].Keys {
              assert n in listings[1].reply;
            } else {
              assert n in listings[2].reply;
            }
          }
        }
      }
    } else {
      if 0 in env.down {
        assert listings[0].Unreachable?;
      } else if 1 in env.down {
        assert listings[1].Unreachable?;
      } else {
        assert listings[2].Unreachable?;
      }
    }
  }

  /** Storing a file on empty nodes leaves node k holding exactly the name of part k + 1;
      as written, a one-byte file leaves node 2 empty. */
  lemma StoreOnEmptyNodesKeys(filename: string, data: seq<byte>)
    ensures var stored := StoreFile([map[], map[], map[]], AllUp, filename, data).0;
            forall k :: 0 <= k < PARTS ==> stored[k].Keys == {ShardStore.ShardName(filename, k + 1)}
    ensures var stored := StoreFileAsWritten([map[], map[], map[]], AllUp, filename, data).0;
            forall k :: 0 <= k < PARTS ==>
              stored[k].Keys == if |data| == 1 && k == 2 then {} else {ShardStore.ShardName(filename, k + 1)}
  {
    StoreRoutesCorrected([map[], map[], map[]], filename, data);
    StoreRoutesAsWritten([map[], map[], map[]], filename, data);
  }

  /** Storing a file on empty nodes lists its three raw part names, not the file's own
      name; as written, a one-byte file lists only the first two. */
  lemma ListAfterStoreShowsPartNames(filename: string, data: seq<byte>)
    ensures var stored := StoreFile([map[], map[], map[]], AllUp, filename, data).0;
            ListFiles(stored, AllUp) ==
              Names({ShardStore.ShardName(filename, 1), ShardStore.ShardName(filename, 2),
                     ShardStore.ShardName(filename, 3)})
    ensures var stored := StoreFileAsWritten([map[], map[], map[]], AllUp, filename, data).0;
            ListFiles(stored, AllUp) ==
              Names({ShardStore.ShardName(filename, 1), ShardStore.ShardName(filename, 2)} +
                    if |data| == 1 then {} else {ShardStore.ShardName(filename, 3)})
  {
    ListAfterStoreCorrected(filename, data);
    ListAfterStoreAsWritten(filename, data);
  }

  /** The corrected half of ListAfterStoreShowsPartNames. */
  lemma ListAfterStoreCorrected(filename: string, data: seq<byte>)
    ensures var stored := StoreFile([map[], map[], map[]], AllUp, filename, data).0;
            ListFiles(stored, AllUp) ==
              Names({ShardStore.ShardName(filename, 1), ShardStore.ShardName(filename, 2),
                     ShardStore.ShardName(filename, 3)})
  {
    var n1, n2, n3 := ShardStore.ShardName(filename, 1), ShardStore.ShardName(filename, 2),
                      ShardStore.ShardName(filename, 3);
    StoreRoutesCorrected([map[], map[], map[]], filename, data);
    ListOfKeys(StoreFile([map[], map[], map[]], AllUp, filename, data).0, {n1}, {n2}, {n3});
    assert {n1} + {n2} + {n3} == {n1, n2, n3};
  }

  /** The as-written half of ListAfterStoreShowsPartNames. */
  lemma ListAfterStoreAsWritten(filename: string, data: seq<byte>)
    ensures var stored := StoreFileAsWritten([map[], map[], map[]], AllUp, filename, data).0;
            ListFiles(stored, AllUp) ==
              Names({ShardStore.ShardName(filename, 1), ShardStore.ShardName(filename, 2)} +
                    if |data| == 1 then {} else {ShardStore.ShardName(filename, 3)})
  {
    var n1, n2, n3 := ShardStore.ShardName(filename, 1), ShardStore.ShardName(filename, 2),
                      ShardStore.ShardName(filename, 3);
    var third: set<string> := if |data| == 1 then {} else {n3};
    StoreRoutesAsWritten([map[], map[], map[]], filename, data);
    ListOfKeys(StoreFileAsWritten([map[], map[], map[]], AllUp, filename, data).0, {n1}, {n2}, third);
    assert {n1} + {n2} + third == {n1, n2} + third;
  }

  /** With every node reachable, the listing is the union of the three nodes' names. */
  lemma ListOfKeys(nodes: Nodes, a: set<string>, b: set<string>, c: set<string>)
    requires nodes[0].Keys == a && nodes[1].Keys == b && nodes[2].Keys == c
    ensures ListFiles(nodes, AllUp) == Names(a + b + c)
  {
    ListIsUnionOfNodes(nodes, AllUp);
  }

  /** An action other than the four lower-case tokens changes nothing and gets no reply. */
  lemma UnknownClientActionIgnored(nodes: Nodes, env: Env, action: string, rest: seq<Token>)
    requires !ShardStore.Recognised(action)
    ensures HandleClient(nodes, env, [Utf(action)] + rest) == (nodes, NoReply)
  {
  }

  /** Over the wire, each node request is read as written and each node reply is read
      back as the node meant it: the exchange behaves as the direct call. */
  lemma NodeExchangeFaithful(store: ShardStore.Store, undeletable: set<string>, order: seq<string>,
                             req: ShardStore.Request)
    requires Enumerates(order, store.Keys)
    requires req.Other? ==> !ShardStore.Recognised(req.action)
    ensures var (s, reply) := ShardStore.Handle(store, undeletable, order, ShardStore.EncodeRequest(req));
            var (s', answer) := ShardStore.Execute(store, undeletable, req);
            s == s' &&
            (req.Get? ==> ReadFetchReply(reply) == Some(answer.fetch)) &&
            (req.Delete? ==> ReadUtf(reply) == Some((ShardStore.DeleteMessage(answer.status), []))) &&
            (req.List? ==> ReadNameSet(reply) == Some((answer.names, []))) &&
            (req.Send? ==> reply == [])
  {
    ShardStore.RequestRoundTrip(req, []);
    assert ShardStore.EncodeRequest(req) + [] == ShardStore.EncodeRequest(req);
    var answer := ShardStore.Execute(store, undeletable, req).1;
    match req
    case Get(name) =>
      FetchReplyRoundTrip(answer.fetch, order);
    case List =>
      NamesFrameRoundTrip(order, []);
      assert NamesFrame(order) + [] == NamesFrame(order);
    case Delete(base) =>
    case Send(_, _, _) =>
    case Other(_) =>
  }

  /** An empty file is stored as three empty parts and fetched back found, yet the
      client receives exactly the frame it would receive for a file that does not exist;
      the store as written does the same here. */
  lemma EmptyFileLooksAbsent(nodes: Nodes, filename: string, order: seq<string>)
    ensures var (stored, reply) := StoreFile(nodes, AllUp, filename, []);
            reply == Ack &&
            (forall k :: 0 <= k < PARTS ==> stored[k][ShardStore.ShardName(filename, k + 1)] == []) &&
            FetchFile(stored, AllUp, filename) == Payload(true, []) &&
            ClientFrame(FetchFile(stored, AllUp, filename), order) == ClientFrame(Payload(false, []), order)
    ensures StoreFileAsWritten(nodes, AllUp, filename, []) == StoreFile(nodes, AllUp, filename, [])
  {
    StoreAsWrittenAgrees(nodes, AllUp, filename, []);
    StoreRoutesCorrected(nodes, filename, []);
    EmptyFileSplit([]);
    StoreThenFetchCorrected(nodes, filename, []);
  }
}
