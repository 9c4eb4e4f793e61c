/** The coordinator's per-request logic (MainServer.ClientHandler), with every
    socket exchange replaced by its outcome.

    What a node answered is an `Exchange`: the reply it wrote, or Unreachable
    when opening the socket or reading the answer raised an IOException. The
    folds below follow the handlers' loops over the three nodes in index order.
 */
module Coordinator {
  import opened Wire
  import opened Partition
  import ShardStore

  datatype Exchange<+T> = Answered(reply: T) | Unreachable

  /** What the coordinator writes back to its client, before encoding. */
  datatype ClientReply =
    | NoReply
    | Ack
    | Payload(found: bool, data: seq<byte>)
    | Status(outcome: DeleteOutcome)
    | Names(names: set<string>)

  datatype DeleteOutcome = Deleted | PartiallyDeleted | NotDeleted

  const STORED_MESSAGE := "Fichier envoyé et partitionné."
  const PARTIAL_MESSAGE := "Fichiers partiellement supprimés."
  const FAILED_MESSAGE := "Échec de la suppression : aucun fichier trouvé ou erreur."

  // ---------------------------------------------------------------- store

  /** The sends handleSendFile's loop makes from part i on. Part i is cut first and
      then sent to node i under part number i + 1; the loop stops at the first cut
      that throws or the first node that cannot be reached. */
  function SendsFrom(filename: string, cuts: seq<Option<seq<byte>>>, down: set<nat>, i: nat)
    : (sent: seq<ShardStore.Request>)
    requires i <= |cuts|
    ensures |sent| <= |cuts| - i
    ensures forall j :: i <= j < i + |sent| ==>
              cuts[j].Some? && j !in down &&
              sent[j - i] == ShardStore.Send(filename, j + 1, cuts[j].value)
    ensures i + |sent| < |cuts| ==> cuts[i + |sent|].None? || i + |sent| in down
    decreases |cuts| - i
  {
    if i == |cuts| then []
    else
      match cuts[i]
      case None => []
      case Some(part) =>
        if i in down then []
        else
          var rest := SendsFrom(filename, cuts, down, i + 1);
          var sent := [ShardStore.Send(filename, i + 1, part)] + rest;
          sent
  }

  /** The outcome of a store request: what was delivered, sent[k] to node k, and
      whether the acknowledgement was written. */
  datatype StoreRun = StoreRun(sent: seq<ShardStore.Request>, acked: bool)

  /** handleSendFile over given cuts: the sends form the longest run of parts that
      were cut and whose node was reachable; the acknowledgement is written only
      when every part was sent. Nothing already sent is taken back. */
  function Distribute(filename: string, cuts: seq<Option<seq<byte>>>, down: set<nat>): (run: StoreRun)
    ensures |run.sent| <= |cuts|
    ensures run.acked <==> |run.sent| == |cuts|
    ensures run.acked <==> forall k :: 0 <= k < |cuts| ==> cuts[k].Some? && k !in down
    ensures forall k :: 0 <= k < |run.sent| ==>
              cuts[k].Some? && k !in down &&
              run.sent[k] == ShardStore.Send(filename, k + 1, cuts[k].value)
    ensures |run.sent| < |cuts| ==> cuts[|run.sent|].None? || |run.sent| in down
  {
    var sent := SendsFrom(filename, cuts, down, 0);
    assert forall k :: 0 <= k < |sent| ==> sent[k - 0] == sent[k];
    assert |sent| < |cuts| ==> !(cuts[|sent|].Some? && |sent| !in down);
    StoreRun(sent, |sent| == |cuts|)
  }

  /** handleSendFile as written, with copyOfRange's cuts (the list below is
      SplitAsWritten(data), see SendFileAsWrittenCuts): the parts sent are the
      corrected parts, in node order, each to a reachable node; the store is
      acknowledged exactly when the file is not one byte long and every node is
      reachable; the sending stops early only at an unreachable node or, for a
      one-byte file, at the third cut, so node 2 is never reached. */
  function SendFileAsWritten(filename: string, data: seq<byte>, down: set<nat>): (run: StoreRun)
    ensures var parts := Split(data);
            var sends := [ShardStore.Send(filename, 1, parts[0]), ShardStore.Send(filename, 2, parts[1]),
                          ShardStore.Send(filename, 3, parts[2])];
            |run.sent| <= PARTS && run.sent == sends[..|run.sent|]
    ensures forall k :: 0 <= k < |run.sent| ==> k !in down
    ensures run.acked <==> |data| != 1 && 0 !in down && 1 !in down && 2 !in down
    ensures |data| == 1 ==> |run.sent| <= 2
    ensures |run.sent| < PARTS ==> |run.sent| in down || (|data| == 1 && |run.sent| == 2)
  {
    var parts := Split(data);
    var cuts := [Some(parts[0]), Some(parts[1]), if |data| == 1 then None else Some(parts[2])];
    DistributeThreeCuts(filename, cuts, parts, |data| != 1, down);
    Distribute(filename, cuts, down)
  }

  /** The store above sends exactly what copyOfRange's cuts would. */
  lemma SendFileAsWrittenCuts(filename: string, data: seq<byte>, down: set<nat>)
    ensures SendFileAsWritten(filename, data, down) == Distribute(filename, SplitAsWritten(data), down)
  {
    var parts := Split(data);
    assert SplitAsWritten(data) == [Some(parts[0]), Some(parts[1]), if |data| == 1 then None else Some(parts[2])];
  }

  /** Distribute over three cuts of which the first two always succeed. */
  lemma DistributeThreeCuts(filename: string, cuts: seq<Option<seq<byte>>>, parts: seq<seq<byte>>,
                            whole: bool, down: set<nat>)
    requires |parts| == PARTS
    requires cuts == [Some(parts[0]), Some(parts[1]), if whole then Some(parts[2]) else None]
    ensures var run := Distribute(filename, cuts, down);
            var sends := [ShardStore.Send(filename, 1, parts[0]), ShardStore.Send(filename, 2, parts[1]),
                          ShardStore.Send(filename, 3, parts[2])];
            |run.sent| <= PARTS && run.sent == sends[..|run.sent|] &&
            (forall k :: 0 <= k < |run.sent| ==> k !in down) &&
            (run.acked <==> whole && 0 !in down && 1 !in down && 2 !in down) &&
            (!whole ==> |run.sent| <= 2) &&
            (|run.sent| < PARTS ==> |run.sent| in down || (!whole && |run.sent| == 2))
  {
    var run := Distribute(filename, cuts, down);
    assert |run.sent| == 3 ==> cuts[2].Some?;
  }

  /** handleSendFile with the start of each cut clamped to the file length. */
  function SendFile(filename: string, data: seq<byte>, down: set<nat>): StoreRun
  {
    var parts := Split(data);
    Distribute(filename, [Some(parts[0]), Some(parts[1]), Some(parts[2])], down)
  }

  // ---------------------------------------------------------------- fetch

  /** Concatenation of byte arrays, front to back. */
  function Flatten(parts: seq<seq<byte>>): seq<byte>
  {
    if parts == [] then [] else parts[0] + Flatten(parts[1..])
  }

  /** The bytes a node's fetch reply contributes: its part when found, nothing otherwise. */
  function FoundPart(e: Exchange<ShardStore.FetchReply>): seq<byte>
  {
    if e.Answered? && e.reply.Found? then e.reply.data else []
  }

  function FoundParts(replies: seq<Exchange<ShardStore.FetchReply>>): seq<seq<byte>>
  {
    seq(|replies|, i requires 0 <= i < |replies| => FoundPart(replies[i]))
  }

  lemma {:induction false} FlattenSnoc(parts: seq<seq<byte>>, last: seq<byte>)
    ensures Flatten(parts + [last]) == Flatten(parts) + last
    decreases |parts|
  {
    if parts == [] {
      assert [] + [last] == [last];
      assert Flatten([last]) == last + Flatten([]);
    } else {
      assert (parts + [last])[1..] == parts[1..] + [last];
      FlattenSnoc(parts[1..], last);
    }
  }

  /** handleGetFile's loop over the replies of nodes 0, 1, ...: None when an exchange
      failed (the request is abandoned without a reply); otherwise whether any node
      found its part, and the index-ordered concatenation of exactly the parts found. */
  function Gather(replies: seq<Exchange<ShardStore.FetchReply>>): (r: Option<(bool, seq<byte>)>)
    ensures r.None? <==> exists i :: 0 <= i < |replies| && replies[i].Unreachable?
    ensures r.Some? ==>
              (r.value.0 <==> exists i :: 0 <= i < |replies| && replies[i].Answered? && replies[i].reply.Found?)
    ensures r.Some? ==> r.value.1 == Flatten(FoundParts(replies))
    decreases |replies|
  {
    if replies == [] then Some((false, []))
    else
      var init := replies[..|replies| - 1];
      var last := replies[|replies| - 1];
      assert forall i :: 0 <= i < |init| ==> init[i] == replies[i];
      assert FoundParts(replies) == FoundParts(init) + [FoundPart(last)];
      FlattenSnoc(FoundParts(init), FoundPart(last));
      match Gather(init)
      case None => None
      case Some((found, fullFile)) =>
        match last
        case Unreachable => None
        case Answered(reply) =>
          if reply.Found? then Some((true, fullFile + reply.data)) else Some((found, fullFile))
  }

  /** concatenate: a new array holding a's bytes followed by b's, filled by two copies. */
  method Concatenate(a: seq<byte>, b: seq<byte>) returns (r: seq<byte>)
    ensures r == a + b
  {
    var result := new byte[|a| + |b|];
    var i := 0;
    while i < |a|
      invariant 0 <= i <= |a|
      invariant forall k :: 0 <= k < i ==> result[k] == a[k]
    {
      result[i] := a[i];
      i := i + 1;
    }
    var j := 0;
    while j < |b|
      invariant 0 <= j <= |b|
      invariant forall k :: 0 <= k < |a| ==> result[k] == a[k]
      invariant forall k :: 0 <= k < j ==> result[|a| + k] == b[k]
    {
      result[|a| + j] := b[j];
      j := j + 1;
    }
    r := result[..];
  }

  // ---------------------------------------------------------------- delete

  predicate IsSuccess(e: Exchange<string>)
  {
    e == Answered(ShardStore.DELETED_MESSAGE)
  }

  /** A reply that does not spoil full success: success, or nothing found. */
  predicate IsClean(e: Exchange<string>)
  {
    e == Answered(ShardStore.DELETED_MESSAGE) || e == Answered(ShardStore.NONE_FOUND_MESSAGE)
  }

  /** handleDeleteFile's two flags after the replies of nodes 0, 1, ...:
      (atLeastOneSuccess, allFilesDeleted). */
  function Tally(replies: seq<Exchange<string>>): (flags: (bool, bool))
    ensures flags.0 <==> exists i :: 0 <= i < |replies| && IsSuccess(replies[i])
    ensures flags.1 <==> forall i :: 0 <= i < |replies| ==> IsClean(replies[i])
    decreases |replies|
  {
    if replies == [] then (false, true)
    else
      var init := replies[..|replies| - 1];
      var last := replies[|replies| - 1];
      assert forall i :: 0 <= i < |init| ==> init[i] == replies[i];
      var (atLeastOneSuccess, allFilesDeleted) := Tally(init);
      if last == Answered(ShardStore.DELETED_MESSAGE) then (true, allFilesDeleted)
      else if last == Answered(ShardStore.NONE_FOUND_MESSAGE) then (atLeastOneSuccess, allFilesDeleted)
      else (atLeastOneSuccess, false)
  }

  /** The verdict handleDeleteFile reports. A node that could not be reached weighs
      the same as one that answered anything but the two expected strings. */
  function DeleteVerdict(replies: seq<Exchange<string>>): (v: DeleteOutcome)
    ensures v == Deleted <==>
              (exists i :: 0 <= i < |replies| && IsSuccess(replies[i])) &&
              (forall i :: 0 <= i < |replies| ==> IsClean(replies[i]))
    ensures v == PartiallyDeleted <==>
              (exists i :: 0 <= i < |replies| && IsSuccess(replies[i])) &&
              (exists i :: 0 <= i < |replies| && !IsClean(replies[i]))
    ensures v == NotDeleted <==> forall i :: 0 <= i < |replies| ==> !IsSuccess(replies[i])
  {
    var (atLeastOneSuccess, allFilesDeleted) := Tally(replies);
    if atLeastOneSuccess && allFilesDeleted then Deleted
    else if atLeastOneSuccess then PartiallyDeleted
    else NotDeleted
  }

  function OutcomeMessage(outcome: DeleteOutcome): string
  {
    match outcome
    case Deleted => ShardStore.DELETED_MESSAGE
    case PartiallyDeleted => PARTIAL_MESSAGE
    case NotDeleted => FAILED_MESSAGE
  }

  // ---------------------------------------------------------------- list

  /** handleListFiles: the union of every node's names; None when any exchange failed. */
  function Union(listings: seq<Exchange<set<string>>>): (r: Option<set<string>>)
    ensures r.None? <==> exists i :: 0 <= i < |listings| && listings[i].Unreachable?
    ensures r.Some? ==> forall n :: n in r.value <==>
              exists i :: 0 <= i < |listings| && listings[i].Answered? && n in listings[i].reply
    decreases |listings|
  {
    if listings == [] then Some({})
    else
      var init := listings[..|listings| - 1];
      var last := listings[|listings| - 1];
      assert forall i :: 0 <= i < |init| ==> init[i] == listings[i];
      match Union(init)
      case None => None
      case Some(names) =>
        match last
        case Unreachable => None
        case Answered(more) => Some(names + more)
  }

  // ---------------------------------------------------------------- frames

  /** How the coordinator reads a node's fetch reply: any string other than "found"
      means not found. */
  function ReadFetchReply(ts: seq<Token>): (r: Option<ShardStore.FetchReply>)
    ensures r.Some? ==> |ts| > 0 && ts[0].Utf? && (r.value.Found? <==> ts[0].text == "found")
    ensures |ts| > 0 && ts[0].Utf? && ts[0].text != "found" ==> r == Some(ShardStore.NotFound)
    ensures r.Some? && r.value.Found? ==>
              2 + |r.value.data| <= |ts| &&
              ts[..2 + |r.value.data|] == [Utf("found"), Long(|r.value.data|)] + Octets(r.value.data)
  {
    match ReadUtf(ts)
    case None => None
    case Some((response, rest)) =>
      if response == "found" then
        match ReadLong(rest)
        case None => None
        case Some((size, rest')) =>
          match ReadPayload(rest', size)
          case None => None
          case Some((data, rest'')) =>
            assert ts == [Utf("found"), Long(|data|)] + Octets(data) + rest'';
            assert |Octets(data)| == |data|;
            Some(ShardStore.Found(data))
      else Some(ShardStore.NotFound)
  }

  /** The frame written back to the client. */
  function ClientFrame(reply: ClientReply, order: seq<string>): seq<Token>
  {
    match reply
    case NoReply => []
    case Ack => [Utf(STORED_MESSAGE)]
    case Payload(found, data) => if found then [Long(|data|)] + Octets(data) else [Long(0)]
    case Status(outcome) => [Utf(OutcomeMessage(outcome))]
    case Names(_) => NamesFrame(order)
  }

  /** Requests the coordinator accepts from its client. */
  datatype ClientRequest =
    | Upload(filename: string, data: seq<byte>)
    | Download(name: string)
    | Remove(base: string)
    | ListAll
    | Ignored(action: string)

  /** The frame a client writes for a request, in the order the coordinator reads it. */
  function EncodeClientRequest(req: ClientRequest): seq<Token>
  {
    match req
    case Upload(filename, data) => [Utf(ShardStore.SEND), Utf(filename), Long(|data|)] + Octets(data)
    case Download(name) => [Utf(ShardStore.GET), Utf(name)]
    case Remove(base) => [Utf(ShardStore.DELETE), Utf(base)]
    case ListAll => [Utf(ShardStore.LIST)]
    case Ignored(action) => [Utf(action)]
  }

  /** The coordinator reads the action, then that action's fields. */
  function ParseClientRequest(ts: seq<Token>): (r: Option<ClientRequest>)
    ensures r.Some? && r.value.Ignored? ==> !ShardStore.Recognised(r.value.action)
  {
    match ReadUtf(ts)
    case None => None
    case Some((action, rest)) =>
      if action == ShardStore.SEND then
        match ReadUtf(rest)
        case None => None
        case Some((filename, rest1)) =>
          match ReadLong(rest1)
          case None => None
          case Some((size, rest2)) =>
            match ReadPayload(rest2, size)
            case None => None
            case Some((data, _)) => Some(Upload(filename, data))
      else if action == ShardStore.GET then
        match ReadUtf(rest)
        case None => None
        case Some((name, _)) => Some(Download(name))
      else if action == ShardStore.DELETE then
        match ReadUtf(rest)
        case None => None
        case Some((base, _)) => Some(Remove(base))
      else if action == ShardStore.LIST then Some(ListAll)
      else Some(Ignored(action))
  }

  // ---------------------------------------------------------------- properties

  /** With every node reachable, part i of the file goes to node i under part number
      i + 1, all three are sent, and the store is acknowledged. */
  lemma SendFileRoutesEveryPart(filename: string, data: seq<byte>)
    ensures var parts := Split(data);
            SendFile(filename, data, {}) ==
              StoreRun([ShardStore.Send(filename, 1, parts[0]),
                        ShardStore.Send(filename, 2, parts[1]),
                        ShardStore.Send(filename, 3, parts[2])], true)
    ensures var parts := Split(data);
            var sends := [ShardStore.Send(filename, 1, parts[0]),
                          ShardStore.Send(filename, 2, parts[1]),
                          ShardStore.Send(filename, 3, parts[2])];
            SendFileAsWritten(filename, data, {}) ==
              if |data| == 1 then StoreRun(sends[..2], false) else StoreRun(sends, true)
  {
    var run := SendFile(filename, data, {});
    assert |run.sent| == 3;
    if |data| == 1 {
      SendFileAsWrittenOneByte(filename, data);
      OneByteFileSplit(data);
    } else {
      SendFileAsWrittenAgrees(filename, data, {});
    }
  }

  /** The store as written cuts and sends exactly as the corrected one for every
      length but 1. */
  lemma SendFileAsWrittenAgrees(filename: string, data: seq<byte>, down: set<nat>)
    requires |data| != 1
    ensures SendFileAsWritten(filename, data, down) == SendFile(filename, data, down)
  {
    SliceAsWrittenAgrees(data, 0);
    SliceAsWrittenAgrees(data, 1);
    SliceAsWrittenAgrees(data, 2);
    var parts := Split(data);
    assert SplitAsWritten(data) == [Some(parts[0]), Some(parts[1]), Some(parts[2])];
  }

  /** A one-byte file as written: nodes 0 and 1 receive their parts, the third cut
      throws before node 2 is contacted, and no acknowledgement is written. */
  lemma SendFileAsWrittenOneByte(filename: string, data: seq<byte>)
    requires |data| == 1
    ensures SendFileAsWritten(filename, data, {}) ==
              StoreRun([ShardStore.Send(filename, 1, data), ShardStore.Send(filename, 2, [])], false)
  {
    OneByteFileThirdCutThrows(data);
    var cuts := SplitAsWritten(data);
    var run := SendFileAsWritten(filename, data, {});
    assert cuts[0].Some? && cuts[1].Some? && cuts[2].None?;
    assert !run.acked;
    assert |run.sent| == 2;
  }

  /** With the corrected cuts, a store is acknowledged exactly when every node is reachable. */
  lemma SendFileAckedIffAllReachable(filename: string, data: seq<byte>, down: set<nat>)
    ensures SendFile(filename, data, down).acked <==> 0 !in down && 1 !in down && 2 !in down
    ensures SendFileAsWritten(filename, data, down).acked <==>
              |data| != 1 && 0 !in down && 1 !in down && 2 !in down
  {
  }

  /** Three answers: found iff some part was found, and the payload is the found
      parts in index order. */
  lemma GatherThreeAnswers(a: ShardStore.FetchReply, b: ShardStore.FetchReply, c: ShardStore.FetchReply)
    ensures Gather([Answered(a), Answered(b), Answered(c)]) ==
              Some((a.Found? || b.Found? || c.Found?,
                    FoundPart(Answered(a)) + FoundPart(Answered(b)) + FoundPart(Answered(c))))
  {
    var replies := [Answered(a), Answered(b), Answered(c)];
    var x, y, z := FoundPart(replies[0]), FoundPart(replies[1]), FoundPart(replies[2]);
    assert FoundParts(replies) == [x, y, z];
    assert Flatten([x, y, z]) == x + y + z by {
      assert [x, y, z][1..] == [y, z];
      assert [y, z][1..] == [z];
      assert Flatten([z]) == z + Flatten([]);
    }
    assert replies[0].reply == a && replies[1].reply == b && replies[2].reply == c;
  }

  /** A missing middle part is skipped silently: the payload is shorter, not an error. */
  lemma GatherMissingMiddle(a: seq<byte>, c: seq<byte>)
    ensures Gather([Answered(ShardStore.Found(a)), Answered(ShardStore.NotFound), Answered(ShardStore.Found(c))])
              == Some((true, a + c))
  {
    var replies := [Answered(ShardStore.Found(a)), Answered(ShardStore.NotFound), Answered(ShardStore.Found(c))];
    assert FoundParts(replies) == [a, [], c];
    assert Flatten([a, [], c]) == a + c by {
      assert [a, [], c][1..] == [[], c];
      assert [[], c][1..] == [c];
      assert Flatten([c]) == c + Flatten([]);
    }
  }

  /** A node's fetch reply is read back by the coordinator as written. */
  lemma FetchReplyRoundTrip(reply: ShardStore.FetchReply, order: seq<string>)
    ensures ReadFetchReply(ShardStore.EncodeReply(ShardStore.Fetched(reply), order)) == Some(reply)
  {
    if reply.Found? {
      var ts := ShardStore.EncodeReply(ShardStore.Fetched(reply), order);
      assert ts == [Utf("found"), Long(|reply.data|)] + (Octets(reply.data) + []);
      ReadBytesOctets(reply.data, []);
    }
  }

  /** The node's three status strings are classified as the node meant them:
      only "deleted" is a success, and only "some failed" spoils full success. */
  lemma NodeStatusClassified(status: ShardStore.DeleteStatus)
    ensures IsSuccess(Answered(ShardStore.DeleteMessage(status))) <==> status == ShardStore.AllDeleted
    ensures IsClean(Answered(ShardStore.DeleteMessage(status))) <==> status != ShardStore.SomeFailed
  {
  }

  /** The verdict over three node replies. */
  lemma VerdictOfThree(a: Exchange<string>, b: Exchange<string>, c: Exchange<string>)
    ensures DeleteVerdict([a, b, c]) == Deleted <==>
              (IsSuccess(a) || IsSuccess(b) || IsSuccess(c)) && IsClean(a) && IsClean(b) && IsClean(c)
    ensures DeleteVerdict([a, b, c]) == PartiallyDeleted <==>
              (IsSuccess(a) || IsSuccess(b) || IsSuccess(c)) && !(IsClean(a) && IsClean(b) && IsClean(c))
    ensures DeleteVerdict([a, b, c]) == NotDeleted <==> !IsSuccess(a) && !IsSuccess(b) && !IsSuccess(c)
  {
    var replies := [a, b, c];
    assert replies[0] == a && replies[1] == b && replies[2] == c;
  }

  /** Every node answering "nothing found" is a failure, not a success. */
  lemma NothingFoundAnywhereIsFailure()
    ensures DeleteVerdict([Answered(ShardStore.NONE_FOUND_MESSAGE), Answered(ShardStore.NONE_FOUND_MESSAGE),
                           Answered(ShardStore.NONE_FOUND_MESSAGE)]) == NotDeleted
  {
  }

  /** One node deleted its parts and another could not be reached: a partial deletion. */
  lemma UnreachableNodeMakesDeletePartial(other: Exchange<string>)
    ensures DeleteVerdict([Answered(ShardStore.DELETED_MESSAGE), Unreachable, other]) == PartiallyDeleted
  {
    var replies := [Answered(ShardStore.DELETED_MESSAGE), Unreachable, other];
    assert IsSuccess(replies[0]) && !IsClean(replies[1]);
  }

  /** A file found but empty is written to the client exactly as "not found". */
  lemma FoundEmptyLooksNotFound(data: seq<byte>, order: seq<string>)
    ensures ClientFrame(Payload(true, []), order) == ClientFrame(Payload(false, data), order)
  {
  }

  /** A found payload is read back by the client as the length followed by exactly the bytes. */
  lemma PayloadFrameReadBack(data: seq<byte>, order: seq<string>)
    ensures var ts := ClientFrame(Payload(true, data), order);
            ReadLong(ts) == Some((|data|, Octets(data))) &&
            ReadPayload(Octets(data), |data|) == Some((data, []))
  {
    ReadBytesOctets(data, []);
    assert Octets(data) + [] == Octets(data);
  }

  /** The listing sent to the client carries the size of the union as its count, then
      exactly its names, whatever order the set is iterated in. */
  lemma ListFrameCount(names: set<string>, order: seq<string>)
    requires Enumerates(order, names)
    ensures var ts := ClientFrame(Names(names), order);
            ts[0] == Int(|names|) && ReadNameSet(ts) == Some((names, []))
  {
    EnumerationCount(order, names);
    NamesFrameRoundTrip(order, []);
    assert NamesFrame(order) + [] == NamesFrame(order);
  }

  /** The three verdicts are written as three different strings. */
  lemma OutcomeMessageInjective(a: DeleteOutcome, b: DeleteOutcome)
    ensures OutcomeMessage(a) == OutcomeMessage(b) <==> a == b
  {
    assert |ShardStore.DELETED_MESSAGE| != |PARTIAL_MESSAGE|;
    assert |ShardStore.DELETED_MESSAGE| != |FAILED_MESSAGE|;
    assert |PARTIAL_MESSAGE| != |FAILED_MESSAGE|;
  }

  /** What the client reads back from each reply frame: nothing at all for no reply,
      the one status string for a store or a delete, the length and then the bytes
      for a fetch (a bare 0 when nothing was found), and the set of names for a list. */
  lemma ClientFrameReadBack(reply: ClientReply, order: seq<string>)
    requires reply.Names? ==> Enumerates(order, reply.names)
    ensures ClientFrame(reply, order) == [] <==> reply.NoReply?
    ensures reply.Ack? ==> ReadUtf(ClientFrame(reply, order)) == Some((STORED_MESSAGE, []))
    ensures reply.Status? ==> ReadUtf(ClientFrame(reply, order)) == Some((OutcomeMessage(reply.outcome), []))
    ensures reply.Payload? && reply.found ==>
              ReadLong(ClientFrame(reply, order)) == Some((|reply.data|, Octets(reply.data))) &&
              ReadPayload(Octets(reply.data), |reply.data|) == Some((reply.data, []))
    ensures reply.Payload? && !reply.found ==> ReadLong(ClientFrame(reply, order)) == Some((0, []))
    ensures reply.Names? ==> ReadNameSet(ClientFrame(reply, order)) == Some((reply.names, []))
  {
    match reply
    case Payload(found, data) =>
      if found {
        PayloadFrameReadBack(data, order);
      }
    case Names(names) =>
      ListFrameCount(names, order);
    case NoReply =>
    case Ack =>
    case Status(_) =>
  }

  /** What the coordinator reads back from each node reply frame: nothing for a store,
      the fetch reply as the node meant it, the node's status string, and the node's
      set of names. */
  lemma NodeReplyReadBack(reply: ShardStore.Reply, order: seq<string>)
    requires reply.Listed? ==> Enumerates(order, reply.names)
    ensures ShardStore.EncodeReply(reply, order) == [] <==> reply.Silent?
    ensures reply.Fetched? ==> ReadFetchReply(ShardStore.EncodeReply(reply, order)) == Some(reply.fetch)
    ensures reply.Deleted? ==>
              ReadUtf(ShardStore.EncodeReply(reply, order)) == Some((ShardStore.DeleteMessage(reply.status), []))
    ensures reply.Listed? ==> ReadNameSet(ShardStore.EncodeReply(reply, order)) == Some((reply.names, []))
  {
    match reply
    case Fetched(fetch) =>
      FetchReplyRoundTrip(fetch, order);
    case Listed(names) =>
      NamesFrameRoundTrip(order, []);
      assert NamesFrame(order) + [] == NamesFrame(order);
    case Silent =>
    case Deleted(_) =>
  }

  /** The coordinator reads a client's request fields in the order the client writes them. */
  lemma ClientRequestRoundTrip(req: ClientRequest, rest: seq<Token>)
    requires req.Ignored? ==> !ShardStore.Recognised(req.action)
    ensures ParseClientRequest(EncodeClientRequest(req) + rest) == Some(req)
  {
    match req
    case Upload(filename, data) =>
      var ts := EncodeClientRequest(req) + rest;
      assert ts == [Utf(ShardStore.SEND), Utf(filename), Long(|data|)] + (Octets(data) + rest);
      ReadBytesOctets(data, rest);
    case Download(name) =>
    case Remove(base) =>
    case ListAll =>
    case Ignored(action) =>
  }
}
