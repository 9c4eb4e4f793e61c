/** A storage node (ServerSlave.ClientHandler).

    The node's storage directory is a map from file name to contents. A node
    stores a part under `filename + ".part" + n`, fetches by exact name,
    deletes every name that starts with a base name, and lists every name.
    Which deletions fail (File.delete returning false) is a set of names
    given by the caller; the order in which the directory lists its names is
    an enumeration given by the caller.
 */
module ShardStore {
  import opened Wire

  type Store = map<string, seq<byte>>

  const DIGITS := "0123456789"

  /** The decimal digits of n, most significant first. */
  function Digits(n: nat): (s: string)
    ensures |s| >= 1
    ensures forall i :: 0 <= i < |s| ==> s[i] in DIGITS
    ensures n < 10 <==> |s| == 1
    decreases n
  {
    if n < 10 then [DIGITS[n]] else Digits(n / 10) + [DIGITS[n % 10]]
  }

  /** Integer.toString(n), as used by the string concatenation `".part" + n`. */
  function DecimalString(n: int): string
  {
    if n < 0 then "-" + Digits(-n) else Digits(n)
  }

  /** The name a part is stored under, and the name the coordinator asks for. */
  function ShardName(filename: string, part: int): string
  {
    filename + ".part" + DecimalString(part)
  }

  /** Replies a node can give, before they are written to the stream. */
  datatype FetchReply = Found(data: seq<byte>) | NotFound

  datatype DeleteStatus = AllDeleted | NoneFound | SomeFailed

  /** The three status strings written by handleDeleteFile. */
  const DELETED_MESSAGE := "Fichiers supprimés avec succès."
  const NONE_FOUND_MESSAGE := "Aucun fichier trouvé."
  const SOME_FAILED_MESSAGE := "Échec de la suppression de certains fichiers."

  function DeleteMessage(status: DeleteStatus): string
  {
    match status
    case AllDeleted => DELETED_MESSAGE
    case NoneFound => NONE_FOUND_MESSAGE
    case SomeFailed => SOME_FAILED_MESSAGE
  }

  /** handleReceiveFile: write the part under its derived name, replacing any previous
      contents; no other name is touched. */
  function StorePart(store: Store, filename: string, part: int, data: seq<byte>): (s: Store)
    ensures ShardName(filename, part) in s && s[ShardName(filename, part)] == data
    ensures forall n :: n != ShardName(filename, part) ==> (n in s <==> n in store)
    ensures forall n :: n != ShardName(filename, part) && n in store ==> s[n] == store[n]
  {
    store[ShardName(filename, part) := data]
  }

  /** handleSendFile: an exact-name lookup. */
  function FetchPart(store: Store, name: string): (r: FetchReply)
    ensures r.Found? <==> name in store
    ensures r.Found? ==> r.data == store[name]
  {
    if name in store then Found(store[name]) else NotFound
  }

  /** The stored names that String.startsWith(base) accepts. */
  function Matching(store: Store, base: string): set<string>
  {
    set n | n in store && base <= n
  }

  /** handleDeleteFile: remove every name starting with `base`, except those whose removal
      fails, and report the outcome. */
  function DeleteByPrefix(store: Store, base: string, undeletable: set<string>): (r: (Store, DeleteStatus))
    ensures forall n :: n in r.0 <==> n in store && (!(base <= n) || n in undeletable)
    ensures forall n :: n in r.0 ==> r.0[n] == store[n]
    ensures r.1 == NoneFound <==> forall n :: n in store ==> !(base <= n)
    ensures r.1 == SomeFailed <==> exists n :: n in store && base <= n && n in undeletable
    ensures r.1 == AllDeleted <==>
              (exists n :: n in store && base <= n) &&
              (forall n :: n in store && base <= n ==> n !in undeletable)
  {
    var matched := Matching(store, base);
    var removed := matched - undeletable;
    var status :=
      if matched == {} then NoneFound
      else if removed == matched then AllDeleted
      else SomeFailed;
    assert forall n :: n in store && base <= n ==> n in matched;
    assert removed != matched ==> exists n :: n in store && base <= n && n in undeletable by {
      if removed != matched {
        var n :| n in matched && n !in removed;
      }
    }
    (store - removed, status)
  }

  /** Requests a node accepts, as read from the stream. */
  datatype Request =
    | Send(filename: string, part: int, data: seq<byte>)
    | Get(name: string)
    | Delete(base: string)
    | List
    | Other(action: string)

  datatype Reply = Silent | Fetched(fetch: FetchReply) | Deleted(status: DeleteStatus) | Listed(names: set<string>)

  /** The four action tokens; matching is exact and case-sensitive. */
  const SEND := "send"
  const GET := "get"
  const DELETE := "delete"
  const LIST := "list"

  predicate Recognised(action: string)
  {
    action == SEND || action == GET || action == DELETE || action == LIST
  }

  /** Carries out one request; only `send` and `delete` change the store, and only
      `send` and an unknown action go without a reply. */
  function Execute(store: Store, undeletable: set<string>, req: Request): (r: (Store, Reply))
    ensures r.1 == Silent <==> req.Send? || req.Other?
    ensures !req.Send? && !req.Delete? ==> r.0 == store
    ensures req.Other? ==> r == (store, Silent)
    ensures req.List? ==> r.1 == Listed(store.Keys)
  {
    match req
    case Send(filename, part, data) => (StorePart(store, filename, part, data), Silent)
    case Get(name) => (store, Fetched(FetchPart(store, name)))
    case Delete(base) =>
      var (s, status) := DeleteByPrefix(store, base, undeletable);
      (s, Deleted(status))
    case List => (store, Listed(store.Keys))
    case Other(_) => (store, Silent)
  }

  /** The frame the coordinator writes for a request, field by field. */
  function EncodeRequest(req: Request): seq<Token>
  {
    match req
    case Send(filename, part, data) =>
      [Utf(SEND), Utf(filename), Int(part), Long(|data|)] + Octets(data)
    case Get(name) => [Utf(GET), Utf(name)]
    case Delete(base) => [Utf(DELETE), Utf(base)]
    case List => [Utf(LIST)]
    case Other(action) => [Utf(action)]
  }

  /** The node reads the action, then the fields that action carries; any read that
      fails aborts the request. */
  function ParseRequest(ts: seq<Token>): (r: Option<Request>)
    ensures r.Some? && r.value.Other? ==> !Recognised(r.value.action)
  {
    match ReadUtf(ts)
    case None => None
    case Some((action, rest)) =>
      if action == SEND then
        match ReadUtf(rest)
        case None => None
        case Some((filename, rest1)) =>
          match ReadInt(rest1)
          case None => None
          case Some((part, rest2)) =>
            match ReadLong(rest2)
            case None => None
            case Some((size, rest3)) =>
              match ReadPayload(rest3, size)
              case None => None
              case Some((data, _)) => Some(Send(filename, part, data))
      else if action == GET then
        match ReadUtf(rest)
        case None => None
        case Some((name, _)) => Some(Get(name))
      else if action == DELETE then
        match ReadUtf(rest)
        case None => None
        case Some((base, _)) => Some(Delete(base))
      else if action == LIST then Some(List)
      else Some(Other(action))
  }

  /** The frame a node writes back for a reply; a listing is written in the
      directory's order. */
  function EncodeReply(reply: Reply, order: seq<string>): seq<Token>
  {
    match reply
    case Silent => []
    case Fetched(Found(data)) => [Utf("found"), Long(|data|)] + Octets(data)
    case Fetched(NotFound) => [Utf("not found")]
    case Deleted(status) => [Utf(DeleteMessage(status))]
    case Listed(_) => NamesFrame(order)
  }

  /** ClientHandler.run on a node: read a request, carry it out, write the reply.
      A request that cannot be read changes nothing and gets no reply; so does an
      action that is none of the four. Only `send` and `delete` change the store,
      and `send` is never answered. HandleEncoded states the effect of every
      request the coordinator encodes. */
  function Handle(store: Store, undeletable: set<string>, order: seq<string>, ts: seq<Token>): (r: (Store, seq<Token>))
    requires Enumerates(order, store.Keys)
    ensures ParseRequest(ts).None? ==> r == (store, [])
    ensures ParseRequest(ts).Some? ==>
              r.0 == Execute(store, undeletable, ParseRequest(ts).value).0
    ensures |ts| == 0 || !ts[0].Utf? || !Recognised(ts[0].text) ==> r == (store, [])
    ensures r.0 != store ==> |ts| > 0 && (ts[0] == Utf(SEND) || ts[0] == Utf(DELETE))
    ensures |ts| > 0 && ts[0] == Utf(SEND) ==> r.1 == []
    ensures |ts| > 0 && ts[0] == Utf(LIST) ==> r == (store, NamesFrame(order))
    ensures |ts| > 1 && ts[0] == Utf(GET) && ts[1].Utf? ==>
              r.0 == store &&
              r.1 == if ts[1].text in store
                     then [Utf("found"), Long(|store[ts[1].text]|)] + Octets(store[ts[1].text])
                     else [Utf("not found")]
    ensures |ts| > 1 && ts[0] == Utf(DELETE) && ts[1].Utf? ==>
              var (s, status) := DeleteByPrefix(store, ts[1].text, undeletable);
              r == (s, [Utf(DeleteMessage(status))])
  {
    match ParseRequest(ts)
    case None => (store, [])
    case Some(req) =>
      var (s, reply) := Execute(store, undeletable, req);
      (s, EncodeReply(reply, order))
  }

  /** Every request the coordinator encodes, whatever follows it on the stream, is
      carried out at the node exactly as Execute says, and the reply written is
      Execute's reply framed in the directory's order. */
  lemma HandleEncoded(store: Store, undeletable: set<string>, order: seq<string>, req: Request, rest: seq<Token>)
    requires Enumerates(order, store.Keys)
    requires req.Other? ==> !Recognised(req.action)
    ensures var (s, reply) := Execute(store, undeletable, req);
            Handle(store, undeletable, order, EncodeRequest(req) + rest) == (s, EncodeReply(reply, order))
  {
    RequestRoundTrip(req, rest);
  }

  lemma {:induction false} DigitsInjective(a: nat, b: nat)
    requires Digits(a) == Digits(b)
    ensures a == b
    decreases a
  {
    var da, db := Digits(a), Digits(b);
    if a < 10 {
      assert DIGITS[a] == DIGITS[b];
    } else {
      assert b >= 10;
      assert da[|da| - 1] == DIGITS[a % 10];
      assert db[|db| - 1] == DIGITS[b % 10];
      assert Digits(a / 10) == da[..|da| - 1];
      assert Digits(b / 10) == db[..|db| - 1];
      DigitsInjective(a / 10, b / 10);
    }
  }

  /** Distinct part numbers give distinct decimal strings. */
  lemma DecimalStringInjective(a: int, b: int)
    requires DecimalString(a) == DecimalString(b)
    ensures a == b
  {
    DecimalStringSign(a);
    DecimalStringSign(b);
    var s := DecimalString(a);
    if a < 0 {
      assert Digits(-a) == s[1..] == Digits(-b);
      DigitsInjective(-a, -b);
    } else {
      DigitsInjective(a, b);
    }
  }

  /** Integer.toString starts with a minus sign exactly for negative numbers. */
  lemma DecimalStringSign(n: int)
    ensures DecimalString(n)[0] == '-' <==> n < 0
  {
    if n >= 0 {
      assert Digits(n)[0] in DIGITS;
    }
  }

  /** Equal strings with equal suffixes have equal prefixes. */
  lemma CancelSuffix(f: string, g: string, x: string)
    requires f + x == g + x
    ensures f == g
  {
    assert |f| == |g|;
    assert f == (f + x)[..|f|];
    assert g == (g + x)[..|g|];
  }

  /** Equal strings with equal prefixes have equal suffixes. */
  lemma CancelPrefix(p: string, x: string, y: string)
    requires p + x == p + y
    ensures x == y
  {
    assert x == (p + x)[|p|..];
    assert y == (p + y)[|p|..];
  }

  /** Two parts of the same file never share a name. */
  lemma ShardNamePartInjective(f: string, a: int, b: int)
    requires ShardName(f, a) == ShardName(f, b)
    ensures a == b
  {
    CancelPrefix(f + ".part", DecimalString(a), DecimalString(b));
    DecimalStringInjective(a, b);
  }

  /** The same part of two different files never shares a name. */
  lemma ShardNameFileInjective(f: string, g: string, part: int)
    requires ShardName(f, part) == ShardName(g, part)
    ensures f == g
  {
    CancelSuffix(f + ".part", g + ".part", DecimalString(part));
    CancelSuffix(f, g, ".part");
  }

  /** Every part name of a file starts with the file's name, so deleting by that name reaches it. */
  lemma ShardNameExtendsFilename(filename: string, part: int)
    ensures filename <= ShardName(filename, part)
  {
    assert ShardName(filename, part)[..|filename|] == filename;
  }

  /** A stored part is fetched back, under the name the store derived, with exactly the bytes stored. */
  lemma StoreThenFetch(store: Store, filename: string, part: int, data: seq<byte>, name: string)
    ensures FetchPart(StorePart(store, filename, part, data), name) ==
              if name == ShardName(filename, part) then Found(data) else FetchPart(store, name)
  {
  }

  /** Deleting by a file's name after storing one of its parts, with no failing removal,
      leaves that part unfetchable and reports every match deleted. */
  lemma DeleteAfterStore(store: Store, filename: string, part: int, data: seq<byte>)
    ensures var (s, status) := DeleteByPrefix(StorePart(store, filename, part, data), filename, {});
            status == AllDeleted && FetchPart(s, ShardName(filename, part)) == NotFound
  {
    ShardNameExtendsFilename(filename, part);
  }

  /** Deleting the same base name twice removes nothing more the second time. */
  lemma DeleteIdempotent(store: Store, base: string, undeletable: set<string>)
    ensures var s := DeleteByPrefix(store, base, undeletable).0;
            DeleteByPrefix(s, base, undeletable).0 == s
  {
    var s := DeleteByPrefix(store, base, undeletable).0;
    var s' := DeleteByPrefix(s, base, undeletable).0;
    assert s'.Keys == s.Keys;
  }

  /** With no failing removal, a second delete of the same base name finds nothing. */
  lemma SecondDeleteFindsNothing(store: Store, base: string)
    ensures var s := DeleteByPrefix(store, base, {}).0;
            DeleteByPrefix(s, base, {}).1 == NoneFound
  {
  }

  /** A name that extends a file name also extends the part names of that file. */
  lemma PrefixOfShardName(base: string, filename: string, part: int)
    requires base <= filename
    ensures base <= ShardName(filename, part)
  {
    ShardNameExtendsFilename(filename, part);
    assert ShardName(filename, part)[..|base|] == filename[..|base|];
  }

  /** The prefix match reaches names of other files: "demo" also removes "demo_old.part1". */
  lemma PrefixDeleteReachesOtherFiles(data: seq<byte>)
    ensures var store := map[ShardName("demo.bin", 1) := data, ShardName("demo.bin", 2) := data,
                              ShardName("demo.bin", 3) := data, ShardName("demo_old", 1) := data];
            DeleteByPrefix(store, "demo", {}) == (map[], AllDeleted)
  {
    var store := map[ShardName("demo.bin", 1) := data, ShardName("demo.bin", 2) := data,
                     ShardName("demo.bin", 3) := data, ShardName("demo_old", 1) := data];
    assert "demo" <= "demo.bin" && "demo" <= "demo_old";
    PrefixOfShardName("demo", "demo.bin", 1);
    PrefixOfShardName("demo", "demo.bin", 2);
    PrefixOfShardName("demo", "demo.bin", 3);
    PrefixOfShardName("demo", "demo_old", 1);
    assert forall n :: n in store ==> "demo" <= n;
    var r := DeleteByPrefix(store, "demo", {});
    assert r.0.Keys == {};
    assert r.0 == map[];
    assert ShardName("demo.bin", 1) in store;
  }

  /** An empty base name matches every stored name: only names whose removal fails survive. */
  lemma EmptyBaseDeletesEverything(store: Store, undeletable: set<string>)
    ensures DeleteByPrefix(store, "", undeletable).0.Keys == store.Keys * undeletable
  {
  }

  /** The node reads every request field in the order the coordinator writes it. */
  lemma RequestRoundTrip(req: Request, rest: seq<Token>)
    requires req.Other? ==> !Recognised(req.action)
    ensures ParseRequest(EncodeRequest(req) + rest) == Some(req)
  {
    match req
    case Send(filename, part, data) =>
      var ts := EncodeRequest(req) + rest;
      var rest3 := Octets(data) + rest;
      assert ts == [Utf(SEND), Utf(filename), Int(part), Long(|data|)] + rest3;
      assert ts[4..] == rest3;
      ReadBytesOctets(data, rest);
    case Get(name) =>
    case Delete(base) =>
    case List =>
    case Other(action) =>
  }

  /** An action other than the four lower-case tokens changes nothing and gets no reply. */
  lemma UnknownActionIgnored(store: Store, undeletable: set<string>, order: seq<string>, action: string, rest: seq<Token>)
    requires Enumerates(order, store.Keys)
    requires !Recognised(action)
    ensures Handle(store, undeletable, order, [Utf(action)] + rest) == (store, [])
  {
  }

  /** Action matching is case-sensitive: "SEND" is not a request to store. */
  lemma UpperCaseActionIgnored(store: Store, undeletable: set<string>, order: seq<string>, rest: seq<Token>)
    requires Enumerates(order, store.Keys)
    ensures Handle(store, undeletable, order, [Utf("SEND")] + rest) == (store, [])
  {
    UnknownActionIgnored(store, undeletable, order, "SEND", rest);
  }

  /** A listing carries a count equal to the number of stored names, then exactly those names. */
  lemma ListReply(store: Store, undeletable: set<string>, order: seq<string>, rest: seq<Token>)
    requires Enumerates(order, store.Keys)
    ensures var reply := Handle(store, undeletable, order, [Utf(LIST)] + rest).1;
            reply == [Int(|store|)] + Utfs(order) &&
            ReadNameSet(reply) == Some((store.Keys, []))
  {
    EnumerationCount(order, store.Keys);
    NamesFrameRoundTrip(order, []);
    assert NamesFrame(order) + [] == NamesFrame(order);
  }
}
