/** The requesting side of the peer protocol (peer_client.py): its own reply
    parser, asking a peer for its block list, and fetching one block into the
    local store. */
module PeerClient {
  import opened Text
  import opened Collections
  import opened Protocol
  import opened FileManager
  import PeerServer

  /** One exchange with a peer: host, port and the request sent give the reply
      received, or `None` when connecting, sending or receiving fails. */
  type Network = (Bytes, int, Bytes) -> Option<Bytes>

  /** "BLOCKS ". */
  const BLOCKS_PREFIX: Bytes := BLOCKS + [SPACE]

  /** The tuple peer_client's `parse_message` returns: a BLOCKS list, a BLOCK
      with its id and data, or nothing recognised. */
  datatype Response =
    | BlocksResponse(payload: Bytes)
    | BlockResponse(id: int, data: Bytes)
    | Unrecognised

  /** A BLOCK reply after its "BLOCK " prefix: it needs a second space; the id
      field is what `int()` reads from the bytes before it, and the data is
      everything after it. */
  function ClientParseBlockRest(rest: Bytes): (r: Response)
    ensures r.BlockResponse? || r.Unrecognised?
    ensures r.BlockResponse? ==> EndsWith(rest, r.data)
  {
    match IndexOf(rest, SPACE)
    case None => Unrecognised
    case Some(k) =>
      var data := rest[k + 1..];
      assert EndsWith(rest, data);
      match ParseInt(rest[..k])
      case None => Unrecognised
      case Some(id) => BlockResponse(id, data)
  }

  /** peer_client's `parse_message`: the "BLOCKS " prefix is tested first, then
      "BLOCK ". */
  function ClientParse(data: Bytes): (r: Response)
    ensures r.BlocksResponse? ==> data == BLOCKS_PREFIX + r.payload
    ensures r.BlockResponse? ==> StartsWith(data, BLOCK_PREFIX) && EndsWith(data, r.data)
  {
    if StartsWith(data, BLOCKS_PREFIX) then
      assert data == data[..|BLOCKS_PREFIX|] + data[|BLOCKS_PREFIX|..];
      BlocksResponse(data[|BLOCKS_PREFIX|..])
    else if StartsWith(data, BLOCK_PREFIX) then
      var rest := data[|BLOCK_PREFIX|..];
      var r := ClientParseBlockRest(rest);
      assert r.BlockResponse? ==> data[|data| - |r.data|..] == rest[|rest| - |r.data|..];
      r
    else Unrecognised
  }

  /** A message that starts with "BLOCK " (and so not with "BLOCKS ") is read
      by the BLOCK branch. */
  lemma ClientParseBlockPrefix(rest: Bytes)
    ensures ClientParse(BLOCK_PREFIX + rest) == ClientParseBlockRest(rest)
  {
    var msg := BLOCK_PREFIX + rest;
    assert !StartsWith(msg, BLOCKS_PREFIX) by {
      if |msg| >= |BLOCKS_PREFIX| {
        assert msg[..|BLOCKS_PREFIX|][5] == SPACE;
      }
    }
    assert msg[..|BLOCK_PREFIX|] == BLOCK_PREFIX && msg[|BLOCK_PREFIX|..] == rest;
  }

  /** `int()` of every piece, or `None` when one of them is not an integer. */
  function ParseAll(pieces: seq<Bytes>): (r: Option<seq<int>>)
    ensures r.Some? ==> |r.value| == |pieces|
  {
    if pieces == [] then Some([])
    else match ParseInt(pieces[0])
      case None => None
      case Some(x) =>
        (match ParseAll(pieces[1..])
         case None => None
         case Some(xs) => Some([x] + xs))
  }

  /** When `map(int, pieces)` succeeds it gives each piece's value, in order. */
  lemma {:induction false} ParseAllValues(pieces: seq<Bytes>)
    requires ParseAll(pieces).Some?
    ensures forall i :: 0 <= i < |pieces| ==> ParseInt(pieces[i]) == Some(ParseAll(pieces).value[i])
  {
    if pieces != [] {
      var rest := pieces[1..];
      ParseAllValues(rest);
      var xs := ParseAll(pieces).value;
      assert xs[1..] == ParseAll(rest).value;
      forall i | 1 <= i < |pieces| ensures ParseInt(pieces[i]) == Some(xs[i]) {
        assert pieces[i] == rest[i - 1] && xs[i] == xs[1..][i - 1];
      }
    }
  }

  /** `map(int, pieces)` fails exactly when one of the pieces is not an integer. */
  lemma {:induction false} ParseAllFails(pieces: seq<Bytes>)
    ensures ParseAll(pieces).None? <==> exists i :: 0 <= i < |pieces| && ParseInt(pieces[i]).None?
  {
    if pieces != [] {
      ParseAllFails(pieces[1..]);
      ParseAllHead(pieces);
      FailingPieceShift(pieces);
    }
  }

  lemma ParseAllHead(pieces: seq<Bytes>)
    requires pieces != []
    ensures ParseAll(pieces).None? <==> ParseInt(pieces[0]).None? || ParseAll(pieces[1..]).None?
  {
  }

  /** Some piece fails exactly when the first does or some later one does. */
  lemma FailingPieceShift(pieces: seq<Bytes>)
    requires pieces != []
    ensures (exists i :: 0 <= i < |pieces| && ParseInt(pieces[i]).None?) <==>
      ParseInt(pieces[0]).None? || exists j :: 0 <= j < |pieces[1..]| && ParseInt(pieces[1..][j]).None?
  {
    var rest := pieces[1..];
    if exists j :: 0 <= j < |rest| && ParseInt(rest[j]).None? {
      var j :| 0 <= j < |rest| && ParseInt(rest[j]).None?;
      assert pieces[j + 1] == rest[j];
    }
    if exists i :: 0 <= i < |pieces| && ParseInt(pieces[i]).None? {
      var i :| 0 <= i < |pieces| && ParseInt(pieces[i]).None?;
      if i > 0 {
        assert rest[i - 1] == pieces[i];
      }
    }
  }

  /** A piece that starts with a separator 0x1C-0x1F makes `map(int, pieces)`
      raise. */
  lemma ParseAllSeparator(pieces: seq<Bytes>, i: int)
    requires 0 <= i < |pieces| && pieces[i] != [] && 28 <= pieces[i][0] <= 31
    ensures ParseAll(pieces).None?
  {
    ParseIntSeparator(pieces[i]);
    ParseAllFails(pieces);
  }

  /** The set of ids `map(int, pieces)` gives, or `None` when a piece is not an
      integer. */
  function IdsOf(pieces: seq<Bytes>): (r: Option<set<int>>)
    ensures r.Some? && pieces != [] ==> r.value != {}
  {
    match ParseAll(pieces)
    case Some(ids) =>
      assert pieces != [] ==> ids[0] in Elements(ids);
      Some(Elements(ids))
    case None => None
  }

  /** The ids a set of pieces gives are exactly the pieces' values, and there are
      none when one piece is not an integer. */
  lemma IdsOfValues(pieces: seq<Bytes>)
    ensures IdsOf(pieces).None? <==> exists i :: 0 <= i < |pieces| && ParseInt(pieces[i]).None?
    ensures IdsOf(pieces).Some? ==> forall x :: x in IdsOf(pieces).value <==>
      exists i :: 0 <= i < |pieces| && ParseInt(pieces[i]) == Some(x)
  {
    ParseAllFails(pieces);
    if ParseAll(pieces).Some? {
      var ids := ParseAll(pieces).value;
      ParseAllValues(pieces);
      forall x ensures x in Elements(ids) <==> exists i :: 0 <= i < |pieces| && ParseInt(pieces[i]) == Some(x) {
        if x in Elements(ids) {
          var i :| 0 <= i < |ids| && ids[i] == x;
          assert ParseInt(pieces[i]) == Some(x);
        }
      }
    }
  }

  /** The ids in a BLOCKS payload: it must be non-empty and decode, and its
      comma-separated pieces must all read as integers. */
  function PayloadIds(payload: Bytes): (r: Option<set<int>>)
    ensures r.Some? ==> r.value != {}
  {
    if payload == [] || !ValidUtf8(payload) then None
    else IdsOf(SplitOn(payload, COMMA))
  }

  /** `get_peer_blocks` once the LIST exchange is over: the ids of a BLOCKS reply
      whose payload gives some; `None` for anything else, including a failed
      exchange. */
  function PeerBlocks(reply: Option<Bytes>): (r: Option<set<int>>)
    ensures r.Some? ==> reply.Some? && ClientParse(reply.value).BlocksResponse?
    ensures r.Some? ==> r.value != {}
  {
    if reply.None? then None
    else match ClientParse(reply.value)
      case BlocksResponse(p) => PayloadIds(p)
      case _ => None
  }

  /** A BLOCKS reply with a non-empty payload that decodes gives the ids of its
      comma-separated pieces (see `IdsOfValues`). */
  lemma PeerBlocksPayload(payload: Bytes)
    requires payload != [] && ValidUtf8(payload)
    ensures PeerBlocks(Some(BLOCKS_PREFIX + payload)) == IdsOf(SplitOn(payload, COMMA))
  {
    var msg := BLOCKS_PREFIX + payload;
    assert msg[..|BLOCKS_PREFIX|] == BLOCKS_PREFIX && msg[|BLOCKS_PREFIX|..] == payload;
  }

  /** A BLOCKS reply whose payload is empty or does not decode gives nothing. */
  lemma PeerBlocksBadPayload(payload: Bytes)
    requires payload == [] || !ValidUtf8(payload)
    ensures PeerBlocks(Some(BLOCKS_PREFIX + payload)) == None
  {
    var msg := BLOCKS_PREFIX + payload;
    assert msg[..|BLOCKS_PREFIX|] == BLOCKS_PREFIX && msg[|BLOCKS_PREFIX|..] == payload;
  }

  /** The data `request_block` saves: that of a BLOCK reply carrying the requested
      id and some data. */
  function Accepted(id: int, reply: Option<Bytes>): (r: Option<Bytes>)
    ensures r.Some? ==> r.value != [] && reply.Some? && ClientParse(reply.value) == BlockResponse(id, r.value)
    ensures r.None? ==> reply.None? || !ClientParse(reply.value).BlockResponse?
                        || ClientParse(reply.value).id != id || ClientParse(reply.value).data == []
  {
    if reply.None? then None
    else match ClientParse(reply.value)
      case BlockResponse(rid, data) => if rid == id && data != [] then Some(data) else None
      case _ => None
  }

  // ---------------------------------------------------------------------------
  // What the client reads from what a server sends
  // ---------------------------------------------------------------------------

  /** Where the data is preceded by a space, the client's BLOCK branch and the
      shared parser's read the same id and data. */
  lemma BlockRestAgrees(rest: Bytes)
    requires SPACE in rest
    ensures ClientParseBlockRest(rest).BlockResponse? <==> ParseBlock(rest).Block?
    ensures ClientParseBlockRest(rest).BlockResponse? ==>
      ParseBlock(rest) == Block(ClientParseBlockRest(rest).id, ClientParseBlockRest(rest).data)
  {
  }

  /** A block reply is read back with its id and its data. */
  lemma ClientParseBlock(id: int, data: Bytes)
    ensures ClientParse(BuildBlock(id, data)) == BlockResponse(id, data)
  {
    var rest := Show(id) + [SPACE] + data;
    assert BuildBlock(id, data) == BLOCK_PREFIX + rest;
    ClientParseBlockPrefix(rest);
    ParseBlockOf(id, data);
    assert rest[|Show(id)|] == SPACE;
    BlockRestAgrees(rest);
  }

  /** A BLOCKS reply is read back with its payload, empty for an empty list. */
  lemma ClientParseBlocksList(ids: set<int>)
    ensures ClientParse(BuildBlocksList(ids)) == BlocksResponse(BlocksPayload(ids))
  {
    var msg := BuildBlocksList(ids);
    assert msg == BLOCKS_PREFIX + BlocksPayload(ids);
    assert msg[..|BLOCKS_PREFIX|] == BLOCKS_PREFIX;
  }

  /** An error reply is not recognised. */
  lemma ClientParseError(text: Bytes)
    ensures ClientParse(BuildError(text)) == Unrecognised
  {
    var msg := BuildError(text);
    assert msg[0] == ERROR[0];
    assert !StartsWith(msg, BLOCKS_PREFIX) by {
      if |msg| >= |BLOCKS_PREFIX| {
        assert msg[..|BLOCKS_PREFIX|][0] == msg[0];
      }
    }
    assert !StartsWith(msg, BLOCK_PREFIX) by {
      assert msg[..|BLOCK_PREFIX|][0] == msg[0];
    }
  }

  /** A BLOCK message without a second space, which the shared parser accepts
      with empty data, is not recognised by the client. */
  lemma ClientParseWithoutData(id: int)
    ensures ClientParse(BLOCK_PREFIX + Show(id)) == Unrecognised
  {
    ClientParseBlockPrefix(Show(id));
    assert SPACE !in Show(id);
  }

  /** A BLOCK message whose id field `int()` rejects is not recognised. */
  lemma ClientParseBadId(field: Bytes, data: Bytes)
    requires SPACE !in field && ParseInt(field).None?
    ensures ClientParse(BLOCK_PREFIX + (field + [SPACE] + data)) == Unrecognised
  {
    var rest := field + [SPACE] + data;
    ClientParseBlockPrefix(rest);
    ParseBlockBadId(field, data);
    assert rest[|field|] == SPACE;
    BlockRestAgrees(rest);
  }

  /** Where the client recognises a block, the shared protocol parser reads the
      same id and data. */
  lemma ClientParseAgrees(msg: Bytes)
    requires ClientParse(msg).BlockResponse?
    ensures Parse(msg) == Block(ClientParse(msg).id, ClientParse(msg).data)
  {
  }

  /** `map(int, pieces)` over `str(x)` and then pieces that read as `xs`. */
  lemma ParseShownHead(x: int, rest: seq<Bytes>, xs: seq<int>)
    requires ParseAll(rest) == Some(xs)
    ensures ParseAll([Show(x)] + rest) == Some([x] + xs)
  {
    var pieces := [Show(x)] + rest;
    assert pieces[0] == Show(x) && pieces[1..] == rest;
    ParseShow(x);
  }

  lemma {:induction false} ParseAllShowAll(ids: seq<int>)
    ensures ParseAll(ShowAll(ids)) == Some(ids)
  {
    if ids != [] {
      ParseAllShowAll(ids[1..]);
      assert ShowAll(ids) == [Show(ids[0])] + ShowAll(ids[1..]);
      ParseShownHead(ids[0], ShowAll(ids[1..]), ids[1..]);
      assert [ids[0]] + ids[1..] == ids;
    }
  }

  /** Asking a server for its list gives back exactly the blocks its directory
      lists, or `None` when it lists none (the reply is then "BLOCKS " with an
      empty payload). */
  lemma ListRoundTrip(files: Directory)
    ensures PeerBlocks(Some(PeerServer.Reply(files, BuildList()))) ==
      if BlockIndices(files) == {} then None else Some(BlockIndices(files))
  {
    PeerServer.ReplyToList(files);
    BlocksListRoundTrip(BlockIndices(files));
  }

  /** A BLOCKS reply reads back as its ids, or as `None` when it lists none. */
  lemma BlocksListRoundTrip(ids: set<int>)
    ensures PeerBlocks(Some(BuildBlocksList(ids))) == if ids == {} then None else Some(ids)
  {
    ClientParseBlocksList(ids);
    var asc := Ascending(ids);
    if ids == {} {
      assert asc == [];
    } else {
      PayloadRoundTrip(asc);
      assert Elements(asc) == ids;
    }
  }

  /** The payload of a non-empty list decodes, and its comma-separated pieces
      read back as the ids, in order. */
  lemma PayloadRoundTrip(ids: seq<int>)
    requires ids != []
    ensures var p := Join(ShowAll(ids), COMMA);
      p != [] && ValidUtf8(p) && ParseAll(SplitOn(p, COMMA)) == Some(ids)
  {
    var parts := ShowAll(ids);
    var p := Join(parts, COMMA);
    assert p != [] && IsAscii(p) by {
      JoinShowAll(ids);
    }
    assert ValidUtf8(p);
    forall i | 0 <= i < |parts| ensures COMMA !in parts[i] {
      NotInShow(ids[i], COMMA);
    }
    SplitOnJoin(parts, COMMA);
    ParseAllShowAll(ids);
  }

  /** Asking a server for block `i` yields its data exactly when `i` is
      non-negative and the server holds a non-empty block `i`. */
  lemma GetRoundTrip(files: Directory, i: int)
    ensures Accepted(i, Some(PeerServer.Reply(files, BuildGet(i)))) ==
      if i >= 0 && Present(files, i) then Some(files[BlockName(i)]) else None
  {
    PeerServer.ReplyToGet(files, i);
    if i >= 0 && Present(files, i) {
      ClientParseBlock(i, files[BlockName(i)]);
    } else if i < 0 {
      ClientParseError(Ascii("Invalid command"));
    } else {
      ClientParseError(Ascii("Block not found"));
    }
  }

  /** The client side of a peer; it writes what it fetches into the store. */
  class PeerClient {
    const store: FileManager

    constructor(store: FileManager)
      ensures this.store == store
    {
      this.store := store;
    }

    /** `request_block`: sends GET for the block and saves the reply's data when
        the reply is a BLOCK for that id with some data; reports whether it did. */
    method RequestBlock(net: Network, host: Bytes, port: int, id: int) returns (ok: bool)
      requires store.Valid()
      modifies store
      ensures store.Valid()
      ensures ok <==> Accepted(id, net(host, port, BuildGet(id))).Some?
      ensures ok ==> var data := Accepted(id, net(host, port, BuildGet(id))).value;
        && store.files == old(store.files)[BlockName(id) := data]
        && store.cache == old(store.cache)[id := data]
      ensures !ok ==> store.files == old(store.files) && store.cache == old(store.cache)
    {
      var response := net(host, port, BuildGet(id));
      ok := false;
      if response.Some? {
        var parsed := ClientParse(response.value);
        if parsed.BlockResponse? && parsed.id == id && parsed.data != [] {
          store.SaveBlock(id, parsed.data);
          ok := true;
        }
      }
    }
  }
}
