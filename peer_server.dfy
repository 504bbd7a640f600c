/** A peer's block server (peer_server.py): answers one request, GET <id> with
    the block or an error, LIST with the ids of the blocks it holds, and
    anything else with an error. */
module PeerServer {
  import opened Text
  import opened Protocol
  import opened FileManager

  /** "ERROR Block not found". */
  function NotFound(): Bytes
  {
    BuildError(Ascii("Block not found"))
  }

  /** "ERROR Invalid command". */
  function InvalidCommand(): Bytes
  {
    BuildError(Ascii("Invalid command"))
  }

  /** The reply `handle_client` sends for a request, given the store's directory.
      A GET is refused as not found exactly when its block is absent or empty
      (a block that exists but is empty counts as not found); every request
      that is neither GET nor LIST, such as a BLOCK, BLOCKS or ERROR message or
      an unparseable one, gets "ERROR Invalid command". */
  function Reply(files: Directory, request: Bytes): (r: Bytes)
    ensures Parse(request).Get? ==> (r == NotFound() <==> !Present(files, Parse(request).id))
    ensures !Parse(request).Get? && !Parse(request).List? ==> r == InvalidCommand()
  {
    match Parse(request)
    case Get(id) =>
      (match Stored(files, id)
       case Some(data) => if data != [] then BuildBlock(id, data) else NotFound()
       case None => NotFound())
    case List => BuildBlocksList(BlockIndices(files))
    case _ => InvalidCommand()
  }

  /** A GET for a non-negative id is answered with the block when the store has
      it with some content, and with "ERROR Block not found" otherwise. A GET
      for a negative id is not a valid request. */
  lemma ReplyToGet(files: Directory, id: int)
    ensures Reply(files, BuildGet(id)) ==
      if id < 0 then InvalidCommand()
      else if Present(files, id) then BuildBlock(id, files[BlockName(id)])
      else NotFound()
  {
    ParseBuildGet(id);
  }

  /** LIST is answered with every block the directory lists, in ascending order. */
  lemma ReplyToList(files: Directory)
    ensures Reply(files, BuildList()) == BuildBlocksList(BlockIndices(files))
  {
    ParseBuildList([], []);
    assert [] + BuildList() + [] == BuildList();
  }

  /** Answering never adds, removes or changes a block file. */
  class PeerServer {
    const store: FileManager

    constructor(store: FileManager)
      ensures this.store == store
    {
      this.store := store;
    }

    /** `handle_client` after the request has been received: it parses the
        request, consults the store and returns the reply to send. The only
        change to the store is that a GET caches the requested block when the
        directory holds it; LIST and every other request leave the cache as
        it was. */
    method HandleClient(request: Bytes) returns (reply: Bytes)
      requires store.Valid()
      modifies store
      ensures store.Valid()
      ensures reply == Reply(old(store.files), request)
      ensures store.files == old(store.files)
      ensures store.cache ==
        match Parse(request)
        case Get(id) =>
          (if Stored(old(store.files), id).Some? then old(store.cache)[id := Stored(old(store.files), id).value]
           else old(store.cache))
        case _ => old(store.cache)
    {
      match Parse(request)
      case Get(id) =>
        var data := store.GetBlock(id);
        if data.Some? && data.value != [] {
          reply := BuildBlock(id, data.value);
        } else {
          reply := NotFound();
        }
      case List =>
        var blocks := store.LoadBlocks();
        reply := BuildBlocksList(blocks);
      case _ =>
        reply := InvalidCommand();
    }
  }
}
