# MiniBit in Dafny

MiniBit spreads a file over a swarm of peers as numbered blocks. A central
tracker records which peers exist. Each peer keeps its blocks in a directory of
`block_<i>.bin` files, serves them over a small text protocol (`GET <id>`,
`LIST`, `BLOCK <id> <data>`, `BLOCKS <ids>`, `ERROR <text>`), and runs a
download loop. That loop asks every listed peer which blocks it has, picks
blocks rarest first, keeps four "regular" unchoked peers by tit-for-tat plus
one "optimistic" one, and fetches one block per cycle until it can rebuild the
file and become a seeder.

This project models that core and proves properties about it:

- `text.dfy` (`Text`): the Python built-ins the core relies on, over bytes.
  These are `strip`, `split`, `split(sep)`, `join`, `int()`, `str()`,
  `isdigit` and UTF-8 decoding.
- `collections.dfy` (`Collections`): `sorted()` of a set of integers, Python's
  stable `sorted(key=...)`, and dictionaries as lists of pairs in insertion
  order.
- `protocol.dfy` (`Protocol`): the message builders and `parse_message`.
- `file_manager.dfy` (`FileManager`): the block store. It is a class whose
  fields are the blocks directory (file name to content) and the cache
  dictionary. It also holds the loop that cuts a file into blocks.
- `strategy.dfy` (`Strategy`): rarest-first selection, the tit-for-tat ranking,
  and the `Strategy` class with its two choke fields.
- `peer_server.dfy` (`PeerServer`): the reply `handle_client` sends.
- `peer_client.dfy` (`PeerClient`): the client's own reply parser,
  `get_peer_blocks` and `request_block`.
- `tracker_server.dfy` (`TrackerServer`): `handle_peer` over the registry of
  peers.
- `peer.dfy` (`Peer`): peer.py's `select_rarest_blocks` and one pass of
  `download_loop`. The nested fetch loops are methods proved against a
  recursive walk. The pass itself is the `Downloader` class, whose state is the
  cycle counter.

Bytes are `seq<byte>`. A Python `str` is represented by its UTF-8 encoding.
The network is a parameter `(host, port, request) -> Option<reply>`, where
`None` is a connection or receive failure. The tracker's answer is a parameter
too: the host and port of each peer it lists. Random choices are
nondeterministic choices, with every result allowed that the source's
`random` call could give.

Some of the code's behaviour differs from what its message formats and
comments suggest. The model follows the code:

- An empty `BLOCKS` list (`"BLOCKS "`) strips to `"BLOCKS"` and parses as
  UNKNOWN, not as an empty list (`Protocol.ParseBuildBlocksList`).
- `BLOCK <id>` without a second space is accepted by `parse_message` with empty
  data (`Protocol.ParseBlockWithoutData`). The client's own parser rejects it
  (`PeerClient.ClientParseWithoutData`). So the encode/decode round trip holds
  for BLOCK messages only as built by `build_block`.
- The completion check compares the number of blocks held with
  `TOTAL_BLOCKS`; it does not check that they cover `0 .. TOTAL_BLOCKS-1`.
  `Peer.Downloader.Cycle` states the count-based gate.
- `load_blocks` lists every name whose text after the first `_`, up to the
  next `_` or `.`, reads as an integer, for example `block_ 7.bin`,
  `block_+7.bin` or `block_7_x.bin` (listed as 7), and `block_1_2.bin` (listed
  as 1, `FileManager.NameIndexSecondUnderscore`).
  `FileManager.ListedHasBlockName` states only what is guaranteed.
- `int()` skips only tab to carriage return and space around a number, also on
  a `str`. The separators 0x1C-0x1F that `str.strip` and `str.split` drop make
  `int()` raise, so `block_\x1c7.bin` is skipped
  (`FileManager.NameIndexSeparator`) and a BLOCKS reply with such a piece gives
  no ids (`PeerClient.ParseAllSeparator`).
- The optimistic peer is drawn from the keys of this cycle's view, not from
  every peer the tracker reported (`Peer.Refreshed`).
- Ties in rarest-first and in the tit-for-tat ranking keep the dictionary's
  order, because both sorts are stable (`Collections.SortByStable`). There is
  no separate secondary key.
- A tracker-listed host containing `:` makes `peer_addr.split(":")` unpack
  wrongly. This raises and ends the download thread, which the model shows as
  the `Crashed` walk (`Peer.AddressWithColonFails`,
  `Peer.WalkCrashNeedsBadKey`).

## Model

| member | source | states |
|---|---|---|
| Text.ParseShow | protocol.py:65 | `int(str(i)) == i` for every integer, whether read as text or as bytes |
| Text.Strip | protocol.py:59 | `strip()` never lengthens a text and leaves no whitespace at either end |
| Text.Split | protocol.py:63 | `split()` gives only non-empty words without whitespace |
| Text.ValidUtf8 | protocol.py:59 | ASCII text always decodes as UTF-8 |
| Text.ShowAscii | protocol.py:19 | `str(i)` is ASCII text |
| Text.DigitsNumeral | protocol.py:64-65 | an all-digit text needs no stripping and is a numeral |
| Text.StripHead | protocol.py:59 | the first byte left by stripping is a byte of the text |
| Text.ShowIsDigits | protocol.py:64 | `str(i).isdigit()` holds exactly when `i >= 0` |
| Text.ParseInt | protocol.py:65 | `int()` of an all-digit text is its numeral value, and a negative result needs a minus sign in the text |
| Text.ParseIntSeparator | file_manager.py:23 | `int()` raises on a text starting with a separator 0x1C-0x1F, which `str.strip` would remove |
| Text.SplitOnJoin | peer_client.py:49 | splitting on a separator undoes joining with it, when no piece contains the separator |
| Collections.Ascending | protocol.py:31 | `sorted()` of a set: strictly increasing, the same elements, each once |
| Collections.SortBy | strategy.py:25 | `sorted(key=...)`: a permutation of its input, in non-decreasing key order |
| Collections.SortByStable | strategy.py:25 | `sorted(key=...)` is stable: for every key, the elements with that key leave in the order they came in |
| Collections.SortByFirsts | peer.py:64-65 | sorting pairs by a key that depends on the first component, then projecting, equals projecting and then sorting |
| Protocol.ShowAll | protocol.py:31 | `map(str, ids)`: one decimal text per id, in order |
| Protocol.BuildGet | protocol.py:17-19 | "GET <id>" is ASCII text that never starts with "BLOCK " |
| Protocol.BuildList | protocol.py:21-23 | "LIST" is a single non-empty ASCII word that never starts with "BLOCK " |
| Protocol.BuildBlock | protocol.py:25-27 | the message starts with "BLOCK ", then `str(id)` and one space, and ends with the data unchanged |
| Protocol.BuildBlocksList | protocol.py:29-31 | the message is ASCII, starts with "BLOCKS" and not "BLOCK ", and is bare "BLOCKS " exactly when there are no ids |
| Protocol.BuildError | protocol.py:33-35 | the message starts with "ERROR", not "BLOCK ", and is UTF-8 whenever the text is |
| Protocol.ParseBlock | protocol.py:52-56 | the BLOCK branch gives a BLOCK or INVALID, and a BLOCK's data is a suffix of the message |
| Protocol.ParseGet | protocol.py:61-66 | the GET branch gives GET exactly when the text has two words and the second is all digits, and then the id is `int()` of that word and non-negative; INVALID otherwise |
| Protocol.ParseText | protocol.py:59-90 | a decoded text never parses as BLOCK; a BLOCKS payload or ERROR text is non-empty and starts with a non-space |
| Protocol.Parse | protocol.py:41-90 | a "BLOCK " message gives BLOCK or INVALID; a non-BLOCK message that is not UTF-8 gives INVALID; GET ids are non-negative |
| Protocol.ParseDecoded | protocol.py:58-59 | a non-BLOCK UTF-8 message is parsed from its stripped text |
| Protocol.ParseBuildBlock | protocol.py:52-56 | `parse_message(build_block(id, data))` gives back `id` and `data` exactly, for any bytes, spaces and NULs included |
| Protocol.ParseBlockOf | protocol.py:53-56 | after "BLOCK ", the id field and everything past the next space are read back |
| Protocol.ParseBlockWithoutData | protocol.py:54-55 | "BLOCK <id>" with no second space parses as BLOCK with empty data |
| Protocol.ParseBadBlockId | protocol.py:52-56 | a BLOCK message whose id field is not an integer parses as INVALID, with or without data |
| Protocol.ParseBlockBadId | protocol.py:53-56 | the same, for the text after "BLOCK " |
| Protocol.ParseBuildGet | protocol.py:61-66 | `build_get(id)` parses back as GET `id` when `id >= 0` and as INVALID when negative |
| Protocol.GetMessage | protocol.py:59-61 | `build_get(id)` is decoded, stripped and sent to the GET branch unchanged |
| Protocol.ParseGetOf | protocol.py:63-66 | the GET branch on `build_get(id)`: GET `id` exactly when `id >= 0` |
| Protocol.GetWords | protocol.py:17-19 | `build_get(id)` splits into the two words "GET" and `str(id)` |
| Protocol.ParseBuildList | protocol.py:68-70 | "LIST", with any surrounding whitespace, parses as LIST |
| Protocol.KeywordSplit | protocol.py:72-82 | a BLOCKS or ERROR message is neither GET nor LIST, and splits once into keyword and rest |
| Protocol.ParseTextBlocks | protocol.py:72-76 | "BLOCKS <payload>" gives BLOCKS with that payload |
| Protocol.ParseTextError | protocol.py:78-82 | "ERROR <text>" gives ERROR with that text |
| Protocol.ParseTextKeyword | protocol.py:72-90 | a bare "BLOCKS" or "ERROR" falls through to UNKNOWN |
| Protocol.JoinShowAll | protocol.py:31 | a non-empty comma-joined id list is non-empty, ends in a digit, and holds only digits, '-' and ',' |
| Protocol.ParseBuildBlocksList | protocol.py:72-76 | `build_blocks_list(ids)` parses as BLOCKS with the ascending comma-joined list, and as UNKNOWN for the empty set |
| Protocol.ParseBlocksPayload | protocol.py:72-76 | "BLOCKS " plus any list of digits, '-' and ',' that ends in a digit parses back as that payload |
| Protocol.ParseBareBlocks | protocol.py:72-76 | "BLOCKS " with nothing after it parses as UNKNOWN |
| Protocol.ParseBareKeyword | protocol.py:72-90 | "BLOCKS " and "ERROR " strip to the bare keyword and give UNKNOWN |
| Protocol.ParseBuildError | protocol.py:78-82 | `build_error(text)` parses back as ERROR `text` for a UTF-8 text that is non-empty and not space-padded |
| Protocol.ErrorShape | protocol.py:33-35 | an error message never starts with "BLOCK ", and stripping leaves it unchanged |
| Protocol.ParseEmptyError | protocol.py:78-82 | `build_error("")` parses as UNKNOWN |
| Protocol.ParseEmpty | protocol.py:89-90 | an empty message parses as UNKNOWN |
| FileManager.NameIndex | file_manager.py:20-26 | an index is read only from a name that starts with "block_" and ends with ".bin" |
| FileManager.NameIndexSecondUnderscore | file_manager.py:23 | the index is read up to a second `_`: "block_<s>_<rest>.bin" lists `int(s)` |
| FileManager.NameIndexSeparator | file_manager.py:23-26 | a name whose index text starts with a separator 0x1C-0x1F is skipped |
| FileManager.NameIndexBlockName | file_manager.py:21-24 | the name `save_block` gives block `i` is listed as `i` |
| FileManager.BlockName | file_manager.py:31 | a block's file name starts with "block_" and ends with ".bin" |
| FileManager.NamePieces | file_manager.py:23 | in a block's name, the text between the first '_' and the next '.' is `str(i)` |
| FileManager.BlockNameInjective | file_manager.py:31 | different blocks get different file names |
| FileManager.BlockNamesInjective | file_manager.py:31 | the same, for all pairs of indices at once |
| FileManager.IndicesOfAdd | file_manager.py:19-27 | each directory entry adds its index to the listing, or nothing when its name is skipped |
| FileManager.StoredIsListed | file_manager.py:17-27 | every block that has a file is listed |
| FileManager.ListedHasBlockName | file_manager.py:17-27 | every listed index comes from a "block_*.bin" name in the directory that reads as that index |
| FileManager.MissingMembers | file_manager.py:51-58 | an index is reported missing exactly when it is below `total_blocks` and its block is absent or empty |
| FileManager.Missing | file_manager.py:51-58 | every index reported missing is below `total_blocks` and its block is absent or empty |
| FileManager.MissingAscending | file_manager.py:53-58 | the missing indices are reported in strictly ascending order |
| FileManager.RebuildComplete | file_manager.py:59-62 | nothing is missing exactly when every block below `total_blocks` is present and non-empty |
| FileManager.FileManager.constructor | file_manager.py:10-15 | a store over a directory starts with an empty cache |
| FileManager.FileManager.LoadBlocks | file_manager.py:17-27 | returns the indices of the directory's well-named files and changes nothing |
| FileManager.FileManager.SaveBlock | file_manager.py:29-34 | writes the block's file and its cache entry, and keeps the cache consistent with the directory |
| FileManager.FileManager.GetBlock | file_manager.py:36-47 | returns the block's stored content or `None`; a cached block comes from the cache; a block read from disk is cached; the directory is unchanged |
| FileManager.FileManager.RebuildFile | file_manager.py:49-62 | returns the present blocks concatenated in index order, and the missing indices, and succeeds exactly when none is missing; it caches what it reads |
| FileManager.SaveThenGet | file_manager.py:29-47 | getting a block just saved returns exactly the saved data |
| FileManager.SavedIsListed | file_manager.py:29-34 | a saved block is listed by `load_blocks` |
| FileManager.Read | file_manager.py:80 | `f.read(n)` from a position: at most `n` bytes, fewer only at end of file, everything left for a negative size |
| FileManager.SplitIntoBlocks | file_manager.py:78-85 | the chunks concatenate to the file, none is empty, and all but the last have exactly the block size |
| FileManager.ChunkFiles | file_manager.py:81-84 | block `i` of the written directory holds chunk `i` |
| FileManager.SplitThenRebuild | file_manager.py:78-85 | rebuilding from the chunks' files misses nothing and gives back the original file |
| FileManager.AssembledChunks | file_manager.py:53-56 | rebuilding `n` stored non-empty chunks gives their concatenation |
| FileManager.Assembled | file_manager.py:53-56 | when nothing is missing, the rebuilt file has at least one byte per block |
| Strategy.Bump | strategy.py:22 | `freq[b] = freq.get(b, 0) + 1` leaves a non-empty dictionary |
| Strategy.BumpFacts | strategy.py:22 | the bump adds `b` as a key if needed, keeps keys distinct, and raises only `b`'s count, by one |
| Strategy.CountBlocksFacts | strategy.py:19-22 | counting one peer's blocks adds each block not held locally, once per occurrence |
| Strategy.CountViewCorrect | strategy.py:16-22 | the frequency table's keys are exactly the blocks not held that some peer offers, with the number of peers offering each |
| Strategy.CountView | strategy.py:16-22 | the frequency table has distinct keys |
| Strategy.RarestFirstVersionsAgree | peer.py:64-65 | sorting the table's items and keeping the blocks gives the same list as strategy.py's sort of its keys |
| Strategy.RarestFirst | strategy.py:5-25 | a block is selected exactly when it is not held and some peer offers it |
| Strategy.RarestFirstDistinct | strategy.py:25 | no block is selected twice |
| Strategy.RarestFirstOrder | strategy.py:25 | selected blocks go from fewest offering peers to most |
| Strategy.CountPeerBlocks | strategy.py:20-22 | the inner counting loop computes the specified table |
| Strategy.CountFrequencies | strategy.py:16-22 | the nested counting loops compute the frequency table of the view |
| Strategy.SelectRarestBlocks | strategy.py:5-25 | returns the rarest-first order of the view |
| Strategy.Scores | strategy.py:44-47 | each peer, in view order, scored by the number of its blocks not held locally |
| Strategy.ScorePeers | strategy.py:44-47 | the scoring loop computes those scores |
| Strategy.TopRanked | strategy.py:50-53 | at most four peers are kept, fewer only when the view has fewer |
| Strategy.TopPeers | strategy.py:50-53 | the regular peers are `min(4, len(view))` peers, all keys of the view |
| Strategy.TopPeersDistinct | strategy.py:53 | no peer takes two regular slots |
| Strategy.TopPeersDescending | strategy.py:50 | the regular peers are in non-increasing order of score |
| Strategy.TopPeersOutrankOthers | strategy.py:50-53 | every regular peer scores at least as high as every peer left out |
| Strategy.Strategy.constructor | strategy.py:28-32 | starts with no regular and no optimistic peer |
| Strategy.Strategy.UpdateUnchokedPeers | strategy.py:34-57 | the regular peers become the top four; the optimistic peer is one of the known peers outside them, or none when there is none |
| Strategy.Strategy.GetUnchokedPeers | strategy.py:64-68 | the regular peers in order, then the optimistic peer when there is one |
| Strategy.Strategy.ShouldRequestFrom | strategy.py:70-74 | true exactly for a regular peer or the optimistic peer |
| Strategy.UnchokedAtMostFive | strategy.py:53-68 | at most five peers are unchoked at once |
| Strategy.OptimisticExactly | strategy.py:56-57 | there is no optimistic peer exactly when every known peer is already a regular one |
| PeerServer.ReplyToGet | peer_server.py:46-52 | GET `id` is answered with the block when it is stored with some content, and "ERROR Block not found" otherwise; a negative id is an invalid command |
| PeerServer.ReplyToList | peer_server.py:54-58 | LIST is answered with the ascending list of every block held |
| PeerServer.Reply | peer_server.py:44-62 | a GET is answered "ERROR Block not found" exactly when the block is absent or empty; any request that is neither GET nor LIST is answered "ERROR Invalid command" |
| PeerServer.PeerServer.HandleClient | peer_server.py:37-62 | sends the reply the request calls for; the directory is unchanged; a GET caches exactly the requested block when the directory holds it, and LIST or any other request leaves the cache unchanged |
| PeerClient.ClientParseBlockRest | peer_client.py:21-26 | after "BLOCK ", a second space is needed, and the data is a suffix of the message |
| PeerClient.ClientParse | peer_client.py:15-30 | a BLOCKS reply carries the bytes after "BLOCKS "; a BLOCK reply starts with "BLOCK " and its data is a suffix |
| PeerClient.ClientParseBlockPrefix | peer_client.py:17-26 | a reply starting "BLOCK " is read by the BLOCK branch, never the BLOCKS one |
| PeerClient.ParseAll | peer_client.py:49 | `map(int, pieces)` gives one value per piece when it succeeds |
| PeerClient.ParseAllValues | peer_client.py:49 | when it succeeds, each value is `int()` of the piece at the same position |
| PeerClient.ParseAllSeparator | peer_client.py:49 | a piece starting with a separator 0x1C-0x1F makes `map(int, pieces)` raise |
| PeerClient.ParseAllFails | peer_client.py:49 | it fails exactly when some piece is not an integer |
| PeerClient.IdsOf | peer_client.py:49-50 | the id set of a non-empty piece list is non-empty |
| PeerClient.IdsOfValues | peer_client.py:49-50 | there is no id set exactly when a piece is not an integer; otherwise an id is in the set exactly when some piece reads as it |
| PeerClient.PayloadIds | peer_client.py:47-50 | a payload that gives ids gives a non-empty set |
| PeerClient.PeerBlocks | peer_client.py:39-54 | `get_peer_blocks` returns ids only from a BLOCKS reply, and never an empty set |
| PeerClient.PeerBlocksPayload | peer_client.py:45-50 | a BLOCKS reply with a non-empty UTF-8 payload gives the ids of its comma-separated pieces |
| PeerClient.PeerBlocksBadPayload | peer_client.py:47-48 | a BLOCKS reply with an empty or non-UTF-8 payload gives nothing |
| PeerClient.Accepted | peer_client.py:63-64 | data is saved exactly when the reply is a BLOCK with the requested id and non-empty data |
| PeerClient.BlockRestAgrees | peer_client.py:21-26 | where a second space exists, the client's BLOCK branch and `protocol.parse_message` read the same id and data |
| PeerClient.ClientParseBlock | peer_client.py:21-26 | `build_block(id, data)` is read back by the client as `id` and `data` |
| PeerClient.ClientParseBlocksList | peer_client.py:17-19 | `build_blocks_list(ids)` is read back as its comma-joined payload |
| PeerClient.ClientParseError | peer_client.py:15-30 | an ERROR reply is not recognised |
| PeerClient.ClientParseWithoutData | peer_client.py:22-23 | "BLOCK <id>" without a second space is not recognised |
| PeerClient.ClientParseBadId | peer_client.py:22-29 | a BLOCK reply whose id field is not an integer is not recognised |
| PeerClient.ClientParseAgrees | peer_client.py:21-26 | every BLOCK the client recognises is parsed the same way by `protocol.parse_message` |
| PeerClient.ParseAllShowAll | peer_client.py:49 | `map(int, map(str, ids))` gives back `ids` |
| PeerClient.PayloadRoundTrip | peer_client.py:48-49 | a non-empty comma-joined id list is non-empty UTF-8 and reads back as the same ids |
| PeerClient.ListRoundTrip | peer_client.py:39-54 | asking a peer_server for LIST gives exactly the blocks it holds, and nothing when it holds none |
| PeerClient.BlocksListRoundTrip | peer_client.py:39-54 | a BLOCKS reply built from a set of ids reads back as that set, and as nothing for the empty set |
| PeerClient.GetRoundTrip | peer_client.py:56-67 | asking a peer_server for block `i` saves exactly its stored data when it has some, and nothing otherwise |
| PeerClient.PeerClient.RequestBlock | peer_client.py:56-71 | succeeds exactly when the reply is accepted, and then saves that block; otherwise the store is unchanged |
| TrackerServer.Classify | tracker_server.py:34-37 | a request is registered or answered with peers only if it decodes; a request that does not decode, or is empty once stripped, gets no reply |
| TrackerServer.ClassifyText | tracker_server.py:39-72 | registered ids and hosts are non-empty words; refusals are one of the three error texts; silence comes only from an empty request or a REGISTER |
| TrackerServer.ClassifyByWords | tracker_server.py:40-72 | REGISTER is refused exactly when it does not have four words and is dropped exactly when its port is not an integer; GET_PEERS is refused exactly when it does not have two words; anything else is an invalid command |
| TrackerServer.ClassifyPlain | tracker_server.py:34 | an unpadded UTF-8 request is classified as it is |
| TrackerServer.SamplePeers | tracker_server.py:66 | returns `min(5, n)` distinct records drawn from the pool |
| TrackerServer.Others | tracker_server.py:60-64 | a record is a candidate exactly when its id is registered, is not the requester's, and its host and port are the registered ones |
| TrackerServer.OthersSize | tracker_server.py:60-64 | the peers offered to a requester are all registered peers but the requester itself |
| TrackerServer.RecordsSize | tracker_server.py:60-64 | one record per registered id |
| TrackerServer.ClassifyRegister | tracker_server.py:40-49 | a well-formed REGISTER message registers its id, host and port |
| TrackerServer.RegisterText | tracker_server.py:40-49 | the same, for its decoded text |
| TrackerServer.ClassifyGetPeers | tracker_server.py:52-57 | a well-formed GET_PEERS message asks for the peers other than its id |
| TrackerServer.GetPeersText | tracker_server.py:52-57 | the same, for its decoded text |
| TrackerServer.TrackerServer.HandlePeer | tracker_server.py:30-75 | REGISTER stores or replaces the peer and replies "OK"; GET_PEERS replies with a sample of the other peers; refusals reply with their error; nothing else changes the registry |
| TrackerServer.RegisteredIsOffered | tracker_server.py:47-64 | a peer just registered is offered to any other requester, with its new host and port |
| TrackerServer.AskerNotOffered | tracker_server.py:60-66 | a requester is never offered itself, and only registered peers are offered |
| Peer.AddressKey | peer.py:102 | the key `f"{host}:{port}"` has exactly one more ':' than the host |
| Peer.SplitAddressOf | peer.py:123-124 | a key made of a host, ':' and an integer text splits back into that host and port |
| Peer.SplitAddress | peer.py:123-124 | a key that splits is its host, one ':' and a port text, neither containing ':', and the port is `int()` of that text |
| Peer.AddressRoundTrip | peer.py:123-124 | the key `f"{host}:{port}"` of a host without ':' splits back into host and port |
| Peer.AddressWithColonFails | peer.py:123 | the key of a host containing ':' does not split |
| Peer.ColonKeyPieces | peer.py:123 | such a key has at least three ':'-separated pieces |
| Peer.SplitOnCount | peer.py:123 | splitting gives one more piece than there are separators |
| Peer.Lookup | peer.py:125 | a key not in the view offers no blocks |
| Peer.PutFacts | peer.py:105 | assigning a key keeps the key order, appending a new key, and changes only that key's blocks |
| Peer.PutIsDict | peer.py:105 | assigning keeps keys distinct |
| Peer.ViewOf | peer.py:97-105 | the rebuilt view has distinct keys |
| Peer.ViewStep | peer.py:100-105 | each listed peer adds its key when it answered with some blocks |
| Peer.ViewKeys | peer.py:100-105 | the view's keys are exactly the keys of listed peers that answered with some blocks |
| Peer.ViewLastOffer | peer.py:100-105 | a key's blocks are those of its last listed peer that answered |
| Peer.LookupStep | peer.py:104-105 | one more listed peer answering with blocks decides its key's entry; other keys are looked up as before |
| Peer.LaterInInit | peer.py:100-105 | dropping the last listed peer keeps an earlier peer the last to answer for its key |
| Peer.ViewKeysNonEmpty | peer.py:102 | no key is empty |
| Peer.ViewKeysSplit | peer.py:102-124 | when no listed host contains ':', every key splits |
| Peer.ViewPrefixStep | peer.py:100-105 | one more listed peer assigns its answer, or leaves the view as it was |
| Peer.BuildViewStep | peer.py:100-105 | one turn of the refill loop extends the view over one more listed peer |
| Peer.BuildView | peer.py:97-105 | the loop builds the view the tracker's list and the peers' answers determine |
| Peer.SelectRarestBlocks | peer.py:58-65 | peer.py's own version returns the rarest-first order of strategy.py |
| Peer.FirstOutcomeAppend | peer.py:120-131 | walking two lists of pairs in turn stops in the first when something happens there |
| Peer.Attempt | peer.py:123-128 | an attempt raises exactly when the key does not split, and fetches exactly when the key splits, the view says the peer has the block and the peer answers with data |
| Peer.TryPeersRow | peer.py:122-128 | the inner loop for a block is the walk over that block's pairs |
| Peer.FetchWalkFlat | peer.py:120-131 | the nested loops are the walk over all (block, peer) pairs in order |
| Peer.FirstOutcomeNothing | peer.py:120-131 | nothing is fetched exactly when every attempt comes to nothing |
| Peer.FirstOutcomeDecider | peer.py:120-131 | otherwise one attempt decides the outcome, and all before it came to nothing |
| Peer.TryPeers | peer.py:122-128 | a block fetched in the inner loop came from one of the unchoked peers, which the view says has it and which answered with data |
| Peer.FetchWalk | peer.py:120-131 | a block fetched in a cycle is one of the rarest-first blocks, from an unchoked peer that is a key of the view, offers the block and answered with data |
| Peer.WalkCrashNeedsBadKey | peer.py:123-124 | the thread raises only when an unchoked key does not split |
| Peer.AskPeer | peer.py:123-128 | splits the key, asks only a peer that has the block, and saves at most that block |
| Peer.TryUnchoked | peer.py:122-128 | the inner loop computes the specified walk for a block and saves at most one block |
| Peer.FetchFirst | peer.py:120-131 | the nested loops compute the walk over the rarest blocks and unchoked peers, and save at most one block |
| Peer.Completion | peer.py:79-93 | the peer becomes a seeder exactly when the rebuild misses nothing |
| Peer.Downloader.constructor | peer.py:70-71 | the loop starts at cycle 0 |
| Peer.Refreshed | peer.py:108-114 | after a refresh the regular peers are `min(4, len(view))` keys of the view, and an optimistic peer is a key of the view outside them |
| Peer.FilesAfter | peer.py:126-128 | a walk never removes a block; a walk that fetched adds exactly the fetched block |
| Peer.SaveIndices | peer.py:126 | saving block `b` adds exactly `b` to the listed blocks |
| Peer.Downloader.RefreshIfDue | peer.py:108-114 | on every fifth cycle the choke state is recomputed from the view; otherwise it is kept |
| Peer.Downloader.WalkRarest | peer.py:117-131 | walks the rarest-first blocks over the unchoked peers; the directory and the cache gain the one block it fetched and nothing else |
| Peer.Downloader.Complete | peer.py:79-93 | rebuilds from the directory, leaving it unchanged; the cache gains exactly the blocks 0 .. total-1 that have files |
| Peer.Downloader.Tick | peer.py:134 | the counter advances by one after a walk, and not after a walk that raised |
| Peer.Downloader.Step | peer.py:107-134 | the refresh, the walk and the counter of a downloading cycle over a given view, with the directory and cache after the walk |
| Peer.Downloader.Cycle | peer.py:73-134 | one pass of `download_loop`: the count-based completion gate; otherwise the view rebuilt from the tracker's list, the refresh on every fifth cycle, the walk, at most one block saved, and the counter; the cache gains only the blocks read, on either branch |

## Left out

- Sockets, timeouts, threads and locks are not modelled. One call of
  `handle_client`, `handle_peer` or `request_block` is one atomic step, and
  concurrent access to the registry or the store is not modelled.
- The 4096-byte and 1024-byte limits of `recv` are not modelled. A message is
  assumed to arrive whole.
- Python's non-ASCII whitespace and Unicode digits are not modelled. `strip`,
  `split` and `isdigit` treat only ASCII whitespace (with the separators
  0x1C-0x1F on a `str`) and ASCII digits as such; `int()` skips only tab to
  carriage return and space.
- Python's set iteration order is modelled as ascending. It affects only how
  rarest-first and tit-for-tat break ties.
- `random.choice` and `random.sample` are nondeterministic choices, and the
  proofs hold for every choice. Their distribution is not modelled.
- Logging, `print`, `time.sleep` and the seeder's idle loop are left out. After
  a successful rebuild the model returns a `Seeding` outcome instead of
  looping forever.
- Writing the rebuilt file to `output_path` is not modelled; `RebuildFile`
  returns the bytes it would write.
- An exception that ends the download thread is the `Crashed` walk. Later
  cycles of the same thread are not modelled.
- JSON encoding is left out. The tracker replies with a list of peer records,
  and the download loop receives the peers' hosts and ports.
- tracker_client.py: only its two request formats are modelled
  (`TrackerServer.RegisterMessage`, `TrackerServer.GetPeersMessage`); its
  socket handling and JSON decoding are not.
- launcher.py is not part of this model.
- `split_and_distribute` is modelled only for its chunking loop. Copying
  blocks into peer directories at random is not modelled.
- `TOTAL_BLOCKS` is a parameter of `Cycle`. Counting it from a directory at
  start-up is not modelled.
- The network is a function, so a peer answers the same request the same way
  within one cycle.
- Peer.Downloader.Cycle: the peers asked and the order in which they were
  asked are not recorded. Only the resulting view, choke state, walk, counter,
  directory and cache are stated.
