/** The downloading side of a peer (peer.py): its own rarest-first ordering and
    one pass of the download loop, from the completion check through the view
    rebuild and the choke refresh to the fetch walk. The tracker's answer and
    the network are inputs; the block store, the client and the strategy are
    the objects the loop works on. */
module Peer {
  import opened Text
  import opened Collections
  import opened Protocol
  import opened FileManager
  import Strategy
  import opened PeerClient

  /** `peer_block_map`: each peer's address and the blocks it offers. */
  type View = Strategy.View

  /** The choke state is recomputed on every fifth cycle, the first included. */
  const REFRESH_EVERY: nat := 5

  // ---------------------------------------------------------------------------
  // Peer addresses
  // ---------------------------------------------------------------------------

  /** `f"{host}:{port}"`, a peer's key in the view. It has one colon more than
      the host, since `str(port)` has none: exactly one when the host has none,
      which is what the unpacking in `split(":")` needs. */
  function AddressKey(host: Bytes, port: int): (key: Bytes)
    ensures multiset(key)[COLON] == multiset(host)[COLON] + 1
  {
    NotInShow(port, COLON);
    host + [COLON] + Show(port)
  }

  /** The host and port of a peer the tracker listed (the `"host"` and
      `"port"` entries of one record of its GET_PEERS reply). */
  type Address = (Bytes, int)

  function KeyOf(peer: Address): Bytes
  {
    AddressKey(peer.0, peer.1)
  }

  /** `host, port = peer_addr.split(":")` followed by `int(port)`: the host and
      port in a key, or `None` where the unpacking or `int()` raises. */
  function SplitAddress(key: Bytes): (r: Option<(Bytes, int)>)
    ensures r.Some? ==> var host := r.value.0;
      && |key| > |host| && key == host + [COLON] + key[|host| + 1..]
      && COLON !in host && COLON !in key[|host| + 1..]
      && ParseInt(key[|host| + 1..]) == Some(r.value.1)
  {
    SplitAddressShape(key);
    var parts := SplitOn(key, COLON);
    if |parts| != 2 then None
    else match ParseInt(parts[1])
      case None => None
      case Some(port) => Some((parts[0], port))
  }

  lemma SplitOnNone(s: Bytes, sep: byte)
    requires sep !in s
    ensures SplitOn(s, sep) == [s]
  {
  }

  /** A host without a colon, a colon, and a text without a colon that reads
      as a port split into that host and port. */
  lemma SplitAddressOf(host: Bytes, rest: Bytes, port: int)
    requires COLON !in host && COLON !in rest && ParseInt(rest) == Some(port)
    ensures SplitAddress(host + [COLON] + rest) == Some((host, port))
  {
    SplitOnFirst(host, COLON, rest);
    SplitOnNone(rest, COLON);
  }

  /** A key that splits in two at its colon is its host, the colon and the
      rest, neither with a colon. */
  lemma SplitAddressShape(key: Bytes)
    ensures var parts := SplitOn(key, COLON);
      |parts| == 2 ==>
        && |key| > |parts[0]| && key == parts[0] + [COLON] + key[|parts[0]| + 1..]
        && COLON !in parts[0] && COLON !in key[|parts[0]| + 1..]
        && key[|parts[0]| + 1..] == parts[1]
  {
    var parts := SplitOn(key, COLON);
    if |parts| == 2 {
      SplitOnTwo(key, COLON);
      assert key[|parts[0]| + 1..] == parts[1];
    }
  }

  /** A text that splits into two pieces is the first, the separator and the
      second. */
  lemma SplitOnTwo(s: Bytes, sep: byte)
    requires |SplitOn(s, sep)| == 2
    ensures s == SplitOn(s, sep)[0] + [sep] + SplitOn(s, sep)[1]
  {
    match IndexOf(s, sep)
    case Some(k) =>
      var rest := s[k + 1..];
      SplitOnSeparated(rest, sep);
      SplitOnNone(rest, sep);
      assert s == s[..k] + [sep] + rest;
  }

  /** A text splits into two pieces or more exactly when it holds the separator. */
  lemma SplitOnSeparated(s: Bytes, sep: byte)
    ensures sep in s <==> |SplitOn(s, sep)| >= 2
  {
    match IndexOf(s, sep)
    case None =>
    case Some(k) =>
      assert |SplitOn(s[k + 1..], sep)| >= 1;
  }

  /** The key of a host without a colon splits back into that host and port. */
  lemma AddressRoundTrip(host: Bytes, port: int)
    requires COLON !in host
    ensures SplitAddress(AddressKey(host, port)) == Some((host, port))
  {
    NotInShow(port, COLON);
    ParseShow(port);
    SplitAddressOf(host, Show(port), port);
  }

  /** The key of a host with a colon in it (an IPv6 address, say) does not
      split: the unpacking raises. */
  lemma AddressWithColonFails(host: Bytes, port: int)
    requires COLON in host
    ensures SplitAddress(AddressKey(host, port)).None?
  {
    ColonKeyPieces(host, port);
  }

  /** Such a key has three pieces or more between its colons. */
  lemma ColonKeyPieces(host: Bytes, port: int)
    requires COLON in host
    ensures |SplitOn(AddressKey(host, port), COLON)| >= 3
  {
    SplitOnCount(AddressKey(host, port), COLON);
  }

  /** A split has one piece more than the text has separators. */
  lemma {:induction false} SplitOnCount(s: Bytes, sep: byte)
    ensures |SplitOn(s, sep)| == 1 + multiset(s)[sep]
    decreases |s|
  {
    match IndexOf(s, sep)
    case None =>
    case Some(k) =>
      var rest := s[k + 1..];
      SplitOnCount(rest, sep);
      assert s == s[..k] + [sep] + rest;
      assert multiset(s)[sep] == multiset(s[..k])[sep] + 1 + multiset(rest)[sep];
  }

  // ---------------------------------------------------------------------------
  // The view: peer_block_map
  // ---------------------------------------------------------------------------

  /** `peer_block_map.get(key, set())`. */
  function Lookup(view: View, key: Bytes): (r: set<int>)
    ensures key !in Firsts(view) ==> r == {}
  {
    if view == [] then {}
    else if view[0].0 == key then view[0].1
    else
      assert Firsts(view) == [view[0].0] + Firsts(view[1..]);
      Lookup(view[1..], key)
  }

  /** `peer_block_map[key] = blocks`: an existing key keeps its place and takes
      the new value; a new key is appended. */
  function Put(view: View, key: Bytes, blocks: set<int>): View
  {
    if view == [] then [(key, blocks)]
    else if view[0].0 == key then [(key, blocks)] + view[1..]
    else [view[0]] + Put(view[1..], key, blocks)
  }

  /** Storing under a key adds the key after the others if it is new, and
      changes the value under that key only. */
  lemma {:induction false} PutFacts(view: View, key: Bytes, blocks: set<int>)
    ensures Firsts(Put(view, key, blocks)) ==
      if key in Firsts(view) then Firsts(view) else Firsts(view) + [key]
    ensures forall k :: Lookup(Put(view, key, blocks), k) == if k == key then blocks else Lookup(view, k)
  {
    if view != [] {
      var r := Put(view, key, blocks);
      assert Firsts(view) == [view[0].0] + Firsts(view[1..]);
      assert Firsts(r) == [r[0].0] + Firsts(r[1..]);
      if view[0].0 != key {
        PutFacts(view[1..], key, blocks);
        assert r[1..] == Put(view[1..], key, blocks);
      } else {
        assert r[1..] == view[1..];
      }
    }
  }

  lemma PutIsDict(view: View, key: Bytes, blocks: set<int>)
    requires Strategy.IsDict(view)
    ensures Strategy.IsDict(Put(view, key, blocks))
  {
    PutFacts(view, key, blocks);
    if key !in Firsts(view) {
      DistinctSnoc(Firsts(view), key);
    }
  }

  /** What asking each listed peer for its blocks gives. */
  type Offers = Address -> Option<set<int>>

  /** `client.get_peer_blocks(host, port)`, for every listed peer. */
  function AskList(net: Network): Offers
  {
    (peer: Address) => PeerBlocks(net(peer.0, peer.1, BuildList()))
  }

  /** `if blocks:`, the peer offered some blocks. */
  predicate Listed(offers: Offers, peer: Address)
  {
    offers(peer).Some? && offers(peer).value != {}
  }

  /** `peer_block_map` after it is cleared and refilled from the tracker's list. */
  function ViewOf(known: seq<Address>, offers: Offers): (r: View)
    ensures Strategy.IsDict(r)
  {
    if known == [] then []
    else
      var view := ViewOf(known[..|known| - 1], offers);
      var peer := known[|known| - 1];
      if Listed(offers, peer) then
        PutIsDict(view, KeyOf(peer), offers(peer).value);
        Put(view, KeyOf(peer), offers(peer).value)
      else view
  }

  /** One more listed peer adds its key to the view when it offers blocks, and
      nothing else. */
  lemma ViewStep(known: seq<Address>, offers: Offers)
    requires known != []
    ensures var peer := known[|known| - 1];
      forall k :: k in Firsts(ViewOf(known, offers)) <==>
        k in Firsts(ViewOf(known[..|known| - 1], offers)) || (Listed(offers, peer) && k == KeyOf(peer))
  {
    var peer := known[|known| - 1];
    if Listed(offers, peer) {
      PutFacts(ViewOf(known[..|known| - 1], offers), KeyOf(peer), offers(peer).value);
    }
  }

  /** The view's keys are exactly those of the listed peers that offered some
      blocks. */
  lemma {:induction false} ViewKeys(known: seq<Address>, offers: Offers)
    ensures forall k :: k in Firsts(ViewOf(known, offers)) <==>
      exists i :: 0 <= i < |known| && KeyOf(known[i]) == k && Listed(offers, known[i])
  {
    if known != [] {
      var init := known[..|known| - 1];
      var last := |known| - 1;
      ViewKeys(init, offers);
      ViewStep(known, offers);
      forall k | k in Firsts(ViewOf(known, offers))
        ensures exists i :: 0 <= i < |known| && KeyOf(known[i]) == k && Listed(offers, known[i])
      {
        if k in Firsts(ViewOf(init, offers)) {
          var i :| 0 <= i < |init| && KeyOf(init[i]) == k && Listed(offers, init[i]);
          assert known[i] == init[i];
        } else {
          assert KeyOf(known[last]) == k && Listed(offers, known[last]);
        }
      }
      forall k | exists i :: 0 <= i < |known| && KeyOf(known[i]) == k && Listed(offers, known[i])
        ensures k in Firsts(ViewOf(known, offers))
      {
        var i :| 0 <= i < |known| && KeyOf(known[i]) == k && Listed(offers, known[i]);
        if i < last {
          assert init[i] == known[i];
        } else {
          assert i == last;
        }
      }
    }
  }

  /** Of several listed peers with one key, the last one to offer blocks
      decides that key's entry. */
  lemma {:induction false} ViewLastOffer(known: seq<Address>, offers: Offers, i: int)
    requires 0 <= i < |known| && Listed(offers, known[i])
    requires forall j :: i < j < |known| && KeyOf(known[j]) == KeyOf(known[i]) ==> !Listed(offers, known[j])
    ensures Lookup(ViewOf(known, offers), KeyOf(known[i])) == offers(known[i]).value
  {
    var init := known[..|known| - 1];
    var last := |known| - 1;
    var key := KeyOf(known[i]);
    LookupStep(known, offers, key);
    if i < last {
      LaterInInit(known, offers, i);
      ViewLastOffer(init, offers, i);
    }
  }

  /** Dropping the last peer keeps the `i`-th one the last to offer for its key. */
  lemma LaterInInit(known: seq<Address>, offers: Offers, i: int)
    requires 0 <= i < |known| - 1 && Listed(offers, known[i])
    requires forall j :: i < j < |known| && KeyOf(known[j]) == KeyOf(known[i]) ==> !Listed(offers, known[j])
    ensures var init := known[..|known| - 1];
      && Listed(offers, init[i]) && KeyOf(init[i]) == KeyOf(known[i])
      && forall j :: i < j < |init| && KeyOf(init[j]) == KeyOf(init[i]) ==> !Listed(offers, init[j])
  {
    var init := known[..|known| - 1];
    forall j | i < j < |init| && KeyOf(init[j]) == KeyOf(init[i])
      ensures !Listed(offers, init[j])
    {
      assert init[j] == known[j] && init[i] == known[i];
    }
  }

  /** Looking a key up in the view over one more listed peer. */
  lemma LookupStep(known: seq<Address>, offers: Offers, key: Bytes)
    requires known != []
    ensures var peer := known[|known| - 1];
      Lookup(ViewOf(known, offers), key) ==
        if Listed(offers, peer) && KeyOf(peer) == key then offers(peer).value
        else Lookup(ViewOf(known[..|known| - 1], offers), key)
  {
    var peer := known[|known| - 1];
    if Listed(offers, peer) {
      PutFacts(ViewOf(known[..|known| - 1], offers), KeyOf(peer), offers(peer).value);
    }
  }

  /** The view's keys are addresses, never the empty text, so the strategy's
      "no optimistic peer" value cannot be confused with one of them. */
  lemma ViewKeysNonEmpty(known: seq<Address>, offers: Offers)
    ensures [] !in Firsts(ViewOf(known, offers))
  {
    ViewKeys(known, offers);
    forall k | k in Firsts(ViewOf(known, offers)) ensures k != [] {
      var i :| 0 <= i < |known| && KeyOf(known[i]) == k && Listed(offers, known[i]);
      assert KeyOf(known[i])[|known[i].0|] == COLON;
    }
  }

  /** When no listed host has a colon in it, every key of the view splits back
      into the host and port it was made from. */
  lemma ViewKeysSplit(known: seq<Address>, offers: Offers)
    requires forall i :: 0 <= i < |known| ==> COLON !in known[i].0
    ensures forall k :: k in Firsts(ViewOf(known, offers)) ==> SplitAddress(k).Some?
  {
    ViewKeys(known, offers);
    forall k | k in Firsts(ViewOf(known, offers)) ensures SplitAddress(k).Some? {
      var i :| 0 <= i < |known| && KeyOf(known[i]) == k && Listed(offers, known[i]);
      AddressRoundTrip(known[i].0, known[i].1);
    }
  }

  /** The view over one more listed peer. */
  lemma ViewPrefixStep(known: seq<Address>, offers: Offers, k: int)
    requires 0 <= k < |known|
    ensures ViewOf(known[..k + 1], offers) ==
      if Listed(offers, known[k]) then Put(ViewOf(known[..k], offers), KeyOf(known[k]), offers(known[k]).value)
      else ViewOf(known[..k], offers)
  {
    assert known[..k + 1][..k] == known[..k] && known[..k + 1][k] == known[k];
  }

  /** One turn of the refill loop extends the view over one more listed peer. */
  lemma BuildViewStep(known: seq<Address>, net: Network, k: int, view: View, blocks: Option<set<int>>)
    requires 0 <= k < |known| && view == ViewOf(known[..k], AskList(net))
    requires blocks == PeerBlocks(net(known[k].0, known[k].1, BuildList()))
    ensures ViewOf(known[..k + 1], AskList(net)) ==
      if blocks.Some? && blocks.value != {} then Put(view, AddressKey(known[k].0, known[k].1), blocks.value)
      else view
  {
    assert blocks == AskList(net)(known[k]);
    ViewPrefixStep(known, AskList(net), k);
  }

  /** The refill loop of `download_loop`: after `peer_block_map.clear()`, each
      listed peer is asked for its blocks and, if it offers some, stored under
      its address. */
  method BuildView(known: seq<Address>, net: Network) returns (view: View)
    ensures view == ViewOf(known, AskList(net))
  {
    view := [];
    var k := 0;
    while k < |known|
      invariant 0 <= k <= |known|
      invariant view == ViewOf(known[..k], AskList(net))
    {
      var peer := known[k];
      var blocks := PeerBlocks(net(peer.0, peer.1, BuildList()));
      BuildViewStep(known, net, k, view, blocks);
      if blocks.Some? && blocks.value != {} {
        view := Put(view, AddressKey(peer.0, peer.1), blocks.value);
      }
      k := k + 1;
    }
    assert known[..k] == known;
  }

  // ---------------------------------------------------------------------------
  // Rarest first
  // ---------------------------------------------------------------------------

  /** peer.py's `select_rarest_blocks`: the same counting loops as the
      strategy's, then the dictionary's items sorted by count and their blocks
      taken in that order. It returns the very list the strategy's version does. */
  method SelectRarestBlocks(view: View, mine: set<int>) returns (rarest: seq<int>)
    ensures rarest == Strategy.RarestFirst(view, mine)
  {
    var frequency := Strategy.CountFrequencies(view, mine);
    var sorted := SortBy(frequency, Strategy.PairCount);
    rarest := Firsts(sorted);
    Strategy.RarestFirstVersionsAgree(view, mine);
  }

  // ---------------------------------------------------------------------------
  // The fetch walk
  // ---------------------------------------------------------------------------

  /** How the walk over (block, unchoked peer) pairs ends: with a block saved
      from a peer, with nothing saved, or with the thread raising on a key that
      does not split. */
  datatype Walk = Fetched(block: int, peer: Bytes) | NothingFetched | Crashed

  /** The data `request_block` saves when it asks the peer at `key` for block
      `b`, if any. */
  function Downloaded(net: Network, b: int, key: Bytes): Option<Bytes>
  {
    match SplitAddress(key)
    case None => None
    case Some(address) => Accepted(b, net(address.0, address.1, BuildGet(b)))
  }

  /** One pass of the inner loop body for block `b` and unchoked peer `key`:
      the key is split first, then the peer is asked only if the view says it
      has the block. */
  function Attempt(view: View, net: Network, b: int, key: Bytes): (w: Walk)
    ensures w.Crashed? <==> SplitAddress(key).None?
    ensures w.Fetched? <==> SplitAddress(key).Some? && b in Lookup(view, key) && Downloaded(net, b, key).Some?
    ensures w.Fetched? ==> w.block == b && w.peer == key
  {
    if SplitAddress(key).None? then Crashed
    else if b in Lookup(view, key) && Downloaded(net, b, key).Some? then Fetched(b, key)
    else NothingFetched
  }

  /** The inner loop: the unchoked peers in order until one attempt ends it. */
  function TryPeers(view: View, net: Network, b: int, peers: seq<Bytes>): (w: Walk)
    ensures w.Fetched? ==>
      && w.block == b && w.peer in peers
      && b in Lookup(view, w.peer) && Downloaded(net, b, w.peer).Some?
  {
    if peers == [] then NothingFetched
    else
      var w := Attempt(view, net, b, peers[0]);
      if w.NothingFetched? then TryPeers(view, net, b, peers[1..]) else w
  }

  /** The outer loop: the rarest-first blocks in order until an inner loop ends
      the walk. */
  function FetchWalk(view: View, net: Network, blocks: seq<int>, peers: seq<Bytes>): (w: Walk)
    ensures w.Fetched? ==>
      && w.block in blocks && w.peer in peers && w.peer in Firsts(view)
      && w.block in Lookup(view, w.peer) && Downloaded(net, w.block, w.peer).Some?
  {
    if blocks == [] then NothingFetched
    else
      var w := TryPeers(view, net, blocks[0], peers);
      if w.NothingFetched? then FetchWalk(view, net, blocks[1..], peers) else w
  }

  /** The pairs the nested loops visit, block by block and, within a block,
      peer by peer. */
  function Pairs(blocks: seq<int>, peers: seq<Bytes>): seq<(int, Bytes)>
  {
    if blocks == [] then []
    else Row(blocks[0], peers) + Pairs(blocks[1..], peers)
  }

  function Row(b: int, peers: seq<Bytes>): (r: seq<(int, Bytes)>)
    ensures |r| == |peers| && forall j :: 0 <= j < |peers| ==> r[j] == (b, peers[j])
  {
    seq(|peers|, j requires 0 <= j < |peers| => (b, peers[j]))
  }

  /** Every (block, key) attempt of the walk over `view` and `net`. */
  function Attempts(view: View, net: Network): ((int, Bytes)) -> Walk
  {
    (pair: (int, Bytes)) => Attempt(view, net, pair.0, pair.1)
  }

  /** A flat reference for the walk: the outcome of the first attempt in a list
      of pairs that does not come to nothing. */
  function FirstOutcome(attempt: ((int, Bytes)) -> Walk, pairs: seq<(int, Bytes)>): Walk
  {
    if pairs == [] then NothingFetched
    else
      var w := attempt(pairs[0]);
      if w.NothingFetched? then FirstOutcome(attempt, pairs[1..]) else w
  }

  lemma {:induction false} FirstOutcomeAppend(attempt: ((int, Bytes)) -> Walk, a: seq<(int, Bytes)>, c: seq<(int, Bytes)>)
    ensures FirstOutcome(attempt, a + c) ==
      if FirstOutcome(attempt, a).NothingFetched? then FirstOutcome(attempt, c) else FirstOutcome(attempt, a)
  {
    if a != [] {
      assert (a + c)[0] == a[0];
      assert (a + c)[1..] == a[1..] + c;
      FirstOutcomeAppend(attempt, a[1..], c);
    } else {
      assert a + c == c;
    }
  }

  lemma {:induction false} TryPeersRow(view: View, net: Network, b: int, peers: seq<Bytes>)
    ensures TryPeers(view, net, b, peers) == FirstOutcome(Attempts(view, net), Row(b, peers))
  {
    if peers != [] {
      assert Row(b, peers)[1..] == Row(b, peers[1..]);
      TryPeersRow(view, net, b, peers[1..]);
    }
  }

  /** The nested loops with their breaks end exactly as a single scan over the
      pairs, blocks outside and peers inside, would. */
  lemma {:induction false} FetchWalkFlat(view: View, net: Network, blocks: seq<int>, peers: seq<Bytes>)
    ensures FetchWalk(view, net, blocks, peers) == FirstOutcome(Attempts(view, net), Pairs(blocks, peers))
  {
    if blocks != [] {
      TryPeersRow(view, net, blocks[0], peers);
      FirstOutcomeAppend(Attempts(view, net), Row(blocks[0], peers), Pairs(blocks[1..], peers));
      FetchWalkFlat(view, net, blocks[1..], peers);
    }
  }

  /** The scan comes to nothing exactly when every attempt does. */
  lemma {:induction false} FirstOutcomeNothing(attempt: ((int, Bytes)) -> Walk, pairs: seq<(int, Bytes)>)
    ensures FirstOutcome(attempt, pairs).NothingFetched? <==>
      forall k :: 0 <= k < |pairs| ==> attempt(pairs[k]).NothingFetched?
  {
    if pairs != [] {
      var rest := pairs[1..];
      FirstOutcomeNothing(attempt, rest);
      assert forall k :: 0 <= k < |rest| ==> rest[k] == pairs[k + 1];
    }
  }

  /** A scan that does not come to nothing ends with the first attempt that
      does not, every earlier one having come to nothing. */
  lemma {:induction false} FirstOutcomeDecider(attempt: ((int, Bytes)) -> Walk, pairs: seq<(int, Bytes)>) returns (k: int)
    requires !FirstOutcome(attempt, pairs).NothingFetched?
    ensures 0 <= k < |pairs| && FirstOutcome(attempt, pairs) == attempt(pairs[k])
    ensures forall m :: 0 <= m < k ==> attempt(pairs[m]).NothingFetched?
  {
    if attempt(pairs[0]).NothingFetched? {
      var rest := pairs[1..];
      var j := FirstOutcomeDecider(attempt, rest);
      k := j + 1;
      assert forall m :: 0 <= m < j ==> rest[m] == pairs[m + 1];
      assert rest[j] == pairs[k];
    } else {
      k := 0;
    }
  }

  /** The walk raises only when some unchoked key does not split. */
  lemma {:induction false} WalkCrashNeedsBadKey(view: View, net: Network, blocks: seq<int>, peers: seq<Bytes>)
    ensures FetchWalk(view, net, blocks, peers).Crashed? ==> exists p :: p in peers && SplitAddress(p).None?
  {
    FetchWalkFlat(view, net, blocks, peers);
    var pairs := Pairs(blocks, peers);
    if FetchWalk(view, net, blocks, peers).Crashed? {
      var k := FirstOutcomeDecider(Attempts(view, net), pairs);
      PairsMembers(blocks, peers, k);
    }
  }

  lemma {:induction false} PairsMembers(blocks: seq<int>, peers: seq<Bytes>, k: int)
    requires 0 <= k < |Pairs(blocks, peers)|
    ensures Pairs(blocks, peers)[k].0 in blocks && Pairs(blocks, peers)[k].1 in peers
  {
    var row := Row(blocks[0], peers);
    if k >= |row| {
      assert Pairs(blocks, peers)[k] == Pairs(blocks[1..], peers)[k - |row|];
      PairsMembers(blocks[1..], peers, k - |row|);
    }
  }

  /** The store after a walk: the one block it fetched saved on disk and in
      the cache, or nothing changed. */
  predicate StoreAfter(w: Walk, net: Network, files0: Directory, cache0: map<int, Bytes>,
                       files: Directory, cache: map<int, Bytes>)
  {
    if w.Fetched? then
      && Downloaded(net, w.block, w.peer).Some?
      && files == files0[BlockName(w.block) := Downloaded(net, w.block, w.peer).value]
      && cache == cache0[w.block := Downloaded(net, w.block, w.peer).value]
    else files == files0 && cache == cache0
  }

  /** One pass of the inner loop body: the key is split (a key that does not
      split raises), and the peer is asked for block `b` only when the view
      lists `b` for it. */
  method AskPeer(client: PeerClient, view: View, net: Network, b: int, key: Bytes) returns (w: Walk)
    requires client.store.Valid()
    modifies client.store
    ensures client.store.Valid()
    ensures w == Attempt(view, net, b, key)
    ensures StoreAfter(w, net, old(client.store.files), old(client.store.cache), client.store.files, client.store.cache)
  {
    var address := SplitAddress(key);
    if address.None? {
      w := Crashed;
    } else if b in Lookup(view, key) {
      var ok := client.RequestBlock(net, address.value.0, address.value.1, b);
      w := if ok then Fetched(b, key) else NothingFetched;
    } else {
      w := NothingFetched;
    }
  }

  /** The inner loop for block `b`: the unchoked keys in order until one
      attempt saves a block or raises. */
  method TryUnchoked(client: PeerClient, view: View, net: Network, b: int, peers: seq<Bytes>)
    returns (w: Walk)
    requires client.store.Valid()
    modifies client.store
    ensures client.store.Valid()
    ensures w == TryPeers(view, net, b, peers)
    ensures StoreAfter(w, net, old(client.store.files), old(client.store.cache), client.store.files, client.store.cache)
  {
    var store := client.store;
    w := NothingFetched;
    var j := 0;
    while j < |peers| && w.NothingFetched?
      invariant 0 <= j <= |peers|
      invariant store.Valid()
      invariant w.NothingFetched? ==> TryPeers(view, net, b, peers) == TryPeers(view, net, b, peers[j..])
      invariant !w.NothingFetched? ==> w == TryPeers(view, net, b, peers)
      invariant StoreAfter(w, net, old(store.files), old(store.cache), store.files, store.cache)
    {
      assert peers[j..][0] == peers[j] && peers[j..][1..] == peers[j + 1..];
      w := AskPeer(client, view, net, b, peers[j]);
      j := j + 1;
    }
  }

  /** The nested loops of `download_loop` over the rarest-first blocks and the
      unchoked peers; a successful `request_block` or a key that does not split
      ends both. At most one block is saved. */
  method FetchFirst(client: PeerClient, view: View, net: Network, blocks: seq<int>, peers: seq<Bytes>)
    returns (w: Walk)
    requires client.store.Valid()
    modifies client.store
    ensures client.store.Valid()
    ensures w == FetchWalk(view, net, blocks, peers)
    ensures StoreAfter(w, net, old(client.store.files), old(client.store.cache), client.store.files, client.store.cache)
  {
    var store := client.store;
    w := NothingFetched;
    var i := 0;
    while i < |blocks| && w.NothingFetched?
      invariant 0 <= i <= |blocks|
      invariant store.Valid()
      invariant w.NothingFetched? ==> FetchWalk(view, net, blocks, peers) == FetchWalk(view, net, blocks[i..], peers)
      invariant !w.NothingFetched? ==> w == FetchWalk(view, net, blocks, peers)
      invariant StoreAfter(w, net, old(store.files), old(store.cache), store.files, store.cache)
    {
      var b := blocks[i];
      assert blocks[i..][0] == b && blocks[i..][1..] == blocks[i + 1..];
      w := TryUnchoked(client, view, net, b, peers);
      i := i + 1;
    }
  }

  // ---------------------------------------------------------------------------
  // One cycle of download_loop
  // ---------------------------------------------------------------------------

  /** How a cycle ends: the file was rebuilt and the peer now only seeds; the
      rebuild reported missing blocks and the cycle starts over; or the view,
      the rarest-first list, the unchoked peers and the walk over them. */
  datatype Outcome =
    | Seeding(output: Bytes)
    | RebuildFailed(missing: seq<int>)
    | Walked(view: View, rarest: seq<int>, unchoked: seq<Bytes>, walk: Walk)

  /** The completion check's outcome: the assembled file, or the blocks the
      rebuild found missing. */
  function Completion(files: Directory, total: int): (r: Outcome)
    ensures r.Seeding? <==> Missing(files, total) == []
  {
    if Missing(files, total) == [] then Seeding(Assembled(files, total)) else RebuildFailed(Missing(files, total))
  }

  /** The choke state `update_unchoked_peers` leaves after a refresh from `view`:
      the regular slots hold the top peers, and the optimistic slot holds one of
      the other keys, or nothing when there is none. */
  predicate Refreshed(view: View, mine: set<int>, regular: seq<Bytes>, optimistic: Bytes)
    ensures Refreshed(view, mine, regular, optimistic) ==>
      && |regular| == (if |view| < 4 then |view| else 4)
      && (forall p :: p in regular ==> p in Firsts(view))
    ensures Refreshed(view, mine, regular, optimistic) && optimistic != [] ==>
      optimistic in Firsts(view) && optimistic !in regular
  {
    var others := Without(Firsts(view), regular);
    && regular == Strategy.TopPeers(view, mine)
    && (others == [] ==> optimistic == [])
    && (others != [] ==> optimistic in others)
  }

  /** The block directory after a walk: one more block file when the walk
      fetched one, the same directory otherwise. */
  predicate FilesAfter(w: Walk, net: Network, files0: Directory, files: Directory)
    ensures FilesAfter(w, net, files0, files) ==> BlockIndices(files0) <= BlockIndices(files)
    ensures FilesAfter(w, net, files0, files) && w.Fetched? ==>
      BlockIndices(files) == BlockIndices(files0) + {w.block}
  {
    FilesAfterIndices(w, net, files0, files);
    if w.Fetched? then
      && Downloaded(net, w.block, w.peer).Some?
      && files == files0[BlockName(w.block) := Downloaded(net, w.block, w.peer).value]
    else files == files0
  }

  lemma FilesAfterIndices(w: Walk, net: Network, files0: Directory, files: Directory)
    ensures (w.Fetched? && Downloaded(net, w.block, w.peer).Some?
      && files == files0[BlockName(w.block) := Downloaded(net, w.block, w.peer).value]) ==>
      BlockIndices(files) == BlockIndices(files0) + {w.block}
  {
    if w.Fetched? && Downloaded(net, w.block, w.peer).Some? {
      SaveIndices(files0, w.block, Downloaded(net, w.block, w.peer).value);
    }
  }

  /** Saving block `b` adds `b` to the blocks the directory lists. */
  lemma SaveIndices(files0: Directory, b: int, data: Bytes)
    ensures BlockIndices(files0[BlockName(b) := data]) == BlockIndices(files0) + {b}
  {
    var files := files0[BlockName(b) := data];
    assert files.Keys == files0.Keys + {BlockName(b)};
    IndicesOfAdd(files0.Keys, BlockName(b));
    NameIndexBlockName(b);
  }

  /** The state `download_loop` keeps from one cycle to the next. */
  class Downloader {
    const store: FileManager
    const client: PeerClient
    const strategy: Strategy.Strategy
    /** `counter`: the number of completed cycles. */
    var counter: nat

    ghost predicate Valid()
      reads this, store, strategy
    {
      client.store == store && store.Valid() && strategy.Valid()
    }

    constructor(store: FileManager, client: PeerClient, strategy: Strategy.Strategy)
      requires client.store == store && store.Valid() && strategy.Valid()
      ensures this.store == store && this.client == client && this.strategy == strategy
      ensures counter == 0 && Valid()
    {
      this.store := store;
      this.client := client;
      this.strategy := strategy;
      counter := 0;
    }

    /** The choke-state refresh due on every fifth cycle. */
    method RefreshIfDue(view: View, mine: set<int>)
      requires Valid()
      modifies strategy
      ensures Valid()
      ensures counter % REFRESH_EVERY == 0 ==>
        Refreshed(view, mine, strategy.regularUnchoked, strategy.optimisticPeer)
      ensures counter % REFRESH_EVERY != 0 ==>
        strategy.regularUnchoked == old(strategy.regularUnchoked) && strategy.optimisticPeer == old(strategy.optimisticPeer)
    {
      if counter % REFRESH_EVERY == 0 {
        strategy.UpdateUnchokedPeers(Firsts(view), view, mine);
      }
    }

    /** The rarest-first walk over the unchoked peers, which saves at most one
        block. */
    method WalkRarest(view: View, mine: set<int>, net: Network) returns (rarest: seq<int>, unchoked: seq<Bytes>, walk: Walk)
      requires Valid()
      modifies store
      ensures Valid()
      ensures rarest == Strategy.RarestFirst(view, mine)
      ensures unchoked == strategy.GetUnchokedPeers()
      ensures walk == FetchWalk(view, net, rarest, unchoked)
      ensures FilesAfter(walk, net, old(store.files), store.files)
      ensures StoreAfter(walk, net, old(store.files), old(store.cache), store.files, store.cache)
    {
      unchoked := strategy.GetUnchokedPeers();
      rarest := SelectRarestBlocks(view, mine);
      walk := FetchFirst(client, view, net, rarest, unchoked);
    }

    /** The completion branch: the file is rebuilt from the blocks held. */
    method Complete(total: int) returns (outcome: Outcome)
      requires Valid()
      modifies store
      ensures Valid()
      ensures outcome == Completion(old(store.files), total)
      ensures store.files == old(store.files)
      ensures forall j :: j in store.cache <==> j in old(store.cache) || (0 <= j < total && BlockName(j) in store.files)
    {
      var ok, missing, output := store.RebuildFile(total);
      if ok {
        outcome := Seeding(output);
      } else {
        outcome := RebuildFailed(missing);
      }
    }

    /** `counter += 1` at the end of a cycle the walk did not end by raising. */
    method Tick(walk: Walk)
      requires Valid()
      modifies this
      ensures Valid()
      ensures counter == if walk.Crashed? then old(counter) else old(counter) + 1
    {
      if !walk.Crashed? {
        counter := counter + 1;
      }
    }

    /** The download branch once the view is rebuilt: the choke state is
        refreshed when due and the rarest-first walk run; a walk that did not
        crash completes the cycle. */
    method Step(view: View, net: Network, mine: set<int>) returns (outcome: Outcome)
      requires Valid()
      modifies this, store, strategy
      ensures Valid() && outcome.Walked? && outcome.view == view
      ensures old(counter) % REFRESH_EVERY == 0 ==>
        Refreshed(view, mine, strategy.regularUnchoked, strategy.optimisticPeer)
      ensures old(counter) % REFRESH_EVERY != 0 ==>
        strategy.regularUnchoked == old(strategy.regularUnchoked) && strategy.optimisticPeer == old(strategy.optimisticPeer)
      ensures outcome.rarest == Strategy.RarestFirst(view, mine)
      ensures outcome.unchoked == strategy.GetUnchokedPeers()
      ensures outcome.walk == FetchWalk(view, net, outcome.rarest, outcome.unchoked)
      ensures counter == if outcome.walk.Crashed? then old(counter) else old(counter) + 1
      ensures FilesAfter(outcome.walk, net, old(store.files), store.files)
      ensures StoreAfter(outcome.walk, net, old(store.files), old(store.cache), store.files, store.cache)
    {
      RefreshIfDue(view, mine);
      var rarest, unchoked, walk := WalkRarest(view, mine, net);
      Tick(walk);
      outcome := Walked(view, rarest, unchoked, walk);
    }

    /** One pass of `download_loop`'s body, given `TOTAL_BLOCKS`, the peers the
        tracker lists and the network. */
    method Cycle(total: int, known: seq<Address>, net: Network) returns (outcome: Outcome)
      requires Valid()
      modifies this, store, strategy
      ensures Valid()
      // Completion check: a count of the blocks held, not their coverage of 0 .. total-1.
      ensures |BlockIndices(old(store.files))| >= total ==>
        && outcome == Completion(old(store.files), total)
        && store.files == old(store.files)
        && (forall j :: j in store.cache <==> j in old(store.cache) || (0 <= j < total && BlockName(j) in store.files))
        && counter == old(counter)
        && strategy.regularUnchoked == old(strategy.regularUnchoked)
        && strategy.optimisticPeer == old(strategy.optimisticPeer)
      ensures |BlockIndices(old(store.files))| < total ==> outcome.Walked?
      // The view is rebuilt from the tracker's list on every cycle.
      ensures outcome.Walked? ==> outcome.view == ViewOf(known, AskList(net))
      // The choke state is refreshed on every fifth cycle, from the new view.
      ensures outcome.Walked? && old(counter) % REFRESH_EVERY == 0 ==>
        Refreshed(outcome.view, BlockIndices(old(store.files)), strategy.regularUnchoked, strategy.optimisticPeer)
      ensures outcome.Walked? && old(counter) % REFRESH_EVERY != 0 ==>
        strategy.regularUnchoked == old(strategy.regularUnchoked) && strategy.optimisticPeer == old(strategy.optimisticPeer)
      // The walk over the rarest blocks not yet held and the unchoked peers.
      ensures outcome.Walked? ==>
        && outcome.rarest == Strategy.RarestFirst(outcome.view, BlockIndices(old(store.files)))
        && outcome.unchoked == strategy.GetUnchokedPeers()
        && outcome.walk == FetchWalk(outcome.view, net, outcome.rarest, outcome.unchoked)
      ensures outcome.Walked? ==> counter == if outcome.walk.Crashed? then old(counter) else old(counter) + 1
      // At most one block is saved per cycle.
      ensures outcome.Walked? ==> FilesAfter(outcome.walk, net, old(store.files), store.files)
      // The cache gains the fetched block and nothing else.
      ensures outcome.Walked? ==> StoreAfter(outcome.walk, net, old(store.files), old(store.cache), store.files, store.cache)
    {
      var mine := store.LoadBlocks();
      if |mine| >= total {
        outcome := Complete(total);
      } else {
        var view := BuildView(known, net);
        outcome := Step(view, net, mine);
      }
    }
  }
}
