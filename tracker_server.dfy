/** The tracker (tracker_server.py): a registry of peers, keyed by peer id, that
    answers REGISTER by recording the peer and GET_PEERS with up to five other
    registered peers chosen at random. */
module TrackerServer {
  import opened Text
  import opened Collections

  const REGISTER: Bytes := [82, 69, 71, 73, 83, 84, 69, 82]           // "REGISTER"
  const GET_PEERS: Bytes := [71, 69, 84, 95, 80, 69, 69, 82, 83]      // "GET_PEERS"
  const OK: Bytes := [79, 75]                                          // "OK"

  /** The most peers one GET_PEERS reply names. */
  const SAMPLE_SIZE: nat := 5

  /** One entry of the GET_PEERS reply: `{"peer_id", "host", "port"}`. */
  datatype PeerRecord = PeerRecord(peerId: Bytes, host: Bytes, port: int)

  /** What the tracker sends back: nothing, a plain text, or the list of peers
      it serialises as JSON. */
  datatype TrackerReply =
    | NoReply
    | Text(msg: Bytes)
    | PeerList(peers: seq<PeerRecord>)

  /** What `handle_peer` makes of a request. `Silent` covers the requests it
      drops without answering: empty ones, and those on which it raises (bytes
      that do not decode, a port that `int()` rejects). */
  datatype Command =
    | Silent
    | Register(peerId: Bytes, host: Bytes, port: int)
    | GetPeers(peerId: Bytes)
    | Refuse(msg: Bytes)

  function BadRegister(): Bytes
  {
    Ascii("ERROR Invalid REGISTER format")
  }

  function BadGetPeers(): Bytes
  {
    Ascii("ERROR Invalid GET_PEERS format")
  }

  function InvalidCommand(): Bytes
  {
    Ascii("ERROR Invalid command")
  }

  /** `handle_peer`'s decision on the received bytes: they must decode, and are
      then stripped and read as text. */
  function Classify(request: Bytes): (c: Command)
    ensures c.Register? || c.GetPeers? ==> ValidUtf8(request)
    ensures !ValidUtf8(request) ==> c == Silent
    ensures ValidUtf8(request) && Strip(request, true) == [] ==> c == Silent
  {
    if !ValidUtf8(request) then Silent else ClassifyText(Strip(request, true))
  }

  /** The text branches of `handle_peer`: the command is recognised by its
      prefix, then its words are counted. */
  function ClassifyText(data: Bytes): (c: Command)
    ensures c.Register? ==> c.peerId != [] && NoSpace(c.peerId) && c.host != [] && NoSpace(c.host)
    ensures c.GetPeers? ==> c.peerId != [] && NoSpace(c.peerId)
    ensures c.Refuse? ==> c.msg in {BadRegister(), BadGetPeers(), InvalidCommand()}
    ensures c.Silent? ==> data == [] || StartsWith(data, REGISTER)
  {
    if data == [] then Silent
    else if StartsWith(data, REGISTER) then
      var parts := Split(data);
      if |parts| != 4 then Refuse(BadRegister())
      else
        (match ParseInt(parts[3])
         case None => Silent
         case Some(port) => Register(parts[1], parts[2], port))
    else if StartsWith(data, GET_PEERS) then
      var parts := Split(data);
      if |parts| != 2 then Refuse(BadGetPeers()) else GetPeers(parts[1])
    else Refuse(InvalidCommand())
  }

  /** The answer to a stripped, non-empty request by its words: a REGISTER
      needs exactly four of them and a port that `int()` accepts (without one
      the handler raises and answers nothing), a GET_PEERS exactly two; any
      other command is refused. */
  lemma ClassifyByWords(data: Bytes)
    requires data != []
    ensures StartsWith(data, REGISTER) ==>
      (ClassifyText(data) == Refuse(BadRegister()) <==> |Split(data)| != 4)
    ensures StartsWith(data, REGISTER) && |Split(data)| == 4 ==>
      (ClassifyText(data).Silent? <==> ParseInt(Split(data)[3]).None?)
    ensures StartsWith(data, GET_PEERS) ==>
      (ClassifyText(data) == Refuse(BadGetPeers()) <==> |Split(data)| != 2)
    ensures !StartsWith(data, REGISTER) && !StartsWith(data, GET_PEERS) ==>
      ClassifyText(data) == Refuse(InvalidCommand())
  {
    if StartsWith(data, GET_PEERS) {
      assert data[0] == GET_PEERS[0] != REGISTER[0];
    }
  }

  /** Text that decodes and has no whitespace at its ends is classified as it is. */
  lemma ClassifyPlain(request: Bytes)
    requires ValidUtf8(request) && request != []
    requires !IsTextSpace(request[0]) && !IsTextSpace(request[|request| - 1])
    ensures Classify(request) == ClassifyText(request)
  {
    StripUnpadded(request, true);
  }

  /** The records of the registered peers `ids`. */
  function Records(peers: map<Bytes, (Bytes, int)>, ids: set<Bytes>): set<PeerRecord>
    requires ids <= peers.Keys
  {
    set id | id in ids :: PeerRecord(id, peers[id].0, peers[id].1)
  }

  /** Every registered peer other than the one asking, as the records the
      reply is made of. */
  function Others(peers: map<Bytes, (Bytes, int)>, asker: Bytes): (o: set<PeerRecord>)
    ensures forall r :: r in o <==> r.peerId in peers && r.peerId != asker && peers[r.peerId] == (r.host, r.port)
  {
    Records(peers, peers.Keys - {asker})
  }

  /** `random.sample(others, min(5, len(others)))`: as many records as there are,
      up to five, each a candidate and none twice. */
  predicate IsSample(sample: seq<PeerRecord>, pool: set<PeerRecord>)
  {
    && |sample| == (if |pool| < SAMPLE_SIZE then |pool| else SAMPLE_SIZE)
    && Distinct(sample)
    && forall i :: 0 <= i < |sample| ==> sample[i] in pool
  }

  /** Draws the sample one record at a time; which record is drawn is left open,
      as the random generator decides it. */
  method SamplePeers(pool: set<PeerRecord>) returns (sample: seq<PeerRecord>)
    ensures IsSample(sample, pool)
  {
    var k := if |pool| < SAMPLE_SIZE then |pool| else SAMPLE_SIZE;
    var remaining := pool;
    sample := [];
    while |sample| < k
      invariant |sample| <= k
      invariant forall r :: r in remaining <==> r in pool && r !in sample
      invariant remaining <= pool
      invariant |remaining| == |pool| - |sample|
      invariant Distinct(sample)
      invariant forall i :: 0 <= i < |sample| ==> sample[i] in pool
    {
      ghost var some := Pick(remaining);
      var r :| r in remaining;
      sample := sample + [r];
      remaining := remaining - {r};
    }
  }

  /** One record per registered peer but the asker: the reply can name every
      other peer, and only them. */
  lemma OthersSize(peers: map<Bytes, (Bytes, int)>, asker: Bytes)
    ensures |Others(peers, asker)| == |peers| - (if asker in peers then 1 else 0)
  {
    RecordsSize(peers, peers.Keys - {asker});
  }

  lemma {:induction false} RecordsSize(peers: map<Bytes, (Bytes, int)>, ids: set<Bytes>)
    requires ids <= peers.Keys
    ensures |Records(peers, ids)| == |ids|
    decreases |ids|
  {
    if ids != {} {
      var x := Pick(ids);
      var rest := ids - {x};
      RecordsSize(peers, rest);
      assert Records(peers, ids) == Records(peers, rest) + {PeerRecord(x, peers[x].0, peers[x].1)};
    }
  }

  /** tracker_client's `register` message: "REGISTER <peer_id> <ip> <port>". */
  function RegisterMessage(peerId: Bytes, host: Bytes, port: int): Bytes
  {
    REGISTER + [SPACE] + peerId + [SPACE] + host + [SPACE] + Show(port)
  }

  /** tracker_client's `get_peers` message: "GET_PEERS <peer_id>". */
  function GetPeersMessage(peerId: Bytes): Bytes
  {
    GET_PEERS + [SPACE] + peerId
  }

  /** A registration the client builds is read back with its peer id, host
      and port, for ids and hosts that are single words of valid text. */
  lemma ClassifyRegister(peerId: Bytes, host: Bytes, port: int)
    requires peerId != [] && NoSpace(peerId) && ValidUtf8(peerId)
    requires host != [] && NoSpace(host) && ValidUtf8(host)
    ensures Classify(RegisterMessage(peerId, host, port)) == Register(peerId, host, port)
  {
    var msg := RegisterMessage(peerId, host, port);
    assert ValidUtf8(msg) by {
      RegisterUtf8(peerId, host, port);
    }
    assert msg != [] && !IsTextSpace(msg[0]) && !IsTextSpace(msg[|msg| - 1]) by {
      RegisterEnds(peerId, host, port);
    }
    assert Classify(msg) == ClassifyText(msg) by {
      ClassifyPlain(msg);
    }
    assert ClassifyText(msg) == Register(peerId, host, port) by {
      RegisterText(peerId, host, port);
    }
  }

  lemma RegisterUtf8(peerId: Bytes, host: Bytes, port: int)
    requires ValidUtf8(peerId) && ValidUtf8(host)
    ensures ValidUtf8(RegisterMessage(peerId, host, port))
  {
    KeywordsUtf8();
    ShowText(port);
    Utf8Join(REGISTER, peerId);
    Utf8Join(REGISTER + [SPACE] + peerId, host);
    Utf8Join(REGISTER + [SPACE] + peerId + [SPACE] + host, Show(port));
  }

  lemma Utf8Join(a: Bytes, b: Bytes)
    requires ValidUtf8(a) && ValidUtf8(b)
    ensures ValidUtf8(a + [SPACE] + b)
  {
    assert CharLen([SPACE]) == 1;
    ValidUtf8Concat(a, [SPACE]);
    ValidUtf8Concat(a + [SPACE], b);
  }

  lemma RegisterEnds(peerId: Bytes, host: Bytes, port: int)
    ensures var msg := RegisterMessage(peerId, host, port);
      msg != [] && !IsTextSpace(msg[0]) && !IsTextSpace(msg[|msg| - 1])
  {
    var msg := RegisterMessage(peerId, host, port);
    var s := Show(port);
    ShowText(port);
    assert msg[0] == REGISTER[0];
    assert msg[|msg| - 1] == s[|s| - 1];
  }

  /** The registration message is its four words joined by spaces. */
  lemma RegisterWords(peerId: Bytes, host: Bytes, port: int)
    ensures RegisterMessage(peerId, host, port) == Join([REGISTER, peerId, host, Show(port)], SPACE)
  {
    var s := Show(port);
    var w := [REGISTER, peerId, host, s];
    assert Join(w[2..], SPACE) == host + [SPACE] + s by {
      JoinCons(w[2..], SPACE);
      assert w[2..][1..] == [s];
    }
    assert Join(w[1..], SPACE) == peerId + [SPACE] + (host + [SPACE] + s) by {
      JoinCons(w[1..], SPACE);
      assert w[1..][1..] == w[2..];
    }
    assert Join(w, SPACE) == REGISTER + [SPACE] + (peerId + [SPACE] + (host + [SPACE] + s)) by {
      JoinCons(w, SPACE);
    }
  }

  lemma RegisterText(peerId: Bytes, host: Bytes, port: int)
    requires peerId != [] && NoSpace(peerId) && host != [] && NoSpace(host)
    ensures ClassifyText(RegisterMessage(peerId, host, port)) == Register(peerId, host, port)
  {
    var words := [REGISTER, peerId, host, Show(port)];
    var msg := RegisterMessage(peerId, host, port);
    assert StartsWith(msg, REGISTER) by {
      assert msg[..|REGISTER|] == REGISTER;
    }
    assert Split(msg) == words by {
      RegisterWords(peerId, host, port);
      assert NoSpace(REGISTER);
      SplitJoinWords(words);
    }
    ParseShow(port);
  }

  lemma KeywordsUtf8()
    ensures ValidUtf8(REGISTER) && ValidUtf8(GET_PEERS)
  {
    assert IsAscii(REGISTER) && IsAscii(GET_PEERS);
  }

  /** `str(i)` as text: it decodes and ends in a digit. */
  lemma ShowText(i: int)
    ensures var s := Show(i); ValidUtf8(s) && !IsTextSpace(s[|s| - 1])
  {
    var s := Show(i);
    ShowAscii(i);
    assert IsDigit(s[|s| - 1]) || s[|s| - 1] == MINUS;
  }

  /** A peer-list request the client builds is read back with the asker's id. */
  lemma ClassifyGetPeers(peerId: Bytes)
    requires peerId != [] && NoSpace(peerId) && ValidUtf8(peerId)
    ensures Classify(GetPeersMessage(peerId)) == GetPeers(peerId)
  {
    var msg := GetPeersMessage(peerId);
    assert ValidUtf8(msg) by {
      KeywordsUtf8();
      Utf8Join(GET_PEERS, peerId);
    }
    assert msg != [] && !IsTextSpace(msg[0]) && !IsTextSpace(msg[|msg| - 1]) by {
      assert msg[0] == GET_PEERS[0];
      assert msg[|msg| - 1] == peerId[|peerId| - 1];
    }
    assert Classify(msg) == ClassifyText(msg) by {
      ClassifyPlain(msg);
    }
    assert ClassifyText(msg) == GetPeers(peerId) by {
      GetPeersText(peerId);
    }
  }

  lemma GetPeersText(peerId: Bytes)
    requires peerId != [] && NoSpace(peerId)
    ensures ClassifyText(GetPeersMessage(peerId)) == GetPeers(peerId)
  {
    var words := [GET_PEERS, peerId];
    var msg := GetPeersMessage(peerId);
    assert !StartsWith(msg, REGISTER) by {
      assert msg[..|REGISTER|][0] == msg[0];
    }
    assert StartsWith(msg, GET_PEERS) by {
      assert msg[..|GET_PEERS|] == GET_PEERS;
    }
    assert Split(msg) == words by {
      assert NoSpace(GET_PEERS);
      SplitOfTokens(GET_PEERS, peerId);
    }
  }

  /** The tracker's registry. */
  class TrackerServer {
    /** `self.peers`: peer id to the host and port it registered. */
    var peers: map<Bytes, (Bytes, int)>

    constructor()
      ensures peers == map[]
    {
      peers := map[];
    }

    /** `handle_peer` on the bytes received: a registration records (or
        replaces) the peer and answers "OK"; a peer-list request leaves the
        registry alone and answers with a sample of the other peers; every other
        request leaves it alone and gets its error text, or no answer at all. */
    method HandlePeer(request: Bytes) returns (reply: TrackerReply)
      modifies this
      ensures match Classify(request)
        case Register(id, host, port) => peers == old(peers)[id := (host, port)] && reply == Text(OK)
        case GetPeers(id) => peers == old(peers) && reply.PeerList? && IsSample(reply.peers, Others(peers, id))
        case Refuse(msg) => peers == old(peers) && reply == Text(msg)
        case Silent => peers == old(peers) && reply == NoReply
    {
      match Classify(request)
      case Silent =>
        reply := NoReply;
      case Register(id, host, port) =>
        peers := peers[id := (host, port)];
        reply := Text(OK);
      case GetPeers(id) =>
        var sample := SamplePeers(Others(peers, id));
        reply := PeerList(sample);
      case Refuse(msg) =>
        reply := Text(msg);
    }
  }

  /** A peer that has registered is a candidate for everyone else's peer list,
      with the address it registered last. */
  lemma RegisteredIsOffered(peers: map<Bytes, (Bytes, int)>, id: Bytes, host: Bytes, port: int, asker: Bytes)
    requires asker != id
    ensures PeerRecord(id, host, port) in Others(peers[id := (host, port)], asker)
    ensures forall r :: r in Others(peers[id := (host, port)], asker) && r.peerId == id ==> r == PeerRecord(id, host, port)
  {
    var updated := peers[id := (host, port)];
    assert id in updated.Keys - {asker};
    assert updated[id] == (host, port);
  }

  /** A peer is never offered itself. */
  lemma AskerNotOffered(peers: map<Bytes, (Bytes, int)>, asker: Bytes, sample: seq<PeerRecord>)
    requires IsSample(sample, Others(peers, asker))
    ensures forall i :: 0 <= i < |sample| ==> sample[i].peerId != asker && sample[i].peerId in peers
  {
  }
}
