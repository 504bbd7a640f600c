/** Peer-selection strategy (strategy.py): rarest-first block ordering, and the
    choice of which peers to request from, the four most useful ("regular
    unchoked") plus one random other ("optimistic unchoke"). */
module Strategy {
  import opened Text
  import opened Collections

  /** `peer_block_map`: each known peer's key ("host:port") and the blocks it
      offers, in the dictionary's insertion order. */
  type View = seq<(Bytes, set<int>)>

  /** `block_frequency`: block to number of peers offering it, in insertion order. */
  type Freq = seq<(int, nat)>

  /** A dictionary: no key occurs twice. */
  predicate IsDict<K(==), V>(s: seq<(K, V)>)
  {
    Distinct(Firsts(s))
  }

  // ---------------------------------------------------------------------------
  // Rarest first
  // ---------------------------------------------------------------------------

  /** `block_frequency.get(b, 0)`. */
  function CountOf(f: Freq, b: int): nat
  {
    if f == [] then 0 else if f[0].0 == b then f[0].1 else CountOf(f[1..], b)
  }

  /** `block_frequency[b] = block_frequency.get(b, 0) + 1`: an existing key keeps
      its place, a new key goes at the end. */
  function Bump(f: Freq, b: int): (r: Freq)
    ensures |r| >= 1
  {
    if f == [] then [(b, 1)]
    else if f[0].0 == b then [(b, f[0].1 + 1)] + f[1..]
    else [f[0]] + Bump(f[1..], b)
  }

  /** Counting one more occurrence of `b` adds `b` as a key if it is new and
      raises its count by one, leaving every other count as it was. */
  lemma {:induction false} BumpFacts(f: Freq, b: int)
    ensures forall x :: x in Firsts(Bump(f, b)) <==> x in Firsts(f) || x == b
    ensures IsDict(f) ==> IsDict(Bump(f, b))
    ensures forall x :: CountOf(Bump(f, b), x) == CountOf(f, x) + (if x == b then 1 else 0)
  {
    if f != [] && f[0].0 != b {
      BumpFacts(f[1..], b);
      var tail := Bump(f[1..], b);
      assert Bump(f, b) == [f[0]] + tail;
      assert Bump(f, b)[1..] == tail;
      assert Firsts(Bump(f, b)) == [f[0].0] + Firsts(tail);
      assert Firsts(f) == [f[0].0] + Firsts(f[1..]);
      DistinctCons(f[0].0, Firsts(f[1..]));
      DistinctCons(f[0].0, Firsts(tail));
    } else if f != [] {
      assert Firsts(Bump(f, b)) == [b] + Firsts(f[1..]);
      assert Firsts(f) == [f[0].0] + Firsts(f[1..]);
    }
  }

  /** The counts after the loop over one peer's blocks, in iteration order. */
  function CountBlocks(f: Freq, blocks: seq<int>, mine: set<int>): Freq
  {
    if blocks == [] then f
    else
      var g := CountBlocks(f, blocks[..|blocks| - 1], mine);
      var b := blocks[|blocks| - 1];
      if b in mine then g else Bump(g, b)
  }

  /** The loop over one peer's blocks adds each block not already held as a key
      and counts its occurrences. */
  lemma {:induction false} CountBlocksFacts(f: Freq, blocks: seq<int>, mine: set<int>)
    ensures forall x :: x in Firsts(CountBlocks(f, blocks, mine)) <==> x in Firsts(f) || (x in blocks && x !in mine)
    ensures IsDict(f) ==> IsDict(CountBlocks(f, blocks, mine))
    ensures forall x :: (CountOf(CountBlocks(f, blocks, mine), x)
      == CountOf(f, x) + (if x in mine then 0 else multiset(blocks)[x]))
  {
    if blocks != [] {
      var init := blocks[..|blocks| - 1];
      var b := blocks[|blocks| - 1];
      assert blocks == init + [b];
      CountBlocksFacts(f, init, mine);
      BumpFacts(CountBlocks(f, init, mine), b);
    }
  }

  /** The number of peers in the view that offer block `b`. */
  function OfferCount(view: View, b: int): nat
  {
    if view == [] then 0
    else OfferCount(view[..|view| - 1], b) + (if b in view[|view| - 1].1 then 1 else 0)
  }

  /** The frequency dictionary after the loops of `select_rarest_blocks`; each
      peer's set is iterated in ascending order. */
  function CountView(view: View, mine: set<int>): (r: Freq)
    ensures IsDict(r)
  {
    if view == [] then []
    else
      var f := CountView(view[..|view| - 1], mine);
      CountBlocksFacts(f, Ascending(view[|view| - 1].1), mine);
      CountBlocks(f, Ascending(view[|view| - 1].1), mine)
  }

  lemma AscendingMultiplicity(s: set<int>, x: int)
    ensures multiset(Ascending(s))[x] == if x in s then 1 else 0
  {
    StrictlyIncreasingDistinct(Ascending(s));
    DistinctMultiplicity(Ascending(s), x);
  }

  /** The counting loops count, for every block not already held, the peers that
      offer it, and record exactly the offered blocks not already held, each once. */
  lemma {:induction false} CountViewCorrect(view: View, mine: set<int>)
    ensures forall x :: x in Firsts(CountView(view, mine)) <==> x !in mine && OfferCount(view, x) > 0
    ensures forall x :: CountOf(CountView(view, mine), x) == if x in mine then 0 else OfferCount(view, x)
  {
    if view != [] {
      var init := view[..|view| - 1];
      var last := view[|view| - 1];
      CountViewCorrect(init, mine);
      CountBlocksFacts(CountView(init, mine), Ascending(last.1), mine);
      forall x ensures multiset(Ascending(last.1))[x] == if x in last.1 then 1 else 0 {
        AscendingMultiplicity(last.1, x);
      }
    }
  }

  /** `lambda b: block_frequency[b]`. */
  function CountKey(f: Freq): int -> int
  {
    b => CountOf(f, b)
  }

  /** strategy.py's `select_rarest_blocks`: the recorded blocks, sorted by count.
      It holds every block that some peer offers and that is not already held,
      and nothing else. */
  function RarestFirst(view: View, mine: set<int>): (r: seq<int>)
    ensures forall b :: b in r <==> b !in mine && OfferCount(view, b) > 0
  {
    var f := CountView(view, mine);
    CountViewCorrect(view, mine);
    var r := SortBy(Firsts(f), CountKey(f));
    assert forall b :: b in r <==> b in multiset(Firsts(f));
    r
  }

  /** `lambda x: x[1]` over the items of the frequency dictionary. */
  function PairCount(e: (int, nat)): int
  {
    e.1
  }

  /** peer.py's `select_rarest_blocks`: the items sorted by count, then their blocks. */
  function RarestFirstByItems(view: View, mine: set<int>): seq<int>
  {
    Firsts(SortBy(CountView(view, mine), PairCount))
  }

  lemma {:induction false} CountOfEntry(f: Freq, e: (int, nat))
    requires IsDict(f) && e in f
    ensures CountOf(f, e.0) == e.1
  {
    if f[0] != e {
      assert e in f[1..];
      assert e.0 in Firsts(f[1..]) by {
        var k :| 0 <= k < |f[1..]| && f[1..][k] == e;
        assert Firsts(f[1..])[k] == e.0;
      }
      assert f[0].0 != e.0 by {
        assert Firsts(f)[0] == f[0].0;
        assert Firsts(f)[1..] == Firsts(f[1..]);
      }
      assert Firsts(f)[1..] == Firsts(f[1..]);
      CountOfEntry(f[1..], e);
    }
  }

  /** The two copies of `select_rarest_blocks` agree: sorting the blocks by their
      counts, or sorting the (block, count) items and keeping the blocks. */
  lemma RarestFirstVersionsAgree(view: View, mine: set<int>)
    ensures RarestFirstByItems(view, mine) == RarestFirst(view, mine)
  {
    var f := CountView(view, mine);
    CountViewCorrect(view, mine);
    forall e | e in f ensures CountKey(f)(e.0) == PairCount(e) {
      CountOfEntry(f, e);
    }
    SortByFirsts(f, PairCount, CountKey(f));
  }

  /** Each block appears once in the rarest-first list. */
  lemma RarestFirstDistinct(view: View, mine: set<int>)
    ensures Distinct(RarestFirst(view, mine))
  {
    var f := CountView(view, mine);
    CountViewCorrect(view, mine);
    forall x ensures multiset(RarestFirst(view, mine))[x] <= 1 {
      DistinctMultiplicity(Firsts(f), x);
    }
    MultiplicityDistinct(RarestFirst(view, mine));
  }

  /** The rarest-first list is in non-decreasing order of how many peers offer each block. */
  lemma RarestFirstOrder(view: View, mine: set<int>)
    ensures forall i, j :: 0 <= i < j < |RarestFirst(view, mine)| ==>
      OfferCount(view, RarestFirst(view, mine)[i]) <= OfferCount(view, RarestFirst(view, mine)[j])
  {
    var r := RarestFirst(view, mine);
    var f := CountView(view, mine);
    CountViewCorrect(view, mine);
    forall i, j | 0 <= i < j < |r| ensures OfferCount(view, r[i]) <= OfferCount(view, r[j]) {
      assert CountKey(f)(r[i]) <= CountKey(f)(r[j]);
      assert r[i] in r && r[j] in r;
    }
  }

  /** The inner counting loop of `select_rarest_blocks`, over one peer's blocks. */
  method CountPeerBlocks(freq0: Freq, blocks: seq<int>, mine: set<int>) returns (freq: Freq)
    ensures freq == CountBlocks(freq0, blocks, mine)
  {
    freq := freq0;
    var j := 0;
    while j < |blocks|
      invariant 0 <= j <= |blocks|
      invariant freq == CountBlocks(freq0, blocks[..j], mine)
    {
      assert blocks[..j + 1][..j] == blocks[..j];
      assert blocks[..j + 1][j] == blocks[j];
      if blocks[j] !in mine {
        freq := Bump(freq, blocks[j]);
      }
      j := j + 1;
    }
    assert blocks[..j] == blocks;
  }

  /** The counting loops of `select_rarest_blocks`: over the peers in dictionary
      order, then over each peer's blocks. */
  method CountFrequencies(view: View, mine: set<int>) returns (freq: Freq)
    ensures freq == CountView(view, mine)
  {
    freq := [];
    var k := 0;
    while k < |view|
      invariant 0 <= k <= |view|
      invariant freq == CountView(view[..k], mine)
    {
      freq := CountPeerBlocks(freq, Ascending(view[k].1), mine);
      assert view[..k + 1][..k] == view[..k];
      assert view[..k + 1][k] == view[k];
      k := k + 1;
    }
    assert view[..k] == view;
  }

  /** strategy.py's `select_rarest_blocks`. */
  method SelectRarestBlocks(view: View, mine: set<int>) returns (rarest: seq<int>)
    ensures rarest == RarestFirst(view, mine)
  {
    var freq := CountFrequencies(view, mine);
    rarest := SortBy(Firsts(freq), CountKey(freq));
  }

  // ---------------------------------------------------------------------------
  // Unchoking
  // ---------------------------------------------------------------------------

  /** `scored_peers` before sorting: each peer with its number of useful blocks. */
  function Scores(view: View, mine: set<int>): (r: seq<(Bytes, int)>)
    ensures |r| == |view|
    ensures forall k :: 0 <= k < |view| ==> r[k] == (view[k].0, |view[k].1 - mine|)
  {
    seq(|view|, k requires 0 <= k < |view| => (view[k].0, |view[k].1 - mine|))
  }

  /** `key=lambda x: x[1], reverse=True`: a stable sort by descending score. */
  function NegScore(e: (Bytes, int)): int
  {
    -e.1
  }

  /** `scored_peers` after sorting: most useful first, ties in dictionary order. */
  function Ranked(view: View, mine: set<int>): seq<(Bytes, int)>
  {
    SortBy(Scores(view, mine), NegScore)
  }

  /** The entries of the peers picked as regular unchoked: at most four. */
  function TopRanked(view: View, mine: set<int>): (r: seq<(Bytes, int)>)
    ensures |r| == if |view| < 4 then |view| else 4
  {
    var ranked := Ranked(view, mine);
    if |ranked| <= 4 then ranked else ranked[..4]
  }

  /** `regular_unchoked`: the four most useful peers. There are four of them, or
      fewer only when fewer are known, and each is a peer of the view. */
  function TopPeers(view: View, mine: set<int>): (r: seq<Bytes>)
    ensures |r| == if |view| < 4 then |view| else 4
    ensures forall p :: p in r ==> p in Firsts(view)
  {
    TopRankedFromView(view, mine);
    Firsts(TopRanked(view, mine))
  }

  lemma TopRankedFromView(view: View, mine: set<int>)
    ensures forall p :: p in Firsts(TopRanked(view, mine)) ==> p in Firsts(view)
  {
    var top := TopRanked(view, mine);
    var ranked := Ranked(view, mine);
    forall p | p in Firsts(top) ensures p in Firsts(view) {
      var i :| 0 <= i < |top| && Firsts(top)[i] == p;
      assert top[i] == ranked[i];
      assert ranked[i] in multiset(Scores(view, mine));
      var k :| 0 <= k < |view| && Scores(view, mine)[k] == ranked[i];
      assert Firsts(view)[k] == p;
    }
  }

  /** A permutation of a dictionary is a dictionary. */
  lemma PermutationIsDict<K, V>(s: seq<(K, V)>, t: seq<(K, V)>)
    requires multiset(s) == multiset(t) && IsDict(s)
    ensures IsDict(t)
  {
    assert Distinct(s) by {
      forall a, b | 0 <= a < b < |s| ensures s[a] != s[b] {
        assert Firsts(s)[a] != Firsts(s)[b];
      }
    }
    forall x ensures multiset(t)[x] <= 1 {
      DistinctMultiplicity(s, x);
    }
    MultiplicityDistinct(t);
    forall i, j | 0 <= i < j < |t| ensures Firsts(t)[i] != Firsts(t)[j] {
      var a := Position(t, s, i);
      var b := Position(t, s, j);
      assert Firsts(s)[a] == t[i].0 && Firsts(s)[b] == t[j].0;
    }
  }

  /** For a dictionary, the picked peers are distinct. */
  lemma TopPeersDistinct(view: View, mine: set<int>)
    requires IsDict(view)
    ensures Distinct(TopPeers(view, mine))
  {
    var scores := Scores(view, mine);
    var ranked := Ranked(view, mine);
    assert Firsts(scores) == Firsts(view);
    PermutationIsDict(scores, ranked);
    FirstsPrefix(ranked, |TopRanked(view, mine)|);
    assert TopRanked(view, mine) == ranked[..|TopRanked(view, mine)|];
  }

  /** The picked peers come in descending order of useful blocks. */
  lemma TopPeersDescending(view: View, mine: set<int>)
    ensures forall i, j :: 0 <= i < j < |TopRanked(view, mine)| ==>
      TopRanked(view, mine)[i].1 >= TopRanked(view, mine)[j].1
  {
    var ranked := Ranked(view, mine);
    var top := TopRanked(view, mine);
    forall i, j | 0 <= i < j < |top| ensures top[i].1 >= top[j].1 {
      assert top[i] == ranked[i] && top[j] == ranked[j];
      assert NegScore(ranked[i]) <= NegScore(ranked[j]);
    }
  }

  /** No peer left out has more useful blocks than a picked one. */
  lemma TopPeersOutrankOthers(view: View, mine: set<int>)
    ensures forall k, i ::
      (0 <= k < |view| && view[k].0 !in TopPeers(view, mine) && 0 <= i < |TopRanked(view, mine)|)
      ==> TopRanked(view, mine)[i].1 >= |view[k].1 - mine|
  {
    var scores := Scores(view, mine);
    var ranked := Ranked(view, mine);
    var top := TopRanked(view, mine);
    forall k, i | 0 <= k < |view| && view[k].0 !in TopPeers(view, mine) && 0 <= i < |top|
      ensures top[i].1 >= |view[k].1 - mine|
    {
      var m := Position(scores, ranked, k);
      assert ranked[m].0 == view[k].0;
      assert |top| <= m by {
        assert forall n :: 0 <= n < |top| ==> TopPeers(view, mine)[n] == ranked[n].0;
      }
      assert top[i] == ranked[i];
      assert NegScore(ranked[i]) <= NegScore(ranked[m]);
    }
  }

  /** The scoring loop of `update_unchoked_peers`: each peer of the view with
      the number of its blocks this peer lacks. */
  method ScorePeers(view: View, mine: set<int>) returns (scored: seq<(Bytes, int)>)
    ensures scored == Scores(view, mine)
  {
    scored := [];
    var k := 0;
    while k < |view|
      invariant 0 <= k <= |view|
      invariant |scored| == k
      invariant forall i :: 0 <= i < k ==> scored[i] == (view[i].0, |view[i].1 - mine|)
    {
      scored := scored + [(view[k].0, |view[k].1 - mine|)];
      k := k + 1;
    }
  }

  class Strategy {
    /** `regular_unchoked`. */
    var regularUnchoked: seq<Bytes>
    /** `optimistic_peer`; the empty text when there is none. */
    var optimisticPeer: Bytes

    /** At most four regular peers, and the optimistic peer is not one of them. */
    ghost predicate Valid()
      reads this
    {
      |regularUnchoked| <= 4 && (optimisticPeer != [] ==> optimisticPeer !in regularUnchoked)
    }

    constructor()
      ensures Valid()
      ensures regularUnchoked == [] && optimisticPeer == []
    {
      regularUnchoked := [];
      optimisticPeer := [];
    }

    /** `update_unchoked_peers`: the four most useful peers of the view become the
        regular ones; a random known peer outside them (or none) becomes the
        optimistic one. Nothing of the previous choice survives. */
    method UpdateUnchokedPeers(known: seq<Bytes>, view: View, mine: set<int>)
      modifies this
      ensures Valid()
      ensures regularUnchoked == TopPeers(view, mine)
      ensures Without(known, regularUnchoked) == [] ==> optimisticPeer == []
      ensures Without(known, regularUnchoked) != [] ==> optimisticPeer in Without(known, regularUnchoked)
    {
      var scored := ScorePeers(view, mine);
      scored := SortBy(scored, NegScore);
      regularUnchoked := Firsts(if |scored| <= 4 then scored else scored[..4]);
      var candidates := Without(known, regularUnchoked);
      if candidates == [] {
        optimisticPeer := [];
      } else {
        assert candidates[0] in candidates;
        var choice :| choice in candidates;
        optimisticPeer := choice;
      }
    }

    /** `get_unchoked_peers`: the regular peers, then the optimistic one if any. */
    function GetUnchokedPeers(): (r: seq<Bytes>)
      reads this
      ensures forall p :: p in r <==> p in regularUnchoked || (p == optimisticPeer && p != [])
      ensures |regularUnchoked| <= |r| <= |regularUnchoked| + 1
      ensures r[..|regularUnchoked|] == regularUnchoked
    {
      regularUnchoked + (if optimisticPeer != [] then [optimisticPeer] else [])
    }

    /** `should_request_from`. */
    predicate ShouldRequestFrom(peer: Bytes)
      reads this
      ensures ShouldRequestFrom(peer) <==> peer in regularUnchoked || (peer == optimisticPeer && peer != [])
    {
      peer in GetUnchokedPeers()
    }
  }

  /** At most five peers are unchoked at a time. */
  lemma UnchokedAtMostFive(s: Strategy)
    requires s.Valid()
    ensures |s.GetUnchokedPeers()| <= 5
  {
  }

  /** When no known peer has the empty key, there is an optimistic peer exactly
      when some known peer is not a regular one. */
  lemma OptimisticExactly(known: seq<Bytes>, regular: seq<Bytes>, optimistic: Bytes)
    requires [] !in known
    requires Without(known, regular) == [] ==> optimistic == []
    requires Without(known, regular) != [] ==> optimistic in Without(known, regular)
    ensures optimistic == [] <==> forall p :: p in known ==> p in regular
  {
    if exists p :: p in known && p !in regular {
      var p :| p in known && p !in regular;
      assert p in Without(known, regular);
    }
  }
}
