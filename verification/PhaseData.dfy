/**
 * The download phase of a torrent: which peers are worth asking, and the per-peer
 * loop that asks the piece selector for pieces and turns their needed blocks into
 * request messages while the peer is under its request limit.
 */
module PhaseData {
  import opened Common
  import opened Pieces

  /** A block request as the request factory builds it: piece index, byte offset, length. */
  datatype Request = Request(piece: nat, offset: nat, length: nat)

  /** One request enqueued on the socket of peer `peer`, for block `block` of its piece. */
  datatype Sent = Sent(peer: nat, block: nat, request: Request)

  /**
   * What the scheduler reads and changes of a peer: whether the remote chokes our
   * downloads, which pieces it has, its request limit and its outstanding requests.
   */
  datatype Peer = Peer(chokedDownload: bool, have: set<nat>, requestLimit: nat, pending: nat)

  /**
   * The state `process` works on. `answers` is what the piece selector will answer to
   * its next calls (once exhausted it answers empty), `queries` counts those calls, and
   * `sent` lists every request enqueued on a peer socket, in enqueue order.
   */
  datatype State = State(pieces: seq<Piece>, peers: seq<Peer>, answers: seq<Option<nat>>,
                         queries: nat, sent: seq<Sent>)

  /** Every piece is cut into blocks and the selector only names pieces of the torrent. */
  predicate ValidState(s: State)
  {
    && (forall i :: 0 <= i < |s.pieces| ==> WellFormed(s.pieces[i]))
    && (forall k :: 0 <= k < |s.answers| && s.answers[k].Some? ==> s.answers[k].value < |s.pieces|)
  }

  /** The indices of the pieces the file set still needs: those not done. */
  function NeededPieces(pieces: seq<Piece>): (r: set<nat>)
    ensures forall i :: i in r ==> i < |pieces|
    ensures r == {} <==> forall i :: 0 <= i < |pieces| ==> PieceDone(pieces[i])
  {
    var r := set i: nat | i < |pieces| && !PieceDone(pieces[i]);
    assert forall i :: 0 <= i < |pieces| && !PieceDone(pieces[i]) ==> i in r;
    r
  }

  /** A peer is worth asking when it does not choke our downloads and has a needed piece. */
  predicate Relevant(p: Peer, needed: set<nat>)
  {
    !p.chokedDownload && exists i :: i in needed && i in p.have
  }

  /** Every candidate is the index of a peer. */
  predicate PeerIndices(cand: seq<nat>, n: nat)
  {
    forall k :: 0 <= k < |cand| ==> cand[k] < n
  }

  /** `getRelevantPeers`: the indices of the relevant peers, in peer-list order. */
  function RelevantPeers(peers: seq<Peer>, needed: set<nat>): (r: seq<nat>)
    ensures forall j: nat :: j in r <==> j < |peers| && Relevant(peers[j], needed)
    ensures forall a, b :: 0 <= a < b < |r| ==> r[a] < r[b]
    ensures PeerIndices(r, |peers|)
    decreases |peers|
  {
    if peers == [] then []
    else
      var last := |peers| - 1;
      var front := RelevantPeers(peers[..last], needed);
      assert forall j :: 0 <= j < last ==> peers[..last][j] == peers[j];
      assert forall a :: 0 <= a < |front| ==> front[a] in front;
      if Relevant(peers[last], needed) then front + [last] else front
  }

  /**
   * Block `b` of piece `i` is given to peer `j`: the block becomes `Requested`, the
   * peer has one more outstanding request and the request is enqueued on its socket.
   */
  function Grant(s: State, j: nat, i: nat, b: nat): (r: State)
    requires ValidState(s) && j < |s.peers| && i < |s.pieces| && b < |s.pieces[i].blocks|
    ensures ValidState(r) && |r.pieces| == |s.pieces| && |r.peers| == |s.peers|
    ensures r.answers == s.answers && r.queries == s.queries
  {
    var piece := s.pieces[i];
    var peer := s.peers[j];
    s.(pieces := s.pieces[i := piece.(blocks := piece.blocks[b := Requested])],
       peers := s.peers[j := peer.(pending := peer.pending + 1)],
       sent := s.sent + [Sent(j, b, Request(i, b * piece.blockSize, BlockLength(piece, b)))])
  }

  /**
   * The requests made for peer `j` in one pass: while the peer is under its limit, ask
   * the selector; stop when it answers empty; when the piece it names has no needed
   * block left, ask again; otherwise grant the piece's first needed block.
   */
  function ServePeer(s: State, j: nat): (r: State)
    requires ValidState(s) && j < |s.peers|
    ensures ValidState(r) && |r.pieces| == |s.pieces| && |r.peers| == |s.peers|
    decreases |s.answers|
  {
    var peer := s.peers[j];
    if peer.pending >= peer.requestLimit then s
    else if s.answers == [] then s.(queries := s.queries + 1)
    else
      var s1 := s.(answers := s.answers[1..], queries := s.queries + 1);
      match s.answers[0]
      case None => s1
      case Some(i) =>
        match FirstNeeded(s.pieces[i].blocks)
        case None => ServePeer(s1, j)
        case Some(b) => ServePeer(Grant(s1, j, i, b), j)
  }

  /** Serve the candidate peers one after the other. */
  function ProcessFrom(s: State, cand: seq<nat>): (r: State)
    requires ValidState(s) && PeerIndices(cand, |s.peers|)
    ensures ValidState(r) && |r.pieces| == |s.pieces| && |r.peers| == |s.peers|
    decreases |cand|
  {
    if cand == [] then s else ProcessFrom(ServePeer(s, cand[0]), cand[1..])
  }

  /** One `process` pass: the relevant peers, chosen once at the start, are served in order. */
  function ProcessSpec(s: State): (r: State)
    requires ValidState(s)
  {
    ProcessFrom(s, RelevantPeers(s.peers, NeededPieces(s.pieces)))
  }

  // ---------------------------------------------------------------------------
  // What a pass promises
  // ---------------------------------------------------------------------------

  /** Block statuses only move from `Needed` to `Requested`; piece geometry is kept. */
  ghost predicate Advances(before: seq<Piece>, after: seq<Piece>)
  {
    && |before| == |after|
    && forall i :: 0 <= i < |before| ==>
         && after[i].size == before[i].size
         && after[i].blockSize == before[i].blockSize
         && |after[i].blocks| == |before[i].blocks|
         && forall b :: 0 <= b < |before[i].blocks| ==>
              after[i].blocks[b] == before[i].blocks[b]
              || (before[i].blocks[b] == Needed && after[i].blocks[b] == Requested)
  }

  /**
   * Request `e` was made for a block that was `Needed` before the pass and is
   * `Requested` after it, at that block's offset and with its length.
   */
  ghost predicate Claims(before: seq<Piece>, after: seq<Piece>, e: Sent)
  {
    var i, b := e.request.piece, e.block;
    && i < |before| && i < |after|
    && WellFormed(before[i])
    && b < |before[i].blocks| && b < |after[i].blocks|
    && before[i].blocks[b] == Needed && after[i].blocks[b] == Requested
    && e.request.offset == b * before[i].blockSize
    && e.request.length == BlockLength(before[i], b)
  }

  /** Every new request claims a needed block, and no block is requested twice. */
  ghost predicate FreshRequests(before: seq<Piece>, after: seq<Piece>, issued: seq<Sent>)
  {
    && (forall k :: 0 <= k < |issued| ==> Claims(before, after, issued[k]))
    && forall k, l :: 0 <= k < l < |issued| ==>
         issued[k].request.piece != issued[l].request.piece || issued[k].block != issued[l].block
  }

  /** The number of requests of `sent` enqueued for peer `j`. */
  function Count(sent: seq<Sent>, j: nat): nat
  {
    if sent == [] then 0
    else Count(sent[..|sent| - 1], j) + (if sent[|sent| - 1].peer == j then 1 else 0)
  }

  lemma {:induction false} CountAppend(a: seq<Sent>, b: seq<Sent>, j: nat)
    ensures Count(a + b, j) == Count(a, j) + Count(b, j)
    decreases |b|
  {
    if b == [] {
      assert a + b == a;
    } else {
      var last := |b| - 1;
      assert (a + b)[..|a + b| - 1] == a + b[..last];
      CountAppend(a, b[..last], j);
    }
  }

  lemma AdvancesTrans(p: seq<Piece>, q: seq<Piece>, r: seq<Piece>)
    requires Advances(p, q) && Advances(q, r)
    ensures Advances(p, r)
  {}

  lemma {:induction false} FreshConcat(p: seq<Piece>, q: seq<Piece>, r: seq<Piece>, a: seq<Sent>, b: seq<Sent>)
    requires Advances(p, q) && Advances(q, r)
    requires FreshRequests(p, q, a) && FreshRequests(q, r, b)
    ensures FreshRequests(p, r, a + b)
  {
    var ab := a + b;
    forall k | 0 <= k < |ab| ensures Claims(p, r, ab[k]) {
      if k < |a| {
        assert ab[k] == a[k] && Claims(p, q, a[k]);
      } else {
        assert ab[k] == b[k - |a|] && Claims(q, r, b[k - |a|]);
      }
    }
    forall k, l | 0 <= k < l < |ab|
      ensures ab[k].request.piece != ab[l].request.piece || ab[k].block != ab[l].block
    {
      if k < |a| && l >= |a| {
        assert Claims(p, q, a[k]) && Claims(q, r, b[l - |a|]);
      } else if k < |a| {
        assert ab[k] == a[k] && ab[l] == a[l];
      } else {
        assert ab[k] == b[k - |a|] && ab[l] == b[l - |a|];
      }
    }
  }

  /** Two steps that each claim fresh needed blocks claim fresh needed blocks together. */
  lemma ComposeClaims(p: seq<Piece>, q: seq<Piece>, r: seq<Piece>, sp: seq<Sent>, sq: seq<Sent>, sr: seq<Sent>)
    requires Advances(p, q) && Advances(q, r)
    requires |sp| <= |sq| <= |sr| && sq[..|sp|] == sp && sr[..|sq|] == sq
    requires FreshRequests(p, q, sq[|sp|..]) && FreshRequests(q, r, sr[|sq|..])
    ensures Advances(p, r) && FreshRequests(p, r, sr[|sp|..])
  {
    assert sr[|sp|..] == sq[|sp|..] + sr[|sq|..];
    FreshConcat(p, q, r, sq[|sp|..], sr[|sq|..]);
    AdvancesTrans(p, q, r);
  }

  /**
   * Serving one peer changes only that peer's outstanding count, which never passes
   * the larger of its old value and its limit.
   */
  lemma {:induction false} ServePeerPending(s: State, j: nat)
    requires ValidState(s) && j < |s.peers|
    ensures var r := ServePeer(s, j);
      && r.peers == s.peers[j := s.peers[j].(pending := r.peers[j].pending)]
      && s.peers[j].pending <= r.peers[j].pending <= Max(s.peers[j].pending, s.peers[j].requestLimit)
    decreases |s.answers|
  {
    var peer := s.peers[j];
    if peer.pending < peer.requestLimit && s.answers != [] && s.answers[0].Some? {
      var s1 := s.(answers := s.answers[1..], queries := s.queries + 1);
      var i := s.answers[0].value;
      match FirstNeeded(s.pieces[i].blocks)
      case None =>
        assert ServePeer(s, j) == ServePeer(s1, j);
        ServePeerPending(s1, j);
      case Some(b) =>
        var g := Grant(s1, j, i, b);
        assert g.peers == s.peers[j := peer.(pending := peer.pending + 1)];
        assert ServePeer(s, j) == ServePeer(g, j);
        ServePeerPending(g, j);
    }
  }

  /**
   * Serving one peer appends to the request log, only requests for that peer, one per
   * new outstanding request.
   */
  lemma {:induction false} ServePeerSent(s: State, j: nat)
    requires ValidState(s) && j < |s.peers|
    ensures var r := ServePeer(s, j);
      && |s.sent| <= |r.sent|
      && r.sent[..|s.sent|] == s.sent
      && |r.sent| - |s.sent| == r.peers[j].pending - s.peers[j].pending
      && (forall k :: |s.sent| <= k < |r.sent| ==> r.sent[k].peer == j)
    decreases |s.answers|
  {
    var peer := s.peers[j];
    if peer.pending < peer.requestLimit && s.answers != [] && s.answers[0].Some? {
      var s1 := s.(answers := s.answers[1..], queries := s.queries + 1);
      var i := s.answers[0].value;
      match FirstNeeded(s.pieces[i].blocks)
      case None =>
        assert ServePeer(s, j) == ServePeer(s1, j);
        ServePeerSent(s1, j);
      case Some(b) =>
        var g := Grant(s1, j, i, b);
        assert g.peers[j].pending == peer.pending + 1;
        assert g.sent == s.sent + [g.sent[|s.sent|]] && g.sent[|s.sent|].peer == j;
        var r := ServePeer(g, j);
        assert ServePeer(s, j) == r;
        ServePeerSent(g, j);
        assert r.sent[..|g.sent|] == g.sent;
        assert r.sent[..|s.sent|] == g.sent[..|s.sent|];
        forall k | |s.sent| <= k < |r.sent| ensures r.sent[k].peer == j {
          if k < |g.sent| {
            assert r.sent[k] == g.sent[k];
          }
        }
    } else {
      assert ServePeer(s, j).sent == s.sent && ServePeer(s, j).peers == s.peers;
    }
  }

  /** Both of the above: what serving one peer does to the peers and to the request log. */
  lemma ServePeerPeers(s: State, j: nat)
    requires ValidState(s) && j < |s.peers|
    ensures var r := ServePeer(s, j);
      && r.peers == s.peers[j := s.peers[j].(pending := r.peers[j].pending)]
      && s.peers[j].pending <= r.peers[j].pending <= Max(s.peers[j].pending, s.peers[j].requestLimit)
      && |s.sent| <= |r.sent|
      && r.sent[..|s.sent|] == s.sent
      && |r.sent| - |s.sent| == r.peers[j].pending - s.peers[j].pending
      && (forall k :: |s.sent| <= k < |r.sent| ==> r.sent[k].peer == j)
  {
    ServePeerPending(s, j);
    ServePeerSent(s, j);
  }

  /** Granting a needed block claims it and changes no other block. */
  lemma GrantClaims(s: State, j: nat, i: nat, b: nat)
    requires ValidState(s) && j < |s.peers| && i < |s.pieces| && b < |s.pieces[i].blocks|
    requires s.pieces[i].blocks[b] == Needed
    ensures var g := Grant(s, j, i, b);
      && Advances(s.pieces, g.pieces)
      && |g.sent| == |s.sent| + 1 && g.sent[..|s.sent|] == s.sent
      && FreshRequests(s.pieces, g.pieces, g.sent[|s.sent|..])
  {
    var g := Grant(s, j, i, b);
    assert g.sent[|s.sent|..] == [g.sent[|s.sent|]];
    assert Claims(s.pieces, g.pieces, g.sent[|s.sent|]);
  }

  /**
   * Serving one peer only turns needed blocks into requested ones, and every request
   * it enqueues claims a distinct block that was needed.
   */
  lemma {:induction false} ServePeerBlocks(s: State, j: nat)
    requires ValidState(s) && j < |s.peers|
    ensures var r := ServePeer(s, j);
      && |s.sent| <= |r.sent|
      && Advances(s.pieces, r.pieces)
      && FreshRequests(s.pieces, r.pieces, r.sent[|s.sent|..])
    decreases |s.answers|
  {
    var peer := s.peers[j];
    if peer.pending < peer.requestLimit && s.answers != [] && s.answers[0].Some? {
      var s1 := s.(answers := s.answers[1..], queries := s.queries + 1);
      var i := s.answers[0].value;
      match FirstNeeded(s.pieces[i].blocks)
      case None =>
        assert ServePeer(s, j) == ServePeer(s1, j);
        ServePeerBlocks(s1, j);
      case Some(b) =>
        var g := Grant(s1, j, i, b);
        var r := ServePeer(g, j);
        assert ServePeer(s, j) == r;
        GrantClaims(s1, j, i, b);
        ServePeerBlocks(g, j);
        ServePeerSent(g, j);
        ComposeClaims(s.pieces, g.pieces, r.pieces, s.sent, g.sent, r.sent);
    } else {
      var r := ServePeer(s, j);
      assert r.sent == s.sent && r.pieces == s.pieces;
      assert r.sent[|s.sent|..] == [];
    }
  }

  /**
   * `process` over any candidate list changes only the outstanding counts of the
   * candidates, and never past the larger of a peer's old count and its limit.
   */
  lemma {:induction false} ProcessFromPending(s: State, cand: seq<nat>)
    requires ValidState(s) && PeerIndices(cand, |s.peers|)
    ensures var r := ProcessFrom(s, cand);
      forall j :: 0 <= j < |s.peers| ==>
        && r.peers[j] == s.peers[j].(pending := r.peers[j].pending)
        && s.peers[j].pending <= r.peers[j].pending <= Max(s.peers[j].pending, s.peers[j].requestLimit)
        && (j !in cand ==> r.peers[j] == s.peers[j])
    decreases |cand|
  {
    if cand != [] {
      var c := cand[0];
      var s1 := ServePeer(s, c);
      ServePeerPending(s, c);
      ProcessFromPending(s1, cand[1..]);
      var r := ProcessFrom(s, cand);
      assert r == ProcessFrom(s1, cand[1..]);
      forall j | 0 <= j < |s.peers| && j !in cand ensures r.peers[j] == s.peers[j] {
        assert j != c && j !in cand[1..];
      }
    }
  }

  /**
   * `process` over any candidate list appends to the request log only requests for
   * candidates, and each peer's outstanding count grows by exactly its new requests.
   */
  lemma {:induction false} ProcessFromSent(s: State, cand: seq<nat>)
    requires ValidState(s) && PeerIndices(cand, |s.peers|)
    ensures var r := ProcessFrom(s, cand);
      && |s.sent| <= |r.sent| && r.sent[..|s.sent|] == s.sent
      && (forall k :: |s.sent| <= k < |r.sent| ==> r.sent[k].peer in cand)
      && forall j :: 0 <= j < |s.peers| ==>
           Count(r.sent[|s.sent|..], j) == r.peers[j].pending - s.peers[j].pending
    decreases |cand|
  {
    var r := ProcessFrom(s, cand);
    if cand == [] {
      assert r.sent[|s.sent|..] == [];
    } else {
      var c := cand[0];
      var s1 := ServePeer(s, c);
      ServePeerPeers(s, c);
      ProcessFromSent(s1, cand[1..]);
      assert r == ProcessFrom(s1, cand[1..]);
      var a, b := s1.sent[|s.sent|..], r.sent[|s1.sent|..];
      assert r.sent[|s.sent|..] == a + b;
      assert r.sent[..|s.sent|] == s1.sent[..|s.sent|];
      forall k | |s.sent| <= k < |r.sent| ensures r.sent[k].peer in cand {
        if k < |s1.sent| {
          assert r.sent[k] == s1.sent[k];
        } else {
          assert r.sent[k].peer in cand[1..];
        }
      }
      forall j | 0 <= j < |s.peers|
        ensures Count(r.sent[|s.sent|..], j) == r.peers[j].pending - s.peers[j].pending
      {
        CountAppend(a, b, j);
        CountOnly(a, c, j);
        assert j != c ==> s1.peers[j] == s.peers[j];
      }
    }
  }

  /**
   * `process` over any candidate list, as seen by the peers: each peer's outstanding
   * count grows by exactly the requests enqueued for it and never past the larger of
   * its old value and its limit; peers that are not candidates are untouched.
   */
  lemma ProcessFromPeers(s: State, cand: seq<nat>)
    requires ValidState(s) && PeerIndices(cand, |s.peers|)
    ensures var r := ProcessFrom(s, cand);
      && |s.sent| <= |r.sent| && r.sent[..|s.sent|] == s.sent
      && (forall k :: |s.sent| <= k < |r.sent| ==> r.sent[k].peer in cand)
      && forall j :: 0 <= j < |s.peers| ==>
           && r.peers[j] == s.peers[j].(pending := r.peers[j].pending)
           && s.peers[j].pending <= r.peers[j].pending <= Max(s.peers[j].pending, s.peers[j].requestLimit)
           && Count(r.sent[|s.sent|..], j) == r.peers[j].pending - s.peers[j].pending
           && (j !in cand ==> r.peers[j] == s.peers[j])
  {
    ProcessFromPending(s, cand);
    ProcessFromSent(s, cand);
  }

  /**
   * `process` over any candidate list, as seen by the pieces: blocks only go from
   * needed to requested, and every new request claims a distinct block that was
   * needed and is now requested.
   */
  lemma {:induction false} ProcessFromBlocks(s: State, cand: seq<nat>)
    requires ValidState(s) && PeerIndices(cand, |s.peers|)
    ensures var r := ProcessFrom(s, cand);
      && |s.sent| <= |r.sent|
      && Advances(s.pieces, r.pieces)
      && FreshRequests(s.pieces, r.pieces, r.sent[|s.sent|..])
    decreases |cand|
  {
    var r := ProcessFrom(s, cand);
    if cand == [] {
      assert r.sent[|s.sent|..] == [];
    } else {
      var c := cand[0];
      var s1 := ServePeer(s, c);
      ServePeerSent(s, c);
      ServePeerBlocks(s, c);
      ProcessFromBlocks(s1, cand[1..]);
      ProcessFromSent(s1, cand[1..]);
      assert r == ProcessFrom(s1, cand[1..]);
      ComposeClaims(s.pieces, s1.pieces, r.pieces, s.sent, s1.sent, r.sent);
    }
  }

  /** The requests enqueued while serving peer `c` count only for `c`. */
  lemma {:induction false} CountOnly(a: seq<Sent>, c: nat, j: nat)
    requires forall k :: 0 <= k < |a| ==> a[k].peer == c
    ensures Count(a, j) == if j == c then |a| else 0
    decreases |a|
  {
    if a != [] {
      CountOnly(a[..|a| - 1], c, j);
    }
  }

  /**
   * The guarantees of one `process` pass: peers that are choked or have no needed
   * piece are left alone; no peer is pushed past its request limit; each peer's
   * outstanding count grows by exactly the requests enqueued for it; every request
   * asks for a distinct block that was needed, at its offset and length, and that
   * block is now requested.
   */
  lemma ProcessSound(s: State)
    requires ValidState(s)
    ensures var r := ProcessSpec(s);
      && |s.sent| <= |r.sent| && r.sent[..|s.sent|] == s.sent
      && Advances(s.pieces, r.pieces)
      && FreshRequests(s.pieces, r.pieces, r.sent[|s.sent|..])
      && forall j :: 0 <= j < |s.peers| ==>
           && r.peers[j] == s.peers[j].(pending := r.peers[j].pending)
           && s.peers[j].pending <= r.peers[j].pending <= Max(s.peers[j].pending, s.peers[j].requestLimit)
           && Count(r.sent[|s.sent|..], j) == r.peers[j].pending - s.peers[j].pending
           && (!Relevant(s.peers[j], NeededPieces(s.pieces)) ==> r.peers[j] == s.peers[j])
  {
    ProcessFromPeers(s, RelevantPeers(s.peers, NeededPieces(s.pieces)));
    ProcessFromBlocks(s, RelevantPeers(s.peers, NeededPieces(s.pieces)));
  }

  // ---------------------------------------------------------------------------
  // Progress: a peer is served until its limit or an empty answer
  // ---------------------------------------------------------------------------

  /**
   * Going from `s` to `r` the selector's answers were taken from the front, one call
   * per answer taken (and perhaps more calls once none were left).
   */
  ghost predicate Consumes(s: State, r: State)
  {
    && |r.answers| <= |s.answers|
    && r.answers == s.answers[|s.answers| - |r.answers|..]
    && r.queries >= s.queries + (|s.answers| - |r.answers|)
  }

  /**
   * Going from `s` to `r` the selector answered empty at least once: one of the
   * answers taken was empty, or it was asked after its answers ran out.
   */
  ghost predicate AnsweredEmpty(s: State, r: State)
  {
    && |r.answers| <= |s.answers|
    && (None in s.answers[..|s.answers| - |r.answers|]
        || (r.answers == [] && r.queries > s.queries + |s.answers|))
  }

  /** Taking one answer and then going on from there. */
  lemma ConsumesFirst(s: State, t: State, r: State)
    requires s.answers != [] && t.answers == s.answers[1..] && t.queries == s.queries + 1
    requires Consumes(t, r)
    ensures Consumes(s, r)
    ensures AnsweredEmpty(t, r) ==> AnsweredEmpty(s, r)
    ensures forall j: nat :: s.answers[0].Some? && j < |r.peers| && StoppedAt(t, r, j) ==> StoppedAt(s, r, j)
  {
    var used := |t.answers| - |r.answers|;
    assert s.answers[..used + 1][1..] == t.answers[..used];
    assert r.answers == s.answers[|s.answers| - |r.answers|..];
    assert forall k :: 0 < k < |s.answers| ==> s.answers[k] == t.answers[k - 1];
  }

  /**
   * Serving peer `j` took `s` to `r` and stopped for a reason `process` has: the peer
   * reached its request limit, or the selector answered empty. Before that last call
   * every answer it took named a piece, and it was asked once per answer taken.
   */
  ghost predicate StoppedAt(s: State, r: State, j: nat)
    requires j < |r.peers|
  {
    && Consumes(s, r)
    && r.queries <= s.queries + (|s.answers| - |r.answers|) + 1
    && (forall k :: 0 <= k < |s.answers| - |r.answers| - 1 ==> s.answers[k].Some?)
    && (r.peers[j].pending >= r.peers[j].requestLimit || AnsweredEmpty(s, r))
  }

  /**
   * The per-peer loop stops only for a reason `process` has: the peer reached its
   * request limit, or the selector answered empty. Before that last call every answer
   * it took named a piece, and it was asked once per answer taken.
   */
  lemma {:induction false} ServePeerStops(s: State, j: nat)
    requires ValidState(s) && j < |s.peers|
    ensures StoppedAt(s, ServePeer(s, j), j)
    decreases |s.answers|, 1
  {
    var r := ServePeer(s, j);
    var peer := s.peers[j];
    if peer.pending >= peer.requestLimit {
      assert s.answers[0..] == s.answers;
    } else if s.answers == [] {
    } else if s.answers[0].None? {
      assert s.answers[..1] == [None];
      assert r.answers == s.answers[1..];
    } else {
      ServePeerStopsOnPiece(s, j);
    }
  }

  /** The loop's turn where the selector names a piece, and what follows it. */
  lemma {:induction false} ServePeerStopsOnPiece(s: State, j: nat)
    requires ValidState(s) && j < |s.peers|
    requires s.peers[j].pending < s.peers[j].requestLimit && s.answers != [] && s.answers[0].Some?
    ensures StoppedAt(s, ServePeer(s, j), j)
    decreases |s.answers|, 0
  {
    var i := s.answers[0].value;
    var s1 := s.(answers := s.answers[1..], queries := s.queries + 1);
    var t := match FirstNeeded(s.pieces[i].blocks)
             case None => s1
             case Some(b) => Grant(s1, j, i, b);
    var r := ServePeer(s, j);
    assert r == ServePeer(t, j);
    ServePeerStops(t, j);
    ConsumesFirst(s, t, r);
  }

  /** `Consumes` composes, and an empty answer on either leg is one on the whole way. */
  lemma ConsumesTrans(s: State, t: State, r: State)
    requires Consumes(s, t) && Consumes(t, r)
    ensures Consumes(s, r)
    ensures AnsweredEmpty(s, t) || AnsweredEmpty(t, r) ==> AnsweredEmpty(s, r)
  {
    var u, v := |s.answers| - |t.answers|, |t.answers| - |r.answers|;
    assert t.answers[..v] == s.answers[u..u + v];
    assert s.answers[..u] <= s.answers[..u + v];
    assert r.answers == s.answers[|s.answers| - |r.answers|..];
    if None in t.answers[..v] {
      var k :| 0 <= k < v && t.answers[..v][k] == None;
      assert s.answers[..u + v][u + k] == None;
    }
    if None in s.answers[..u] {
      var k :| 0 <= k < u && s.answers[..u][k] == None;
      assert s.answers[..u + v][k] == None;
    }
  }

  /** Candidates named at most once each. */
  predicate Distinct(cand: seq<nat>)
  {
    forall a, b :: 0 <= a < b < |cand| ==> cand[a] != cand[b]
  }

  /** Serving candidates one after the other: each ends at its limit or after an empty answer. */
  lemma {:induction false} ProcessFromStops(s: State, cand: seq<nat>)
    requires ValidState(s) && PeerIndices(cand, |s.peers|) && Distinct(cand)
    ensures var r := ProcessFrom(s, cand);
      && Consumes(s, r)
      && forall j :: j in cand ==> r.peers[j].pending >= r.peers[j].requestLimit || AnsweredEmpty(s, r)
    decreases |cand|
  {
    var r := ProcessFrom(s, cand);
    if cand == [] {
      assert s.answers[|s.answers| - |r.answers|..] == s.answers;
    } else {
      var c := cand[0];
      var s1 := ServePeer(s, c);
      ServePeerStops(s, c);
      assert PeerIndices(cand[1..], |s1.peers|) && Distinct(cand[1..]);
      ProcessFromStops(s1, cand[1..]);
      ProcessFromPending(s1, cand[1..]);
      assert r == ProcessFrom(s1, cand[1..]);
      ConsumesTrans(s, s1, r);
      assert c !in cand[1..];
      forall j | j in cand ensures r.peers[j].pending >= r.peers[j].requestLimit || AnsweredEmpty(s, r) {
        if j == c {
          assert r.peers[c] == s1.peers[c];
        } else {
          assert j in cand[1..];
        }
      }
    }
  }

  /**
   * Progress of a `process` pass: every relevant peer leaves it at its request limit
   * unless the selector answered empty during the pass. Together with `ProcessSound`,
   * a selector that always names a piece with a needed block fills every relevant peer
   * up to its limit.
   */
  lemma ProcessStops(s: State)
    requires ValidState(s)
    ensures var r := ProcessSpec(s);
      && Consumes(s, r)
      && forall j :: 0 <= j < |s.peers| && Relevant(s.peers[j], NeededPieces(s.pieces)) ==>
           r.peers[j].pending >= r.peers[j].requestLimit || AnsweredEmpty(s, r)
  {
    var cand := RelevantPeers(s.peers, NeededPieces(s.pieces));
    ProcessFromStops(s, cand);
  }

  /** Serving the candidates `a` and then `b` is serving `a + b`. */
  lemma {:induction false} ProcessFromConcat(s: State, a: seq<nat>, b: seq<nat>)
    requires ValidState(s) && PeerIndices(a + b, |s.peers|)
    ensures PeerIndices(a, |s.peers|) && PeerIndices(b, |s.peers|)
    ensures ProcessFrom(s, a + b) == ProcessFrom(ProcessFrom(s, a), b)
    decreases |a|
  {
    assert forall k :: 0 <= k < |a| ==> (a + b)[k] == a[k];
    assert forall k :: 0 <= k < |b| ==> (a + b)[|a| + k] == b[k];
    if a == [] {
      assert a + b == b;
    } else {
      assert (a + b)[1..] == a[1..] + b;
      ProcessFromConcat(ServePeer(s, a[0]), a[1..], b);
    }
  }

  /** Serving the candidates is serving those before `m`, then `cand[m]`, then the rest. */
  lemma ProcessFromSplit(s: State, cand: seq<nat>, m: nat)
    requires ValidState(s) && PeerIndices(cand, |s.peers|) && m < |cand|
    ensures PeerIndices(cand[..m], |s.peers|) && PeerIndices(cand[m + 1..], |s.peers|)
    ensures ProcessFrom(s, cand)
         == ProcessFrom(ServePeer(ProcessFrom(s, cand[..m]), cand[m]), cand[m + 1..])
  {
    assert cand == cand[..m] + cand[m..];
    ProcessFromConcat(s, cand[..m], cand[m..]);
    assert cand[m..][0] == cand[m] && cand[m..][1..] == cand[m + 1..];
  }

  /**
   * Serving distinct candidates, the `m`-th is served from the state its predecessors
   * left until it reaches its limit or the selector answers empty during its own turn,
   * and the candidates served after it leave it as its turn did.
   */
  lemma ProcessFromServesEach(s: State, cand: seq<nat>, m: nat)
    requires ValidState(s) && PeerIndices(cand, |s.peers|) && Distinct(cand) && m < |cand|
    ensures PeerIndices(cand[..m], |s.peers|)
    ensures var mid := ProcessFrom(s, cand[..m]);
      var after := ServePeer(mid, cand[m]);
      && StoppedAt(mid, after, cand[m])
      && ProcessFrom(s, cand).peers[cand[m]] == after.peers[cand[m]]
  {
    ProcessFromSplit(s, cand, m);
    var mid := ProcessFrom(s, cand[..m]);
    var after := ServePeer(mid, cand[m]);
    ServePeerStops(mid, cand[m]);
    ProcessFromPending(after, cand[m + 1..]);
    assert cand[m] !in cand[m + 1..];
  }

  /**
   * Progress of a `process` pass, peer by peer: the `m`-th relevant peer is served from
   * the state its predecessors left (`mid`) until it reaches its request limit or the
   * selector answers empty during its own turn, and the peers served after it leave
   * it as its turn did. An empty answer for one peer does not excuse the next: the
   * next peer's turn starts afresh.
   */
  lemma ProcessServesEach(s: State, m: nat)
    requires ValidState(s) && m < |RelevantPeers(s.peers, NeededPieces(s.pieces))|
    ensures var cand := RelevantPeers(s.peers, NeededPieces(s.pieces));
      var mid := ProcessFrom(s, cand[..m]);
      var after := ServePeer(mid, cand[m]);
      && StoppedAt(mid, after, cand[m])
      && ProcessSpec(s).peers[cand[m]] == after.peers[cand[m]]
  {
    var cand := RelevantPeers(s.peers, NeededPieces(s.pieces));
    ProcessFromServesEach(s, cand, m);
  }

  /** Serving a peer against a selector that only answers empty changes nothing but the selector. */
  lemma {:induction false} ServePeerSilent(s: State, j: nat)
    requires ValidState(s) && j < |s.peers|
    requires forall k :: 0 <= k < |s.answers| ==> s.answers[k].None?
    ensures var r := ServePeer(s, j);
      && r.pieces == s.pieces && r.peers == s.peers && r.sent == s.sent
      && forall k :: 0 <= k < |r.answers| ==> r.answers[k].None?
  {
  }

  lemma {:induction false} ProcessFromSilent(s: State, cand: seq<nat>)
    requires ValidState(s) && PeerIndices(cand, |s.peers|)
    requires forall k :: 0 <= k < |s.answers| ==> s.answers[k].None?
    ensures var r := ProcessFrom(s, cand); r.pieces == s.pieces && r.peers == s.peers && r.sent == s.sent
    decreases |cand|
  {
    if cand != [] {
      ServePeerSilent(s, cand[0]);
      ProcessFromSilent(ServePeer(s, cand[0]), cand[1..]);
    }
  }

  /** A selector that answers empty: `process` sends nothing and changes no block or peer. */
  lemma EmptySelectorSendsNothing(s: State)
    requires ValidState(s)
    requires forall k :: 0 <= k < |s.answers| ==> s.answers[k].None?
    ensures var r := ProcessSpec(s); r.pieces == s.pieces && r.peers == s.peers && r.sent == s.sent
  {
    ProcessFromSilent(s, RelevantPeers(s.peers, NeededPieces(s.pieces)));
  }

  /** Once every piece is done no peer is relevant and `process` does nothing at all. */
  lemma DoneMeansNothingToRequest(s: State)
    requires ValidState(s)
    requires forall i :: 0 <= i < |s.pieces| ==> PieceDone(s.pieces[i])
    ensures RelevantPeers(s.peers, NeededPieces(s.pieces)) == []
    ensures ProcessSpec(s) == s
  {
    assert NeededPieces(s.pieces) == {};
    NobodyRelevant(s.peers, {});
  }

  lemma {:induction false} NobodyRelevant(peers: seq<Peer>, needed: set<nat>)
    requires needed == {}
    ensures RelevantPeers(peers, needed) == []
    decreases |peers|
  {
    if peers != [] {
      NobodyRelevant(peers[..|peers| - 1], needed);
    }
  }

  // ---------------------------------------------------------------------------
  // The scenarios of the scheduler's tests
  // ---------------------------------------------------------------------------

  function Repeat<T>(x: T, n: nat): (r: seq<T>)
    ensures |r| == n && forall k :: 0 <= k < n ==> r[k] == x
  {
    seq(n, _ => x)
  }

  /**
   * One unchoked peer that has piece 0 and may have `limit` outstanding requests; one
   * 8-byte piece in 4-byte blocks, all needed; the selector names piece 0 on each of
   * its next `calls` calls.
   */
  function LimitScenario(limit: nat, calls: nat): State
  {
    State([Piece(8, 4, [Needed, Needed])], [Peer(false, {0}, limit, 0)], Repeat(Some(0), calls), 0, [])
  }

  lemma LimitScenarioCandidates(limit: nat, calls: nat)
    ensures ValidState(LimitScenario(limit, calls))
    ensures RelevantPeers(LimitScenario(limit, calls).peers, NeededPieces(LimitScenario(limit, calls).pieces)) == [0]
  {
    var s := LimitScenario(limit, calls);
    assert s.pieces[0].blocks[0] == Needed;
    assert 0 in NeededPieces(s.pieces);
    assert Relevant(s.peers[0], NeededPieces(s.pieces));
    assert s.peers[..0] == [];
  }

  /** Limit 1 and a selector that always offers the piece: exactly one request, block 0. */
  lemma LimitOneSendsOneRequest(calls: nat)
    requires calls >= 1
    ensures ProcessSpec(LimitScenario(1, calls)).sent == [Sent(0, 0, Request(0, 0, 4))]
  {
    var s := LimitScenario(1, calls);
    LimitScenarioCandidates(1, calls);
    var s1 := s.(answers := s.answers[1..], queries := 1);
    var g := Grant(s1, 0, 0, 0);
    assert ServePeer(s, 0) == ServePeer(g, 0) == g;
    assert [0][1..] == [];
    assert ProcessSpec(s) == ProcessFrom(g, []);
  }

  /** Limit 2 on an 8-byte piece of 4-byte blocks: exactly two requests, offsets 0 and 4. */
  lemma LimitTwoSendsTwoRequests(calls: nat)
    requires calls >= 2
    ensures ProcessSpec(LimitScenario(2, calls)).sent
         == [Sent(0, 0, Request(0, 0, 4)), Sent(0, 1, Request(0, 4, 4))]
  {
    var s := LimitScenario(2, calls);
    LimitScenarioCandidates(2, calls);
    var s1 := s.(answers := s.answers[1..], queries := 1);
    var g1 := Grant(s1, 0, 0, 0);
    assert g1.answers[0] == Some(0);
    var s2 := g1.(answers := g1.answers[1..], queries := 2);
    assert s2.pieces[0].blocks == [Requested, Needed];
    var g2 := Grant(s2, 0, 0, 1);
    assert ServePeer(s, 0) == ServePeer(g1, 0) == ServePeer(g2, 0) == g2;
    assert [0][1..] == [];
    assert ProcessSpec(s) == ProcessFrom(g2, []);
  }

  /** One peer, one piece whose only block is already requested, and the given answers. */
  function RaceScenario(answers: seq<Option<nat>>): State
  {
    State([Piece(4, 4, [Requested])], [Peer(false, {0}, 1, 0)], answers, 0, [])
  }

  lemma RaceScenarioCandidates(answers: seq<Option<nat>>)
    ensures RelevantPeers(RaceScenario(answers).peers, NeededPieces(RaceScenario(answers).pieces)) == [0]
  {
    var s := RaceScenario(answers);
    assert s.pieces[0].blocks[0] == Requested;
    assert 0 in NeededPieces(s.pieces);
    assert Relevant(s.peers[0], NeededPieces(s.pieces));
    assert s.peers[..0] == [];
  }

  /**
   * The selector names a piece whose last needed block was already given away, then
   * answers empty: the selector is asked exactly twice and nothing is enqueued.
   */
  lemma RaceLossAsksAgain()
    ensures var r := ProcessSpec(RaceScenario([Some(0), None]));
      r.sent == [] && r.queries == 2 && r.answers == []
  {
    var s := RaceScenario([Some(0), None]);
    RaceScenarioCandidates([Some(0), None]);
    var s1 := s.(answers := [None], queries := 1);
    assert FirstNeeded(s.pieces[0].blocks) == None;
    var s2 := s1.(answers := [], queries := 2);
    assert ServePeer(s, 0) == ServePeer(s1, 0) == s2;
    assert [0][1..] == [];
    assert ProcessSpec(s) == ProcessFrom(s2, []);
  }

  // ---------------------------------------------------------------------------
  // The phase, over a torrent whose state the methods update in place
  // ---------------------------------------------------------------------------

  datatype SelectorKind = DefaultSelect | FullPieceSelect

  /** `onPhaseEnter` either succeeds or fails with the download-folder error. */
  datatype EnterOutcome = Entered | DownloadFolderNotCreated

  class Torrent {
    var pieces: seq<Piece>
    var peers: seq<Peer>
    var selectorAnswers: seq<Option<nat>>
    var selectorQueries: nat
    var sent: seq<Sent>
    var pieceSelector: SelectorKind
    var progressChecks: nat
    var downloadFolderExists: bool

    function Snapshot(): State
      reads this
    {
      State(pieces, peers, selectorAnswers, selectorQueries, sent)
    }

    ghost predicate Valid()
      reads this
    {
      ValidState(Snapshot())
    }
  }

  /** `isDone`: the phase is done when the file set reports every piece done. */
  function IsDone(t: Torrent): (done: bool)
    requires t.Valid()
    reads t
    ensures done <==> NeededPieces(t.pieces) == {}
    ensures done ==> ProcessSpec(t.Snapshot()) == t.Snapshot()
  {
    if forall i :: 0 <= i < |t.pieces| ==> PieceDone(t.pieces[i]) then
      DoneMeansNothingToRequest(t.Snapshot());
      true
    else
      var i :| 0 <= i < |t.pieces| && !PieceDone(t.pieces[i]);
      assert i in NeededPieces(t.pieces);
      false
  }

  /**
   * `onPhaseEnter`: the torrent re-checks its progress and gets the full-piece
   * selector whatever happens; then the download folder must exist or be created,
   * else the phase fails with the download-folder error.
   */
  method OnPhaseEnter(t: Torrent, mkdirsSucceeds: bool) returns (r: EnterOutcome)
    modifies t
    ensures t.progressChecks == old(t.progressChecks) + 1
    ensures t.pieceSelector == FullPieceSelect
    ensures t.downloadFolderExists == (old(t.downloadFolderExists) || mkdirsSucceeds)
    ensures r == if t.downloadFolderExists then Entered else DownloadFolderNotCreated
    ensures t.Snapshot() == old(t.Snapshot())
  {
    t.progressChecks := t.progressChecks + 1;
    t.pieceSelector := FullPieceSelect;
    if !t.downloadFolderExists {
      t.downloadFolderExists := mkdirsSucceeds;
    }
    r := if t.downloadFolderExists then Entered else DownloadFolderNotCreated;
  }

  /** `IPieceSelector.getPieceForPeer`: the selector's next answer, empty once it has none. */
  method AskSelector(t: Torrent) returns (answer: Option<nat>)
    modifies t
    ensures t.selectorQueries == old(t.selectorQueries) + 1
    ensures old(t.selectorAnswers) == [] ==> answer.None? && t.selectorAnswers == []
    ensures old(t.selectorAnswers) != [] ==>
      answer == old(t.selectorAnswers)[0] && t.selectorAnswers == old(t.selectorAnswers)[1..]
    ensures t.pieces == old(t.pieces) && t.peers == old(t.peers) && t.sent == old(t.sent)
    ensures t.pieceSelector == old(t.pieceSelector) && t.progressChecks == old(t.progressChecks)
    ensures t.downloadFolderExists == old(t.downloadFolderExists)
  {
    answer := None;
    if t.selectorAnswers != [] {
      answer := t.selectorAnswers[0];
      t.selectorAnswers := t.selectorAnswers[1..];
    }
    t.selectorQueries := t.selectorQueries + 1;
  }

  /** Mark block `b` of piece `i` requested and enqueue its request for peer `j`. */
  method RequestBlock(t: Torrent, j: nat, i: nat, b: nat)
    requires t.Valid() && j < |t.peers| && i < |t.pieces| && b < |t.pieces[i].blocks|
    modifies t
    ensures t.Valid()
    ensures t.Snapshot() == Grant(old(t.Snapshot()), j, i, b)
    ensures t.pieceSelector == old(t.pieceSelector) && t.progressChecks == old(t.progressChecks)
    ensures t.downloadFolderExists == old(t.downloadFolderExists)
  {
    var piece := t.pieces[i];
    t.pieces := t.pieces[i := piece.(blocks := piece.blocks[b := Requested])];
    t.peers := t.peers[j := t.peers[j].(pending := t.peers[j].pending + 1)];
    t.sent := t.sent + [Sent(j, b, Request(i, b * piece.blockSize, BlockLength(piece, b)))];
  }

  /**
   * The per-peer request loop of `process`: while the peer is under its request
   * limit, ask the selector for a piece and request that piece's first needed block.
   */
  method RequestPieces(t: Torrent, j: nat)
    requires t.Valid() && j < |t.peers|
    modifies t
    ensures t.Valid()
    ensures t.Snapshot() == ServePeer(old(t.Snapshot()), j)
    ensures t.pieceSelector == old(t.pieceSelector) && t.progressChecks == old(t.progressChecks)
    ensures t.downloadFolderExists == old(t.downloadFolderExists)
  {
    ghost var goal := ServePeer(t.Snapshot(), j);
    while t.peers[j].pending < t.peers[j].requestLimit
      invariant t.Valid() && j < |t.peers|
      invariant ServePeer(t.Snapshot(), j) == goal
      invariant t.pieceSelector == old(t.pieceSelector) && t.progressChecks == old(t.progressChecks)
      invariant t.downloadFolderExists == old(t.downloadFolderExists)
      decreases |t.selectorAnswers|
    {
      ghost var before := t.Snapshot();
      var answer := AskSelector(t);
      if answer.None? {
        assert t.Snapshot() == ServePeer(before, j);
        break;
      }
      var i := answer.value;
      assert t.Snapshot() == before.(answers := before.answers[1..], queries := before.queries + 1);
      var block := FirstNeeded(t.pieces[i].blocks);
      if block.None? {
        continue;
      }
      RequestBlock(t, j, i, block.value);
    }
  }

  /** `process`: the relevant peers, chosen once, each go through the request loop. */
  method Process(t: Torrent)
    requires t.Valid()
    modifies t
    ensures t.Valid()
    ensures t.Snapshot() == ProcessSpec(old(t.Snapshot()))
    ensures t.pieceSelector == old(t.pieceSelector) && t.progressChecks == old(t.progressChecks)
    ensures t.downloadFolderExists == old(t.downloadFolderExists)
  {
    var candidates := RelevantPeers(t.peers, NeededPieces(t.pieces));
    ghost var n := |t.peers|;
    ghost var goal := ProcessSpec(t.Snapshot());
    for c := 0 to |candidates|
      invariant t.Valid() && |t.peers| == n
      invariant PeerIndices(candidates, n)
      invariant ProcessFrom(t.Snapshot(), candidates[c..]) == goal
      invariant t.pieceSelector == old(t.pieceSelector) && t.progressChecks == old(t.progressChecks)
      invariant t.downloadFolderExists == old(t.downloadFolderExists)
    {
      assert candidates[c..][1..] == candidates[c + 1..];
      RequestPieces(t, candidates[c]);
    }
  }
}
