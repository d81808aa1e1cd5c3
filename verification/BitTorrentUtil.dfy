/**
 * What happens right after a handshake: the socket is marked as past the handshake,
 * the pieces we own are announced to the peer, and the peer joins its torrent.
 * Announcing uses one Bitfield message or one Have message per owned piece, whichever
 * is shorter on the wire (the message formats of BEP 3, "peer messages").
 */
module BitTorrentUtil {
  import opened Common

  datatype Message = Bitfield(bytes: seq<bv8>) | Have(pieceIndex: nat)

  /** The body length of a message: its id byte and payload, without the length prefix. */
  function BodyLength(m: Message): nat
  {
    match m
    case Bitfield(bytes) => 1 + |bytes|
    case Have(_) => 5
  }

  function TotalLength(ms: seq<Message>): nat
  {
    if ms == [] then 0 else TotalLength(ms[..|ms| - 1]) + BodyLength(ms[|ms| - 1])
  }

  /** `countCompletedPieces`: how many pieces we have. */
  function CountCompleted(have: seq<bool>): (c: nat)
    ensures c == |Owned(have)|
  {
    if have == [] then 0
    else
      var n := |have| - 1;
      var c := CountCompleted(have[..n]) + (if have[n] then 1 else 0);
      assert Owned(have) == Owned(have[..n]) + (if have[n] then {n} else {});
      c
  }

  /** The indices of the pieces we have. */
  function Owned(have: seq<bool>): set<nat>
  {
    set i: nat | i < |have| && have[i]
  }

  /** One Have message for every owned piece among the first `n`, by ascending index. */
  function Haves(have: seq<bool>, n: nat): seq<Message>
    requires n <= |have|
  {
    if n == 0 then [] else Haves(have, n - 1) + (if have[n - 1] then [Have(n - 1)] else [])
  }

  /** The size comparison that picks a Bitfield over Have messages. */
  predicate PreferBitfield(pieceCount: nat, completed: nat)
  {
    CeilDiv(pieceCount, 8) + 1 < 5 * completed
  }

  /** The messages `sendHaveMessages` enqueues. */
  function Announcements(downloadingMetadata: bool, have: seq<bool>, bitfield: seq<bv8>): (ms: seq<Message>)
    ensures ms != [] <==> !downloadingMetadata && CountCompleted(have) > 0
    ensures forall k :: 0 <= k < |ms| ==> ms[k].Have? || ms[k] == Bitfield(bitfield)
  {
    HavesCount(have, |have|);
    HavesSorted(have, |have|);
    assert have[..|have|] == have;
    if downloadingMetadata then []
    else if CountCompleted(have) == 0 then []
    else if PreferBitfield(|have|, CountCompleted(have)) then [Bitfield(bitfield)]
    else Haves(have, |have|)
  }

  /** There is one Have message, five bytes long, per owned piece below `n`. */
  lemma {:induction false} HavesCount(have: seq<bool>, n: nat)
    requires n <= |have|
    ensures |Haves(have, n)| == CountCompleted(have[..n])
    ensures TotalLength(Haves(have, n)) == 5 * |Haves(have, n)|
  {
    if n > 0 {
      HavesCount(have, n - 1);
      assert have[..n][..n - 1] == have[..n - 1];
      var hs, prev := Haves(have, n), Haves(have, n - 1);
      assert CountCompleted(have[..n]) == CountCompleted(have[..n - 1]) + (if have[n - 1] then 1 else 0);
      if have[n - 1] {
        assert hs[..|hs| - 1] == prev;
        assert TotalLength(hs) == TotalLength(prev) + BodyLength(Have(n - 1));
      } else {
        assert hs == prev;
      }
    }
  }

  /** The Have messages name only owned pieces below `n`, by strictly ascending index. */
  lemma {:induction false} HavesSorted(have: seq<bool>, n: nat)
    requires n <= |have|
    ensures forall k :: 0 <= k < |Haves(have, n)| ==>
      Haves(have, n)[k].Have? && Haves(have, n)[k].pieceIndex < n && have[Haves(have, n)[k].pieceIndex]
    ensures forall k, l :: 0 <= k < l < |Haves(have, n)| ==>
      Haves(have, n)[k].pieceIndex < Haves(have, n)[l].pieceIndex
  {
    if n > 0 {
      HavesSorted(have, n - 1);
      var hs, prev := Haves(have, n), Haves(have, n - 1);
      if have[n - 1] {
        assert hs == prev + [Have(n - 1)];
      } else {
        assert hs == prev;
      }
    }
  }

  /** Every owned piece below `n` has its Have message. */
  lemma {:induction false} HavesComplete(have: seq<bool>, n: nat)
    requires n <= |have|
    ensures forall i :: 0 <= i < n && have[i] ==> Have(i) in Haves(have, n)
  {
    if n > 0 {
      HavesComplete(have, n - 1);
      var hs, prev := Haves(have, n), Haves(have, n - 1);
      if have[n - 1] {
        assert hs[|hs| - 1] == Have(n - 1);
      }
    }
  }

  /**
   * The Have messages name exactly the owned pieces below `n`, once each and in
   * ascending order, so there are as many of them as owned pieces.
   */
  lemma HavesExact(have: seq<bool>, n: nat)
    requires n <= |have|
    ensures var hs := Haves(have, n);
      && |hs| == CountCompleted(have[..n])
      && (forall k :: 0 <= k < |hs| ==> hs[k].Have? && hs[k].pieceIndex < n && have[hs[k].pieceIndex])
      && (forall k, l :: 0 <= k < l < |hs| ==> hs[k].pieceIndex < hs[l].pieceIndex)
      && (forall i :: 0 <= i < n && have[i] ==> Have(i) in hs)
      && TotalLength(hs) == 5 * |hs|
  {
    HavesCount(have, n);
    HavesSorted(have, n);
    HavesComplete(have, n);
  }

  /**
   * Nothing is announced while metadata is being fetched or when no piece is owned;
   * otherwise exactly one Bitfield when the size comparison favours it, else one Have
   * per owned piece, ascending, and none for a piece not owned.
   */
  lemma AnnouncementsSpec(downloadingMetadata: bool, have: seq<bool>, bitfield: seq<bv8>)
    ensures var ms := Announcements(downloadingMetadata, have, bitfield);
      && (downloadingMetadata || CountCompleted(have) == 0 ==> ms == [])
      && (!downloadingMetadata && CountCompleted(have) > 0 && PreferBitfield(|have|, CountCompleted(have))
          ==> ms == [Bitfield(bitfield)])
      && (!downloadingMetadata && !PreferBitfield(|have|, CountCompleted(have)) ==>
            && |ms| == CountCompleted(have)
            && (forall k :: 0 <= k < |ms| ==> ms[k].Have? && ms[k].pieceIndex < |have| && have[ms[k].pieceIndex])
            && (forall k, l :: 0 <= k < l < |ms| ==> ms[k].pieceIndex < ms[l].pieceIndex)
            && (forall i :: 0 <= i < |have| && have[i] ==> Have(i) in ms))
  {
    HavesExact(have, |have|);
    assert have[..|have|] == have;
  }

  /**
   * When pieces are announced with a bitfield of ceil(pieceCount / 8) bytes, the
   * messages chosen are the shorter of the two encodings (Have messages on a tie).
   */
  lemma ShorterEncoding(have: seq<bool>, bitfield: seq<bv8>)
    requires |bitfield| == CeilDiv(|have|, 8)
    requires CountCompleted(have) > 0
    ensures TotalLength(Announcements(false, have, bitfield))
         == Min(BodyLength(Bitfield(bitfield)), 5 * CountCompleted(have))
  {
    HavesExact(have, |have|);
    assert have[..|have|] == have;
    assert TotalLength([Bitfield(bitfield)]) == TotalLength([]) + BodyLength(Bitfield(bitfield));
  }

  class BitTorrentSocket {
    var passedHandshake: bool
    var queue: seq<Message>

    constructor ()
      ensures !passedHandshake && queue == []
    {
      passedHandshake := false;
      queue := [];
    }
  }

  class Torrent {
    var downloadingMetadata: bool
    /** `hasPiece` for each piece index of the file set. */
    var have: seq<bool>
    /** `getBitfieldBytes` of the file set. */
    var bitfield: seq<bv8>
    var peers: seq<Peer>
  }

  class Peer {
    const socket: BitTorrentSocket
    const torrent: Torrent

    constructor (socket: BitTorrentSocket, torrent: Torrent)
      ensures this.socket == socket && this.torrent == torrent
    {
      this.socket := socket;
      this.torrent := torrent;
    }
  }

  /** `sendHaveMessages`: enqueue the announcements on the peer's socket. */
  method SendHaveMessages(peer: Peer)
    modifies peer.socket
    ensures peer.socket.queue
         == old(peer.socket.queue) + Announcements(peer.torrent.downloadingMetadata, peer.torrent.have, peer.torrent.bitfield)
    ensures peer.socket.passedHandshake == old(peer.socket.passedHandshake)
  {
    var torrent := peer.torrent;
    if torrent.downloadingMetadata {
      return;
    }
    var completed := CountCompleted(torrent.have);
    if completed == 0 {
      return;
    }
    if CeilDiv(|torrent.have|, 8) + 1 < 5 * completed {
      peer.socket.queue := peer.socket.queue + [Bitfield(torrent.bitfield)];
    } else {
      for pieceIndex := 0 to |torrent.have|
        invariant peer.socket.queue == old(peer.socket.queue) + Haves(torrent.have, pieceIndex)
        invariant peer.socket.passedHandshake == old(peer.socket.passedHandshake)
      {
        if !torrent.have[pieceIndex] {
          continue;
        }
        peer.socket.queue := peer.socket.queue + [Have(pieceIndex)];
      }
    }
  }

  /**
   * `onPostHandshake`: mark the socket as past the handshake, announce our pieces,
   * then add the peer to its torrent.
   */
  method OnPostHandshake(peer: Peer)
    modifies peer.socket, peer.torrent
    ensures peer.socket.passedHandshake
    ensures peer.socket.queue
         == old(peer.socket.queue) + Announcements(peer.torrent.downloadingMetadata, peer.torrent.have, peer.torrent.bitfield)
    ensures peer.torrent.peers == old(peer.torrent.peers) + [peer]
    ensures peer.torrent.have == old(peer.torrent.have) && peer.torrent.bitfield == old(peer.torrent.bitfield)
    ensures peer.torrent.downloadingMetadata == old(peer.torrent.downloadingMetadata)
  {
    peer.socket.passedHandshake := true;
    SendHaveMessages(peer);
    peer.torrent.peers := peer.torrent.peers + [peer];
  }
}
