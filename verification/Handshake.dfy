/**
 * The BitTorrent handshake of BEP 3 ("peer protocol"): a 68-byte frame made of the
 * length byte 19, the protocol string "BitTorrent protocol", 8 extension bytes, the
 * 20-byte info hash of the torrent and the 20-byte peer id.
 *
 * The handler keeps one pending selection key per connection that has not finished its
 * handshake. Every poll reads what the ready connections offer, decides each complete
 * handshake, hands the accepted peers to their torrent and closes connections that
 * started more than five seconds ago.
 */
module Handshake {
  import opened Common

  type Byte = bv8
  type SocketId = nat

  const HandshakeSize: nat := 68
  const ProtocolLength: nat := 19
  /** "BitTorrent protocol" in ASCII. */
  const ProtocolName: seq<Byte> :=
    [0x42, 0x69, 0x74, 0x54, 0x6f, 0x72, 0x72, 0x65, 0x6e, 0x74,
     0x20, 0x70, 0x72, 0x6f, 0x74, 0x6f, 0x63, 0x6f, 0x6c]
  const ExtensionOffset: nat := 20
  const HashOffset: nat := 28
  const PeerIdOffset: nat := 48
  /** Five seconds, in nanoseconds. */
  const TimeoutNanos: int := 5_000_000_000

  /** The handshake frame for the given extension bytes, info hash and peer id. */
  function BuildFrame(extension: seq<Byte>, hash: seq<Byte>, peerId: seq<Byte>): (f: seq<Byte>)
    requires |extension| == 8 && |hash| == 20 && |peerId| == 20
    ensures |f| == HandshakeSize
    ensures f[0] == ProtocolLength as Byte && f[1..ExtensionOffset] == ProtocolName
    ensures f[ExtensionOffset..HashOffset] == extension
    ensures f[HashOffset..PeerIdOffset] == hash && f[PeerIdOffset..] == peerId
  {
    [ProtocolLength as Byte] + ProtocolName + extension + hash + peerId
  }

  datatype Violation =
    | IncorrectLength   // the first byte is not 19
    | IncorrectProtocol // the protocol string is not "BitTorrent protocol"
    | UnknownTorrent    // an incoming peer asks for a torrent we do not have
    | DifferentTorrent  // the peer we dialled answers with another torrent
    | TorrentRemoved    // the torrent we dialled for is no longer known

  datatype Outcome =
    | Accepted(peerId: seq<Byte>, extension: seq<Byte>, hash: seq<Byte>, reply: bool)
    | Rejected(reason: Violation)

  /** The header of a frame: the length byte and the protocol string. */
  predicate HeaderOk(frame: seq<Byte>)
    requires |frame| == HandshakeSize
  {
    frame[0] == ProtocolLength as Byte && frame[1..ExtensionOffset] == ProtocolName
  }

  /**
   * `onHandshakeReceived`: the decision on a complete frame. `expected` is the info hash
   * we dialled for (`None` for an incoming connection); `known` are the info hashes of
   * the torrents the client has. An incoming peer is looked up by its hash and answered
   * with our own handshake; a dialled peer must name the hash we asked for.
   */
  function Decide(frame: seq<Byte>, expected: Option<seq<Byte>>, known: set<seq<Byte>>): (o: Outcome)
    requires |frame| == HandshakeSize
    ensures o.Accepted? <==>
      HeaderOk(frame) && frame[HashOffset..PeerIdOffset] in known
      && (expected.Some? ==> expected.value == frame[HashOffset..PeerIdOffset])
    ensures o.Accepted? ==>
      && o.extension == frame[ExtensionOffset..HashOffset]
      && o.hash == frame[HashOffset..PeerIdOffset]
      && o.peerId == frame[PeerIdOffset..]
      && o.reply == expected.None?
    ensures o == Rejected(IncorrectLength) <==> frame[0] != ProtocolLength as Byte
    ensures o == Rejected(IncorrectProtocol) <==>
      frame[0] == ProtocolLength as Byte && frame[1..ExtensionOffset] != ProtocolName
    ensures o == Rejected(UnknownTorrent) <==>
      HeaderOk(frame) && expected.None? && frame[HashOffset..PeerIdOffset] !in known
    ensures o == Rejected(DifferentTorrent) <==>
      HeaderOk(frame) && expected.Some? && expected.value != frame[HashOffset..PeerIdOffset]
    ensures o == Rejected(TorrentRemoved) <==>
      HeaderOk(frame) && expected == Some(frame[HashOffset..PeerIdOffset])
      && frame[HashOffset..PeerIdOffset] !in known
  {
    var hash := frame[HashOffset..PeerIdOffset];
    if frame[0] != ProtocolLength as Byte then Rejected(IncorrectLength)
    else if frame[1..ExtensionOffset] != ProtocolName then Rejected(IncorrectProtocol)
    else if expected.None? && hash !in known then Rejected(UnknownTorrent)
    else if expected.Some? && expected.value != hash then Rejected(DifferentTorrent)
    else if hash !in known then Rejected(TorrentRemoved)
    else Accepted(frame[PeerIdOffset..], frame[ExtensionOffset..HashOffset], hash, expected.None?)
  }

  /**
   * A frame we build is accepted exactly when its torrent is known and, for a dialled
   * peer, is the one we asked for; the fields come back unchanged.
   */
  lemma DecideBuildFrame(extension: seq<Byte>, hash: seq<Byte>, peerId: seq<Byte>,
                         expected: Option<seq<Byte>>, known: set<seq<Byte>>)
    requires |extension| == 8 && |hash| == 20 && |peerId| == 20
    ensures Decide(BuildFrame(extension, hash, peerId), expected, known)
         == if expected.Some? && expected.value != hash then Rejected(DifferentTorrent)
            else if hash !in known then
              (if expected.None? then Rejected(UnknownTorrent) else Rejected(TorrentRemoved))
            else Accepted(peerId, extension, hash, expected.None?)
  {
    var f := BuildFrame(extension, hash, peerId);
    assert HeaderOk(f);
  }

  /** `now - 5 s` is after the start of the connection. */
  predicate TimedOut(now: int, start: int)
    ensures TimedOut(now, start) <==> now - start > 5 * 1_000_000_000
  {
    now - TimeoutNanos > start
  }

  /**
   * A selection key with its handshake state: the connection, the hash we dialled for,
   * when the connection started, the bytes of the handshake read so far and whether the
   * key has been cancelled.
   */
  datatype Key = Key(socket: SocketId, expected: Option<seq<Byte>>, start: int,
                     buffer: seq<Byte>, cancelled: bool)

  /** What a ready connection yields when read during one poll. */
  datatype Readiness = Data(bytes: seq<Byte>) | ReadError

  /**
   * What the network does during one poll: the connections the selector reports ready,
   * and how many bytes each connection accepts on a write (all of them when absent).
   */
  datatype Io = Io(ready: map<SocketId, Readiness>, capacity: map<SocketId, nat>)

  function Accepts(io: Io, socket: SocketId): nat
  {
    if socket in io.capacity then io.capacity[socket] else HandshakeSize
  }

  /** Bytes written on a connection. */
  datatype Write = Write(socket: SocketId, bytes: seq<Byte>)

  /** A peer handed to its torrent and to the peer I/O handler. */
  datatype Handoff = Handoff(socket: SocketId, peerId: seq<Byte>, extension: seq<Byte>, torrent: seq<Byte>)

  /**
   * The observable state of the handler: our extension bytes and peer id, the keys
   * registered with the selector, the closed connections, the writes, the hand-offs and
   * the info hash currently held in the shared outgoing frame.
   */
  datatype State = State(extension: seq<Byte>, peerId: seq<Byte>, keys: seq<Key>,
                         closed: set<SocketId>, writes: seq<Write>, handoffs: seq<Handoff>,
                         hashSlot: seq<Byte>)

  /** A key never holds more than a frame, and a key with a full frame is cancelled. */
  predicate KeysWellFormed(keys: seq<Key>)
  {
    forall k :: 0 <= k < |keys| ==>
      |keys[k].buffer| <= HandshakeSize && (!keys[k].cancelled ==> |keys[k].buffer| < HandshakeSize)
  }

  predicate StateWellFormed(s: State)
  {
    |s.extension| == 8 && |s.peerId| == 20 && |s.hashSlot| == 20 && KeysWellFormed(s.keys)
  }

  /** Cancelled keys leave the selector at the start of the next selection. */
  function Registered(keys: seq<Key>): (r: seq<Key>)
    ensures forall k :: 0 <= k < |r| ==> !r[k].cancelled
    ensures forall key :: key in r <==> key in keys && !key.cancelled
    ensures KeysWellFormed(keys) ==> KeysWellFormed(r)
    ensures DistinctSockets(keys) ==> DistinctSockets(r)
  {
    if keys == [] then []
    else
      var front := Registered(keys[..|keys| - 1]);
      var last := keys[|keys| - 1];
      assert forall key :: key in keys <==> key in keys[..|keys| - 1] || key == last;
      assert DistinctSockets(keys) ==> DistinctSockets(keys[..|keys| - 1]);
      assert DistinctSockets(keys) ==> forall key :: key in keys[..|keys| - 1] ==> key.socket != last.socket;
      if last.cancelled then front else front + [last]
  }

  /**
   * A complete frame is acceptable when its header is right, it names a torrent we
   * have and, on a connection we dialled, the torrent we dialled for.
   */
  predicate Acceptable(frame: seq<Byte>, expected: Option<seq<Byte>>, known: set<seq<Byte>>)
    requires |frame| == HandshakeSize
  {
    && HeaderOk(frame) && frame[HashOffset..PeerIdOffset] in known
    && (expected.Some? ==> expected.value == frame[HashOffset..PeerIdOffset])
  }

  /** The peer described by a complete frame received on `socket`. */
  function FrameHandoff(socket: SocketId, frame: seq<Byte>): Handoff
    requires |frame| == HandshakeSize
  {
    Handoff(socket, frame[PeerIdOffset..], frame[ExtensionOffset..HashOffset], frame[HashOffset..PeerIdOffset])
  }

  /** The frame we answer an incoming handshake with, cut to what the connection accepts. */
  function Reply(s: State, io: Io, socket: SocketId, hash: seq<Byte>): seq<Byte>
    requires |s.extension| == 8 && |s.peerId| == 20 && |hash| == 20
  {
    BuildFrame(s.extension, hash, s.peerId)[..Min(Accepts(io, socket), HandshakeSize)]
  }

  /**
   * `onHandshakeReceived` for key `i`, whose buffer now holds the whole `frame`: the key
   * is cancelled. A rejected frame, or a reply that does not fit, closes the connection;
   * otherwise the peer is handed off, after our reply when it connected to us.
   */
  function ReceiveFrame(s: State, i: nat, frame: seq<Byte>, io: Io, known: set<seq<Byte>>): (r: State)
    requires StateWellFormed(s) && i < |s.keys| && |frame| == HandshakeSize
    ensures StateWellFormed(r) && r.extension == s.extension && r.peerId == s.peerId
    ensures r.keys == s.keys[i := s.keys[i].(buffer := frame, cancelled := true)]
    ensures r.closed == s.closed || r.closed == s.closed + {s.keys[i].socket}
    ensures |r.handoffs| == |s.handoffs| || |r.handoffs| == |s.handoffs| + 1
    ensures r.handoffs[..|s.handoffs|] == s.handoffs
    ensures |s.writes| <= |r.writes| && r.writes[..|s.writes|] == s.writes
    ensures |r.handoffs| > |s.handoffs| ==>
      var h := r.handoffs[|s.handoffs|];
      && h.socket == s.keys[i].socket && h.torrent in known
      && (s.keys[i].expected.Some? ==> s.keys[i].expected.value == h.torrent)
      && r.closed == s.closed
  {
    var key := s.keys[i];
    var done := s.keys[i := key.(buffer := frame, cancelled := true)];
    match Decide(frame, key.expected, known)
    case Rejected(_) =>
      s.(keys := done, closed := s.closed + {key.socket})
    case Accepted(peerId, extension, hash, reply) =>
      var handoff := Handoff(key.socket, peerId, extension, hash);
      if !reply then
        s.(keys := done, handoffs := s.handoffs + [handoff])
      else
        var answered := s.(hashSlot := hash,
                           writes := s.writes + [Write(key.socket, Reply(s, io, key.socket, hash))]);
        if Accepts(io, key.socket) < HandshakeSize then
          answered.(keys := done, closed := s.closed + {key.socket})
        else
          answered.(keys := done, handoffs := s.handoffs + [handoff])
  }

  /**
   * `handlePeer` for key `i`: read what fits in the handshake buffer and, once the frame
   * is complete, receive it. A read failure closes the connection (which cancels its
   * key); an accepted peer is handed off and its key cancelled.
   */
  function HandleKey(s: State, i: nat, io: Io, known: set<seq<Byte>>): (r: State)
    requires StateWellFormed(s) && i < |s.keys| && s.keys[i].socket in io.ready
    ensures StateWellFormed(r) && r.extension == s.extension && r.peerId == s.peerId
    ensures |r.keys| == |s.keys| && forall k :: 0 <= k < |s.keys| && k != i ==> r.keys[k] == s.keys[k]
    ensures r.keys[i].socket == s.keys[i].socket && r.keys[i].expected == s.keys[i].expected
    ensures r.keys[i].start == s.keys[i].start
    ensures s.keys[i].cancelled ==> r.keys[i].cancelled
    ensures r.closed == s.closed || r.closed == s.closed + {s.keys[i].socket}
    ensures |r.handoffs| == |s.handoffs| || |r.handoffs| == |s.handoffs| + 1
    ensures r.handoffs[..|s.handoffs|] == s.handoffs
    ensures |s.writes| <= |r.writes| && r.writes[..|s.writes|] == s.writes
    ensures |r.handoffs| > |s.handoffs| ==>
      var h := r.handoffs[|s.handoffs|];
      && h.socket == s.keys[i].socket && h.torrent in known && r.keys[i].cancelled
      && (s.keys[i].expected.Some? ==> s.keys[i].expected.value == h.torrent)
      && r.closed == s.closed
  {
    var key := s.keys[i];
    match io.ready[key.socket]
    case ReadError =>
      s.(keys := s.keys[i := key.(cancelled := true)], closed := s.closed + {key.socket})
    case Data(bytes) =>
      var buffer := key.buffer + bytes[..Min(|bytes|, HandshakeSize - |key.buffer|)];
      if |buffer| < HandshakeSize then
        s.(keys := s.keys[i := key.(buffer := buffer)])
      else
        ReceiveFrame(s, i, buffer, io, known)
  }

  /**
   * What a complete frame does to its connection: a frame that is not acceptable
   * closes it; an acceptable frame from a peer we dialled hands that peer off with the
   * frame's peer id, extension bytes and info hash; an acceptable frame from an
   * incoming peer first makes us write our frame for its torrent, then hands the peer
   * off when the whole frame was written and closes the connection otherwise.
   */
  lemma ReceiveFrameOutcome(s: State, i: nat, frame: seq<Byte>, io: Io, known: set<seq<Byte>>)
    requires StateWellFormed(s) && i < |s.keys| && |frame| == HandshakeSize
    ensures var r, key := ReceiveFrame(s, i, frame, io, known), s.keys[i];
      !Acceptable(frame, key.expected, known) ==>
        && r.closed == s.closed + {key.socket}
        && r.handoffs == s.handoffs && r.writes == s.writes && r.hashSlot == s.hashSlot
    ensures var r, key := ReceiveFrame(s, i, frame, io, known), s.keys[i];
      Acceptable(frame, key.expected, known) && key.expected.Some? ==>
        && r.handoffs == s.handoffs + [FrameHandoff(key.socket, frame)]
        && r.closed == s.closed && r.writes == s.writes && r.hashSlot == s.hashSlot
    ensures var r, key := ReceiveFrame(s, i, frame, io, known), s.keys[i];
      var hash := frame[HashOffset..PeerIdOffset];
      Acceptable(frame, key.expected, known) && key.expected.None? ==>
        && r.writes == s.writes + [Write(key.socket,
             BuildFrame(s.extension, hash, s.peerId)[..Min(Accepts(io, key.socket), HandshakeSize)])]
        && r.hashSlot == hash
        && (Accepts(io, key.socket) >= HandshakeSize ==>
              r.handoffs == s.handoffs + [FrameHandoff(key.socket, frame)] && r.closed == s.closed)
        && (Accepts(io, key.socket) < HandshakeSize ==>
              r.handoffs == s.handoffs && r.closed == s.closed + {key.socket})
  {
  }

  /**
   * What reading a ready key does: a failed read closes the connection; a read that
   * leaves the frame incomplete only adds the bytes read to the buffer; a read that
   * completes it receives the first 68 bytes read (`ReceiveFrame`).
   */
  lemma HandleKeyReads(s: State, i: nat, io: Io, known: set<seq<Byte>>)
    requires StateWellFormed(s) && i < |s.keys| && s.keys[i].socket in io.ready
    ensures var r, key := HandleKey(s, i, io, known), s.keys[i];
      io.ready[key.socket].ReadError? ==>
        && r.keys[i] == key.(cancelled := true) && r.closed == s.closed + {key.socket}
        && r.handoffs == s.handoffs && r.writes == s.writes && r.hashSlot == s.hashSlot
    ensures var r, key := HandleKey(s, i, io, known), s.keys[i];
      io.ready[key.socket].Data? && |key.buffer| + |io.ready[key.socket].bytes| < HandshakeSize ==>
        && r.keys[i] == key.(buffer := key.buffer + io.ready[key.socket].bytes)
        && r.closed == s.closed && r.handoffs == s.handoffs && r.writes == s.writes && r.hashSlot == s.hashSlot
    ensures var r, key := HandleKey(s, i, io, known), s.keys[i];
      io.ready[key.socket].Data? && |key.buffer| + |io.ready[key.socket].bytes| >= HandshakeSize ==>
        r == ReceiveFrame(s, i, (key.buffer + io.ready[key.socket].bytes)[..HandshakeSize], io, known)
  {
    var key := s.keys[i];
    if io.ready[key.socket].Data? {
      var bytes := io.ready[key.socket].bytes;
      var buffer := key.buffer + bytes[..Min(|bytes|, HandshakeSize - |key.buffer|)];
      if |key.buffer| + |bytes| >= HandshakeSize {
        assert buffer == (key.buffer + bytes)[..HandshakeSize];
      } else {
        assert bytes[..Min(|bytes|, HandshakeSize - |key.buffer|)] == bytes;
      }
    }
  }

  /** The selected-keys loop of a poll, over the first `n` registered keys. */
  function HandleReady(s: State, io: Io, known: set<seq<Byte>>, n: nat): (r: State)
    requires StateWellFormed(s) && n <= |s.keys|
    ensures StateWellFormed(r) && r.extension == s.extension && r.peerId == s.peerId
    ensures |r.keys| == |s.keys| && forall k :: n <= k < |s.keys| ==> r.keys[k] == s.keys[k]
    ensures forall k :: 0 <= k < |s.keys| ==>
      r.keys[k].socket == s.keys[k].socket && r.keys[k].expected == s.keys[k].expected
      && r.keys[k].start == s.keys[k].start && (s.keys[k].cancelled ==> r.keys[k].cancelled)
  {
    if n == 0 then s
    else
      var p := HandleReady(s, io, known, n - 1);
      if p.keys[n - 1].socket in io.ready then HandleKey(p, n - 1, io, known) else p
  }

  /** Facts that handling more keys keeps: `r` extends `p` over the first `m` keys. */
  predicate Extends(p: State, r: State, m: nat)
  {
    && m <= |p.keys| && m <= |r.keys|
    && (forall k :: 0 <= k < m ==> r.keys[k] == p.keys[k]) && p.closed <= r.closed
    && |p.writes| <= |r.writes| && r.writes[..|p.writes|] == p.writes
    && |p.handoffs| <= |r.handoffs| && r.handoffs[..|p.handoffs|] == p.handoffs
  }

  lemma ExtendsTrans(p: State, q: State, r: State, m: nat, n: nat)
    requires m <= n && Extends(p, q, m) && Extends(q, r, n)
    ensures Extends(p, r, m)
  {
    assert r.writes[..|p.writes|] == r.writes[..|q.writes|][..|p.writes|];
    assert r.handoffs[..|p.handoffs|] == r.handoffs[..|q.handoffs|][..|p.handoffs|];
  }

  /** Handling key `n - 1` keeps what handling the keys before it did. */
  lemma HandleReadyStep(s: State, io: Io, known: set<seq<Byte>>, n: nat)
    requires StateWellFormed(s) && 0 < n <= |s.keys|
    ensures Extends(HandleReady(s, io, known, n - 1), HandleReady(s, io, known, n), n - 1)
    ensures HandleReady(s, io, known, n - 1).keys[n - 1] == s.keys[n - 1]
  {
    var q := HandleReady(s, io, known, n - 1);
    if q.keys[n - 1].socket !in io.ready {
      assert q.writes[..|q.writes|] == q.writes && q.handoffs[..|q.handoffs|] == q.handoffs;
    }
  }

  /**
   * Handling more keys only adds: keys already handled stay as they are, and closed
   * connections, writes and hand-offs are kept.
   */
  lemma {:induction false} HandleReadyGrows(s: State, io: Io, known: set<seq<Byte>>, m: nat, n: nat)
    requires StateWellFormed(s) && m <= n <= |s.keys|
    ensures Extends(HandleReady(s, io, known, m), HandleReady(s, io, known, n), m)
    decreases n
  {
    var p := HandleReady(s, io, known, m);
    if n == m {
      assert p.writes[..|p.writes|] == p.writes && p.handoffs[..|p.handoffs|] == p.handoffs;
    } else {
      HandleReadyGrows(s, io, known, m, n - 1);
      HandleReadyStep(s, io, known, n);
      ExtendsTrans(p, HandleReady(s, io, known, n - 1), HandleReady(s, io, known, n), m, n - 1);
    }
  }

  /**
   * Handling the first `n` keys visits a ready key `k` as `HandleKey` does, and what
   * that visit did to the key, the closed connections, the writes and the hand-offs
   * survives the visits of the later keys.
   */
  lemma HandleReadyVisits(s: State, io: Io, known: set<seq<Byte>>, n: nat, k: nat)
    requires StateWellFormed(s) && k < n <= |s.keys| && s.keys[k].socket in io.ready
    ensures HandleReady(s, io, known, k).keys[k] == s.keys[k]
    ensures Extends(HandleKey(HandleReady(s, io, known, k), k, io, known), HandleReady(s, io, known, n), k + 1)
  {
    HandleReadyStep(s, io, known, k + 1);
    HandleReadyGrows(s, io, known, k + 1, n);
  }

  /** A key the timeout sweep closes: still registered and started over five seconds ago. */
  predicate Stale(key: Key, now: int)
  {
    !key.cancelled && TimedOut(now, key.start)
  }

  /** The timeout sweep over the first `n` keys: close every stale connection. */
  function Sweep(s: State, now: int, n: nat): (r: State)
    requires n <= |s.keys|
    ensures |r.keys| == |s.keys| && forall k :: n <= k < |s.keys| ==> r.keys[k] == s.keys[k]
    ensures r.extension == s.extension && r.peerId == s.peerId && r.hashSlot == s.hashSlot
    ensures r.writes == s.writes && r.handoffs == s.handoffs
    ensures KeysWellFormed(s.keys) ==> KeysWellFormed(r.keys)
  {
    if n == 0 then s
    else
      var p := Sweep(s, now, n - 1);
      var key := p.keys[n - 1];
      if Stale(key, now) then
        p.(keys := p.keys[n - 1 := key.(cancelled := true)], closed := p.closed + {key.socket})
      else p
  }

  /**
   * The timeout sweep as `pollHandshakesReady` writes it: it walks every key still in
   * the selector's key set, which includes the keys cancelled during this poll, and
   * closes the connection of each one that started over five seconds ago.
   */
  function SweepAsWritten(s: State, now: int, n: nat): (r: State)
    requires n <= |s.keys|
    ensures |r.keys| == |s.keys| && forall k :: n <= k < |s.keys| ==> r.keys[k] == s.keys[k]
    ensures r.handoffs == s.handoffs
  {
    if n == 0 then s
    else
      var p := SweepAsWritten(s, now, n - 1);
      var key := p.keys[n - 1];
      if TimedOut(now, key.start) then
        p.(keys := p.keys[n - 1 := key.(cancelled := true)], closed := p.closed + {key.socket})
      else p
  }

  /** One `pollHandshakesReady`: deregister, handle the ready keys, sweep. */
  function PollSpec(s: State, now: int, io: Io, known: set<seq<Byte>>): (r: State)
    requires StateWellFormed(s)
    ensures StateWellFormed(r)
  {
    var selected := s.(keys := Registered(s.keys));
    var handled := HandleReady(selected, io, known, |selected.keys|);
    Sweep(handled, now, |handled.keys|)
  }

  /** No two keys watch the same connection. */
  predicate DistinctSockets(keys: seq<Key>)
  {
    forall a, b :: 0 <= a < |keys| && 0 <= b < |keys| && a != b ==> keys[a].socket != keys[b].socket
  }

  /** Replacing a key by one for the same connection keeps the connections distinct. */
  lemma SameSocket(keys: seq<Key>, i: nat, key: Key)
    requires i < |keys| && key.socket == keys[i].socket && DistinctSockets(keys)
    ensures DistinctSockets(keys[i := key])
  {
  }

  /**
   * What holds of a peer handed off while handling the first keys of `s` (giving `r`):
   * its torrent is known, its connection was not closed on the way, no key not yet
   * handled watches it, and the key that watches it is cancelled and, for a dialled
   * peer, expected that torrent.
   */
  predicate HandoffOk(s: State, r: State, h: Handoff, n: nat, known: set<seq<Byte>>)
  {
    && h.torrent in known
    && (h.socket in r.closed ==> h.socket in s.closed)
    && (forall k :: n <= k < |s.keys| ==> s.keys[k].socket != h.socket)
    && (forall k :: 0 <= k < |s.keys| && k < |r.keys| && s.keys[k].socket == h.socket ==>
          r.keys[k].cancelled && (s.keys[k].expected.Some? ==> s.keys[k].expected.value == h.torrent))
  }

  /** A hand-off made before key `n - 1` was handled stays sound once it is handled. */
  lemma HandoffKept(s: State, p: State, r: State, h: Handoff, n: nat, known: set<seq<Byte>>)
    requires 0 < n <= |s.keys| && |p.keys| == |s.keys| && |r.keys| == |s.keys|
    requires HandoffOk(s, p, h, n - 1, known)
    requires forall k :: 0 <= k < |s.keys| && k != n - 1 ==> r.keys[k] == p.keys[k]
    requires r.closed == p.closed || r.closed == p.closed + {s.keys[n - 1].socket}
    ensures HandoffOk(s, r, h, n, known)
  {
    assert s.keys[n - 1].socket != h.socket;
  }

  /** The hand-off made while handling key `n - 1` is sound. */
  lemma HandoffNew(s: State, p: State, io: Io, known: set<seq<Byte>>, n: nat)
    requires StateWellFormed(s) && StateWellFormed(p) && DistinctSockets(s.keys)
    requires 0 < n <= |s.keys| && |p.keys| == |s.keys| && p.keys[n - 1] == s.keys[n - 1]
    requires s.keys[n - 1].socket in io.ready
    requires s.keys[n - 1].socket in p.closed ==> s.keys[n - 1].socket in s.closed
    requires |HandleKey(p, n - 1, io, known).handoffs| > |p.handoffs|
    ensures var r := HandleKey(p, n - 1, io, known);
      HandoffOk(s, r, r.handoffs[|p.handoffs|], n, known)
  {
    var r := HandleKey(p, n - 1, io, known);
    var h := r.handoffs[|p.handoffs|];
    assert h.socket == s.keys[n - 1].socket;
    forall k | 0 <= k < |s.keys| && s.keys[k].socket == h.socket
      ensures k == n - 1
    {
    }
  }

  /** What handling the first `n` keys guarantees about hand-offs and closed connections. */
  predicate HandoffsSound(s: State, r: State, n: nat, known: set<seq<Byte>>)
  {
    && |s.handoffs| <= |r.handoffs| && r.handoffs[..|s.handoffs|] == s.handoffs
    && s.closed <= r.closed
    && (forall k :: n <= k < |s.keys| ==> (s.keys[k].socket in r.closed ==> s.keys[k].socket in s.closed))
    && (forall j :: |s.handoffs| <= j < |r.handoffs| ==> HandoffOk(s, r, r.handoffs[j], n, known))
  }

  /** Handling key `n - 1` after the first `n - 1` keys keeps `HandoffsSound`. */
  lemma HandleKeyHandoffs(s: State, p: State, io: Io, known: set<seq<Byte>>, n: nat)
    requires StateWellFormed(s) && StateWellFormed(p) && DistinctSockets(s.keys)
    requires 0 < n <= |s.keys| && |p.keys| == |s.keys| && p.keys[n - 1] == s.keys[n - 1]
    requires s.keys[n - 1].socket in io.ready
    requires HandoffsSound(s, p, n - 1, known)
    ensures HandoffsSound(s, HandleKey(p, n - 1, io, known), n, known)
  {
    var r := HandleKey(p, n - 1, io, known);
    assert r.handoffs[..|p.handoffs|] == p.handoffs;
    assert r.handoffs[..|s.handoffs|] == s.handoffs;
    forall j | |s.handoffs| <= j < |r.handoffs|
      ensures HandoffOk(s, r, r.handoffs[j], n, known)
    {
      if j < |p.handoffs| {
        assert r.handoffs[j] == p.handoffs[j];
        HandoffKept(s, p, r, p.handoffs[j], n, known);
      } else {
        HandoffNew(s, p, io, known, n);
      }
    }
  }

  /**
   * Handling the ready keys only appends hand-offs, closes no connection of a key still
   * to be handled, and every peer it hands off satisfies `HandoffOk`.
   */
  lemma {:induction false} HandleReadyHandoffs(s: State, io: Io, known: set<seq<Byte>>, n: nat)
    requires StateWellFormed(s) && n <= |s.keys| && DistinctSockets(s.keys)
    ensures HandoffsSound(s, HandleReady(s, io, known, n), n, known)
  {
    if n == 0 {
      assert s.handoffs[..|s.handoffs|] == s.handoffs;
    } else {
      HandleReadyHandoffs(s, io, known, n - 1);
      var p := HandleReady(s, io, known, n - 1);
      assert p.keys[n - 1] == s.keys[n - 1];
      if s.keys[n - 1].socket in io.ready {
        HandleKeyHandoffs(s, p, io, known, n);
      } else {
        forall j | |s.handoffs| <= j < |p.handoffs|
          ensures HandoffOk(s, p, p.handoffs[j], n, known)
        {
          assert HandoffOk(s, p, p.handoffs[j], n - 1, known);
        }
      }
    }
  }

  /**
   * The sweep over the first `n` keys cancels exactly the stale ones among them and
   * closes exactly their connections.
   */
  lemma {:induction false} SweepExact(s: State, now: int, n: nat)
    requires n <= |s.keys|
    ensures var r := Sweep(s, now, n);
      && (forall k :: 0 <= k < n ==>
            r.keys[k] == if Stale(s.keys[k], now) then s.keys[k].(cancelled := true) else s.keys[k])
      && (forall x :: x in r.closed <==>
            x in s.closed || exists k :: 0 <= k < n && Stale(s.keys[k], now) && s.keys[k].socket == x)
  {
    if n > 0 {
      SweepExact(s, now, n - 1);
      var p := Sweep(s, now, n - 1);
      assert p.keys[n - 1] == s.keys[n - 1];
    }
  }

  /** After a poll no registered key has been waiting more than five seconds. */
  lemma PollLeavesNoStaleKey(s: State, now: int, io: Io, known: set<seq<Byte>>)
    requires StateWellFormed(s)
    ensures var r := PollSpec(s, now, io, known);
      forall k :: 0 <= k < |r.keys| && TimedOut(now, r.keys[k].start) ==> r.keys[k].cancelled
  {
    var selected := s.(keys := Registered(s.keys));
    var handled := HandleReady(selected, io, known, |selected.keys|);
    SweepExact(handled, now, |handled.keys|);
  }

  /**
   * Every peer a poll hands off names a torrent we have, comes from a connection whose
   * key is now cancelled (for a dialled peer, the key that expected that torrent), and
   * keeps its connection open.
   */
  lemma PollHandoffs(s: State, now: int, io: Io, known: set<seq<Byte>>)
    requires StateWellFormed(s) && DistinctSockets(Registered(s.keys))
    ensures var selected := Registered(s.keys);
      var r := PollSpec(s, now, io, known);
      && |s.handoffs| <= |r.handoffs| && r.handoffs[..|s.handoffs|] == s.handoffs
      && forall j :: |s.handoffs| <= j < |r.handoffs| ==>
           && r.handoffs[j].torrent in known
           && (r.handoffs[j].socket in r.closed ==> r.handoffs[j].socket in s.closed)
           && forall k :: 0 <= k < |selected| && selected[k].socket == r.handoffs[j].socket ==>
                r.keys[k].cancelled
                && (selected[k].expected.Some? ==> selected[k].expected.value == r.handoffs[j].torrent)
  {
    var selected := s.(keys := Registered(s.keys));
    var handled := HandleReady(selected, io, known, |selected.keys|);
    HandleReadyHandoffs(selected, io, known, |selected.keys|);
    assert HandoffsSound(selected, handled, |selected.keys|, known);
    SweepExact(handled, now, |handled.keys|);
    var r := PollSpec(s, now, io, known);
    forall j | |s.handoffs| <= j < |r.handoffs|
      ensures r.handoffs[j].socket in r.closed ==> r.handoffs[j].socket in s.closed
    {
      var h := r.handoffs[j];
      assert HandoffOk(selected, handled, h, |selected.keys|, known);
      assert forall k :: 0 <= k < |handled.keys| && handled.keys[k].socket == h.socket ==>
        selected.keys[k].socket == h.socket && !Stale(handled.keys[k], now);
    }
  }

  /**
   * What a ready key's read leads to by the end of the selected-keys loop: a failed read
   * closes its connection; an incomplete frame only grows the key's buffer; a complete
   * frame that is not acceptable closes the connection; an acceptable one hands its
   * peer off (an incoming peer only once our whole frame was written, and is closed
   * otherwise), and an incoming peer is written our frame for its torrent.
   */
  lemma HandleReadyReceives(s: State, io: Io, known: set<seq<Byte>>, k: nat)
    requires StateWellFormed(s) && k < |s.keys| && s.keys[k].socket in io.ready
    ensures var r := HandleReady(s, io, known, |s.keys|);
      |s.handoffs| <= |r.handoffs| && |s.writes| <= |r.writes|
    ensures var key, r := s.keys[k], HandleReady(s, io, known, |s.keys|);
      io.ready[key.socket].ReadError? ==> key.socket in r.closed
    ensures var key, r := s.keys[k], HandleReady(s, io, known, |s.keys|);
      io.ready[key.socket].Data? && |key.buffer| + |io.ready[key.socket].bytes| < HandshakeSize ==>
        r.keys[k] == key.(buffer := key.buffer + io.ready[key.socket].bytes)
    ensures var key, r := s.keys[k], HandleReady(s, io, known, |s.keys|);
      io.ready[key.socket].Data? && |key.buffer| + |io.ready[key.socket].bytes| >= HandshakeSize ==>
        FrameReceived(s, r, key, (key.buffer + io.ready[key.socket].bytes)[..HandshakeSize], io, known)
  {
    var key := s.keys[k];
    var p := HandleReady(s, io, known, k);
    var q := HandleKey(p, k, io, known);
    var r := HandleReady(s, io, known, |s.keys|);
    HandleReadyGrows(s, io, known, 0, k);
    HandleReadyVisits(s, io, known, |s.keys|, k);
    HandleKeyReads(p, k, io, known);
    match io.ready[key.socket]
    case ReadError =>
    case Data(bytes) =>
      if |key.buffer| + |bytes| >= HandshakeSize {
        ReceivedKept(s, p, q, r, key, k, (key.buffer + bytes)[..HandshakeSize], io, known);
      }
  }

  /**
   * Where a complete `frame` read on `key`'s connection has left its mark between the
   * states `s` and `r`.
   */
  ghost predicate FrameReceived(s: State, r: State, key: Key, frame: seq<Byte>, io: Io, known: set<seq<Byte>>)
    requires StateWellFormed(s) && |frame| == HandshakeSize
    requires |s.handoffs| <= |r.handoffs| && |s.writes| <= |r.writes|
  {
    && (!Acceptable(frame, key.expected, known) ==> key.socket in r.closed)
    && ((Acceptable(frame, key.expected, known) && (key.expected.Some? || Accepts(io, key.socket) >= HandshakeSize))
          ==> FrameHandoff(key.socket, frame) in r.handoffs[|s.handoffs|..])
    && ((Acceptable(frame, key.expected, known) && key.expected.None? && Accepts(io, key.socket) < HandshakeSize)
          ==> key.socket in r.closed)
    && (Acceptable(frame, key.expected, known) && key.expected.None? ==>
          Write(key.socket, BuildFrame(s.extension, frame[HashOffset..PeerIdOffset], s.peerId)
                              [..Min(Accepts(io, key.socket), HandshakeSize)]) in r.writes[|s.writes|..])
  }

  /** Receiving `frame` on key `k` of `p` (giving `q`) leaves its mark on any `r` extending `q`. */
  lemma ReceivedKept(s: State, p: State, q: State, r: State, key: Key, k: nat, frame: seq<Byte>,
                     io: Io, known: set<seq<Byte>>)
    requires StateWellFormed(p) && k < |p.keys| && p.keys[k] == key && |frame| == HandshakeSize
    requires StateWellFormed(s) && p.extension == s.extension && p.peerId == s.peerId
    requires Extends(s, p, 0) && q == ReceiveFrame(p, k, frame, io, known) && Extends(q, r, k + 1)
    ensures |s.handoffs| <= |r.handoffs| && |s.writes| <= |r.writes|
    ensures FrameReceived(s, r, key, frame, io, known)
  {
    ReceiveFrameOutcome(p, k, frame, io, known);
    if |q.handoffs| > |p.handoffs| {
      assert q.handoffs[|p.handoffs|] == r.handoffs[|p.handoffs|];
      assert r.handoffs[|p.handoffs|] == r.handoffs[|s.handoffs|..][|p.handoffs| - |s.handoffs|];
    }
    if |q.writes| > |p.writes| {
      assert q.writes[|p.writes|] == r.writes[|p.writes|];
      assert r.writes[|p.writes|] == r.writes[|s.writes|..][|p.writes| - |s.writes|];
    }
  }

  /**
   * The same at the level of a whole poll, for the `k`-th key the selection keeps; the
   * timeout sweep that follows only closes more connections and cancels more keys.
   */
  lemma PollReceives(s: State, now: int, io: Io, known: set<seq<Byte>>, k: nat)
    requires StateWellFormed(s) && k < |Registered(s.keys)| && Registered(s.keys)[k].socket in io.ready
    ensures var r := PollSpec(s, now, io, known);
      |s.handoffs| <= |r.handoffs| && |s.writes| <= |r.writes|
    ensures var key, r := Registered(s.keys)[k], PollSpec(s, now, io, known);
      io.ready[key.socket].ReadError? ==> key.socket in r.closed
    ensures var key, r := Registered(s.keys)[k], PollSpec(s, now, io, known);
      io.ready[key.socket].Data? && |key.buffer| + |io.ready[key.socket].bytes| < HandshakeSize ==>
        r.keys[k].buffer == key.buffer + io.ready[key.socket].bytes
    ensures var key, r := Registered(s.keys)[k], PollSpec(s, now, io, known);
      io.ready[key.socket].Data? && |key.buffer| + |io.ready[key.socket].bytes| >= HandshakeSize ==>
        FrameReceived(s, r, key, (key.buffer + io.ready[key.socket].bytes)[..HandshakeSize], io, known)
  {
    var selected := s.(keys := Registered(s.keys));
    var handled := HandleReady(selected, io, known, |selected.keys|);
    HandleReadyReceives(selected, io, known, k);
    SweepExact(handled, now, |handled.keys|);
  }

  /**
   * Going from `s` to `r` only ready connections were touched: the other keys keep
   * their state, and every connection newly closed or peer newly handed off was
   * reported ready.
   */
  predicate OnlyReady(s: State, r: State, io: Io)
  {
    && |r.keys| == |s.keys|
    && (forall k :: 0 <= k < |s.keys| && s.keys[k].socket !in io.ready ==> r.keys[k] == s.keys[k])
    && (forall c :: c in r.closed && c !in s.closed ==> c in io.ready)
    && |s.handoffs| <= |r.handoffs| && r.handoffs[..|s.handoffs|] == s.handoffs
    && (forall j :: |s.handoffs| <= j < |r.handoffs| ==> r.handoffs[j].socket in io.ready)
  }

  lemma OnlyReadyTrans(s: State, q: State, r: State, io: Io)
    requires OnlyReady(s, q, io) && OnlyReady(q, r, io)
    ensures OnlyReady(s, r, io)
  {
    assert r.handoffs[..|s.handoffs|] == r.handoffs[..|q.handoffs|][..|s.handoffs|];
    forall j | |s.handoffs| <= j < |r.handoffs| ensures r.handoffs[j].socket in io.ready {
      if j < |q.handoffs| {
        assert r.handoffs[j] == r.handoffs[..|q.handoffs|][j];
      }
    }
  }

  /** Reading a ready key touches only its own connection. */
  lemma HandleKeyOnlyReady(p: State, i: nat, io: Io, known: set<seq<Byte>>)
    requires StateWellFormed(p) && i < |p.keys| && p.keys[i].socket in io.ready
    ensures OnlyReady(p, HandleKey(p, i, io, known), io)
  {
  }

  /**
   * The selected-keys loop touches only ready connections: a key whose connection was
   * not reported ready keeps its state, and every connection it closes or hands off
   * was reported ready.
   */
  lemma {:induction false} HandleReadyOnlyReady(s: State, io: Io, known: set<seq<Byte>>, n: nat)
    requires StateWellFormed(s) && n <= |s.keys|
    ensures OnlyReady(s, HandleReady(s, io, known, n), io)
    decreases n
  {
    var r := HandleReady(s, io, known, n);
    if n == 0 {
      assert r.handoffs[..|s.handoffs|] == s.handoffs;
    } else {
      HandleReadyOnlyReady(s, io, known, n - 1);
      var p := HandleReady(s, io, known, n - 1);
      if p.keys[n - 1].socket in io.ready {
        HandleKeyOnlyReady(p, n - 1, io, known);
        OnlyReadyTrans(s, p, r, io);
      }
    }
  }

  /** The sweep leaves a key that is not stale alone, and closes its connection only if closed. */
  lemma SweepKeepsFresh(h: State, now: int, k: nat)
    requires DistinctSockets(h.keys) && k < |h.keys| && !Stale(h.keys[k], now)
    ensures Sweep(h, now, |h.keys|).keys[k] == h.keys[k]
    ensures h.keys[k].socket in Sweep(h, now, |h.keys|).closed <==> h.keys[k].socket in h.closed
  {
    SweepExact(h, now, |h.keys|);
  }

  /**
   * What a poll leaves alone: the `k`-th registered key, when its connection was not
   * reported ready and it has not waited more than five seconds, comes out unchanged,
   * and its connection is closed after the poll only if it was before.
   */
  lemma PollKeepsIdle(s: State, now: int, io: Io, known: set<seq<Byte>>, k: nat)
    requires StateWellFormed(s) && DistinctSockets(Registered(s.keys)) && k < |Registered(s.keys)|
    ensures var key, r := Registered(s.keys)[k], PollSpec(s, now, io, known);
      key.socket !in io.ready && !TimedOut(now, key.start) ==>
        r.keys[k] == key && (key.socket in r.closed <==> key.socket in s.closed)
  {
    var keys := Registered(s.keys);
    var key := keys[k];
    if key.socket !in io.ready && !TimedOut(now, key.start) {
      var selected := s.(keys := keys);
      var handled := HandleReady(selected, io, known, |keys|);
      HandleReadyOnlyReady(selected, io, known, |keys|);
      HandleReadyGrows(selected, io, known, 0, |keys|);
      assert handled.keys[k] == key;
      assert forall a :: 0 <= a < |keys| ==> handled.keys[a].socket == keys[a].socket;
      assert DistinctSockets(handled.keys);
      assert key.socket in handled.closed <==> key.socket in s.closed;
      SweepKeepsFresh(handled, now, k);
      assert PollSpec(s, now, io, known) == Sweep(handled, now, |handled.keys|);
    }
  }

  /** A connection a poll may close: reported ready, or watched by a key that timed out. */
  predicate MayClose(keys: seq<Key>, io: Io, now: int, c: SocketId)
  {
    c in io.ready || exists k :: 0 <= k < |keys| && keys[k].socket == c && TimedOut(now, keys[k].start)
  }

  /** The sweep closes only the connections of stale keys. */
  lemma SweepClosesOnlyStale(h: State, now: int)
    ensures forall c :: c in Sweep(h, now, |h.keys|).closed && c !in h.closed ==>
      exists k :: 0 <= k < |h.keys| && Stale(h.keys[k], now) && h.keys[k].socket == c
  {
    SweepExact(h, now, |h.keys|);
  }

  /**
   * Every connection a poll closes was reported ready or belongs to a registered key
   * that waited more than five seconds, and every peer it hands off was reported ready.
   */
  lemma PollClosesOnlyReadyOrStale(s: State, now: int, io: Io, known: set<seq<Byte>>)
    requires StateWellFormed(s)
    ensures var r := PollSpec(s, now, io, known);
      && (forall c :: c in r.closed && c !in s.closed ==> MayClose(Registered(s.keys), io, now, c))
      && |s.handoffs| <= |r.handoffs|
      && (forall j :: |s.handoffs| <= j < |r.handoffs| ==> r.handoffs[j].socket in io.ready)
  {
    var keys := Registered(s.keys);
    var selected := s.(keys := keys);
    var handled := HandleReady(selected, io, known, |keys|);
    HandleReadyOnlyReady(selected, io, known, |keys|);
    SweepClosesOnlyStale(handled, now);
    var r := Sweep(handled, now, |keys|);
    assert r == PollSpec(s, now, io, known);
    forall c | c in r.closed && c !in s.closed
      ensures MayClose(keys, io, now, c)
    {
      if c !in handled.closed {
        var k :| 0 <= k < |handled.keys| && Stale(handled.keys[k], now) && handled.keys[k].socket == c;
        assert keys[k].socket == c && TimedOut(now, keys[k].start);
      }
    }
  }

  /**
   * With the sweep as written, a dialled peer whose handshake arrives in a poll more
   * than five seconds after it connected is handed to its torrent, and then the sweep
   * closes that same connection, because its key, cancelled a moment earlier, is still
   * in the selector's key set. The corrected sweep leaves the connection open.
   */
  lemma SweepAsWrittenClosesHandedOffPeer()
    ensures var extension, hash, peerId := seq(8, _ => 0 as Byte), seq(20, _ => 1 as Byte), seq(20, _ => 2 as Byte);
      var s := State(extension, peerId, [Key(7, Some(hash), 0, [], false)], {}, [], [], hash);
      var io := Io(map[7 := Data(BuildFrame(extension, hash, peerId))], map[]);
      var handled := HandleReady(s, io, {hash}, 1);
      && handled.handoffs == [Handoff(7, peerId, extension, hash)]
      && 7 in SweepAsWritten(handled, 6_000_000_000, 1).closed
      && 7 !in Sweep(handled, 6_000_000_000, 1).closed
  {
    var extension, hash, peerId := seq(8, _ => 0 as Byte), seq(20, _ => 1 as Byte), seq(20, _ => 2 as Byte);
    var s := State(extension, peerId, [Key(7, Some(hash), 0, [], false)], {}, [], [], hash);
    var frame := BuildFrame(extension, hash, peerId);
    var io := Io(map[7 := Data(frame)], map[]);
    DecideBuildFrame(extension, hash, peerId, Some(hash), {hash});
    assert [] + frame[..Min(|frame|, HandshakeSize - 0)] == frame;
    assert HandleReady(s, io, {hash}, 1) == HandleKey(s, 0, io, {hash});
  }

  /**
   * `BitTorrentHandshakeHandlerImpl`: the pending handshakes and the one outgoing frame
   * buffer shared by every handshake we send.
   */
  class HandshakeHandler {
    const extension: seq<Byte>
    const peerId: seq<Byte>
    const frame: array<Byte>
    var keys: seq<Key>
    var closed: set<SocketId>
    var writes: seq<Write>
    var handoffs: seq<Handoff>

    function Snapshot(): State
      requires frame.Length == HandshakeSize
      reads this, frame
    {
      State(extension, peerId, keys, closed, writes, handoffs, frame[HashOffset..PeerIdOffset])
    }

    /** The frame buffer always holds our header, extension bytes and peer id. */
    ghost predicate Valid()
      reads this, frame
    {
      && frame.Length == HandshakeSize
      && StateWellFormed(Snapshot())
      && frame[..] == BuildFrame(extension, frame[HashOffset..PeerIdOffset], peerId)
      && DistinctSockets(keys)
    }

    /** No key watches `socket`: a connection just opened is a new channel. */
    predicate Unwatched(socket: SocketId)
      reads this
    {
      forall k :: 0 <= k < |keys| ==> keys[k].socket != socket
    }

    /** The frame is prepared once, with the info hash left as zeros. */
    constructor (extension: seq<Byte>, peerId: seq<Byte>)
      requires |extension| == 8 && |peerId| == 20
      ensures Valid() && this.extension == extension && this.peerId == peerId
      ensures frame[HashOffset..PeerIdOffset] == seq(20, _ => 0 as Byte)
      ensures keys == [] && closed == {} && writes == [] && handoffs == []
    {
      this.extension := extension;
      this.peerId := peerId;
      var initial := BuildFrame(extension, seq(20, _ => 0 as Byte), peerId);
      frame := new Byte[HandshakeSize](i requires 0 <= i < HandshakeSize => initial[i]);
      keys := [];
      closed := {};
      writes := [];
      handoffs := [];
      new;
      assert frame[..] == initial;
    }

    /**
     * `sendHandshake`: put the info hash into the shared frame and write the frame; the
     * connection takes `accepts` bytes, and a frame not written whole is a failure.
     */
    method SendHandshake(socket: SocketId, hash: seq<Byte>, accepts: nat) returns (ok: bool)
      requires Valid() && |hash| == 20
      modifies this, frame
      ensures Valid() && frame[..] == BuildFrame(extension, hash, peerId)
      ensures writes == old(writes) + [Write(socket, BuildFrame(extension, hash, peerId)[..Min(accepts, HandshakeSize)])]
      ensures ok <==> accepts >= HandshakeSize
      ensures keys == old(keys) && closed == old(closed) && handoffs == old(handoffs)
    {
      forall k | 0 <= k < 20 {
        frame[HashOffset + k] := hash[k];
      }
      assert frame[..] == old(frame[..])[..HashOffset] + hash + old(frame[..])[PeerIdOffset..];
      writes := writes + [Write(socket, frame[..Min(accepts, HandshakeSize)])];
      ok := accepts >= HandshakeSize;
    }

    /**
     * `onConnectionEstablished`: send our handshake on a connection we dialled; if it
     * cannot be written whole the connection is closed and nothing is registered,
     * otherwise a key expecting `hash` is registered.
     */
    method OnConnectionEstablished(socket: SocketId, hash: seq<Byte>, now: int, accepts: nat)
      requires Valid() && |hash| == 20 && Unwatched(socket)
      modifies this, frame
      ensures Valid() && frame[..] == BuildFrame(extension, hash, peerId)
      ensures writes == old(writes) + [Write(socket, BuildFrame(extension, hash, peerId)[..Min(accepts, HandshakeSize)])]
      ensures accepts < HandshakeSize ==> keys == old(keys) && closed == old(closed) + {socket}
      ensures accepts >= HandshakeSize ==>
        keys == old(keys) + [Key(socket, Some(hash), now, [], false)] && closed == old(closed)
      ensures handoffs == old(handoffs)
    {
      var ok := SendHandshake(socket, hash, accepts);
      if !ok {
        closed := closed + {socket};
        return;
      }
      keys := keys + [Key(socket, Some(hash), now, [], false)];
    }

    /** `onConnectionReceived`: register a key waiting for the handshake of any torrent. */
    method OnConnectionReceived(socket: SocketId, now: int)
      requires Valid() && Unwatched(socket)
      modifies this
      ensures Valid() && keys == old(keys) + [Key(socket, None, now, [], false)]
      ensures closed == old(closed) && writes == old(writes) && handoffs == old(handoffs)
    {
      keys := keys + [Key(socket, None, now, [], false)];
    }

    /** `handlePeer` for key `i`. */
    method HandlePeer(i: nat, io: Io, known: set<seq<Byte>>)
      requires Valid() && i < |keys| && keys[i].socket in io.ready
      modifies this, frame
      ensures Valid() && Snapshot() == HandleKey(old(Snapshot()), i, io, known)
    {
      var key := keys[i];
      match io.ready[key.socket]
      case ReadError =>
        SameSocket(keys, i, key.(cancelled := true));
        closed := closed + {key.socket};
        keys := keys[i := key.(cancelled := true)];
      case Data(bytes) =>
        var buffer := key.buffer + bytes[..Min(|bytes|, HandshakeSize - |key.buffer|)];
        if |buffer| < HandshakeSize {
          SameSocket(keys, i, key.(buffer := buffer));
          keys := keys[i := key.(buffer := buffer)];
        } else {
          OnHandshakeReceived(i, buffer, io, known);
        }
    }

    /** `onHandshakeReceived` for key `i`, whose buffer holds the whole `buffer`. */
    method OnHandshakeReceived(i: nat, buffer: seq<Byte>, io: Io, known: set<seq<Byte>>)
      requires Valid() && i < |keys| && |buffer| == HandshakeSize
      modifies this, frame
      ensures Valid() && Snapshot() == ReceiveFrame(old(Snapshot()), i, buffer, io, known)
    {
      var key := keys[i];
      var done := key.(buffer := buffer, cancelled := true);
      SameSocket(keys, i, done);
      match Decide(buffer, key.expected, known)
      case Rejected(_) =>
        closed := closed + {key.socket};
        keys := keys[i := done];
      case Accepted(remoteId, remoteExtension, hash, reply) =>
        if reply {
          var ok := SendHandshake(key.socket, hash, Accepts(io, key.socket));
          if !ok {
            closed := closed + {key.socket};
            keys := keys[i := done];
            return;
          }
        }
        handoffs := handoffs + [Handoff(key.socket, remoteId, remoteExtension, hash)];
        keys := keys[i := done];
    }

    /**
     * `pollHandshakesReady`: the selection drops the cancelled keys, every key with
     * something to read is handled, then every key still registered whose connection
     * started over five seconds ago has its connection closed.
     */
    method Poll(now: int, io: Io, known: set<seq<Byte>>)
      requires Valid()
      modifies this, frame
      ensures Valid() && Snapshot() == PollSpec(old(Snapshot()), now, io, known)
    {
      keys := Registered(keys);
      HandleSelected(io, known);
      CloseTimedOut(now);
    }

    /** The loop over the selected keys of `pollHandshakesReady`. */
    method HandleSelected(io: Io, known: set<seq<Byte>>)
      requires Valid()
      modifies this, frame
      ensures Valid() && Snapshot() == HandleReady(old(Snapshot()), io, known, |old(keys)|)
    {
      ghost var selected := Snapshot();
      for i := 0 to |keys|
        invariant Valid() && |keys| == |selected.keys|
        invariant Snapshot() == HandleReady(selected, io, known, i)
      {
        HandleSelectedKey(i, io, known, selected);
      }
    }

    /** One turn of the selected-keys loop: handle key `i` if it is ready. */
    method HandleSelectedKey(i: nat, io: Io, known: set<seq<Byte>>, ghost selected: State)
      requires Valid() && StateWellFormed(selected) && i < |selected.keys| == |keys|
      requires Snapshot() == HandleReady(selected, io, known, i)
      modifies this, frame
      ensures Valid() && |keys| == |selected.keys|
      ensures Snapshot() == HandleReady(selected, io, known, i + 1)
    {
      if keys[i].socket in io.ready {
        HandlePeer(i, io, known);
      }
    }

    /** The timeout loop of `pollHandshakesReady`, over every key still registered. */
    method CloseTimedOut(now: int)
      requires Valid()
      modifies this
      ensures Valid() && Snapshot() == Sweep(old(Snapshot()), now, |old(keys)|)
    {
      ghost var handled := Snapshot();
      for i := 0 to |keys|
        invariant Valid() && |keys| == |handled.keys|
        invariant Snapshot() == Sweep(handled, now, i)
      {
        CloseIfStale(i, now, handled);
      }
    }

    /** One turn of the timeout loop: close key `i`'s connection if it is stale. */
    method CloseIfStale(i: nat, now: int, ghost handled: State)
      requires Valid() && i < |handled.keys| == |keys|
      requires Snapshot() == Sweep(handled, now, i)
      modifies this
      ensures Valid() && |keys| == |handled.keys|
      ensures Snapshot() == Sweep(handled, now, i + 1)
    {
      var key := keys[i];
      if Stale(key, now) {
        SameSocket(keys, i, key.(cancelled := true));
        closed := closed + {key.socket};
        keys := keys[i := key.(cancelled := true)];
      }
    }
  }
}
