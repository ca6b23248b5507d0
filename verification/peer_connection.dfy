/**
 * The inline logic of `peer_connection`: the records of requests queued
 * to a peer (`pending_block`, `has_block`), the request-queue and
 * piece-picking knobs read by the piece picker, the super-seeding slots,
 * the receive window handed to the protocol parser, and the flags that
 * the connection sets on itself.
 */
module PeerConnections {
  import opened Common
  import opened ChainedBuffers

  /** `piece_block`: a block, by piece index and block index within the
      piece. Two blocks are the same block when both indices agree. */
  datatype PieceBlock = PieceBlock(pieceIndex: int, blockIndex: int)

  /** The 13-bit `skipped` counter. */
  type Skipped = x: int | 0 <= x < 0x2000

  /** `pending_block`: a request queued or sent to the peer. */
  datatype PendingBlock = PendingBlock(
    block: PieceBlock,
    /** how often the request was skipped by blocks arriving out of order */
    skipped: Skipped,
    notWanted: bool,
    timedOut: bool,
    /** the block was already requested from another peer */
    busy: bool)

  /** `pending_block(b)`: a fresh request for `b`, not skipped yet and with
      every flag clear. */
  function NewPendingBlock(b: PieceBlock): (r: PendingBlock)
    ensures r.block == b && r.skipped == 0
    ensures !r.notWanted && !r.timedOut && !r.busy
  {
    PendingBlock(b, 0, false, false, false)
  }

  /** `pending_block::operator==`: two requests are equal when they agree
      on everything but `busy`. */
  predicate SameRequest(x: PendingBlock, y: PendingBlock)
    ensures SameRequest(x, y) <==> x.(busy := y.busy) == y
  {
    && y.skipped == x.skipped && y.block == x.block
    && y.notWanted == x.notWanted && y.timedOut == x.timedOut
  }

  /** The request equality is an equivalence, and whether a request is
      busy never tells two requests apart. */
  lemma SameRequestEquivalence(x: PendingBlock, y: PendingBlock, z: PendingBlock, busy: bool)
    ensures SameRequest(x, x)
    ensures SameRequest(x, y) ==> SameRequest(y, x)
    ensures SameRequest(x, y) && SameRequest(y, z) ==> SameRequest(x, z)
    ensures SameRequest(x, x.(busy := busy))
  {
  }

  /** `has_block(b)`: the request is for block `b`, that is, for the same
      block index of the same piece. */
  predicate HasBlock(b: PieceBlock, pb: PendingBlock)
    ensures HasBlock(b, pb) <==> pb.block.pieceIndex == b.pieceIndex && pb.block.blockIndex == b.blockIndex
  {
    pb.block == b
  }

  /** `has_block` looks at the block alone: the counters and flags of a
      request do not change whether it matches, so requests that are equal
      match the same blocks, and a fresh request for `b` matches `b` only. */
  lemma HasBlockIgnoresFlags(b: PieceBlock, pb: PendingBlock, other: PendingBlock)
    ensures HasBlock(b, pb) <==> HasBlock(b, other.(block := pb.block))
    ensures SameRequest(pb, other) ==> (HasBlock(b, pb) <==> HasBlock(b, other))
    ensures forall c :: HasBlock(c, NewPendingBlock(b)) <==> c == b
  {
  }

  /** A `torrent_peer` a connection may be bound to, by identity. */
  type PeerRef = nat

  class PeerConnection {
    /** `m_endgame_mode` */
    var endgameMode: bool
    /** `m_desired_queue_size` (8 bits) */
    var desiredQueueSize: byte
    /** `m_prefer_whole_pieces` (8 bits) */
    var preferWholePieces: byte
    /** `m_picker_options` */
    var pickerOptions: int
    /** `m_superseed_piece`: the two pieces this peer may download from us
        while super seeding; `-1` in the first slot means not super
        seeding. */
    const superseedPiece: array<int>
    /** `m_peer_info`: the `torrent_peer` of this connection, if any. */
    var peerInfo: Option<PeerRef>
    /** `m_exceeded_limit` */
    var exceededLimit: bool
    /** `m_corked` */
    var corked: bool
    /** `m_packet_size` */
    var packetSize: int
    /** `m_recv_pos`: bytes consumed by the upper layer, from the logical
        start of the receive buffer. */
    var recvPos: int
    /** `m_recv_end`: end of the received bytes in the receive buffer. */
    var recvEnd: int
    /** `m_recv_start`: logical start of the receive buffer. */
    var recvStart: int
    /** `m_recv_buffer` */
    var recvBuffer: seq<byte>
    /** whether `m_disk_recv_buffer` holds a disk buffer */
    var hasDiskRecvBuffer: bool
    /** `m_disk_recv_buffer_size` */
    var diskRecvBufferSize: int
    /** `m_send_buffer` */
    const sendBuffer: ChainedBuffer

    /** Two super-seeding slots, a consistent send buffer, and the read
        position never past the end of the received bytes. */
    ghost predicate Valid()
      reads this, superseedPiece, sendBuffer
    {
      && superseedPiece.Length == 2
      && sendBuffer.Valid()
      && recvPos <= recvEnd
    }

    /** A connection bound to the `torrent_peer` `peerinfo` (none for an
        incoming connection not yet added to a torrent), with nothing
        received, nothing queued to send, not super seeding and every flag
        clear. */
    constructor (peerinfo: Option<PeerRef>)
      ensures Valid() && fresh(superseedPiece) && fresh(sendBuffer)
      ensures superseedPiece[..] == [-1, -1] && sendBuffer.vec == []
      ensures !endgameMode && !corked && !exceededLimit && peerInfo == peerinfo
      ensures recvBuffer == [] && recvPos == 0 && recvEnd == 0 && recvStart == 0
      ensures !hasDiskRecvBuffer && diskRecvBufferSize == 0
    {
      endgameMode := false;
      desiredQueueSize := 0;
      preferWholePieces := 0;
      pickerOptions := 0;
      superseedPiece := new int[2](_ => -1);
      peerInfo := peerinfo;
      exceededLimit := false;
      corked := false;
      packetSize := 0;
      recvPos := 0;
      recvEnd := 0;
      recvStart := 0;
      recvBuffer := [];
      hasDiskRecvBuffer := false;
      diskRecvBufferSize := 0;
      sendBuffer := new ChainedBuffer();
    }

    /** `set_peer_info(pi)`: a connection is bound to a `torrent_peer` or
        unbound, never moved from one `torrent_peer` to another. */
    method SetPeerInfo(pi: Option<PeerRef>)
      requires peerInfo == None || pi == None
      modifies this`peerInfo
      ensures peerInfo == pi
    {
      peerInfo := pi;
    }

    /** `peer_exceeds_limit()` */
    method PeerExceedsLimit()
      modifies this`exceededLimit
      ensures exceededLimit
    {
      exceededLimit := true;
    }

    /** `peer_disconnected_other()` */
    method PeerDisconnectedOther()
      modifies this`exceededLimit
      ensures !exceededLimit
    {
      exceededLimit := false;
    }

    /** `picker_options(o)` */
    method SetPickerOptions(o: int)
      modifies this`pickerOptions
      ensures pickerOptions == o
    {
      pickerOptions := o;
    }

    /** `prefer_whole_pieces()`: a peer on parole gets one whole piece at a
        time; otherwise the stored setting. Whether the peer is on parole is
        computed by `on_parole()`, whose body is not part of this model, so
        it is passed in. */
    function PreferWholePieces(onParole: bool): (r: int)
      reads this
      ensures onParole ==> r == 1
      ensures !onParole ==> r == preferWholePieces as int
      ensures 0 <= r < 0x100
    {
      if onParole then 1 else preferWholePieces as int
    }

    /** `prefer_whole_pieces(num)`: the value is stored in 8 bits, so only
        its low 8 bits are kept. */
    method SetPreferWholePieces(num: int)
      modifies this`preferWholePieces
      ensures preferWholePieces as int == num % 0x100
      ensures 0 <= num < 0x100 ==> PreferWholePieces(false) == num
    {
      preferWholePieces := (num % 0x100) as byte;
    }

    /** `desired_queue_size()`: in end-game mode only one request is kept
        outstanding; otherwise the stored queue size. */
    function DesiredQueueSize(): (r: int)
      reads this
      ensures endgameMode ==> r == 1
      ensures !endgameMode ==> r == desiredQueueSize as int
      ensures 0 <= r < 0x100
    {
      if endgameMode then 1 else desiredQueueSize as int
    }

    /** `super_seeded_piece(index)`: `index` is one of the two pieces this
        peer may download while super seeding. */
    predicate SuperSeededPiece(index: int)
      reads this, superseedPiece
      requires superseedPiece.Length == 2
      ensures SuperSeededPiece(index) <==> index in superseedPiece[..]
    {
      superseedPiece[0] == index || superseedPiece[1] == index
    }

    /** `packet_finished()`: the whole message being received has been
        consumed. */
    predicate PacketFinished()
      reads this
      ensures PacketFinished() <==> packetSize <= recvPos
    {
      packetSize <= recvPos
    }

    /** `cork_socket()`: sends are held back in the send buffer until the
        socket is uncorked. */
    method CorkSocket()
      requires !corked
      modifies this`corked
      ensures corked
    {
      corked := true;
    }

    /** `send_buffer_size()`: the bytes queued to send. */
    function SendBufferSize(): (r: int)
      reads this, superseedPiece, sendBuffer
      requires Valid()
      ensures r == |sendBuffer.Contents()|
    {
      sendBuffer.Size()
    }

    /** `send_buffer_capacity()`: the bytes allocated for sending, never
        fewer than those queued. */
    function SendBufferCapacity(): (r: int)
      reads this, superseedPiece, sendBuffer
      requires Valid()
      ensures r == SumSize(sendBuffer.vec)
      ensures SendBufferSize() <= r
    {
      sendBuffer.Capacity()
    }

    /** `receive_buffer()`: the part of the receive buffer consumed so far,
        from its logical start. An empty receive buffer yields the null
        interval; otherwise the window is never longer than the buffer, and
        covers exactly the consumed bytes when they fit in it. */
    function ReceiveBuffer(): (r: Interval)
      reads this
      requires recvBuffer == [] ==> recvPos == 0
      ensures r.Null? <==> recvBuffer == []
      ensures r.Range? ==> r.begin == recvStart && r.end - r.begin == Min(recvPos, |recvBuffer|)
      ensures r.Range? ==> r.end - r.begin <= |recvBuffer|
      ensures r.Range? && recvPos <= |recvBuffer| ==> r.end - r.begin == recvPos
    {
      if recvBuffer == [] then Null
      else Range(recvStart, recvStart + Min(recvPos, |recvBuffer|))
    }

    /** `wr_recv_buffer()`: the same window, writable; it may only be taken
        while no disk buffer is attached to the receive buffer. */
    function WrRecvBuffer(): (r: Interval)
      reads this
      requires recvBuffer == [] ==> recvPos == 0
      requires recvBuffer != [] ==> !hasDiskRecvBuffer && diskRecvBufferSize == 0
      ensures r == ReceiveBuffer()
    {
      if recvBuffer == [] then Null
      else
        var rcvPos := Min(recvPos, |recvBuffer|);
        Range(recvStart, recvStart + rcvPos)
    }
  }

  /** `buffer::interval`: either the null interval or the byte range
      [begin, end) of a buffer, as offsets from its first byte. */
  datatype Interval = Null | Range(begin: int, end: int)

  /** Since the consumed bytes never run past the received ones
      (`m_recv_pos <= m_recv_end`), the receive window lies inside the
      receive buffer whenever the received bytes, counted from the logical
      start, do. */
  lemma ReceiveWindowInside(pc: PeerConnection)
    requires pc.Valid()
    requires pc.recvBuffer == [] ==> pc.recvPos == 0
    requires 0 <= pc.recvStart && 0 <= pc.recvPos && pc.recvStart + pc.recvEnd <= |pc.recvBuffer|
    ensures var r := pc.ReceiveBuffer();
            r.Range? ==> 0 <= r.begin <= r.end <= |pc.recvBuffer|
  {
  }

  /** With both slots at `-1`, super seeding is off: no piece is
      super-seeded to this peer. */
  lemma NotSuperSeeding(pc: PeerConnection, index: int)
    requires pc.superseedPiece[..] == [-1, -1] && 0 <= index
    ensures !pc.SuperSeededPiece(index)
  {
  }
}
