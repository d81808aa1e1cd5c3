/** Pieces of a torrent and the status of their blocks. */
module Pieces {
  import opened Common

  datatype BlockStatus = Needed | Requested | Stored

  /** A piece: its size in bytes, the size of its blocks and the status of every block. */
  datatype Piece = Piece(size: nat, blockSize: nat, blocks: seq<BlockStatus>)

  /** A piece of `size` bytes is cut into ceil(size / blockSize) blocks. */
  predicate WellFormed(p: Piece)
  {
    p.blockSize > 0 && |p.blocks| == CeilDiv(p.size, p.blockSize)
  }

  /** A piece is done once every one of its blocks is stored. */
  predicate PieceDone(p: Piece)
  {
    forall b :: 0 <= b < |p.blocks| ==> p.blocks[b] == Stored
  }

  /**
   * The length of block `b`: a full block, except that the last block holds only
   * what is left of the piece.
   */
  function BlockLength(p: Piece, b: nat): (len: nat)
    requires WellFormed(p) && b < |p.blocks|
    ensures 0 < len <= p.blockSize
    ensures b * p.blockSize + len <= p.size
    ensures b + 1 < |p.blocks| ==> len == p.blockSize
    ensures b + 1 == |p.blocks| ==> b * p.blockSize + len == p.size
  {
    var q := |p.blocks|;
    MulLeq(b, q - 1, p.blockSize);
    if b + 1 < q then
      MulLeq(b + 1, q - 1, p.blockSize);
      p.blockSize
    else
      p.size - b * p.blockSize
  }

  lemma MulLeq(a: nat, b: nat, c: nat)
    requires a <= b
    ensures a * c <= b * c
  {}

  /**
   * The block a request should ask for next: the first block still `Needed`, if any
   * (`Piece.getRequestBlock`).
   */
  function FirstNeeded(blocks: seq<BlockStatus>): (r: Option<nat>)
    ensures r.Some? ==> r.value < |blocks| && blocks[r.value] == Needed
    ensures r.Some? ==> forall b :: 0 <= b < r.value ==> blocks[b] != Needed
    ensures r.None? <==> forall b :: 0 <= b < |blocks| ==> blocks[b] != Needed
  {
    if blocks == [] then None
    else if blocks[0] == Needed then Some(0)
    else
      match FirstNeeded(blocks[1..])
      case None => None
      case Some(b) => Some(b + 1)
  }
}
