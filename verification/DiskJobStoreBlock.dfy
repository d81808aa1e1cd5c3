/**
 * The disk job that stores a received block. Storing the last missing block of a piece
 * schedules a hash check of that piece; a failed store makes the block needed again.
 * The torrent's halting-operations counter counts the disk jobs still to run: each job
 * added to the queue adds one, and each job that finishes takes its own one off.
 */
module DiskJobs {
  import opened Pieces

  datatype Priority = Critical | Normal

  /** A disk job waiting in the torrent's queue. */
  datatype DiskJob = StoreBlock(pieceIndex: nat, blockIndex: nat) | CheckHash(pieceIndex: nat)

  /** `getPriority` of the store job: storing received data goes before other disk work. */
  function StoreBlockPriority(): (p: Priority)
    ensures p == Critical
  {
    Critical
  }

  /** The part of a torrent the disk jobs touch. */
  datatype Disk = Disk(pieces: seq<Piece>, haltingOperations: int, diskJobs: seq<DiskJob>)

  predicate ValidBlock(d: Disk, pieceIndex: nat, blockIndex: nat)
  {
    pieceIndex < |d.pieces| && blockIndex < |d.pieces[pieceIndex].blocks|
  }

  /** The piece with the status of one of its blocks replaced. */
  function SetBlock(p: Piece, blockIndex: nat, status: BlockStatus): (q: Piece)
    requires blockIndex < |p.blocks|
    ensures q.size == p.size && q.blockSize == p.blockSize && |q.blocks| == |p.blocks|
    ensures q.blocks[blockIndex] == status
    ensures forall b :: 0 <= b < |p.blocks| && b != blockIndex ==> q.blocks[b] == p.blocks[b]
  {
    p.(blocks := p.blocks[blockIndex := status])
  }

  /**
   * `process` of a store job for block `blockIndex` of piece `pieceIndex`; `stored` says
   * whether the piece accepted the data.
   */
  function StoreBlockSpec(d: Disk, pieceIndex: nat, blockIndex: nat, stored: bool): (r: Disk)
    requires ValidBlock(d, pieceIndex, blockIndex)
    ensures |r.pieces| == |d.pieces|
    ensures forall i :: 0 <= i < |d.pieces| && i != pieceIndex ==> r.pieces[i] == d.pieces[i]
    ensures r.pieces[pieceIndex].size == d.pieces[pieceIndex].size
    ensures r.pieces[pieceIndex].blockSize == d.pieces[pieceIndex].blockSize
    ensures |r.pieces[pieceIndex].blocks| == |d.pieces[pieceIndex].blocks|
    ensures r.pieces[pieceIndex].blocks[blockIndex] == (if stored then Stored else Needed)
    ensures forall b :: 0 <= b < |d.pieces[pieceIndex].blocks| && b != blockIndex ==>
      r.pieces[pieceIndex].blocks[b] == d.pieces[pieceIndex].blocks[b]
  {
    var piece := d.pieces[pieceIndex];
    if stored then
      var after := SetBlock(piece, blockIndex, Stored);
      var pieces := d.pieces[pieceIndex := after];
      if PieceDone(after) then
        // one more halting operation for the queued check, one less for this job
        Disk(pieces, d.haltingOperations + 1 - 1, d.diskJobs + [CheckHash(pieceIndex)])
      else
        Disk(pieces, d.haltingOperations - 1, d.diskJobs)
    else
      Disk(d.pieces[pieceIndex := SetBlock(piece, blockIndex, Needed)], d.haltingOperations - 1, d.diskJobs)
  }

  /** How many hash checks the queue holds. */
  function CheckHashes(jobs: seq<DiskJob>): nat
  {
    if jobs == [] then 0
    else CheckHashes(jobs[..|jobs| - 1]) + (if jobs[|jobs| - 1].CheckHash? then 1 else 0)
  }

  /**
   * A store that completes its piece queues exactly one hash check, for that piece, and
   * leaves the counter unchanged; any other store queues nothing and takes one off the
   * counter.
   */
  lemma StoreBlockJobs(d: Disk, pieceIndex: nat, blockIndex: nat, stored: bool)
    requires ValidBlock(d, pieceIndex, blockIndex)
    ensures var r := StoreBlockSpec(d, pieceIndex, blockIndex, stored);
      var completes := stored && PieceDone(r.pieces[pieceIndex]);
      && (completes ==> r.diskJobs == d.diskJobs + [CheckHash(pieceIndex)] && r.haltingOperations == d.haltingOperations)
      && (!completes ==> r.diskJobs == d.diskJobs && r.haltingOperations == d.haltingOperations - 1)
      && CheckHashes(r.diskJobs) == CheckHashes(d.diskJobs) + (if completes then 1 else 0)
  {
    var r := StoreBlockSpec(d, pieceIndex, blockIndex, stored);
    if stored && PieceDone(r.pieces[pieceIndex]) {
      assert r.diskJobs[..|r.diskJobs| - 1] == d.diskJobs;
    }
  }

  /**
   * The counter keeps counting the jobs still to run: if it counted the queued jobs and
   * this running one before, it counts exactly the queued jobs afterwards.
   */
  lemma StoreBlockKeepsCount(d: Disk, pieceIndex: nat, blockIndex: nat, stored: bool)
    requires ValidBlock(d, pieceIndex, blockIndex)
    requires d.haltingOperations == |d.diskJobs| + 1
    ensures var r := StoreBlockSpec(d, pieceIndex, blockIndex, stored);
      r.haltingOperations == |r.diskJobs|
  {
    StoreBlockJobs(d, pieceIndex, blockIndex, stored);
  }

  /** A piece whose last needed block is stored is done, and only then is it checked. */
  lemma StoreCompletesPiece(d: Disk, pieceIndex: nat, blockIndex: nat)
    requires ValidBlock(d, pieceIndex, blockIndex)
    ensures var r := StoreBlockSpec(d, pieceIndex, blockIndex, true);
      CheckHash(pieceIndex) in r.diskJobs[|d.diskJobs|..] <==>
        forall b :: 0 <= b < |d.pieces[pieceIndex].blocks| && b != blockIndex ==>
          d.pieces[pieceIndex].blocks[b] == Stored
  {
    var r := StoreBlockSpec(d, pieceIndex, blockIndex, true);
    var after := r.pieces[pieceIndex];
    if PieceDone(after) {
      assert r.diskJobs[|d.diskJobs|..] == [CheckHash(pieceIndex)];
    } else {
      assert r.diskJobs[|d.diskJobs|..] == [];
    }
  }

  /** The torrent's state that the disk jobs change in place. */
  class Torrent {
    var pieces: seq<Piece>
    var haltingOperations: int
    var diskJobs: seq<DiskJob>

    function Snapshot(): Disk
      reads this
    {
      Disk(pieces, haltingOperations, diskJobs)
    }

    method AddToHaltingOperations(delta: int)
      modifies this
      ensures haltingOperations == old(haltingOperations) + delta
      ensures pieces == old(pieces) && diskJobs == old(diskJobs)
    {
      haltingOperations := haltingOperations + delta;
    }

    method AddDiskJob(job: DiskJob)
      modifies this
      ensures diskJobs == old(diskJobs) + [job]
      ensures pieces == old(pieces) && haltingOperations == old(haltingOperations)
    {
      diskJobs := diskJobs + [job];
    }
  }

  /**
   * `DiskJobStoreBlock.process`: store the block (`stored` is whether the piece took the
   * data); when that completes the piece, count and queue a hash check of it; when the
   * store failed, reset the block; in every case the job's own count is released.
   */
  method ProcessStoreBlock(torrent: Torrent, pieceIndex: nat, blockIndex: nat, stored: bool)
    requires ValidBlock(torrent.Snapshot(), pieceIndex, blockIndex)
    modifies torrent
    ensures torrent.Snapshot() == StoreBlockSpec(old(torrent.Snapshot()), pieceIndex, blockIndex, stored)
  {
    var piece := torrent.pieces[pieceIndex];
    if stored {
      piece := SetBlock(piece, blockIndex, Stored);
      torrent.pieces := torrent.pieces[pieceIndex := piece];
      if PieceDone(piece) {
        torrent.AddToHaltingOperations(1);
        torrent.AddDiskJob(CheckHash(pieceIndex));
      }
    } else {
      torrent.pieces := torrent.pieces[pieceIndex := SetBlock(piece, blockIndex, Needed)];
    }
    torrent.AddToHaltingOperations(-1);
  }
}
