/** A block device as a byte stream: unaligned reads and writes over whole-block access. */
module BlockDeviceNodes {
  import opened Results
  import opened Arith
  import opened Bytes
  import opened RamDisks

  datatype NodeError = ReadOnly | NoSpace | IoError

  // How many bytes a transfer of len bytes at offset moves on a device of that size.
  function Moved(size: nat, offset: nat, len: nat): (n: nat)
    ensures offset + n <= size || n == 0
  {
    if offset >= size then 0 else if len < size - offset then len else size - offset
  }

  // Position p, kept between the two ends of the transfer.
  function Clamp(p: nat, offset: nat, total: nat): (r: nat)
    ensures offset <= r <= offset + total
  {
    if p <= offset then offset else if p >= offset + total then offset + total else p
  }

  // Where block k starts.
  function Start(k: nat, bs: nat): nat {
    MulNonNegative(k, bs);
    k * bs
  }

  // The part of block k that the transfer covers: its ends as the loops compute them.
  function PieceStart(offset: nat, bs: nat, k: nat): nat
    requires bs > 0
  {
    if k == offset / bs then offset % bs else 0
  }

  function PieceEnd(offset: nat, total: nat, bs: nat, k: nat): nat
    requires bs > 0 && total > 0
  {
    if k == (offset + total - 1) / bs then (offset + total - 1) % bs + 1 else bs
  }

  lemma PieceBounds(offset: nat, total: nat, bs: nat, k: nat)
    requires bs > 0 && total > 0 && offset / bs <= k <= (offset + total - 1) / bs
    ensures Start(k + 1, bs) == Start(k, bs) + bs
    ensures Start(k, bs) + PieceStart(offset, bs, k) == Clamp(Start(k, bs), offset, total)
    ensures Start(k, bs) + PieceEnd(offset, total, bs, k) == Clamp(Start(k + 1, bs), offset, total)
    ensures PieceStart(offset, bs, k) < PieceEnd(offset, total, bs, k) <= bs
  {
    var first, last, end := offset / bs, (offset + total - 1) / bs, offset + total - 1;
    DivModIdentity(offset, bs);
    DivModIdentity(end, bs);
    MulDistributes(k, 1, bs);
    if k > first { MulMono(first + 1, k, bs); MulDistributes(first, 1, bs); }
    if k < last { MulMono(k + 1, last, bs); }
  }

  // The transfer starts in the first block and is over after the last.
  lemma TransferEnds(offset: nat, total: nat, bs: nat)
    requires bs > 0 && total > 0
    ensures 0 <= offset / bs <= (offset + total - 1) / bs
    ensures Clamp(Start(offset / bs, bs), offset, total) == offset
    ensures Clamp(Start((offset + total - 1) / bs + 1, bs), offset, total) == offset + total
  {
    var first, last, end := offset / bs, (offset + total - 1) / bs, offset + total - 1;
    DivModIdentity(offset, bs);
    DivModIdentity(end, bs);
    MulDistributes(last, 1, bs);
    if last < first { MulMono(last + 1, first, bs); }
  }

  // A device is whole blocks.
  lemma BlockInside(size: nat, bs: nat, k: nat)
    requires bs > 0 && size % bs == 0 && Start(k, bs) < size
    ensures Start(k, bs) + bs <= size
  {
    DivModIdentity(size, bs);
    var n: nat := size / bs;
    if k >= n { MulMono(n, k, bs); }
    MulMono(k + 1, n, bs);
    MulDistributes(k, 1, bs);
  }

  class BlockDeviceNode {
    const device: RamDisk

    constructor (device: RamDisk)
      ensures this.device == device
    {
      this.device := device;
    }

    // A read is a slice of the device's bytes, clamped at its end.
    method Read(offset: nat, buf: array<byte>) returns (r: Result<nat, NodeError>)
      requires device.Valid()
      modifies buf
      ensures var n := Moved(|device.data|, offset, buf.Length);
        && r == Ok(n)
        && buf[..] == if n == 0 then old(buf[..]) else Splice(old(buf[..]), 0, device.data[offset..offset + n])
    {
      hide Splice, Clamp, Start, PieceStart, PieceEnd;
      var bs, size := device.blockSize, |device.data|;
      if offset >= size {
        return Ok(0);
      }
      var total := if buf.Length < size - offset then buf.Length else size - offset;
      if total == 0 {
        return Ok(0);
      }
      TransferEnds(offset, total, bs);
      var endBlock := (offset + total - 1) / bs;
      var bytesRead, blockNum: nat := 0, offset / bs;
      ghost var b0 := buf[..];
      SpliceNothing(b0, 0);
      while blockNum <= endBlock
        invariant offset / bs <= blockNum <= endBlock + 1
        invariant offset + bytesRead == Clamp(Start(blockNum, bs), offset, total)
        invariant buf[..] == Splice(b0, 0, device.data[offset..offset + bytesRead])
      {
        PieceBounds(offset, total, bs, blockNum);
        var blockStart, blockEnd := PieceStart(offset, bs, blockNum), PieceEnd(offset, total, bs, blockNum);
        ReadPiece(blockNum, blockStart, blockEnd, buf, bytesRead, offset, b0);
        bytesRead := bytesRead + (blockEnd - blockStart);
        blockNum := blockNum + 1;
      }
      return Ok(bytesRead);
    }

    // One block of a read.
    method ReadPiece(blockNum: nat, blockStart: nat, blockEnd: nat, buf: array<byte>, bytesRead: nat,
        ghost offset: nat, ghost b0: Data)
      requires device.Valid() && blockStart < blockEnd <= device.blockSize
      requires Start(blockNum, device.blockSize) + blockStart == offset + bytesRead < |device.data|
      requires bytesRead + (blockEnd - blockStart) <= buf.Length == |b0|
      requires buf[..] == Splice(b0, 0, device.data[offset..offset + bytesRead])
      modifies buf
      ensures offset + bytesRead + (blockEnd - blockStart) <= |device.data|
      ensures buf[..] == Splice(b0, 0, device.data[offset..offset + bytesRead + (blockEnd - blockStart)])
    {
      hide Splice;
      var bs := device.blockSize;
      BlockInside(|device.data|, bs, blockNum);
      var res := device.ReadBlock(blockNum, bs);
      assert res.Ok?;
      var blockBuf := res.value;
      ghost var len, at := blockEnd - blockStart, offset + bytesRead;
      SubSlice(device.data, blockNum * bs, bs, blockStart, len);
      ghost var had, more := device.data[offset..at], device.data[at..at + len];
      assert device.data[offset..at + len] == had + more;
      SpliceMore(b0, 0, had, more);
      CopyInto(buf, bytesRead, blockBuf[blockStart..blockEnd]);
    }

    // A write is a splice into the device's bytes, clamped at its end.
    method Write(offset: nat, buf: Data) returns (r: Result<nat, NodeError>)
      requires device.Valid()
      modifies device`data
      ensures device.Valid() && |device.data| == |old(device.data)|
      ensures device.readOnly ==> r == Err(NodeError.ReadOnly) && device.data == old(device.data)
      ensures !device.readOnly && offset >= |device.data| ==> r == Err(NoSpace) && device.data == old(device.data)
      ensures !device.readOnly && offset < |device.data| ==>
        var n := Moved(|device.data|, offset, |buf|);
        r == Ok(n) && device.data == Splice(old(device.data), offset, buf[..n])
    {
      hide Splice, Clamp, Start, PieceStart, PieceEnd;
      if device.readOnly {
        return Err(NodeError.ReadOnly);
      }
      var bs, size := device.blockSize, |device.data|;
      if offset >= size {
        return Err(NoSpace);
      }
      ghost var d0 := device.data;
      SpliceNothing(d0, offset);
      var total := if |buf| < size - offset then |buf| else size - offset;
      assert buf[..0] == [];
      if total == 0 {
        return Ok(0);
      }
      TransferEnds(offset, total, bs);
      var endBlock := (offset + total - 1) / bs;
      var bytesWritten, blockNum: nat := 0, offset / bs;
      while blockNum <= endBlock
        invariant offset / bs <= blockNum <= endBlock + 1
        invariant offset + bytesWritten == Clamp(Start(blockNum, bs), offset, total)
        invariant device.Valid() && |device.data| == size
        invariant device.data == Splice(d0, offset, buf[..bytesWritten])
      {
        PieceBounds(offset, total, bs, blockNum);
        var blockStart, blockEnd := PieceStart(offset, bs, blockNum), PieceEnd(offset, total, bs, blockNum);
        WritePiece(blockNum, blockStart, blockEnd, buf, bytesWritten, offset, d0);
        bytesWritten := bytesWritten + (blockEnd - blockStart);
        blockNum := blockNum + 1;
      }
      return Ok(bytesWritten);
    }

    // One block of a write: a block covered in part is read first, so that the rest of it
    // goes back as it was.
    method WritePiece(blockNum: nat, blockStart: nat, blockEnd: nat, buf: Data, bytesWritten: nat, ghost offset: nat,
        ghost d0: Data)
      requires device.Valid() && !device.readOnly && blockStart < blockEnd <= device.blockSize && |d0| == |device.data|
      requires Start(blockNum, device.blockSize) + blockStart == offset + bytesWritten < |device.data|
      requires bytesWritten + (blockEnd - blockStart) <= |buf|
      requires device.data == Splice(d0, offset, buf[..bytesWritten])
      modifies device`data
      ensures device.Valid() && |device.data| == |d0| && offset + bytesWritten + (blockEnd - blockStart) <= |d0|
      ensures device.data == Splice(d0, offset, buf[..bytesWritten + (blockEnd - blockStart)])
    {
      hide Splice;
      var bs, blockBuf := device.blockSize, ZeroData(device.blockSize);
      ghost var d, at := device.data, blockNum * device.blockSize;
      BlockInside(|d|, bs, blockNum);
      if blockStart != 0 || blockEnd != bs {
        var res := device.ReadBlock(blockNum, bs);
        assert res.Ok?;
        blockBuf := res.value;
      }
      var copyLen := blockEnd - blockStart;
      var piece := buf[bytesWritten..bytesWritten + copyLen];
      if copyLen == bs { WholeSplice(blockBuf, d[at..at + bs], piece); }
      blockBuf := Splice(blockBuf, blockStart, piece);
      SpliceWithin(d, at, bs, blockStart, piece);
      var wres := device.WriteBlock(blockNum, blockBuf);
      assert wres.Ok?;
      SpliceMore(d0, offset, buf[..bytesWritten], piece);
      assert buf[..bytesWritten] + piece == buf[..bytesWritten + copyLen];
    }
  }

  // Replacing all of a block forgets what was there.
  lemma WholeSplice(a: Data, b: Data, piece: Data)
    requires |a| == |b| == |piece|
    ensures Splice(a, 0, piece) == Splice(b, 0, piece)
  {
  }
}
