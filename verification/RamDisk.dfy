/** A block device held in memory. */
module RamDisks {
  import opened Results
  import opened Bytes
  import opened Arith

  datatype BlockError = InvalidBlock | BufferSizeMismatch | ReadOnly

  // Block n of a device whose bytes are d.
  function Block(d: Data, blockSize: nat, n: nat): (r: Data)
    requires n * blockSize + blockSize <= |d|
    ensures |r| == blockSize
  {
    d[n * blockSize..n * blockSize + blockSize]
  }

  class RamDisk {
    const blockSize: nat
    const readOnly: bool
    var data: Data

    ghost predicate Valid()
      reads this
    {
      blockSize > 0 && |data| % blockSize == 0
    }

    constructor (size: nat, blockSize: nat, readOnly: bool)
      requires blockSize > 0
      ensures Valid() && this.blockSize == blockSize && this.readOnly == readOnly
      ensures size <= |data| < size + blockSize && data == ZeroData(|data|)
    {
      var blocks := (size + blockSize - 1) / blockSize;
      DivModIdentity(size + blockSize - 1, blockSize);
      this.blockSize := blockSize;
      this.readOnly := readOnly;
      data := ZeroData(blocks * blockSize);
      new;
      MultipleOf(blocks, blockSize);
    }

    // The caller's buffer is `bufLen` bytes long; its new contents are the result.
    method ReadBlock(blockNum: nat, bufLen: nat) returns (r: Result<Data, BlockError>)
      requires Valid()
      ensures r.Ok? <==> bufLen == blockSize && blockNum * blockSize + blockSize <= |data|
      ensures r.Ok? ==> r.value == Block(data, blockSize, blockNum)
      ensures r.Err? ==> r.error == if bufLen != blockSize then BufferSizeMismatch else InvalidBlock
    {
      if bufLen != blockSize {
        return Err(BufferSizeMismatch);
      }
      var offset := blockNum * blockSize;
      var end := offset + blockSize;
      if end > |data| {
        return Err(InvalidBlock);
      }
      return Ok(data[offset..end]);
    }

    method WriteBlock(blockNum: nat, buf: Data) returns (r: Result<(), BlockError>)
      requires Valid()
      modifies this`data
      ensures Valid() && |data| == |old(data)|
      ensures r.Ok? <==> !readOnly && |buf| == blockSize && blockNum * blockSize + blockSize <= |data|
      ensures r.Ok? ==> data == Splice(old(data), blockNum * blockSize, buf)
      ensures r.Err? ==> data == old(data)
      ensures r.Err? ==> r.error == if readOnly then ReadOnly
                                    else if |buf| != blockSize then BufferSizeMismatch else InvalidBlock
    {
      if readOnly {
        return Err(ReadOnly);
      }
      if |buf| != blockSize {
        return Err(BufferSizeMismatch);
      }
      var offset := blockNum * blockSize;
      var end := offset + blockSize;
      if end > |data| {
        return Err(InvalidBlock);
      }
      data := data[..offset] + buf + data[end..];
      return Ok(());
    }
  }
}
