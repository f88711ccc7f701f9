/** Re-blocking slots into a file written only in whole blocks. */
module DirectWriter {
  import opened CheckPoint
  import opened Layout
  import opened Modular

  /** What `pwrite` answers: some bytes stored, interrupted before storing any, or another error. */
  datatype Answer = Wrote(bytes: nat) | Interrupted | Broken

  /** An answer that makes the writer give up. */
  predicate Fatal(a: Answer) {
    a == Broken || a == Wrote(0)
  }

  /** The file after storing `data` at `offset`, with a hole before it read as zeros. */
  function Store(file: seq<byte>, offset: nat, data: seq<byte>): seq<byte> {
    if offset > |file| then file + Zeros(offset - |file|) + data
    else file[..offset] + data + if offset + |data| < |file| then file[offset + |data|..] else []
  }

  predicate ValidBlockBytes(blockBytes: nat, pageSize: nat)
    requires pageSize > 0
  {
    blockBytes != 0 && blockBytes % pageSize == 0 && blockBytes % SLOT_BYTES == 0
  }

  class DirectCheckPointWriter {
    const blockBytes: nat
    const buffer: array<byte>
    var bufferedBytes: nat
    var fileOffset: nat
    var directBlocksWritten: nat
    /** The output file, truncated when it was opened. */
    var file: seq<byte>
    /** What the next calls of `pwrite` will answer; afterwards every call stores all it is given. */
    var kernel: seq<Answer>

    ghost predicate Valid()
      reads this, buffer
    {
      && buffer.Length == blockBytes && bufferedBytes < blockBytes && blockBytes % SLOT_BYTES == 0
      && |file| == fileOffset == directBlocksWritten * blockBytes
    }

    /** Every byte appended so far: the file followed by the filled part of the buffer. */
    ghost function Stream(): seq<byte>
      requires bufferedBytes <= buffer.Length
      reads this, buffer
    {
      file + buffer[..bufferedBytes]
    }

    /** Open after `validate_block_size`, which throws for any other block size. */
    constructor (blockBytes: nat, pageSize: nat, kernel: seq<Answer>)
      requires pageSize > 0 && ValidBlockBytes(blockBytes, pageSize)
      ensures Valid() && Stream() == [] && this.blockBytes == blockBytes && this.kernel == kernel
      ensures fresh(buffer) && file == []
    {
      this.blockBytes := blockBytes;
      buffer := new byte[blockBytes];
      bufferedBytes, fileOffset, directBlocksWritten := 0, 0, 0;
      file, this.kernel := [], kernel;
    }

    method PWrite(written: nat, offset: nat) returns (r: Answer)
      requires written < blockBytes == buffer.Length
      modifies `file, `kernel
      ensures old(kernel) == [] ==> kernel == [] && r == Wrote(blockBytes - written)
      ensures old(kernel) != [] ==> kernel == old(kernel)[1..] && (Fatal(r) <==> Fatal(old(kernel)[0]))
      ensures r.Wrote? ==> r.bytes <= blockBytes - written
                           && file == Store(old(file), offset, buffer[written..written + r.bytes])
      ensures !r.Wrote? ==> file == old(file)
    {
      r := Wrote(blockBytes - written);
      if kernel != [] {
        if !kernel[0].Wrote? || kernel[0].bytes < r.bytes { r := kernel[0]; }
        kernel := kernel[1..];
      }
      if r.Wrote? { file := Store(file, offset, buffer[written..written + r.bytes]); }
    }

    /** Writes the full buffer; `ok` is false where the source throws. */
    method FlushBlock() returns (ok: bool)
      requires buffer.Length == blockBytes == bufferedBytes && blockBytes > 0 && blockBytes % SLOT_BYTES == 0
      requires |file| == fileOffset == directBlocksWritten * blockBytes
      modifies this
      ensures ok ==> Valid() && bufferedBytes == 0 && file == old(file) + buffer[..]
      ensures !ok ==> file <= old(file) + buffer[..]
      ensures (forall a :: a in old(kernel) ==> !Fatal(a)) ==> ok && forall a :: a in kernel ==> !Fatal(a)
    {
      var written := 0;
      while written < blockBytes
        invariant written <= blockBytes && file == old(file) + buffer[..written]
        invariant bufferedBytes == blockBytes && fileOffset == old(fileOffset)
                  && directBlocksWritten == old(directBlocksWritten)
        invariant (forall a :: a in old(kernel) ==> !Fatal(a)) ==> forall a :: a in kernel ==> !Fatal(a)
        decreases blockBytes - written, |kernel|
      {
        var result := PWrite(written, fileOffset + written);
        if result == Interrupted {
          continue;
        }
        if result == Broken || result.bytes == 0 {
          return false;
        }
        assert buffer[..written + result.bytes] == buffer[..written] + buffer[written..written + result.bytes];
        written := written + result.bytes;
      }
      MulDistributes(directBlocksWritten, 1, blockBytes);
      fileOffset := fileOffset + blockBytes;
      bufferedBytes := 0;
      directBlocksWritten := directBlocksWritten + 1;
      return true;
    }

    /** The `memcpy` into the free part of the buffer. */
    method Fill(data: seq<byte>)
      requires buffer.Length == blockBytes && bufferedBytes + |data| <= blockBytes
      modifies `bufferedBytes, buffer
      ensures bufferedBytes == old(bufferedBytes) + |data|
      ensures buffer[..bufferedBytes] == old(buffer[..bufferedBytes]) + data
    {
      forall i | 0 <= i < |data| {
        buffer[bufferedBytes + i] := data[i];
      }
      bufferedBytes := bufferedBytes + |data|;
    }

    method Append(slots: seq<Slot>) returns (ok: bool)
      requires Valid()
      modifies this, buffer
      ensures ok ==> Valid() && Stream() == old(Stream()) + Bytes(slots)
      ensures !ok ==> file <= old(Stream()) + Bytes(slots)
      ensures (forall a :: a in old(kernel) ==> !Fatal(a)) ==> ok && forall a :: a in kernel ==> !Fatal(a)
    {
      var source := Bytes(slots);
      while source != []
        invariant Valid() && Stream() + source == old(Stream()) + Bytes(slots)
        invariant (forall a :: a in old(kernel) ==> !Fatal(a)) ==> forall a :: a in kernel ==> !Fatal(a)
        decreases |source|
      {
        var available := blockBytes - bufferedBytes;
        var copied := if available < |source| then available else |source|;
        assert source == source[..copied] + source[copied..];
        ghost var before := Stream();
        Fill(source[..copied]);
        assert Stream() == before + source[..copied];
        source := source[copied..];
        if bufferedBytes == blockBytes {
          assert buffer[..bufferedBytes] == buffer[..];
          ok := FlushBlock();
          if !ok { return; }
        }
      }
      ok := true;
    }

    /** Pads the last block with zeros and writes it; nothing to do when the buffer is empty. */
    method FlushPadded() returns (ok: bool)
      requires Valid()
      modifies this, buffer
      ensures ok ==> Valid() && bufferedBytes == 0 && |file| % SLOT_BYTES == 0
                     && file == old(Stream()) + Zeros(
                          if old(bufferedBytes) == 0 then 0 else blockBytes - old(bufferedBytes))
      ensures (forall a :: a in old(kernel) ==> !Fatal(a)) ==> ok
    {
      if bufferedBytes == 0 {
        MultipleOfMultiple(directBlocksWritten, blockBytes, SLOT_BYTES);
        return true;
      }
      forall i | bufferedBytes <= i < blockBytes {
        buffer[i] := 0;
      }
      assert buffer[..] == old(buffer[..bufferedBytes]) + Zeros(blockBytes - bufferedBytes);
      bufferedBytes := blockBytes;
      ok := FlushBlock();
      MultipleOfMultiple(directBlocksWritten, blockBytes, SLOT_BYTES);
    }
  }
}
