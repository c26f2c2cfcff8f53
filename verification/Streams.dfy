/** C streams and the buffer sizes a transfer library chooses. */
module Streams {
  import opened Words

  type Bytes = seq<byte>

  function Min(a: int, b: int): int {
    if a < b then a else b
  }

  /** A FILE: its bytes and the position of the next transfer. */
  class Stream {
    var data: Bytes
    var pos: nat

    ghost predicate Valid()
      reads this
    {
      pos <= |data|
    }

    constructor (data: Bytes)
      ensures Valid() && this.data == data && pos == 0
    {
      this.data, pos := data, 0;
    }

    /** fread: all that is asked for, or what is left. */
    method Fread(n: nat) returns (chunk: Bytes)
      requires Valid()
      modifies this`pos
      ensures Valid() && pos == Min(old(pos) + n, |data|) && chunk == data[old(pos)..pos]
    {
      chunk := data[pos..Min(pos + n, |data|)];
      pos := pos + |chunk|;
    }

    /** fwrite at the end of a stream opened for writing. */
    method Fwrite(chunk: Bytes) returns (wrote: nat)
      requires Valid() && pos == |data|
      modifies this
      ensures Valid() && pos == |data| && data == old(data) + chunk && wrote == |chunk|
    {
      data := data + chunk;
      pos := |data|;
      wrote := |chunk|;
    }
  }

  type BufferSizes = nat -> nat

  ghost predicate Positive(sizes: BufferSizes) {
    forall i :: sizes(i) > 0
  }
}
