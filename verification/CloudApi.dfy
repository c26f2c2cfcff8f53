/**
  The chunked transfers of cloudapi.c with the fillers of s3_cloudfs.c.  libs3 chooses the buffer
  sizes; they are a function from the number of the callback to a positive size.
 */
module CloudApi {
  import opened Common
  import opened Streams

  /** put_object_callback_data, its filler being put_buffer on `infile`. */
  class PutData {
    var offset: nat
    var remainingLength: nat
    const contentLength: nat
    const infile: Stream

    /** The file is as long as was announced, and the counters say how much of it is gone. */
    ghost predicate Valid()
      reads this, infile
    {
      infile.Valid() && offset + remainingLength == contentLength == |infile.data| && offset == infile.pos
    }

    constructor (infile: Stream, contentLength: nat)
      requires infile.Valid() && infile.pos == 0 && |infile.data| == contentLength
      ensures Valid() && this.infile == infile && offset == 0 && this.contentLength == contentLength
    {
      this.infile, this.contentLength, offset, remainingLength := infile, contentLength, 0, contentLength;
    }

    /** putObjectDataCallback: the next chunk, empty only at the end. */
    method Callback(bufferSize: nat) returns (chunk: Bytes)
      requires Valid() && bufferSize > 0
      modifies this, infile`pos
      ensures Valid() && offset == Min(old(offset) + bufferSize, contentLength)
      ensures chunk == infile.data[old(offset)..offset]
    {
      chunk := [];
      if remainingLength != 0 {
        var toRead := if remainingLength > bufferSize then bufferSize else remainingLength;
        chunk := infile.Fread(toRead);
      }
      offset := offset + |chunk|;
      remainingLength := remainingLength - |chunk|;
    }
  }

  /**
    cloud_put_object: libs3 calls back until an empty chunk ends the data; what it has collected
    is what the object holds.
   */
  method PutObject(infile: Stream, contentLength: nat, sizes: BufferSizes) returns (stored: Bytes)
    requires infile.Valid() && infile.pos == 0 && |infile.data| == contentLength && Positive(sizes)
    modifies infile`pos
    ensures stored == infile.data && infile.Valid()
  {
    var data := new PutData(infile, contentLength);
    stored := [];
    var i := 0;
    var more := true;
    while more
      invariant data.Valid() && data.infile == infile && fresh(data) && infile.data == old(infile.data)
      invariant data.offset + data.remainingLength == contentLength
      invariant stored == infile.data[..data.offset] && (!more ==> data.remainingLength == 0)
      decreases data.remainingLength, more
    {
      var chunk := data.Callback(sizes(i));
      stored := stored + chunk;
      more := chunk != [];
      i := i + 1;
    }
  }

  /** getObjectDataCallback with get_buffer on `outfile`; false aborts the request. */
  method GetCallback(outfile: Stream, chunk: Bytes) returns (ok: bool)
    requires outfile.Valid() && outfile.pos == |outfile.data|
    modifies outfile
    ensures outfile.Valid() && outfile.pos == |outfile.data| && outfile.data == old(outfile.data) + chunk && ok
  {
    var wrote := outfile.Fwrite(chunk);
    ok := !(wrote < |chunk|);
  }

  /** cloud_get_object: nothing is written when there is no such object. */
  method GetObject(stored: Option<Bytes>, outfile: Stream, sizes: BufferSizes) returns (ok: bool)
    requires outfile.Valid() && outfile.pos == |outfile.data| && Positive(sizes)
    modifies outfile
    ensures outfile.Valid() && ok == stored.Some?
    ensures outfile.data == old(outfile.data) + if stored.Some? then stored.value else []
  {
    if stored == None {
      return false;
    }
    ok := true;
    var sent, i := 0, 0;
    while ok && sent < |stored.value|
      invariant ok && sent <= |stored.value| && outfile.Valid() && outfile.pos == |outfile.data|
      invariant outfile.data == old(outfile.data) + stored.value[..sent]
      decreases |stored.value| - sent
    {
      var next := Min(sent + sizes(i), |stored.value|);
      ok := GetCallback(outfile, stored.value[sent..next]);
      assert stored.value[..next] == stored.value[..sent] + stored.value[sent..next];
      sent, i := next, i + 1;
    }
    assert stored.value[..sent] == stored.value;
  }
}
