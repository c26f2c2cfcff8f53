/** Uploading standard input (put_object in s3.c, when no file and no length are given). */
module StdinUpload {
  import opened Common
  import opened GrowBuffer
  import opened Streams

  const READ_SIZE: nat := 0x1_0000

  /** put_object_callback_data: the buffered input and how much of it is still to be sent. */
  class Upload {
    const queue: Queue
    var contentLength: nat

    ghost predicate Valid()
      reads `contentLength, queue, queue.blocks
    {
      queue.Valid() && |queue.Contents()| == contentLength
    }

    constructor (queue: Queue, contentLength: nat)
      requires queue.Valid() && |queue.Contents()| == contentLength
      ensures Valid() && this.queue == queue && this.contentLength == contentLength
    {
      this.queue, this.contentLength := queue, contentLength;
    }

    /** putObjectDataCallback: some of what is left, and nothing only when nothing is left. */
    method Callback(bufferSize: nat) returns (chunk: Bytes)
      requires Valid() && bufferSize > 0
      modifies `contentLength, queue, queue.Repr
      ensures Valid() && queue.Repr == old(queue.Repr) && |chunk| <= bufferSize
      ensures old(queue.Contents()) == chunk + queue.Contents()
      ensures chunk == [] <==> old(contentLength) == 0
      ensures old(contentLength) > 0 ==> old(queue.held) != []
      ensures old(contentLength) > 0 ==> |chunk| == Min(Min(bufferSize, old(contentLength)), |old(queue.held)[0]|)
    {
      chunk := [];
      if contentLength != 0 {
        var toRead := if contentLength > bufferSize then bufferSize else contentLength;
        chunk := queue.Read(toRead);
      }
      contentLength := contentLength - |chunk|;
    }
  }

  /** One fread, and what becomes of it; `more` unless it came up short. */
  method ReadOnce(stdin: Stream, queue: Queue, before: nat, ghost start: nat) returns (contentLength: nat, more: bool)
    requires stdin.Valid() && queue.Valid() && queue.Appendable()
    requires Buffered(stdin, start, queue.Contents(), before)
    modifies stdin`pos, queue, queue.Repr
    ensures stdin.Valid() && queue.Valid() && queue.Appendable() && fresh(queue.Repr - old(queue.Repr))
    ensures Buffered(stdin, start, queue.Contents(), contentLength) && stdin.pos >= old(stdin.pos)
    ensures if more then stdin.pos > old(stdin.pos) else stdin.pos == |stdin.data|
  {
    var buffer := stdin.Fread(READ_SIZE);
    if buffer == [] {
      return before, false;
    }
    queue.Append(buffer);
    contentLength := before + |buffer|;
    more := |buffer| == READ_SIZE;
  }

  /** The reading loop of put_object: everything on stdin is buffered and counted. */
  method FillFromStdin(stdin: Stream) returns (data: Upload)
    requires stdin.Valid()
    modifies stdin`pos
    ensures fresh(data) && fresh(data.queue) && fresh(data.queue.Repr) && data.Valid()
    ensures data.queue.Contents() == stdin.data[old(stdin.pos)..]
  {
    var queue := new Queue();
    var contentLength: nat := 0;
    var reading := true;
    ghost var start := stdin.pos;
    while reading
      invariant stdin.Valid() && fresh(queue) && fresh(queue.Repr) && queue.Valid() && queue.Appendable()
      invariant Buffered(stdin, start, queue.Contents(), contentLength) && (!reading ==> stdin.pos == |stdin.data|)
      decreases reading, |stdin.data| - stdin.pos
    {
      contentLength, reading := ReadOnce(stdin, queue, contentLength, start);
    }
    data := new Upload(queue, contentLength);
  }

  /** What has been read from stdin since `start` is what is buffered. */
  ghost predicate Buffered(stdin: Stream, start: nat, contents: Bytes, contentLength: nat)
    reads stdin
  {
    start <= stdin.pos <= |stdin.data| && contents == stdin.data[start..stdin.pos] && contentLength == |contents|
  }

  /** One attempt of S3_put_object: chunks are asked for until one is empty. */
  method SendAll(data: Upload, sizes: BufferSizes) returns (sent: Bytes)
    requires data.Valid() && Positive(sizes)
    modifies data`contentLength, data.queue, data.queue.Repr
    ensures sent == old(data.queue.Contents())
    ensures data.Valid() && data.queue.Contents() == [] && data.contentLength == 0
  {
    sent := [];
    var i, more := 0, true;
    while more
      invariant data.Valid() && data.queue.Repr == old(data.queue.Repr)
      invariant old(data.queue.Contents()) == sent + data.queue.Contents()
      invariant !more ==> data.contentLength == 0
      decreases more, data.contentLength
    {
      var chunk := data.Callback(sizes(i));
      Regroup(sent, chunk, data.queue.Contents());
      sent := sent + chunk;
      more := chunk != [];
      i := i + 1;
    }
  }

  /** What arrives is exactly what was on stdin, for any buffer sizes. */
  method PutFromStdin(stdin: Stream, sizes: BufferSizes) returns (sent: Bytes)
    requires stdin.Valid() && Positive(sizes)
    modifies stdin`pos
    ensures sent == stdin.data[old(stdin.pos)..]
  {
    var data := FillFromStdin(stdin);
    sent := SendAll(data, sizes);
    if data.queue.gb != null {
      var _ := data.queue.Destroy();
    }
  }
}
