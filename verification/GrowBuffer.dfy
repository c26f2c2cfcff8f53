/** The circular doubly linked queue of blocks that buffers an upload (growbuffer in s3.c). */
module GrowBuffer {
  import opened Streams
  import opened Words

  const BLOCK: nat := 0x1_0000

  /** A struct growbuffer; its data array lies inside the struct, so it is a value here. */
  class Block {
    var size: nat
    var start: nat
    var data: Bytes
    var prev: Block
    var next: Block

    constructor ()
      ensures size == 0 && start == 0 && |data| == BLOCK && prev == this && next == this
    {
      size, start, data := 0, 0, seq(BLOCK, _ => 0);
      prev, next := this, this;
    }

    /** The unread bytes of the block are `bytes`. */
    ghost predicate Holds(bytes: Bytes)
      reads `size, `start, `data
    {
      |data| == BLOCK && start + size <= BLOCK && bytes == data[start..start + size]
    }

    /** Copies out up to amt unread bytes and moves the window past them. */
    method Take(amt: nat, ghost bytes: Bytes) returns (chunk: Bytes)
      requires Holds(bytes)
      modifies `start, `size
      ensures |chunk| == Min(|bytes|, amt) && chunk == bytes[..|chunk|] && Holds(bytes[|chunk|..])
      ensures size == |bytes| - |chunk|
    {
      var n := if size > amt then amt else size;
      WindowSplit(data, start, size, n);
      chunk := data[start..start + n];
      start, size := start + n, size - n;
    }
  }

  /** The bytes of consecutive blocks, in order. */
  function Flat(held: seq<Bytes>): Bytes {
    if held == [] then [] else held[0] + Flat(held[1..])
  }

  lemma {:induction false} FlatConcat(a: seq<Bytes>, b: seq<Bytes>)
    ensures Flat(a + b) == Flat(a) + Flat(b)
    decreases |a|
  {
    if a == [] {
      assert a + b == b;
    } else {
      FlatConcat(a[1..], b);
      assert (a + b)[1..] == a[1..] + b;
    }
  }

  lemma FlatOne(x: Bytes)
    ensures Flat([x]) == x
  {
    assert Flat([]) == [];
  }

  /** Bytes appended to the last block are appended to the whole. */
  lemma FlatGrows(held: seq<Bytes>, more: Bytes)
    requires held != []
    ensures Flat(held[|held| - 1 := held[|held| - 1] + more]) == Flat(held) + more
  {
    var n := |held| - 1;
    var front, last := held[..n], held[n];
    assert held == front + [last] && held[n := last + more] == front + [last + more];
    FlatConcat(front, [last]);
    FlatConcat(front, [last + more]);
    FlatOne(last);
    FlatOne(last + more);
  }

  class Queue {
    /** `*gb`: the first block, or null when nothing is buffered. */
    var gb: Block?
    ghost var blocks: seq<Block>
    /** The unread bytes of each block. */
    ghost var held: seq<Bytes>
    ghost var Repr: set<Block>

    /** The blocks form a ring in which next and prev undo each other. */
    ghost predicate Linked()
      reads `gb, `blocks, `Repr, blocks`next, blocks`prev
    {
      && (gb == null <==> blocks == []) && (gb != null ==> gb == blocks[0])
      && (forall i {:trigger blocks[i].next} | 0 <= i < |blocks| - 1 :: blocks[i].next == blocks[i + 1])
      && (forall i {:trigger blocks[i].prev} | 1 <= i < |blocks| :: blocks[i].prev == blocks[i - 1])
      && (blocks != [] ==> blocks[|blocks| - 1].next == blocks[0] && blocks[0].prev == blocks[|blocks| - 1])
      && (forall i, j | 0 <= i < j < |blocks| :: blocks[i] != blocks[j])
      && (forall i | 0 <= i < |blocks| :: blocks[i] in Repr)
    }

    ghost predicate Stored()
      reads `blocks, `held, blocks`size, blocks`start, blocks`data
    {
      |held| == |blocks| && forall i | 0 <= i < |blocks| :: blocks[i].Holds(held[i])
    }

    /** No listed block is empty. */
    ghost predicate Valid()
      reads this, blocks
    {
      Linked() && Stored() && forall i | 0 <= i < |held| :: held[i] != []
    }

    ghost function Contents(): Bytes
      reads `held
    {
      Flat(held)
    }

    /** New bytes are written at data[size], the right place only while nothing of the last block is read. */
    ghost predicate Appendable()
      reads `blocks, blocks`start
    {
      blocks != [] ==> blocks[|blocks| - 1].start == 0
    }

    constructor ()
      ensures Valid() && blocks == [] && Contents() == [] && Appendable() && Repr == {}
    {
      gb, blocks, held, Repr := null, [], [], {};
    }

    /** Links a block in at the end of the ring. */
    method LinkLast(buf: Block)
      requires Linked() && buf !in blocks && buf.next == buf && buf.prev == buf
      modifies this`gb, this`blocks, this`Repr, blocks`next, blocks`prev, buf`next, buf`prev
      ensures Linked() && blocks == old(blocks) + [buf] && Repr == old(Repr) + {buf}
    {
      if gb != null {
        ghost var n := |blocks|;
        assert gb.prev == blocks[n - 1];
        buf.prev := gb.prev;
        buf.next := gb;
        gb.prev.next := buf;
        gb.prev := buf;
      } else {
        gb := buf;
      }
      blocks, Repr := blocks + [buf], Repr + {buf};
    }

    /** malloc, and linking in the new block. */
    method AddBlock() returns (buf: Block)
      requires Linked() && Stored()
      modifies this, blocks`next, blocks`prev
      ensures Linked() && Stored() && blocks == old(blocks) + [buf] && held == old(held) + [[]]
      ensures fresh(buf) && Repr == old(Repr) + {buf} && buf.start == 0 && buf.size == 0
    {
      buf := new Block();
      assert buf.Holds([]);
      LinkLast(buf);
      held := held + [[]];
    }

    /** The block to write to: the last one, or a new one when that is full or there is none. */
    method BlockWithRoom() returns (buf: Block)
      requires Valid() && Appendable()
      modifies this, blocks`next, blocks`prev
      ensures Linked() && Stored() && blocks != [] && buf == blocks[|blocks| - 1]
      ensures buf.start == 0 && buf.size < BLOCK
      ensures (blocks == old(blocks) && held == old(held)) ||
              (blocks == old(blocks) + [buf] && held == old(held) + [[]])
      ensures fresh(Repr - old(Repr))
    {
      if gb != null && gb.prev.size < BLOCK {
        buf := gb.prev;
      } else {
        buf := AddBlock();
      }
    }

    /** memcpy into the last block, behind what it holds. */
    method CopyIn(buf: Block, data: Bytes) returns (toCopy: nat)
      requires |buf.data| == BLOCK && buf.start == 0 && buf.size < BLOCK && data != []
      modifies buf`size, buf`data
      ensures toCopy == Min(BLOCK - old(buf.size), |data|) && buf.size == old(buf.size) + toCopy
      ensures buf.Holds(old(buf.data[..buf.size]) + data[..toCopy])
    {
      toCopy := BLOCK - buf.size;
      if toCopy > |data| {
        toCopy := |data|;
      }
      buf.data := buf.data[..buf.size] + data[..toCopy] + buf.data[buf.size + toCopy..];
      buf.size := buf.size + toCopy;
    }

    method WriteBlock(buf: Block, data: Bytes) returns (n: nat)
      requires Stored() && blocks != [] && buf == blocks[|blocks| - 1] && buf !in blocks[..|blocks| - 1]
      requires buf.start == 0 && buf.size < BLOCK && data != []
      modifies this`held, buf`size, buf`data
      ensures Stored() && 0 < n <= |data|
      ensures held == old(held)[|blocks| - 1 := old(held)[|blocks| - 1] + data[..n]]
    {
      ghost var last := |blocks| - 1;
      assert buf.Holds(held[last]);
      n := CopyIn(buf, data);
      held := held[last := held[last] + data[..n]];
    }

    method WriteLast(buf: Block, data: Bytes) returns (n: nat)
      requires Linked() && Stored() && blocks != [] && buf == blocks[|blocks| - 1]
      requires buf.start == 0 && buf.size < BLOCK && data != []
      modifies this`held, buf`size, buf`data
      ensures Linked() && Stored() && 0 < n <= |data|
      ensures held == old(held)[|blocks| - 1 := old(held)[|blocks| - 1] + data[..n]]
    {
      assert buf !in blocks[..|blocks| - 1];
      n := WriteBlock(buf, data);
    }

    /** What append needs and keeps. */
    ghost predicate Filling()
      reads this, blocks
    {
      Valid() && Appendable()
    }

    /** One round of growbuffer_append: as much of the data as fits in one block. */
    method AppendSome(data: Bytes) returns (n: nat)
      requires Filling() && data != []
      modifies this, Repr
      ensures Filling() && fresh(Repr - old(Repr))
      ensures 0 < n <= |data| && Contents() == old(Contents()) + data[..n]
    {
      var buf := BlockWithRoom();
      n := FillLast(buf, data, old(held));
    }

    /** The write, seen as an addition to the whole; h is what was held before room was made. */
    method FillLast(buf: Block, data: Bytes, ghost h: seq<Bytes>) returns (n: nat)
      requires Linked() && Stored() && blocks != [] && buf == blocks[|blocks| - 1]
      requires buf.start == 0 && buf.size < BLOCK && data != []
      requires (held == h || held == h + [[]]) && forall i | 0 <= i < |h| :: h[i] != []
      modifies this`held, buf`size, buf`data
      ensures Filling() && 0 < n <= |data| && Contents() == Flat(h) + data[..n]
    {
      ghost var before := held;
      n := WriteLast(buf, data);
      HeldAppended(h, before, data[..n]);
    }

    /** growbuffer_append; memory does not run out. */
    method Append(data: Bytes)
      requires Valid() && Appendable()
      modifies this, Repr
      ensures Valid() && Appendable() && fresh(Repr - old(Repr))
      ensures Contents() == old(Contents()) + data
    {
      var done := 0;
      while done < |data|
        invariant done <= |data| && Filling() && fresh(Repr - old(Repr))
        invariant Contents() == old(Contents()) + data[..done]
      {
        ghost var before := Contents();
        var n := AppendSome(data[done..]);
        Consecutive(old(Contents()), before, data, done, n);
        done := done + n;
      }
      assert data[..done] == data;
    }

    /** Takes the first block out of the ring. */
    method UnlinkFirst()
      requires Linked() && blocks != []
      modifies this`gb, this`blocks, blocks`next, blocks`prev
      ensures Linked() && blocks == old(blocks)[1..]
    {
      var buf := gb;
      if buf.next == buf {
        gb := null;
      } else {
        ghost var n := |blocks|;
        assert blocks[0].next == blocks[1] && blocks[n - 1].prev == (if n == 2 then buf else blocks[n - 2]);
        gb := buf.next;
        buf.prev.next := buf.next;
        buf.next.prev := buf.prev;
      }
      blocks := blocks[1..];
    }

    /** memcpy from the first block, whose window moves past the bytes taken. */
    method TakeBlock(buf: Block, amt: nat) returns (chunk: Bytes)
      requires Stored() && blocks != [] && buf == blocks[0] && buf !in blocks[1..]
      modifies `held, buf`start, buf`size
      ensures Stored() && |chunk| == Min(|old(held)[0]|, amt)
      ensures chunk == old(held)[0][..|chunk|] && held == old(held)[0 := old(held)[0][|chunk|..]]
      ensures buf.size == 0 <==> held[0] == []
    {
      assert buf.Holds(held[0]);
      chunk := buf.Take(amt, held[0]);
      held := held[0 := held[0][|chunk|..]];
    }

    method TakeFirst(buf: Block, amt: nat) returns (chunk: Bytes)
      requires Linked() && Stored() && blocks != [] && buf == blocks[0]
      modifies `held, buf`start, buf`size
      ensures Linked() && Stored() && |chunk| == Min(|old(held)[0]|, amt)
      ensures chunk == old(held)[0][..|chunk|] && held == old(held)[0 := old(held)[0][|chunk|..]]
      ensures buf.size == 0 <==> held[0] == []
    {
      assert buf !in blocks[1..];
      chunk := TakeBlock(buf, amt);
    }

    /** Unlinks and frees the first block. */
    method DropFirst()
      requires Linked() && Stored() && blocks != []
      modifies `gb, `blocks, `held, blocks`next, blocks`prev
      ensures Linked() && Stored() && blocks == old(blocks)[1..] && held == old(held)[1..]
    {
      UnlinkFirst();
      held := held[1..];
    }

    /** growbuffer_read: at most amt bytes, and no more than the first block has. */
    method Read(amt: nat) returns (chunk: Bytes)
      requires Valid()
      modifies this, Repr
      ensures Valid() && Repr == old(Repr)
      ensures old(Contents()) == chunk + Contents() && |chunk| <= amt
      ensures |chunk| == if old(held) == [] then 0 else Min(amt, |old(held)[0]|)
      ensures chunk == [] <==> amt == 0 || old(Contents()) == []
    {
      if gb == null {
        return [];
      }
      ghost var h := held;
      var buf := gb;
      chunk := TakeFirst(buf, amt);
      TakeFromFirst(h, |chunk|);
      if buf.size == 0 {
        DropFirst();
      }
    }

    /** growbuffer_destroy: walks the ring and frees every block, each one once. */
    method Destroy() returns (freed: seq<Block>)
      requires Valid()
      ensures freed == blocks && forall i, j | 0 <= i < j < |freed| :: freed[i] != freed[j]
    {
      var start, b := gb, gb;
      freed := [];
      while b != null
        invariant |freed| <= |blocks| && freed == blocks[..|freed|]
        invariant if b == null then freed == blocks else |freed| < |blocks| && b == blocks[|freed|]
        decreases |blocks| - |freed|
      {
        var next := b.next;
        assert b !in freed;
        freed := freed + [b];
        b := if next == start then null else next;
      }
    }
  }

  /** A block's data after growbuffer_append has copied one byte to data[size]. */
  function Written(data: Bytes, size: nat, x: byte): Bytes
    requires size < |data|
  {
    data[size := x]
  }

  /** Writing x at data[size] makes the unread bytes one byte longer and keeps the ones there are. */
  ghost predicate Continues(data: Bytes, start: nat, size: nat, x: byte)
    requires size < |data| && start + size <= |data|
  {
    && start + size < |data|
    && Written(data, size, x)[start..start + size + 1] == data[start..start + size] + [x]
  }

  /**
    The place append writes to is right exactly when nothing of the block has been read.  In a
    block read from after it was filled there is no place left, and an unread byte is overwritten.
   */
  lemma AppendPlace(data: Bytes, start: nat, size: nat)
    requires size < |data| && start + size <= |data|
    ensures start == 0 <==> forall x: byte :: Continues(data, start, size, x)
    ensures 0 < start <= size ==>
      exists x: byte :: Written(data, size, x)[start..start + size] != data[start..start + size]
  {
    if start > 0 {
      NotContinued(data, start, size);
      if start <= size {
        Overwritten(data, start, size);
      }
    }
  }

  lemma NotContinued(data: Bytes, start: nat, size: nat)
    requires 0 < start && size < |data| && start + size <= |data|
    ensures exists x: byte :: !Continues(data, start, size, x)
  {
    if start + size < |data| {
      var x: byte := if data[start + size] == 0 then 1 else 0;
      assert Written(data, size, x)[start..start + size + 1][size] == Written(data, size, x)[start + size];
      assert !Continues(data, start, size, x);
    } else {
      assert !Continues(data, start, size, 0);
    }
  }

  lemma Overwritten(data: Bytes, start: nat, size: nat)
    requires 0 < start <= size < |data| && start + size <= |data|
    ensures exists x: byte :: Written(data, size, x)[start..start + size] != data[start..start + size]
  {
    var x: byte := if data[size] == 0 then 1 else 0;
    assert Written(data, size, x)[start..start + size][size - start] == Written(data, size, x)[size];
    assert data[start..start + size][size - start] == data[size];
  }

  lemma WindowSplit(data: Bytes, start: nat, size: nat, n: nat)
    requires start + size <= |data| && n <= size
    ensures data[start..start + size][..n] == data[start..start + n]
    ensures data[start..start + size][n..] == data[start + n..start + size]
  {
  }

  lemma Consecutive(start: Bytes, before: Bytes, data: Bytes, done: nat, n: nat)
    requires done + n <= |data| && before == start + data[..done]
    ensures before + data[done..][..n] == start + data[..done + n]
  {
    assert data[..done + n] == data[..done] + data[done..][..n];
  }

  lemma TakeFromFirst(h: seq<Bytes>, n: nat)
    requires h != [] && n <= |h[0]|
    ensures Flat(h) == h[0][..n] + Flat(h[0 := h[0][n..]])
    ensures n == |h[0]| ==> Flat(h[0 := h[0][n..]]) == Flat(h[1..])
  {
    var h' := h[0 := h[0][n..]];
    assert h'[1..] == h[1..];
    assert h[0] == h[0][..n] + h[0][n..];
  }

  /** Writing to the last block, or to one just added, appends. */
  lemma HeldAppended(h: seq<Bytes>, h': seq<Bytes>, more: Bytes)
    requires more != [] && h' != [] && (h' == h || h' == h + [[]]) && forall i | 0 <= i < |h| :: h[i] != []
    ensures var h'' := h'[|h'| - 1 := h'[|h'| - 1] + more];
      Flat(h'') == Flat(h) + more && forall i | 0 <= i < |h''| :: h''[i] != []
  {
    FlatGrows(h', more);
    FlatEmptyLast(h);
    assert forall i | 0 <= i < |h'| - 1 :: h'[i] == h[i];
    NotEmpty(h'[|h'| - 1], more);
  }

  lemma FlatEmptyLast(h: seq<Bytes>)
    ensures Flat(h + [[]]) == Flat(h)
  {
    FlatConcat(h, [[]]);
    FlatOne([]);
  }

  lemma NotEmpty(a: Bytes, b: Bytes)
    requires b != []
    ensures a + b != []
  {
    assert |a + b| > 0;
  }
}
