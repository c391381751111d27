/**
 The buffered streams behind the `my_b_*` macros. The macros work on the buffer alone when they can and
 fall back to the cache's read or write function when they cannot. Those functions have no body in the
 headers; here they do what the comments on the struct ask for, refilling and flushing in chunks of any
 size, past the buffer or through it, and failing after any part of a transfer. Buffer pointers are indices
 into the buffer; `request_pos` is its start.
 */
module IoCache {
  import opened LittleEndian

  /** `my_b_EOF` */
  const END_OF_FILE := -0x8000_0000

  /** An open file: its bytes, the descriptor's offset, and how many bytes the device holds. */
  class DiskFile {
    var data: seq<Byte>
    var offset: nat
    const capacity: nat

    constructor (data: seq<Byte>, offset: nat, capacity: nat)
      ensures this.data == data && this.offset == offset && this.capacity == capacity
    {
      this.data, this.offset, this.capacity := data, offset, capacity;
    }

    /** Reads `n` bytes at the offset into `dst` from `at` on. */
    method Read(dst: array<Byte>, at: nat, n: nat)
      requires at + n <= dst.Length && offset + n <= |data|
      modifies this`offset, dst
      ensures offset == old(offset) + n
      ensures dst[..] == Splice(old(dst[..]), at, data[old(offset)..offset])
    {
      forall i | 0 <= i < n {
        dst[at + i] := data[offset + i];
      }
      offset := offset + n;
    }

    /** Appends to a file whose offset is at its end: everything, or any part that the device still takes. */
    method Append(bytes: seq<Byte>) returns (n: nat)
      requires offset == |data| <= capacity
      modifies this
      ensures n <= |bytes| && data == old(data) + bytes[..n] && offset == |data| <= capacity
      ensures n == |bytes| <==> old(|data|) + |bytes| <= capacity
    {
      n := |bytes|;
      if |data| + |bytes| > capacity {
        n := AnyBetween(0, capacity - |data|);
      }
      data := data + bytes[..n];
      offset := |data|;
    }
  }

  datatype CacheType = ReadCache | WriteCache

  /** What `my_b_write_byte` did: it does not look at the result of the flush it asks for. */
  datatype ByteOutcome = InArea | PastArea

  class Cache {
    const kind: CacheType
    const file: DiskFile
    const buffer: array<Byte>
    var posInFile: nat
    var readPos: nat
    var readEnd: nat
    var writePos: nat
    var writeEnd: nat
    var error: int

    /** Opens a cache on a file, at the descriptor's offset, with a buffer of `size` bytes. */
    constructor (kind: CacheType, file: DiskFile, size: nat)
      requires size > 0 && file.offset <= |file.data|
      requires kind.WriteCache? ==> file.offset == |file.data| <= file.capacity
      ensures this.kind == kind && this.file == file && fresh(buffer) && buffer.Length == size
      ensures posInFile == file.offset && readPos == readEnd == 0 && writePos == 0
      ensures kind.ReadCache? ==> Consistent()
      ensures kind.WriteCache? ==> Writable() && Stream() == file.data
    {
      this.kind, this.file := kind, file;
      buffer := new Byte[size];
      posInFile := file.offset;
      readPos, readEnd, writePos, writeEnd, error := 0, 0, 0, size, 0;
    }

    /** `my_b_tell`: the position in the file of the next byte. */
    function Tell(): nat
      reads `posInFile, `readPos, `writePos
    {
      posInFile + if kind.ReadCache? then readPos else writePos
    }

    // Reading

    /** The buffer pointers are in order. */
    ghost predicate Readable()
      reads `readPos, `readEnd, file
    {
      kind.ReadCache? && buffer.Length > 0 && readPos <= readEnd <= buffer.Length && file.offset <= |file.data|
    }

    /** What is still to come: the unread part of the buffer, then the file from the descriptor on. */
    ghost function Pending(): (bytes: seq<Byte>)
      requires Readable()
      reads `readPos, `readEnd, file, buffer
      ensures |bytes| == readEnd - readPos + |file.data| - file.offset
    {
      buffer[readPos..readEnd] + file.data[file.offset..]
    }

    /** The buffer holds the bytes of the file from `posInFile` up to the descriptor's offset. */
    ghost predicate Consistent()
      reads `posInFile, `readPos, `readEnd, file, buffer
    {
      Readable() && posInFile + readEnd == file.offset &&
      buffer[..readEnd] == file.data[posInFile..file.offset]
    }

    /** In a consistent cache the next bytes are those of the file from `Tell` on. */
    lemma PendingIsRestOfFile()
      requires Consistent()
      ensures Tell() <= |file.data| && Pending() == file.data[Tell()..]
    {
      var rest := file.data[Tell()..];
      assert buffer[readPos..readEnd] == buffer[..readEnd][readPos..] == file.data[Tell()..file.offset];
      assert rest == file.data[Tell()..file.offset] + file.data[file.offset..];
    }

    /** Refills a used-up buffer with the next bytes of the file, as many as it pleases. */
    method Refill()
      requires Readable() && readPos == readEnd && file.offset < |file.data|
      modifies this`posInFile, this`readPos, this`readEnd, buffer, file`offset
      ensures Consistent() && Pending() == old(Pending())
      ensures readPos == 0 < readEnd && posInFile == old(file.offset)
    {
      var n := AnyBetween(1, Min(buffer.Length, |file.data| - file.offset));
      posInFile := file.offset;
      file.Read(buffer, 0, n);
      readPos, readEnd := 0, n;
      assert Pending() == file.data[old(file.offset)..];
    }

    /** Copies `n` buffered bytes out. */
    method Take(dst: array<Byte>, at: nat, n: nat)
      requires Readable() && readPos + n <= readEnd && dst != buffer && at + n <= dst.Length
      modifies this`readPos, dst
      ensures Readable() && readPos == old(readPos) + n
      ensures dst[..] == Splice(old(dst[..]), at, old(Pending())[..n])
      ensures Pending() == old(Pending())[n..]
      ensures old(Consistent()) ==> Consistent()
    {
      ghost var taken, left := buffer[readPos..readPos + n], buffer[readPos + n..readEnd];
      assert buffer[readPos..readEnd] == taken + left;
      assert Pending()[..n] == taken && Pending()[n..] == left + file.data[file.offset..];
      forall i | 0 <= i < n {
        dst[at + i] := buffer[readPos + i];
      }
      readPos := readPos + n;
    }

    /** Reads any part of a request past the used-up buffer, straight from the file. */
    method ReadDirect(dst: array<Byte>, at: nat, want: nat) returns (n: nat)
      requires Readable() && readPos == readEnd && file.offset < |file.data|
      requires dst != buffer && at + want <= dst.Length && want > 0
      modifies this`posInFile, this`readPos, this`readEnd, dst, file`offset
      ensures Consistent() && readPos == readEnd && file.offset == old(file.offset) + n
      ensures 0 < n <= want && n <= |old(Pending())|
      ensures dst[..] == Splice(old(dst[..]), at, old(Pending())[..n]) && Pending() == old(Pending())[n..]
    {
      n := AnyBetween(1, Min(want, |file.data| - file.offset));
      ghost var rest := file.data[file.offset..];
      assert Pending() == rest by { assert buffer[readPos..readEnd] == []; }
      file.Read(dst, at, n);
      posInFile := file.offset;
      readPos, readEnd := 0, 0;
      assert file.data[old(file.offset)..file.offset] == rest[..n];
      assert Pending() == file.data[file.offset..] == rest[n..];
    }

    /** Brings in the next part of a request: straight from the file, or through a refilled buffer. */
    method ReadOn(dst: array<Byte>, at: nat, want: nat) returns (n: nat)
      requires Readable() && readPos == readEnd && file.offset < |file.data|
      requires dst != buffer && at + want <= dst.Length && want > 0
      modifies this`posInFile, this`readPos, this`readEnd, buffer, dst, file`offset
      ensures Consistent() && Readable() && old(file.offset) < file.offset
      ensures 0 < n <= want && n <= |old(Pending())| && (n < want ==> readPos == readEnd)
      ensures dst[..] == Splice(old(dst[..]), at, old(Pending())[..n]) && Pending() == old(Pending())[n..]
    {
      hide Splice, Pending;
      if * {
        n := ReadDirect(dst, at, want);
      } else {
        Refill();
        n := Min(want, readEnd);
        Take(dst, at, n);
      }
    }

    /** Drains the buffer, then reads on until the request is met or the file ends. */
    method Fetch(dst: array<Byte>, count: nat) returns (got: nat)
      requires Readable() && dst != buffer && count <= dst.Length
      modifies this`posInFile, this`readPos, this`readEnd, buffer, dst, file`offset
      ensures Readable() && (old(Consistent()) ==> Consistent())
      ensures got == Min(count, |old(Pending())|)
      ensures dst[..] == Splice(old(dst[..]), 0, old(Pending())[..got]) && Pending() == old(Pending())[got..]
      ensures count == 0 ==> unchanged(`posInFile, `readPos, `readEnd, file)
    {
      hide Splice, Pending, Consistent;
      ghost var all, before := Pending(), dst[..];
      got := Min(count, readEnd - readPos);
      Take(dst, 0, got);
      while got < count && file.offset < |file.data|
        invariant Readable() && (old(Consistent()) ==> Consistent())
        invariant got <= count && got <= |all|
        invariant dst[..] == Splice(before, 0, all[..got]) && Pending() == all[got..]
        invariant got < count ==> readPos == readEnd
        invariant count == 0 ==> unchanged(`posInFile, `readPos, `readEnd, file)
        decreases |file.data| - file.offset
      {
        var n := ReadOn(dst, got, count - got);
        SpliceNext(before, all, got, n);
        got := got + n;
      }
    }

    /**
     The cache's read function: delivers the next bytes, or as many as there are, saying so in `error`. A
     request for none makes sure that something is buffered unless the file has ended.
     */
    method ReadFunction(dst: array<Byte>, count: nat) returns (rc: int)
      requires Readable() && dst != buffer && count <= dst.Length
      modifies this`posInFile, this`readPos, this`readEnd, this`error, buffer, dst, file`offset
      ensures Readable() && (old(Consistent()) ==> Consistent())
      ensures var n := Min(count, |old(Pending())|);
              dst[..] == Splice(old(dst[..]), 0, old(Pending())[..n]) &&
              Pending() == old(Pending())[n..] &&
              rc == (if n == count then 0 else 1) && error == (if n == count then 0 else n)
      ensures count == 0 ==> readPos < readEnd || Pending() == []
      ensures count == 0 && old(readPos == readEnd && file.offset < |file.data|) ==>
                Consistent() && Tell() == old(file.offset)
      ensures count == 0 && !old(readPos == readEnd && file.offset < |file.data|) ==> Tell() == old(Tell())
    {
      hide Splice, Pending, Consistent;
      var got := Fetch(dst, count);
      if count == 0 && readPos == readEnd && file.offset < |file.data| {
        Refill();
      }
      rc, error := 0, 0;
      if got < count {
        error := got;
        rc := 1;
      }
    }

    /** `my_b_read` */
    method MyBRead(dst: array<Byte>, count: nat) returns (rc: int)
      requires Consistent() && dst != buffer && count <= dst.Length
      modifies this`posInFile, this`readPos, this`readEnd, this`error, buffer, dst, file`offset
      ensures Consistent()
      ensures var rest := old(file.data[Tell()..]); var n := Min(count, |rest|);
              dst[..] == Splice(old(dst[..]), 0, rest[..n]) &&
              Tell() == old(Tell()) + n &&
              rc == (if n == count then 0 else 1) &&
              error == (if n < count then n else if old(readPos + count <= readEnd) then old(error) else 0)
    {
      PendingIsRestOfFile();
      if readPos + count <= readEnd {
        Take(dst, 0, count);
        rc := 0;
      } else {
        rc := ReadFunction(dst, count);
      }
      PendingIsRestOfFile();
    }

    /** `my_b_get`: the next byte, or `my_b_EOF` at the end of the file. */
    method MyBGet() returns (c: int)
      requires Consistent()
      modifies this`posInFile, this`readPos, this`readEnd, this`error, buffer, file`offset
      ensures Consistent()
      ensures var rest := old(file.data[Tell()..]);
              if rest == [] then c == END_OF_FILE && Tell() == old(Tell())
              else c == rest[0] && Tell() == old(Tell()) + 1
      ensures error == if old(readPos != readEnd) then old(error) else 0
    {
      PendingIsRestOfFile();
      if readPos != readEnd {
        readPos := readPos + 1;
        c := buffer[readPos - 1];
      } else {
        var one := new Byte[1];
        var rc := ReadFunction(one, 1);
        c := if rc != 0 then END_OF_FILE else one[0];
      }
      PendingIsRestOfFile();
    }

    /** Drops the unread part of the buffer. */
    method Forget()
      requires Consistent()
      modifies this`readEnd
      ensures Readable() && readEnd == readPos && Pending() == file.data[file.offset..]
      ensures Tell() == old(Tell())
      ensures old(readPos == readEnd) ==> Consistent() && Pending() == old(Pending())
    {
      ghost var usedUp := readPos == readEnd;
      assert usedUp ==> buffer[readPos..readEnd] == [];
      readEnd := readPos;
      assert buffer[readPos..readEnd] == [];
    }

    /**
     `my_b_fill_cache` forgets what is buffered and reads on from the descriptor: the stream goes on
     where it was exactly when the buffer had been used up. Otherwise it skips to the descriptor's offset,
     which `my_b_tell` shows unless the file ends there.
     */
    method MyBFillCache() returns (rc: int)
      requires Consistent()
      modifies this`posInFile, this`readPos, this`readEnd, this`error, buffer, file`offset
      ensures Readable() && rc == 0 && error == 0
      ensures Pending() == old(file.data[file.offset..])
      ensures old(file.offset < |file.data|) ==> Consistent() && Tell() == old(file.offset)
      ensures old(file.offset == |file.data|) ==> Tell() == old(Tell())
      ensures readPos < readEnd || Pending() == []
      ensures Pending() == old(Pending()) <==> old(readPos == readEnd)
      ensures old(readPos == readEnd) ==> Consistent() && Tell() == old(Tell())
    {
      PendingIsRestOfFile();
      hide Splice, Pending, Consistent;
      ghost var usedUp, before := readPos == readEnd, |Pending()|;
      Forget();
      ghost var next := Pending();
      assert |next| == before <==> usedUp;
      assert next[0..] == next;
      var none := new Byte[0];
      rc := ReadFunction(none, 0);
      if usedUp {
        PendingIsRestOfFile();
      }
    }

    // Writing

    /** The file ends where the buffer begins. */
    ghost predicate Attached()
      reads `posInFile, `writeEnd, file
    {
      kind.WriteCache? && 0 < writeEnd <= buffer.Length && posInFile == file.offset == |file.data| <= file.capacity
    }

    /** The next byte goes into the write area or, at the latest, where that ends. */
    ghost predicate Writable()
      reads `posInFile, `writePos, `writeEnd, file
    {
      Attached() && writePos <= writeEnd
    }

    /** A byte has been put past the write area. */
    ghost predicate Overrun()
      reads `posInFile, `writePos, `writeEnd, file
    {
      Attached() && writePos == writeEnd + 1
    }

    /** Everything written: what is in the file and what is in the write area. */
    ghost function Stream(): seq<Byte>
      requires Attached()
      reads `posInFile, `writePos, `writeEnd, file, buffer
    {
      file.data + buffer[..Min(writePos, writeEnd)]
    }

    /** `my_b_tell` is the length of what has been written; an overrun puts it one too high. */
    lemma TellIsLength()
      ensures Writable() ==> Tell() == |Stream()|
      ensures Overrun() ==> Tell() == |Stream()| + 1
    {
    }

    /** Sets `error` after a failure: a hard error, or the number of bytes that did go through. */
    method Report(went: nat)
      modifies `error
      ensures error == -1 || error == went > 0
    {
      error := -1;
      if went > 0 {
        var hard := AnyBetween(0, 1);
        error := if hard == 1 then -1 else went;
      }
    }

    /** `flush_io_cache`; when the device cannot take it all, any part of the buffer may have gone out. */
    method Flush() returns (rc: int)
      requires Writable()
      modifies this`posInFile, this`writePos, this`error, buffer, file
      ensures Writable() && Stream() == old(Stream())
      ensures rc == (if old(Tell()) <= file.capacity then 0 else -1)
      ensures rc == 0 ==> writePos == 0 && file.data == Stream()
      ensures if rc == 0 then error == 0 else error == -1 || error == old(writePos) - writePos > 0
    {
      hide Stream, Tell;
      var bytes := buffer[..writePos];
      StreamInTwo();
      var n := file.Append(bytes);
      posInFile := posInFile + n;
      Shift(n);
      StreamInTwo();
      AppendInTwo(old(file.data), bytes, n);
      rc, error := 0, 0;
      if n < |bytes| {
        Report(n);
        rc := -1;
      }
    }

    lemma StreamInTwo()
      requires Writable()
      ensures Stream() == file.data + buffer[..writePos] && Tell() == |file.data| + writePos
    {
    }

    /** Takes the first `n` bytes out of the buffer. */
    method Shift(n: nat)
      requires n <= writePos <= buffer.Length
      modifies this`writePos, buffer
      ensures writePos == old(writePos) - n && buffer[..writePos] == old(buffer[..writePos])[n..]
    {
      forall i | 0 <= i < writePos - n {
        buffer[i] := buffer[n + i];
      }
      writePos := writePos - n;
    }

    /** Copies bytes into the free part of the buffer. */
    method Put(src: seq<Byte>)
      requires Writable() && writePos + |src| <= writeEnd
      modifies this`writePos, buffer
      ensures Writable() && Stream() == old(Stream()) + src
      ensures writePos == old(writePos) + |src|
    {
      forall i | 0 <= i < |src| {
        buffer[writePos + i] := src[i];
      }
      writePos := writePos + |src|;
    }

    /**
     The cache's write function: tops the buffer up and flushes it, sends any part of the rest straight
     to the file and buffers the remainder, all in sizes of its own choice. When the device fills up on
     the way, what went through is a prefix of the bytes given, and `my_b_tell` says how long it is.
     */
    method WriteFunction(src: seq<Byte>) returns (rc: int)
      requires Writable()
      modifies this`posInFile, this`writePos, this`writeEnd, this`error, buffer, file
      ensures Writable()
      ensures old(Tell()) + |src| <= file.capacity ==> rc == 0
      ensures old(Tell()) > file.capacity ==> rc != 0
      ensures rc == 0 ==> Stream() == old(Stream()) + src && error == 0
      ensures rc == 0 && src == [] ==> writePos < writeEnd
      ensures var k := Tell() - old(Tell());
              rc != 0 ==> 0 <= k <= |src| && Stream() == old(Stream()) + src[..k] && (error == -1 || error == k > 0) &&
                          writeEnd == old(writeEnd) && (old(writePos) + |src| > old(writeEnd) ==> k < |src|)
    {
      hide Stream, Tell;
      TellIsLength();
      ghost var stream := Stream();
      var topUp := AnyBetween(0, Min(|src|, writeEnd - writePos));
      Put(src[..topUp]);
      TellIsLength();
      rc := Flush();
      var n: nat := 0;
      if rc == 0 {
        rc, n := Send(src[topUp..]);
      }
      TellIsLength();
      PrefixInTwo(stream, src, topUp, n);
      if rc != 0 {
        Report(topUp + n);
      }
    }

    /** With an empty buffer: part of the bytes goes to the file, the remainder into the buffer. */
    method Send(rest: seq<Byte>) returns (rc: int, n: nat)
      requires Writable() && writePos == 0
      modifies this`posInFile, this`writePos, this`writeEnd, buffer, file
      ensures Writable() && n <= |rest| && Stream() == old(Stream()) + rest[..n]
      ensures rc == (if n == |rest| then 0 else 1)
      ensures old(|file.data|) + |rest| <= file.capacity ==> rc == 0
      ensures rc == 0 && rest == [] ==> writePos < writeEnd
      ensures rc != 0 ==> writeEnd == old(writeEnd)
    {
      var direct := AnyBetween(if |rest| > buffer.Length then |rest| - buffer.Length else 0, |rest|);
      n := file.Append(rest[..direct]);
      posInFile := posInFile + n;
      assert rest[..direct][..n] == rest[..n];
      if n < direct {
        return 1, n;
      }
      writeEnd := AnyBetween(if direct == |rest| then 1 else |rest| - direct, buffer.Length);
      assert rest[..|rest|] == rest[..direct] + rest[direct..];
      Put(rest[direct..]);
      rc, n := 0, |rest|;
    }

    /** `my_b_write`; a failed write has appended a proper prefix of its bytes. */
    method MyBWrite(src: seq<Byte>) returns (rc: int)
      requires Writable()
      modifies this`posInFile, this`writePos, this`writeEnd, this`error, buffer, file
      ensures Writable()
      ensures rc == 0 ==> Stream() == old(Stream()) + src
      ensures rc == 0 ==> error == if old(writePos) + |src| <= old(writeEnd) then old(error) else 0
      ensures rc != 0 ==> old(writePos) + |src| > old(writeEnd) && old(Tell()) + |src| > file.capacity
      ensures var k := Tell() - old(Tell());
              rc != 0 ==> 0 <= k < |src| && Stream() == old(Stream()) + src[..k] && (error == -1 || error == k > 0)
      ensures old(writePos) + |src| > old(writeEnd) && old(Tell()) > file.capacity ==> rc != 0
    {
      if writePos + |src| <= writeEnd {
        Put(src);
        rc := 0;
      } else {
        rc := WriteFunction(src);
      }
    }

    /**
     `my_b_write_byte`, which stores whatever became of the flush it asks for. The byte goes past the
     write area exactly when the area is full, the device cannot take what is buffered and the flush moves
     nothing; then `write_pos` passes `write_end`, `my_b_tell` counts the stray byte, and nothing written
     before is touched.
     */
    method MyBWriteByte(c: Byte) returns (outcome: ByteOutcome)
      requires Writable()
      modifies this`posInFile, this`writePos, this`writeEnd, this`error, buffer, file
      ensures outcome == PastArea <==>
              old(writePos == writeEnd && Tell() > file.capacity) && file.data == old(file.data)
      ensures outcome == InArea ==> Writable() && Stream() == old(Stream()) + [c]
      ensures outcome == PastArea ==>
                Overrun() && !Writable() && Stream() == old(Stream()) && Tell() == old(Tell()) + 1 &&
                writeEnd == old(writeEnd) && buffer[..writeEnd] == old(buffer[..writeEnd]) &&
                (writeEnd < buffer.Length ==> buffer[writeEnd] == c)
    {
      TellIsLength();
      if writePos >= writeEnd {
        var rc := WriteFunction([]);
        TellIsLength();
      }
      if writePos < writeEnd {
        Put([c]);
        outcome := InArea;
      } else {
        assert buffer[..writeEnd] == old(buffer[..writeEnd]) by {
          StreamTail();
        }
        if writePos < buffer.Length {
          buffer[writePos] := c;
        }
        writePos := writePos + 1;
        outcome := PastArea;
      }
    }

    /** The buffered part of the stream. */
    lemma StreamTail()
      requires Writable()
      ensures buffer[..writePos] == Stream()[|file.data|..]
    {
    }
  }

  /** A size the implementation is free to choose. */
  method AnyBetween(lo: nat, hi: nat) returns (n: nat)
    requires lo <= hi
    ensures lo <= n <= hi
  {
    n :| lo <= n <= hi;
  }

  function Min(a: nat, b: nat): nat {
    if a < b then a else b
  }

  lemma SpliceNext(m: seq<Byte>, all: seq<Byte>, got: nat, n: nat)
    requires got + n <= |m| && got + n <= |all|
    ensures Splice(Splice(m, 0, all[..got]), got, all[got..][..n]) == Splice(m, 0, all[..got + n])
    ensures all[got..][n..] == all[got + n..]
  {
    assert all[..got + n] == all[..got] + all[got..][..n];
  }

  lemma AppendInTwo(data: seq<Byte>, bytes: seq<Byte>, n: nat)
    requires n <= |bytes|
    ensures data + bytes[..n] + bytes[n..] == data + bytes
    ensures n == |bytes| ==> data + bytes[..n] == data + bytes
  {
  }

  lemma PrefixInTwo(stream: seq<Byte>, src: seq<Byte>, i: nat, n: nat)
    requires i + n <= |src|
    ensures stream + src[..i] + src[i..][..n] == stream + src[..i + n]
    ensures n == 0 ==> stream + src[..i] == stream + src[..i + n]
    ensures i + n == |src| ==> src[..i + n] == src
  {
  }

  // Whole sessions

  datatype Request = GetByte | GetBytes(count: nat)

  datatype Delivery = Delivery(bytes: seq<Byte>, complete: bool)

  /** What a plain byte sequence answers to a request. */
  function Serve(r: Request, rest: seq<Byte>): Delivery {
    var wanted := if r.GetByte? then 1 else r.count;
    Delivery(rest[..Min(wanted, |rest|)], wanted <= |rest|)
  }

  function ServeAll(rs: seq<Request>, rest: seq<Byte>): seq<Delivery> {
    if rs == [] then []
    else var d := Serve(rs[0], rest); [d] + ServeAll(rs[1..], rest[|d.bytes|..])
  }

  function Delivered(ds: seq<Delivery>): seq<Byte> {
    if ds == [] then [] else ds[0].bytes + Delivered(ds[1..])
  }

  /** The deliveries put together are the next consecutive bytes, each once and in order. */
  lemma {:induction false} DeliveredIsNext(rs: seq<Request>, rest: seq<Byte>)
    ensures Delivered(ServeAll(rs, rest)) <= rest
    decreases |rs|
  {
    if rs != [] {
      var d := Serve(rs[0], rest);
      DeliveredIsNext(rs[1..], rest[|d.bytes|..]);
      assert ServeAll(rs, rest)[1..] == ServeAll(rs[1..], rest[|d.bytes|..]);
      assert rest == d.bytes + rest[|d.bytes|..];
    }
  }

  /** Reading through the cache answers every request as the plain file would. */
  method ReadSession(cache: Cache, rs: seq<Request>) returns (ds: seq<Delivery>)
    requires cache.Consistent()
    modifies cache`posInFile, cache`readPos, cache`readEnd, cache`error, cache.buffer, cache.file`offset
    ensures cache.Consistent()
    ensures ds == ServeAll(rs, old(cache.file.data[cache.Tell()..])) && |ds| == |rs|
    ensures forall i :: 0 <= i < |rs| ==>
                          var wanted := if rs[i].GetByte? then 1 else rs[i].count;
                          var rest, at := old(cache.file.data[cache.Tell()..]), |Delivered(ds[..i])|;
                          at <= |rest| && (ds[i].complete <==> wanted <= |rest| - at) &&
                          ds[i].bytes == rest[at..if wanted <= |rest| - at then at + wanted else |rest|]
    ensures cache.Tell() == old(cache.Tell()) + |Delivered(ds)|
  {
    hide ServeAll, Serve, Delivered, Cache.Readable;
    ds := [];
    ghost var data, start := cache.file.data, cache.Tell();
    cache.PendingIsRestOfFile();
    ghost var rest := data[start..];
    NothingYet(rs, rest);
    for i := 0 to |rs|
      invariant cache.Consistent() && cache.file.data == data
      invariant |Delivered(ds)| <= |rest| && cache.Tell() == start + |Delivered(ds)|
      invariant ds + ServeAll(rs[i..], rest[|Delivered(ds)|..]) == ServeAll(rs, rest)
    {
      ghost var n := |Delivered(ds)|;
      assert rest[n..] == data[start + n..];
      var d := Answer(cache, rs[i]);
      ServeStep(rs, i, rest[n..], d);
      DeliveredAppend(ds, d);
      assert rest[n..][|d.bytes|..] == rest[n + |d.bytes|..];
      ds := ds + [d];
    }
    NothingYet([], rest[|Delivered(ds)|..]);
    assert rs[|rs|..] == [];
    EachServed(rs, rest);
  }

  /** Each answer on its own: what comes next, all that was wanted or all that is left. */
  lemma EachServed(rs: seq<Request>, rest: seq<Byte>)
    ensures var ds := ServeAll(rs, rest);
            |ds| == |rs| &&
            forall i :: 0 <= i < |rs| ==>
                          var wanted := if rs[i].GetByte? then 1 else rs[i].count;
                          var at := |Delivered(ds[..i])|;
                          at <= |rest| && (ds[i].complete <==> wanted <= |rest| - at) &&
                          ds[i].bytes == rest[at..if wanted <= |rest| - at then at + wanted else |rest|]
  {
    hide ServeAll, Delivered;
    forall i | 0 <= i < |rs|
      ensures |ServeAll(rs, rest)| == |rs| && |Delivered(ServeAll(rs, rest)[..i])| <= |rest|
      ensures ServeAll(rs, rest)[i] == Serve(rs[i], rest[|Delivered(ServeAll(rs, rest)[..i])|..])
    {
      ServedAt(rs, rest, i);
    }
    ServeLength(rs, rest);
  }

  lemma {:induction false} ServeLength(rs: seq<Request>, rest: seq<Byte>)
    ensures |ServeAll(rs, rest)| == |rs|
    decreases |rs|
  {
    if rs != [] {
      ServeLength(rs[1..], rest[|Serve(rs[0], rest).bytes|..]);
    }
  }

  lemma {:induction false} ServedAt(rs: seq<Request>, rest: seq<Byte>, i: nat)
    requires i < |rs|
    ensures |ServeAll(rs, rest)| == |rs|
    ensures var at := |Delivered(ServeAll(rs, rest)[..i])|;
            at <= |rest| && ServeAll(rs, rest)[i] == Serve(rs[i], rest[at..])
    decreases i
  {
    ServeLength(rs, rest);
    var ds, d := ServeAll(rs, rest), Serve(rs[0], rest);
    if i == 0 {
      assert ds[..0] == [] && rest[0..] == rest;
    } else {
      var tail := rest[|d.bytes|..];
      ServedAt(rs[1..], tail, i - 1);
      var ds' := ServeAll(rs[1..], tail);
      assert ds == [d] + ds';
      assert ds[..i][0] == d && ds[..i][1..] == ds'[..i - 1];
      var at' := |Delivered(ds'[..i - 1])|;
      assert Delivered(ds[..i]) == d.bytes + Delivered(ds'[..i - 1]);
      assert tail[at'..] == rest[|d.bytes| + at'..];
    }
  }

  lemma NothingYet(rs: seq<Request>, rest: seq<Byte>)
    ensures Delivered([]) == [] && rest[0..] == rest && rs[0..] == rs
    ensures rs == [] ==> ServeAll(rs, rest) == []
  {
  }

  lemma ServeStep(rs: seq<Request>, i: nat, rest: seq<Byte>, d: Delivery)
    requires i < |rs| && d == Serve(rs[i], rest)
    ensures |d.bytes| <= |rest|
    ensures ServeAll(rs[i..], rest) == [d] + ServeAll(rs[i + 1..], rest[|d.bytes|..])
  {
    assert rs[i..][1..] == rs[i + 1..];
  }

  /** One request through the macros. */
  method Answer(cache: Cache, r: Request) returns (d: Delivery)
    requires cache.Consistent()
    modifies cache`posInFile, cache`readPos, cache`readEnd, cache`error, cache.buffer, cache.file`offset
    ensures cache.Consistent()
    ensures d == Serve(r, old(cache.file.data[cache.Tell()..]))
    ensures var wanted, rest := if r.GetByte? then 1 else r.count, old(cache.file.data[cache.Tell()..]);
            (d.complete <==> wanted <= |rest|) && d.bytes == rest[..if wanted <= |rest| then wanted else |rest|]
    ensures cache.Tell() == old(cache.Tell()) + |d.bytes|
  {
    ghost var rest := cache.file.data[cache.Tell()..];
    match r {
      case GetByte =>
        var c := cache.MyBGet();
        d := if c == END_OF_FILE then Delivery([], false) else Delivery([c], true);
      case GetBytes(count) =>
        var dst := new Byte[count];
        var rc := cache.MyBRead(dst, count);
        d := if rc == 0 then Delivery(dst[..], true) else Delivery(dst[..cache.error], false);
    }
  }

  lemma {:induction false} DeliveredAppend(ds: seq<Delivery>, d: Delivery)
    ensures Delivered(ds + [d]) == Delivered(ds) + d.bytes
    decreases |ds|
  {
    if ds == [] {
      assert ds + [d] == [d];
      assert Delivered([d]) == d.bytes + Delivered([]);
    } else {
      DeliveredAppend(ds[1..], d);
      assert (ds + [d])[1..] == ds[1..] + [d];
    }
  }

  datatype Output = PutByte(c: Byte) | PutBytes(bytes: seq<Byte>)

  /** What one write appends. */
  function Content(put: Output): seq<Byte> {
    if put.PutByte? then [put.c] else put.bytes
  }

  /** What a sequence of writes appends. */
  function Written(puts: seq<Output>): seq<Byte> {
    if puts == [] then [] else Content(puts[0]) + Written(puts[1..])
  }

  lemma {:induction false} WrittenAppend(puts: seq<Output>, last: Output)
    ensures Written(puts + [last]) == Written(puts) + Content(last)
    decreases |puts|
  {
    if puts == [] {
      assert puts + [last] == [last];
      assert Written([last]) == Content(last) + Written([]);
    } else {
      WrittenAppend(puts[1..], last);
      assert (puts + [last])[1..] == puts[1..] + [last];
    }
  }

  /** How a session of writes ended: all went through, one was cut short, or a byte overran the area. */
  datatype Ending = Completed | CutShort | Overran

  /**
   Writing through the cache appends, whatever the flushes. The session stops at the first write that
   fails, `done` writes having gone through and `part` of the next one. None fails when the device has
   room for everything, and only a single byte can overrun the write area.
   */
  method WriteSession(cache: Cache, puts: seq<Output>) returns (done: nat, part: seq<Byte>, ending: Ending)
    requires cache.Writable()
    modifies cache`posInFile, cache`writePos, cache`writeEnd, cache`error, cache.buffer, cache.file
    ensures cache.Attached() && done <= |puts|
    ensures cache.Stream() == old(cache.Stream()) + Written(puts[..done]) + part
    ensures ending == Completed <==> done == |puts|
    ensures ending == Completed ==> cache.Writable() && part == []
    ensures ending == CutShort ==> cache.Writable() && puts[done].PutBytes? && part < puts[done].bytes
    ensures ending == Overran ==> cache.Overrun() && puts[done].PutByte? && part == []
    ensures old(cache.Tell()) + |Written(puts)| <= cache.file.capacity ==> ending == Completed
    ensures forall i :: 0 <= i < done && puts[i].PutByte? ==>
                          var at := old(|cache.Stream()|) + |Written(puts[..i])|;
                          at < |cache.Stream()| && cache.Stream()[at] == puts[i].c
    ensures forall i :: 0 <= i < done && puts[i].PutBytes? ==>
                          var at, n := old(|cache.Stream()|) + |Written(puts[..i])|, |puts[i].bytes|;
                          at + n <= |cache.Stream()| && cache.Stream()[at..at + n] == puts[i].bytes
    ensures forall i :: 0 <= i < done ==>
                          |Written(puts[..i + 1])| - |Written(puts[..i])| ==
                          if puts[i].PutByte? then 1 else |puts[i].bytes|
  {
    hide Written, Cache.Stream, Cache.Tell;
    done, part, ending := 0, [], Completed;
    cache.TellIsLength();
    NothingWritten(puts);
    while done < |puts|
      invariant cache.Writable() && done <= |puts|
      invariant cache.Tell() == |cache.Stream()| && part == [] && ending == Completed
      invariant cache.Stream() == old(cache.Stream()) + Written(puts[..done])
    {
      WrittenStep(puts, done);
      part, ending := Emit(cache, puts[done]);
      if ending != Completed {
        PlacesInStream(old(cache.Stream()), puts, done, part, cache.Stream());
        return;
      }
      cache.TellIsLength();
      done, part := done + 1, [];
    }
    assert cache.Stream() == old(cache.Stream()) + Written(puts[..done]) + [];
    PlacesInStream(old(cache.Stream()), puts, done, part, cache.Stream());
  }

  /** Each write has its own place in what is written: the writes before it, then its own bytes. */
  lemma WrittenPlace(puts: seq<Output>, i: nat, done: nat)
    requires i < done <= |puts|
    ensures var at, n := |Written(puts[..i])|, |Content(puts[i])|;
            |Written(puts[..i + 1])| == at + n <= |Written(puts[..done])| &&
            Written(puts[..done])[at..at + n] == Content(puts[i])
  {
    WrittenStep(puts, i);
    WrittenSplit(puts[..i + 1], puts[i + 1..done]);
    assert puts[..done] == puts[..i + 1] + puts[i + 1..done];
  }

  lemma {:induction false} WrittenSplit(xs: seq<Output>, ys: seq<Output>)
    ensures Written(xs + ys) == Written(xs) + Written(ys)
    decreases |xs|
  {
    if xs == [] {
      assert xs + ys == ys;
    } else {
      WrittenSplit(xs[1..], ys);
      assert (xs + ys)[1..] == xs[1..] + ys;
    }
  }

  /** The same in a stream that began with something else. */
  lemma PlaceInStream(before: seq<Byte>, puts: seq<Output>, i: nat, done: nat, part: seq<Byte>, after: seq<Byte>)
    requires i < done <= |puts| && after == before + Written(puts[..done]) + part
    ensures var at, n := |before| + |Written(puts[..i])|, if puts[i].PutByte? then 1 else |puts[i].bytes|;
            |Written(puts[..i + 1])| == |Written(puts[..i])| + n && at + n <= |after| &&
            (puts[i].PutByte? ==> after[at] == puts[i].c) &&
            (puts[i].PutBytes? ==> after[at..at + n] == puts[i].bytes)
  {
    hide Written;
    WrittenPlace(puts, i, done);
    var at, n := |Written(puts[..i])|, |Content(puts[i])|;
    assert after[|before| + at..|before| + at + n] == Written(puts[..done])[at..at + n] == Content(puts[i]);
    if puts[i].PutByte? {
      assert after[|before| + at] == after[|before| + at..|before| + at + n][0];
    }
  }

  lemma PlacesInStream(before: seq<Byte>, puts: seq<Output>, done: nat, part: seq<Byte>, after: seq<Byte>)
    requires done <= |puts| && after == before + Written(puts[..done]) + part
    ensures forall i :: 0 <= i < done && puts[i].PutByte? ==>
                          var at := |before| + |Written(puts[..i])|;
                          at < |after| && after[at] == puts[i].c
    ensures forall i :: 0 <= i < done && puts[i].PutBytes? ==>
                          var at, n := |before| + |Written(puts[..i])|, |puts[i].bytes|;
                          at + n <= |after| && after[at..at + n] == puts[i].bytes
    ensures forall i :: 0 <= i < done ==>
                          |Written(puts[..i + 1])| - |Written(puts[..i])| ==
                          if puts[i].PutByte? then 1 else |puts[i].bytes|
  {
    hide Written, Content;
    forall i | 0 <= i < done
      ensures |Written(puts[..i + 1])| - |Written(puts[..i])| == if puts[i].PutByte? then 1 else |puts[i].bytes|
    {
      PlaceInStream(before, puts, i, done, part, after);
    }
    forall i | 0 <= i < done && puts[i].PutByte?
      ensures |before| + |Written(puts[..i])| < |after| && after[|before| + |Written(puts[..i])|] == puts[i].c
    {
      PlaceInStream(before, puts, i, done, part, after);
    }
    forall i | 0 <= i < done && puts[i].PutBytes?
      ensures |before| + |Written(puts[..i])| + |puts[i].bytes| <= |after|
      ensures after[|before| + |Written(puts[..i])|..|before| + |Written(puts[..i])| + |puts[i].bytes|] == puts[i].bytes
    {
      PlaceInStream(before, puts, i, done, part, after);
    }
  }

  lemma NothingWritten(puts: seq<Output>)
    ensures Written(puts[..0]) == []
  {
  }

  /** One write through the macros; `part` is what of it has been appended. */
  method Emit(cache: Cache, put: Output) returns (part: seq<Byte>, ending: Ending)
    requires cache.Writable()
    modifies cache`posInFile, cache`writePos, cache`writeEnd, cache`error, cache.buffer, cache.file
    ensures cache.Attached() && cache.Stream() == old(cache.Stream()) + part
    ensures ending == Completed ==> cache.Writable() && part == Content(put)
    ensures ending == Completed && put.PutByte? ==> part == [put.c]
    ensures ending == Completed && put.PutBytes? ==> part == put.bytes
    ensures ending == CutShort ==> cache.Writable() && put.PutBytes? && part < put.bytes
    ensures ending == Overran ==> cache.Overrun() && put.PutByte? && part == []
    ensures ending != Completed ==> old(cache.Tell()) + |Content(put)| > cache.file.capacity
  {
    ghost var stream := cache.Stream();
    assert stream + [] == stream;
    match put {
      case PutByte(c) =>
        var outcome := cache.MyBWriteByte(c);
        part, ending := if outcome.InArea? then [c] else [], if outcome.InArea? then Completed else Overran;
      case PutBytes(bytes) =>
        var before := cache.Tell();
        var rc := cache.MyBWrite(bytes);
        part, ending := bytes, Completed;
        if rc != 0 {
          part, ending := bytes[..cache.Tell() - before], CutShort;
        }
    }
  }

  lemma WrittenStep(puts: seq<Output>, i: nat)
    requires i < |puts|
    ensures Written(puts[..i + 1]) == Written(puts[..i]) + Content(puts[i])
    ensures |Written(puts[..i + 1])| <= |Written(puts)|
  {
    assert puts[..i + 1] == puts[..i] + [puts[i]];
    WrittenAppend(puts[..i], puts[i]);
    WrittenPrefix(puts, i + 1);
  }

  lemma {:induction false} WrittenPrefix(puts: seq<Output>, i: nat)
    requires i <= |puts|
    ensures |Written(puts[..i])| <= |Written(puts)|
    decreases i
  {
    if i > 0 {
      WrittenPrefix(puts[1..], i - 1);
      assert puts[..i][1..] == puts[1..][..i - 1];
    }
  }

  /** The writes, a flush, and the reads. */
  method PassThrough(puts: seq<Output>, rs: seq<Request>, writeSize: nat, readSize: nat) returns (ds: seq<Delivery>)
    requires writeSize > 0 && readSize > 0
    ensures ds == ServeAll(rs, Written(puts)) && |ds| == |rs|
  {
    hide Written, ServeAll, Delivered;
    var file := new DiskFile([], 0, |Written(puts)|);
    var writer := new Cache(WriteCache, file, writeSize);
    var done, part, ending := WriteSession(writer, puts);
    assert puts[..done] == puts;
    writer.TellIsLength();
    var rc := writer.Flush();
    assert file.data == [] + Written(puts) + [] == Written(puts);
    file.offset := 0;
    var reader := new Cache(ReadCache, file, readSize);
    assert file.data[reader.Tell()..] == Written(puts);
    ds := ReadSession(reader, rs);
  }

  /** What one cache writes and flushes, another one reads back, for any buffer sizes and any requests. */
  method WriteThenRead(puts: seq<Output>, rs: seq<Request>, writeSize: nat, readSize: nat) returns (ds: seq<Delivery>)
    requires writeSize > 0 && readSize > 0
    ensures ds == ServeAll(rs, Written(puts)) && |ds| == |rs|
    ensures forall i :: 0 <= i < |puts| && puts[i].PutByte? ==>
                          var at := |Written(puts[..i])|;
                          at < |Written(puts)| && Written(puts)[at] == puts[i].c
    ensures forall i :: 0 <= i < |puts| && puts[i].PutBytes? ==>
                          var at, n := |Written(puts[..i])|, |puts[i].bytes|;
                          at + n <= |Written(puts)| && Written(puts)[at..at + n] == puts[i].bytes
    ensures forall i :: 0 <= i < |rs| ==>
                          var wanted := if rs[i].GetByte? then 1 else rs[i].count;
                          var rest, at := Written(puts), |Delivered(ds[..i])|;
                          at <= |rest| && (ds[i].complete <==> wanted <= |rest| - at) &&
                          ds[i].bytes == rest[at..if wanted <= |rest| - at then at + wanted else |rest|]
  {
    hide Written, ServeAll, Delivered;
    ds := PassThrough(puts, rs, writeSize, readSize);
    EachServed(rs, Written(puts));
    assert [] + Written(puts) + [] == Written(puts) && puts[..|puts|] == puts;
    PlacesInStream([], puts, |puts|, [], Written(puts));
  }
}
