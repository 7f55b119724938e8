/** Draining a stream while keeping only the end of it. */
module BoundedReader {
  import opened Streams

  const BUFFER_SIZE := 8192

  /** A block of bytes copied out of the read buffer; two blocks with equal bytes are still two blocks. */
  class Chunk {
    const bytes: seq<Byte>

    constructor (bytes: seq<Byte>)
      ensures this.bytes == bytes
    {
      this.bytes := bytes;
    }
  }

  datatype BoundedRead = BoundedRead(bytes: seq<Byte>, totalBytes: nat, droppedBytes: nat, truncated: bool)

  /** The last n bytes. */
  function Last(s: seq<Byte>, n: nat): seq<Byte> {
    if n >= |s| then s else s[|s| - n..]
  }

  /** All the bytes of a queue, in queue order. */
  function Contents(chunks: seq<Chunk>): seq<Byte> {
    if chunks == [] then [] else chunks[0].bytes + Contents(chunks[1..])
  }

  lemma {:induction false} ContentsAppend(a: seq<Chunk>, b: seq<Chunk>)
    ensures Contents(a + b) == Contents(a) + Contents(b)
  {
    if a == [] {
      assert a + b == b;
    } else {
      ContentsAppend(a[1..], b);
      assert (a + b)[0] == a[0] && (a + b)[1..] == a[1..] + b;
    }
  }

  lemma ContentsEnqueue(chunks: seq<Chunk>, chunk: Chunk)
    ensures Contents(chunks + [chunk]) == Contents(chunks) + chunk.bytes
  {
    ContentsAppend(chunks, [chunk]);
    assert [chunk][1..] == [];
  }

  /** Moving the block at the back to the front, by taking every block out once. */
  method BringToFront(chunks: seq<Chunk>, last: Chunk) returns (r: seq<Chunk>)
    requires chunks != [] && chunks[|chunks| - 1] == last && last !in chunks[..|chunks| - 1]
    ensures r == [last] + chunks[..|chunks| - 1]
  {
    r := [last];
    var queue := chunks;
    ghost var taken := 0;
    while queue != []
      invariant taken <= |chunks| && queue == chunks[taken..]
      invariant r == [last] + (if taken == |chunks| then chunks[..taken - 1] else chunks[..taken])
      decreases |queue|
    {
      var item := queue[0];
      queue := queue[1..];
      if item != last { r := r + [item]; }
      taken := taken + 1;
    }
  }

  /** Dropping the oldest bytes until at most limit are left. */
  method DropExcess(chunks: seq<Chunk>, retained: nat, limit: nat) returns (r: seq<Chunk>, left: nat)
    requires |Contents(chunks)| == retained
    ensures left == if retained > limit then limit else retained
    ensures |Contents(r)| == left && Contents(r) == Last(Contents(chunks), limit)
  {
    r, left := chunks, retained;
    ghost var all := Contents(chunks);
    while left > limit && r != []
      invariant |Contents(r)| == left <= retained
      invariant Contents(r) == all[retained - left..]
      invariant retained <= limit ==> left == retained
      invariant retained > limit ==> left >= limit
      decreases |r|
    {
      var first := r[0];
      var excess := left - limit;
      ghost var rest := r[1..];
      assert Contents(r) == first.bytes + Contents(rest);
      r := r[1..];
      if |first.bytes| > excess {
        var remainder := new Chunk(first.bytes[excess..]);
        r := r + [remainder];
        r := BringToFront(r, remainder);
        assert r == [remainder] + rest && r[1..] == rest;
        left := left - excess;
        break;
      }
      left := left - |first.bytes|;
    }
  }

  lemma NothingRead(all: seq<Byte>, limit: nat)
    ensures Contents([]) == [] == Last(all[..0], limit)
  {
  }

  lemma LastLength(s: seq<Byte>, n: nat)
    ensures |Last(s, n)| == if n >= |s| then |s| else n
  {
  }

  /** Keeping the last bytes of what was kept is keeping the last bytes of everything. */
  lemma MoreRead(all: seq<Byte>, total: nat, read: nat, bytes: seq<Byte>, limit: nat)
    requires total + read <= |all| && bytes == all[total..][..read]
    ensures |Last(all[..total], limit) + bytes| >= read
    ensures Last(Last(all[..total], limit) + bytes, limit) == Last(all[..total + read], limit)
    ensures all[total..][read..] == all[total + read..]
  {
    assert all[..total] + bytes == all[..total + read];
  }

  /**
   * The read loop. For every way the stream splits into reads, what is kept is the last limit bytes,
   * in order, and the counters say how much there was and how much was dropped.
   */
  method ReadBounded(stream: InputStream, limit: nat) returns (r: BoundedRead)
    requires stream.Valid()
    modifies stream
    ensures stream.Valid() && stream.Left() == []
    ensures var all := old(stream.Left());
            && r.bytes == Last(all, limit)
            && r.totalBytes == |all|
            && r.droppedBytes == |all| - |r.bytes|
            && (r.truncated <==> |all| > limit)
  {
    hide Contents, Last;
    var buffer := new Byte[BUFFER_SIZE];
    var chunks: seq<Chunk> := [];
    var retained, total := 0, 0;
    ghost var all := stream.Left();
    NothingRead(all, limit);
    while true
      invariant stream.Valid() && total <= |all| && stream.Left() == all[total..]
      invariant |Contents(chunks)| == retained && Contents(chunks) == Last(all[..total], limit)
      decreases |all| - total
    {
      var read := stream.Read(buffer, 0, buffer.Length);
      if read == 0 { break; }
      var copy := new Chunk(buffer[..read]);
      MoreRead(all, total, read, copy.bytes, limit);
      ContentsEnqueue(chunks, copy);
      total := total + read;
      chunks, retained := DropExcess(chunks + [copy], retained + read, limit);
    }
    assert all[..total] == all;
    LastLength(all, limit);
    var result := Collect(chunks, retained);
    r := BoundedRead(result[..], total, total - retained, total > retained);
  }

  /** Copying the queue into one array. */
  method Collect(chunks: seq<Chunk>, retained: nat) returns (result: array<Byte>)
    requires |Contents(chunks)| == retained
    ensures fresh(result) && result[..] == Contents(chunks)
  {
    result := new Byte[retained];
    var offset: nat := 0;
    assert chunks[0..] == chunks;
    for i := 0 to |chunks|
      invariant offset + |Contents(chunks[i..])| == retained && offset <= result.Length
      invariant result[..offset] + Contents(chunks[i..]) == Contents(chunks)
    {
      var bytes := chunks[i].bytes;
      assert chunks[i..][0] == chunks[i] && chunks[i..][1..] == chunks[i + 1..];
      ghost var before := result[..offset];
      for j := 0 to |bytes|
        invariant offset + |bytes| <= result.Length
        invariant result[..offset + j] == before + bytes[..j]
      {
        result[offset + j] := bytes[j];
      }
      offset := offset + |bytes|;
    }
  }
}
