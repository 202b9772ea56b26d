/** In-memory streams (memio.c): a growing buffer with a 32-bit position. */
module MemStream {
  import opened CArith
  import opened TicCommand

  const SIZE_LIMIT := 0x1_0000_0000_0000_0000
  const SIZE_MAX := SIZE_LIMIT - 1  // what the functions return for -1

  type Size = n: int | 0 <= n < SIZE_LIMIT

  datatype Mode = Read | Write

  datatype Whence = SeekSet | SeekCur | SeekEnd | SeekOther

  // ---- Writing ----

  /** `s` written over `c` from position p on, extending it where needed. */
  function Overwrite(c: seq<Byte>, p: nat, s: seq<Byte>): seq<Byte>
    requires p <= |c|
  {
    c[..p] + s + if p + |s| < |c| then c[p + |s|..] else []
  }

  lemma WrittenLength(c: seq<Byte>, p: nat, s: seq<Byte>)
    requires p <= |c|
    ensures |Overwrite(c, p, s)| == Max(|c|, p + |s|)
    ensures (p + |s|) % TWO32 == p + |s| <==> p + |s| < TWO32
  {
  }

  /** Byte by byte: the bytes written stand at p, and all others stay. */
  lemma WrittenAt(c: seq<Byte>, p: nat, s: seq<Byte>, i: nat)
    requires p <= |c| && i < Max(|c|, p + |s|)
    ensures i < |Overwrite(c, p, s)|
    ensures Overwrite(c, p, s)[i] == if p <= i < p + |s| then s[i - p] else c[i]
  {
  }

  /** One write after another is one write of everything, wherever the stream stood. */
  lemma WritesConcatenate(c: seq<Byte>, p: nat, s: seq<Byte>, t: seq<Byte>)
    requires p <= |c|
    ensures Overwrite(Overwrite(c, p, s), p + |s|, t) == Overwrite(c, p, s + t)
    ensures Overwrite(c, |c|, s) == c + s
  {
  }

  // ---- Reading ----

  function Product(size: nat, nmemb: nat): nat {
    nmemb * size
  }

  /** What `items * size` comes to in size_t arithmetic. */
  function Asked(size: Size, nmemb: Size): Size {
    Product(size, nmemb) % SIZE_LIMIT
  }

  lemma PositiveFactor(size: Size, nmemb: Size)
    ensures Asked(size, nmemb) > 0 ==> nmemb > 0 && size > 0
  {
  }

  /** How many items mem_fread says it read, when so many bytes are left. */
  function Items(left: nat, size: Size, nmemb: Size): (n: nat)
    ensures n == nmemb || n * size <= left < n * size + size
  {
    if Asked(size, nmemb) > left then
      PositiveFactor(size, nmemb);
      NatDiv(left, size)
    else nmemb
  }

  /** How many bytes it delivers. */
  function Bytes(left: nat, size: Size, nmemb: Size): (n: nat)
    ensures n <= left
  {
    if Asked(size, nmemb) > left then Items(left, size, nmemb) * size else Asked(size, nmemb)
  }

  lemma ReadSplit(left: nat, size: Size, nmemb: Size)
    ensures if Asked(size, nmemb) > left then
      && size > 0 && Items(left, size, nmemb) == NatDiv(left, size)
      && Bytes(left, size, nmemb) == Product(size, NatDiv(left, size))
    else Items(left, size, nmemb) == nmemb && Bytes(left, size, nmemb) == Asked(size, nmemb)
  {
    PositiveFactor(size, nmemb);
  }

  /** The answer counts the items that were delivered, no more than were asked for, exactly when
      the product fits in size_t or its remainder still exceeds what is left. */
  lemma ItemsAreDelivered(left: nat, size: Size, nmemb: Size)
    ensures Items(left, size, nmemb) * size == Bytes(left, size, nmemb) <==>
      nmemb * size < SIZE_LIMIT || nmemb * size % SIZE_LIMIT > left
    ensures nmemb * size < SIZE_LIMIT ==> Items(left, size, nmemb) <= nmemb
    ensures nmemb * size % SIZE_LIMIT <= left ==>
      Items(left, size, nmemb) == nmemb && Bytes(left, size, nmemb) == nmemb * size % SIZE_LIMIT
  {
    if left < Product(size, nmemb) < SIZE_LIMIT {
      var n := Items(left, size, nmemb);
      if n > nmemb {
        MulMono(nmemb, n, size);
      }
    }
  }

  // ---- Runs of reads ----

  function Range(from: nat, n: nat): (r: seq<nat>)
    ensures |r| == n
  {
    seq(n, i requires 0 <= i < n => from + i)
  }

  /** Which bytes of a stream of `len` a run of reads delivers, in the order they are delivered;
      each read is a pair of size and nmemb, and the position is kept in 32 bits between them. */
  function Offsets(len: nat, p: nat, chunks: seq<(Size, Size)>): (r: seq<nat>)
    requires p <= len
    ensures forall i | 0 <= i < |r| :: r[i] < len
    decreases |chunks|
  {
    if chunks == [] then []
    else
      var n := Bytes(len - p, chunks[0].0, chunks[0].1);
      Range(p, n) + Offsets(len, (p + n) % TWO32, chunks[1..])
  }

  /** Where the run leaves the position. */
  function After(len: nat, p: nat, chunks: seq<(Size, Size)>): (q: nat)
    requires p <= len
    ensures q <= len
    decreases |chunks|
  {
    if chunks == [] then p
    else After(len, (p + Bytes(len - p, chunks[0].0, chunks[0].1)) % TWO32, chunks[1..])
  }

  /** No read that delivers anything starts at or past byte 2^32 of what the run has covered. */
  predicate NeverWraps(len: nat, p: nat, chunks: seq<(Size, Size)>)
    requires p <= len
    decreases |chunks|
  {
    if chunks == [] then true
    else
      var next := p + Bytes(len - p, chunks[0].0, chunks[0].1);
      if next < TWO32 then NeverWraps(len, next, chunks[1..])
      else Offsets(len, next % TWO32, chunks[1..]) == []
  }

  lemma {:induction false} FirstOffset(len: nat, p: nat, chunks: seq<(Size, Size)>)
    requires p <= len && p < TWO32
    ensures Offsets(len, p, chunks) != [] ==> Offsets(len, p, chunks)[0] == p
    decreases |chunks|
  {
    hide Bytes;
    if chunks == [] {
    } else if Bytes(len - p, chunks[0].0, chunks[0].1) == 0 {
      FirstOffset(len, p, chunks[1..]);
    }
  }

  /** The offsets follow one another from there on. */
  predicate InOrder(from: nat, offsets: seq<nat>) {
    forall i | 0 <= i < |offsets| :: offsets[i] == from + i
  }

  lemma InOrderJoins(from: nat, n: nat, rest: seq<nat>)
    ensures InOrder(from, Range(from, n) + rest) <==> InOrder(from + n, rest)
  {
    var all := Range(from, n) + rest;
    if InOrder(from, all) {
      assert forall i | 0 <= i < |rest| :: rest[i] == all[n + i];
    }
  }

  /** Bytes from elsewhere do not continue the range. */
  lemma InOrderBreaks(from: nat, n: nat, rest: seq<nat>)
    requires rest != [] ==> rest[0] != from + n
    ensures InOrder(from, Range(from, n) + rest) <==> rest == []
  {
    InOrderJoins(from, n, rest);
  }

  /** What comes after the first read decides. */
  lemma FirstInOrder(len: nat, p: nat, chunks: seq<(Size, Size)>)
    requires p <= len && chunks != []
    ensures var next := p + Bytes(len - p, chunks[0].0, chunks[0].1);
      InOrder(p, Offsets(len, p, chunks)) <==>
        if next < TWO32 then InOrder(next, Offsets(len, next, chunks[1..]))
        else Offsets(len, next % TWO32, chunks[1..]) == []
  {
    hide Bytes, Range, InOrder;
    var n := Bytes(len - p, chunks[0].0, chunks[0].1);
    var q := (p + n) % TWO32;
    var rest := Offsets(len, q, chunks[1..]);
    assert Offsets(len, p, chunks) == Range(p, n) + rest;
    if p + n < TWO32 {
      InOrderJoins(p, n, rest);
    } else {
      FirstOffset(len, q, chunks[1..]);
      InOrderBreaks(p, n, rest);
    }
  }

  /** The run delivers the bytes in order and skips none exactly when it never wraps. */
  lemma {:induction false} RunInOrder(len: nat, p: nat, chunks: seq<(Size, Size)>)
    requires p <= len
    ensures InOrder(p, Offsets(len, p, chunks)) <==> NeverWraps(len, p, chunks)
    decreases |chunks|
  {
    if chunks == [] {
    } else {
      hide Bytes, Offsets, InOrder;
      FirstInOrder(len, p, chunks);
      var next := p + Bytes(len - p, chunks[0].0, chunks[0].1);
      if next < TWO32 {
        RunInOrder(len, next, chunks[1..]);
      }
    }
  }

  lemma {:induction false} ShortStreamNeverWraps(len: nat, p: nat, chunks: seq<(Size, Size)>)
    requires p <= len < TWO32
    ensures NeverWraps(len, p, chunks)
    ensures After(len, p, chunks) == p + |Offsets(len, p, chunks)|
    decreases |chunks|
  {
    hide Bytes;
    if chunks == [] {
    } else {
      ShortStreamNeverWraps(len, p + Bytes(len - p, chunks[0].0, chunks[0].1), chunks[1..]);
    }
  }

  /** Filling the first 2^32 bytes takes the position back to the start, so the next byte read is
      the first one again. */
  lemma LongStreamWraps(len: nat, p: nat)
    requires p < TWO32 <= len
    ensures Offsets(len, p, [(1, TWO32 - p), (1, 1)]) == Range(p, TWO32 - p) + [0]
    ensures !NeverWraps(len, p, [(1, TWO32 - p), (1, 1)])
  {
    var chunks: seq<(Size, Size)> := [(1, TWO32 - p), (1, 1)];
    assert chunks[1..] == [(1, 1)] && chunks[1..][1..] == [];
    assert Offsets(len, 0, chunks[1..]) == Range(0, 1) + [] == [0];
  }

  /** Reading in any chunking delivers a stream in order exactly when the stream is shorter than
      2^32 bytes. */
  lemma InOrderIffShort(len: nat, p: nat)
    requires p <= len && p < TWO32
    ensures (forall chunks :: NeverWraps(len, p, chunks)) <==> len < TWO32
  {
    if len < TWO32 {
      forall chunks
        ensures NeverWraps(len, p, chunks)
      {
        ShortStreamNeverWraps(len, p, chunks);
      }
    } else {
      LongStreamWraps(len, p);
    }
  }

  function TotalBytes(chunks: seq<(Size, Size)>): nat {
    if chunks == [] then 0 else Product(chunks[0].0, chunks[0].1) + TotalBytes(chunks[1..])
  }

  lemma ReadIsWhole(left: nat, size: Size, nmemb: Size)
    requires left < TWO32
    ensures Product(size, nmemb) <= left ==> Bytes(left, size, nmemb) == Product(size, nmemb)
    ensures size == 1 ==> Product(size, nmemb) == nmemb && Bytes(left, size, nmemb) == Min(left, nmemb)
  {
    hide Bytes, Items;
    ReadSplit(left, size, nmemb);
    if size == 1 && nmemb > left {
      assert NatDiv(left, 1) == left;
    }
  }

  /** On such a stream a run that asks for what is there, no more, gets all it asked for. */
  lemma {:induction false} RunIsWhole(len: nat, p: nat, chunks: seq<(Size, Size)>)
    requires p <= len < TWO32 && p + TotalBytes(chunks) <= len
    ensures |Offsets(len, p, chunks)| == TotalBytes(chunks)
    decreases |chunks|
  {
    hide Bytes;
    hide Product;
    if chunks == [] {
    } else {
      ReadIsWhole(len - p, chunks[0].0, chunks[0].1);
      RunIsWhole(len, p + Bytes(len - p, chunks[0].0, chunks[0].1), chunks[1..]);
    }
  }

  /** A run of byte-sized reads gets all it asks for or empties the stream. */
  lemma {:induction false} RunExhausts(len: nat, p: nat, chunks: seq<(Size, Size)>)
    requires p <= len < TWO32 && forall chunk | chunk in chunks :: chunk.0 == 1
    ensures |Offsets(len, p, chunks)| == Min(len - p, TotalBytes(chunks))
    decreases |chunks|
  {
    hide Bytes;
    hide Product;
    if chunks == [] {
    } else {
      var n := Bytes(len - p, chunks[0].0, chunks[0].1);
      ReadIsWhole(len - p, chunks[0].0, chunks[0].1);
      assert (p + n) % TWO32 == p + n;
      RunExhausts(len, p + n, chunks[1..]);
    }
  }

  // ---- Seeking ----

  predicate OnLap(target: int, lap: int, len: nat) {
    0 <= target - lap * TWO32 < len
  }

  /** The target lies in the stream once some multiple of 2^32 is taken off it. */
  ghost predicate OnSomeLap(target: int, len: nat) {
    exists lap :: OnLap(target, lap, len)
  }

  lemma Target(target: int, len: nat)
    ensures target % TWO32 < len <==> OnSomeLap(target, len)
    ensures (target % TWO32 - target) % TWO32 == 0
    ensures 0 <= target < TWO32 ==> target % TWO32 == target
    ensures -TWO32 <= target < 0 ==> target % TWO32 == target + TWO32
  {
    var lap := target / TWO32;
    assert target - lap * TWO32 == target % TWO32;
    if target % TWO32 < len {
      assert OnLap(target, lap, len);
    }
    forall k | OnLap(target, k, len)
      ensures target % TWO32 < len
    {
      assert target - k * TWO32 == target % TWO32 + (lap - k) * TWO32;
    }
  }

  // ---- The stream ----

  class MemFile {
    var buf: array<Byte>
    var buflen: nat
    var alloced: nat
    var position: nat
    const mode: Mode

    ghost predicate Valid()
      reads this, buf
    {
      && position <= buflen && position < TWO32
      && (mode == Read ==> buflen <= buf.Length)
      && (mode == Write ==> buflen <= alloced == buf.Length && 0 < alloced && buflen < TWO32)
    }

    /** The bytes in the stream. */
    ghost function Contents(): seq<Byte>
      requires Valid()
      reads this, buf
    {
      buf[..buflen]
    }

    constructor OpenRead(buf: array<Byte>, buflen: nat)
      requires buflen <= buf.Length
      ensures Valid() && mode == Read && this.buf == buf && Contents() == buf[..buflen] && position == 0
    {
      this.buf, this.buflen, position, mode := buf, buflen, 0, Mode.Read;
      alloced := 0;
    }

    constructor OpenWrite()
      ensures Valid() && mode == Write && fresh(buf) && Contents() == [] && position == 0
    {
      alloced := 1024;
      buf := new Byte[1024];
      buflen, position, mode := 0, 0, Mode.Write;
    }

    /** The test of mem_fread for a stream that is too short. */
    method CutShort(size: Size, nmemb: Size) returns (items: nat, bytes: nat)
      requires Valid()
      ensures items == Items(buflen - position, size, nmemb)
      ensures bytes == Bytes(buflen - position, size, nmemb)
    {
      hide Bytes, Items, Asked, Product;
      items := nmemb;
      bytes := Asked(size, nmemb);
      ReadSplit(buflen - position, size, nmemb);
      if bytes > buflen - position {
        items := NatDiv(buflen - position, size);
        bytes := Product(size, items);
      }
    }

    /** The memcpy of mem_fread. */
    method CopyOut(out: array<Byte>, bytes: nat)
      requires Valid() && out != buf && bytes <= out.Length && position + bytes <= buflen <= buf.Length
      modifies out
      ensures out[..] == old(Contents())[position..position + bytes] + old(out[..])[bytes..]
    {
      ghost var before, c := out[..], Contents();
      forall i | 0 <= i < bytes {
        out[i] := buf[position + i];
      }
      assert forall i | 0 <= i < bytes :: out[i] == c[position + i];
      assert out[..bytes] == c[position..position + bytes];
      assert out[bytes..] == before[bytes..];
      assert out[..] == out[..bytes] + out[bytes..];
    }

    /** mem_fread: whole items only, fewer of them when the stream runs short. The caller's buffer
        needs room for what is delivered. */
    method Fread(out: array<Byte>, size: Size, nmemb: Size) returns (items: nat)
      requires Valid() && out != buf
      requires mode == Read ==> Bytes(buflen - position, size, nmemb) <= out.Length
      modifies `position, out
      ensures Valid()
      ensures mode != Read ==> items == SIZE_MAX && position == old(position) && out[..] == old(out[..])
      ensures mode == Read ==>
        var n := Bytes(buflen - old(position), size, nmemb);
        && items == Items(buflen - old(position), size, nmemb)
        && out[..] == old(Contents())[old(position)..old(position) + n] + old(out[..])[n..]
        && position == (old(position) + n) % TWO32
    {
      hide Bytes, Items;
      if mode != Read {
        return SIZE_MAX;
      }
      var bytes;
      items, bytes := CutShort(size, nmemb);
      CopyOut(out, bytes);
      position := (position + bytes) % TWO32;
    }

    /** The memcpy of mem_fwrite. */
    method CopyIn(ptr: seq<Byte>)
      requires Valid() && mode == Write && position + |ptr| <= buf.Length
      modifies buf
      ensures Overwrite(old(Contents()), position, ptr) == buf[..Max(buflen, position + |ptr|)]
    {
      ghost var before, c, end := buf[..], Contents(), position + |ptr|;
      forall i | 0 <= i < |ptr| {
        buf[position + i] := ptr[i];
      }
      assert c[..position] == before[..position];
      assert end < buflen ==> c[end..] == before[end..buflen];
      assert buf[..] == before[..position] + ptr + before[end..];
    }

    /** Doubles the buffer until so many bytes fit from the position on. */
    method Reserve(bytes: nat)
      requires Valid() && mode == Write
      modifies `buf, `alloced
      ensures Valid() && bytes <= alloced - position
      ensures buf == old(buf) || fresh(buf)
      ensures Contents() == old(Contents())
    {
      ghost var c := Contents();
      while bytes > alloced - position
        invariant Valid() && (buf == old(buf) || fresh(buf)) && Contents() == c
        decreases Max(0, bytes + position - alloced)
      {
        var newbuf := new Byte[alloced * 2];
        forall i | 0 <= i < alloced {
          newbuf[i] := buf[i];
        }
        assert newbuf[..buflen] == buf[..buflen];
        buf := newbuf;
        alloced := alloced * 2;
      }
    }

    /** mem_fwrite. The position is kept in 32 bits, so the stream takes the bytes exactly when
        they end below 2^32; past that they are copied but lost to the stream's length. */
    method Fwrite(ptr: seq<Byte>, size: Size, nmemb: Size) returns (written: nat)
      requires Valid() && |ptr| == size * nmemb
      modifies this, buf
      ensures Valid()
      ensures mode != Write ==> written == SIZE_MAX && unchanged(this) && unchanged(buf)
      ensures mode == Write ==>
        && written == nmemb
        && (buf == old(buf) || fresh(buf))
        && position == (old(position) + |ptr|) % TWO32
        && |Contents()| == Max(|old(Contents())|, position)
        && Contents() <= Overwrite(old(Contents()), old(position), ptr)
        && (Contents() == Overwrite(old(Contents()), old(position), ptr) <==> old(position) + |ptr| < TWO32)
    {
      if mode != Write {
        return SIZE_MAX;
      }
      hide Overwrite;
      var bytes := size * nmemb;
      Reserve(bytes);
      ghost var c, p := Contents(), position;
      CopyIn(ptr);
      WrittenLength(c, p, ptr);
      position := (position + bytes) % TWO32;
      if position > buflen {
        buflen := position;
      }
      return nmemb;
    }

    /** mem_get_buf. */
    method GetBuf() returns (b: array<Byte>, len: nat)
      requires Valid()
      ensures b == buf && len == buflen
    {
      return buf, buflen;
    }

    /** mem_fseek. A target below 2^32 is taken exactly when it lies before the end of the stream,
        and the position is then that target; one before the start is refused on any stream shorter
        than the lap it falls in. In general a target is taken when it lies in the stream up to a
        multiple of 2^32. */
    method Fseek(offset: int, whence: Whence) returns (result: int)
      requires Valid()
      modifies `position
      ensures Valid() && (result == 0 || result == -1)
      ensures result == -1 ==> position == old(position)
      ensures whence == SeekOther ==> result == -1
      ensures whence != SeekOther ==>
        var target := offset + match whence case SeekCur => old(position) case SeekEnd => buflen case _ => 0;
        && (result == 0 <==> OnSomeLap(target, buflen))
        && (result == 0 ==> (position - target) % TWO32 == 0)
        && (0 <= target < TWO32 ==> (result == 0 <==> target < buflen) && (result == 0 ==> position == target))
        && (buflen - TWO32 <= target < 0 ==> result == -1)
      ensures whence == SeekEnd && offset == 0 ==> (result == -1 <==> buflen < TWO32)
    {
      hide OnSomeLap;
      var newpos: nat;
      match whence {
        case SeekSet => newpos := offset % TWO32;
        case SeekCur => newpos := (position + offset) % TWO32;
        case SeekEnd => newpos := (buflen + offset) % TWO32;
        case SeekOther => return -1;
      }
      ghost var target := offset + match whence case SeekCur => position case SeekEnd => buflen case _ => 0;
      Target(target, buflen);
      assert newpos == target % TWO32;
      if newpos < buflen {
        position := newpos;
        return 0;
      }
      return -1;
    }
  }

  // ---- Whole runs ----

  /** The bytes of a stream at the given offsets. */
  function Pick(c: seq<Byte>, offsets: seq<nat>): (r: seq<Byte>)
    requires forall i | 0 <= i < |offsets| :: offsets[i] < |c|
    ensures |r| == |offsets| && forall i | 0 <= i < |r| :: r[i] == c[offsets[i]]
  {
    seq(|offsets|, i requires 0 <= i < |offsets| => c[offsets[i]])
  }

  /** What a run of reads delivers. */
  function Delivered(c: seq<Byte>, p: nat, chunks: seq<(Size, Size)>): seq<Byte>
    requires p <= |c|
  {
    Pick(c, Offsets(|c|, p, chunks))
  }

  lemma NothingDelivered(c: seq<Byte>, p: nat)
    requires p <= |c|
    ensures Delivered(c, p, []) == [] && After(|c|, p, []) == p
  {
  }

  lemma PickJoins(c: seq<Byte>, p: nat, n: nat, rest: seq<nat>)
    requires p + n <= |c| && forall i | 0 <= i < |rest| :: rest[i] < |c|
    ensures Pick(c, Range(p, n) + rest) == c[p..p + n] + Pick(c, rest)
  {
  }

  /** One read off the front of a run. */
  lemma NextDelivered(c: seq<Byte>, p: nat, chunks: seq<(Size, Size)>, read: seq<Byte>)
    requires p <= |c| && chunks != []
    ensures var n := Bytes(|c| - p, chunks[0].0, chunks[0].1);
      var q := (p + n) % TWO32;
      && read + Delivered(c, p, chunks) == read + c[p..p + n] + Delivered(c, q, chunks[1..])
      && After(|c|, p, chunks) == After(|c|, q, chunks[1..])
  {
    hide Bytes, Pick;
    var n := Bytes(|c| - p, chunks[0].0, chunks[0].1);
    var q := (p + n) % TWO32;
    var rest := Offsets(|c|, q, chunks[1..]);
    assert Offsets(|c|, p, chunks) == Range(p, n) + rest;
    PickJoins(c, p, n, rest);
    assert read + (c[p..p + n] + Pick(c, rest)) == read + c[p..p + n] + Pick(c, rest);
  }

  /** One read, into a buffer of just the size needed. */
  method ReadChunk(stream: MemFile, size: Size, nmemb: Size) returns (piece: seq<Byte>)
    requires stream.Valid() && stream.mode == Read
    modifies stream`position
    ensures stream.Valid() && stream.Contents() == old(stream.Contents())
    ensures var n := Bytes(stream.buflen - old(stream.position), size, nmemb);
      && piece == stream.Contents()[old(stream.position)..old(stream.position) + n]
      && stream.position == (old(stream.position) + n) % TWO32
  {
    hide Bytes, Items;
    var n := Bytes(stream.buflen - stream.position, size, nmemb);
    var out := new Byte[n];
    var _ := stream.Fread(out, size, nmemb);
    piece := out[..];
  }

  /** A run of reads, into buffers of just the size needed. */
  method ReadChunks(stream: MemFile, chunks: seq<(Size, Size)>) returns (bytes: seq<Byte>)
    requires stream.Valid() && stream.mode == Read
    modifies stream`position
    ensures stream.Valid() && stream.Contents() == old(stream.Contents())
    ensures bytes == Delivered(stream.Contents(), old(stream.position), chunks)
    ensures stream.position == After(stream.buflen, old(stream.position), chunks)
  {
    hide Bytes, Items, Delivered, After;
    bytes := [];
    ghost var c, p := stream.Contents(), stream.position;
    ghost var all := Delivered(c, p, chunks);
    assert [] + all == all;
    for i := 0 to |chunks|
      invariant stream.Valid() && stream.Contents() == c
      invariant bytes + Delivered(c, stream.position, chunks[i..]) == all
      invariant After(|c|, stream.position, chunks[i..]) == After(|c|, p, chunks)
    {
      NextDelivered(c, stream.position, chunks[i..], bytes);
      assert chunks[i..][1..] == chunks[i + 1..];
      var piece := ReadChunk(stream, chunks[i].0, chunks[i].1);
      bytes := bytes + piece;
    }
    assert chunks[|chunks|..] == [];
    NothingDelivered(c, stream.position);
    assert bytes + [] == bytes;
  }

  function Concat(writes: seq<seq<Byte>>): seq<Byte> {
    if writes == [] then [] else Concat(writes[..|writes| - 1]) + writes[|writes| - 1]
  }

  /** Writes to a new stream, however cut up: the stream holds their bytes, in order, exactly when
      they come to less than 2^32. */
  method WriteAll(writes: seq<seq<Byte>>) returns (stream: MemFile)
    requires forall i | 0 <= i < |writes| :: |writes[i]| < SIZE_LIMIT
    ensures fresh(stream) && fresh(stream.buf) && stream.Valid() && stream.mode == Write
    ensures stream.Contents() == Concat(writes) <==> |Concat(writes)| < TWO32
  {
    stream := new MemFile.OpenWrite();
    for i := 0 to |writes|
      invariant fresh(stream) && fresh(stream.buf) && stream.Valid() && stream.mode == Write
      invariant |Concat(writes[..i])| < TWO32 ==>
        stream.Contents() == Concat(writes[..i]) && stream.position == |stream.Contents()|
    {
      assert writes[..i + 1][..i] == writes[..i];
      ghost var c := stream.Contents();
      if |c| == stream.position {
        WritesConcatenate(c, |c|, writes[i], []);
      }
      var _ := stream.Fwrite(writes[i], 1, |writes[i]|);
    }
    assert writes[..|writes|] == writes;
  }

  /** What was written is what is read back: of writes that come to less than 2^32 bytes, any run
      of reads delivers the first so many bytes, and one that asks for enough delivers all. */
  method WriteThenRead(writes: seq<seq<Byte>>, chunks: seq<(Size, Size)>) returns (bytes: seq<Byte>)
    requires forall i | 0 <= i < |writes| :: |writes[i]| < SIZE_LIMIT
    ensures var data := Concat(writes);
      |data| < TWO32 ==>
      && bytes <= data
      && (TotalBytes(chunks) <= |data| ==> |bytes| == TotalBytes(chunks))
      && ((forall chunk | chunk in chunks :: chunk.0 == 1) && TotalBytes(chunks) >= |data| ==> bytes == data)
  {
    var writer := WriteAll(writes);
    var buf, len := writer.GetBuf();
    var reader := new MemFile.OpenRead(buf, len);
    ghost var data := Concat(writes);
    bytes := ReadChunks(reader, chunks);
    if |data| < TWO32 {
      ShortStreamNeverWraps(|data|, 0, chunks);
      RunInOrder(|data|, 0, chunks);
      if TotalBytes(chunks) <= |data| {
        RunIsWhole(|data|, 0, chunks);
      }
      if forall chunk | chunk in chunks :: chunk.0 == 1 {
        RunExhausts(|data|, 0, chunks);
      }
      assert bytes == data[..|bytes|];
    }
  }
}
