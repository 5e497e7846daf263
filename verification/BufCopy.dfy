/** fuse_buf_copy: moving bytes between two vectors of buffers, each buffer being memory or a file
    descriptor, under every pattern of short transfers and errors. */
module BufCopy {

  /** What a descriptor refers to: a file, or a stream (pipe, socket, device), whose `data` is then
      all that was ever written to it. */
  class File<T> {
    var data: seq<T>

    constructor (data: seq<T>)
      ensures this.data == data
    {
      this.data := data;
    }
  }

  /** How much of a stream was read. */
  class Cursor {
    var cur: nat

    constructor ()
      ensures cur == 0
    {
      cur := 0;
    }
  }

  /** A buffer. `pos` is the file position of its first byte; for a stream, where that byte is (or
      will be) in the stream. */
  datatype Buf<!T> =
    | Mem(mem: array<T>, base: nat, size: nat)
    | Fd(file: File<T>, cursor: Cursor, size: nat, seek: bool, pos: nat, retry: bool)

  /** The object a buffer's bytes are kept in. */
  function Store<T>(b: Buf<T>): object {
    match b
    case Mem(m, _, _) => m
    case Fd(f, _, _, _, _, _) => f
  }

  /** The object that reading a buffer changes, if there is one. */
  function Readers<T>(b: Buf<T>): set<object> {
    if b.Fd? then {b.cursor} else {}
  }

  /** n values at position p of data, as reading a hole would give them. */
  function Slice<T>(data: seq<T>, p: nat, n: nat, zero: T): (r: seq<T>)
    ensures |r| == n
  {
    seq(n, i requires 0 <= i < n => if p + i < |data| then data[p + i] else zero)
  }

  /** data with `with` written at position p; writing past the end leaves a hole. */
  function Put<T>(data: seq<T>, p: nat, with: seq<T>, zero: T): (r: seq<T>)
    ensures |r| == if |with| == 0 then |data| else if p + |with| > |data| then p + |with| else |data|
    ensures forall i :: 0 <= i < |with| && |with| > 0 ==> r[p + i] == with[i]
    ensures forall i :: 0 <= i < |r| && !(p <= i < p + |with|) ==> r[i] == if i < |data| then data[i] else zero
  {
    if |with| == 0 then data else
      var n := if p + |with| > |data| then p + |with| else |data|;
      seq(n, i requires 0 <= i < n =>
             if p <= i < p + |with| then with[i - p] else if i < |data| then data[i] else zero)
  }

  ghost predicate Ok<T>(b: Buf<T>) {
    b.Mem? ==> b.base + b.size <= b.mem.Length
  }

  /** The bytes of a buffer. */
  ghost function Window<T>(b: Buf<T>, zero: T): (w: seq<T>)
    requires Ok(b)
    reads Store(b)
    ensures |w| == b.size
  {
    match b
    case Mem(m, base, size) => m[base..base + size]
    case Fd(f, _, size, _, pos, _) => Slice(f.data, pos, size, zero)
  }

  /** All that a buffer's object holds. */
  ghost function Whole<T>(b: Buf<T>): seq<T>
    reads Store(b)
  {
    match b
    case Mem(m, _, _) => m[..]
    case Fd(f, _, _, _, _, _) => f.data
  }

  /** Where the buffer's window begins in its object. */
  function Begin<T>(b: Buf<T>): nat {
    if b.Mem? then b.base else b.pos
  }

  /** What is at position x, as reading a hole would give it. */
  function At<T>(data: seq<T>, x: nat, zero: T): T {
    if x < |data| then data[x] else zero
  }

  /** Nothing outside the buffer's window changed in its object. */
  ghost predicate Outside<T>(b: Buf<T>, was: seq<T>, now: seq<T>, zero: T) {
    forall x: nat :: !(Begin(b) <= x < Begin(b) + b.size) ==> At(was, x, zero) == At(now, x, zero)
  }

  /** Two buffers of one object that do not touch: parts of one array, or of one file written by
      position. */
  ghost predicate Disjoint<T>(a: Buf<T>, b: Buf<T>) {
    && (a.Fd? ==> a.seek) && (b.Fd? ==> b.seek)
    && (Begin(a) + a.size <= Begin(b) || Begin(b) + b.size <= Begin(a))
  }

  /** Writing one buffer does not change another that does not touch it. */
  lemma OutsideKept<T>(a: Buf<T>, b: Buf<T>, was: seq<T>, now: seq<T>, zero: T)
    requires Outside(a, was, now, zero) && Disjoint(a, b)
    ensures Slice(was, Begin(b), b.size, zero) == Slice(now, Begin(b), b.size, zero)
  {
    var p, q := Slice(was, Begin(b), b.size, zero), Slice(now, Begin(b), b.size, zero);
    forall i | 0 <= i < b.size
      ensures p[i] == q[i]
    {
      assert p[i] == At(was, Begin(b) + i, zero) && q[i] == At(now, Begin(b) + i, zero);
    }
  }

  /** The window is that part of the object. */
  lemma WindowIsSlice<T>(b: Buf<T>, zero: T)
    requires Ok(b)
    ensures Window(b, zero) == Slice(Whole(b), Begin(b), b.size, zero)
  {
  }

  /** A stream source stands at the byte with offset o of the buffer. */
  ghost predicate ReadSync<T>(b: Buf<T>, o: nat)
    reads Readers(b)
  {
    b.Fd? && !b.seek ==> b.cursor.cur == b.pos + o
  }

  /** A stream destination has been written up to offset o of the buffer. */
  ghost predicate WriteSync<T>(b: Buf<T>, o: nat)
    reads Store(b)
  {
    b.Fd? && !b.seek ==> |b.file.data| == b.pos + o
  }

  /** The destination is kept apart from the source and from the source's cursor. */
  ghost predicate Separate<T>(dst: Buf<T>, src: Buf<T>) {
    Store(src) != Store(dst) && Store(dst) !in Readers(src) && Store(src) !in Readers(src)
  }

  function NonNeg(res: int): nat {
    if res < 0 then 0 else res
  }

  /** A transfer with result res (negative: an error, nothing was transferred): the destination's
      window now holds, from offset o, the first res values of the source's window from offset s,
      and is otherwise unchanged. */
  ghost predicate Moved<T>(before: seq<T>, after: seq<T>, o: nat, w: seq<T>, s: nat, res: int) {
    && |after| == |before| && o + NonNeg(res) <= |before| && s + NonNeg(res) <= |w|
    && forall i {:trigger after[i]} :: 0 <= i < |after| ==>
         after[i] == if o <= i < o + NonNeg(res) then w[s + (i - o)] else before[i]
  }

  /** Two transfers in a row are one. */
  lemma MovedMore<T>(before: seq<T>, mid: seq<T>, after: seq<T>, o: nat, w: seq<T>, s: nat, n: nat, res: int)
    requires Moved(before, mid, o, w, s, n) && Moved(mid, after, o + n, w, s + n, res)
    ensures Moved(before, after, o, w, s, n + NonNeg(res))
  {
  }

  lemma PutMoved<T>(data: seq<T>, pos: nat, size: nat, o: nat, c: seq<T>, w: seq<T>, s: nat, zero: T)
    requires o + |c| <= size && s + |c| <= |w| && forall i :: 0 <= i < |c| ==> c[i] == w[s + i]
    ensures forall x: nat :: !(pos <= x < pos + size) ==> At(data, x, zero) == At(Put(data, pos + o, c, zero), x, zero)
    ensures Moved(Slice(data, pos, size, zero), Slice(Put(data, pos + o, c, zero), pos, size, zero), o, w, s, |c|)
  {
  }

  /** Values written to a descriptor: at the position of the buffer, or at the end of the stream. */
  method WriteValues<T>(dst: Buf<T>, o: nat, c: seq<T>, ghost w: seq<T>, ghost s: nat, zero: T)
    requires dst.Fd? && o + |c| <= dst.size && WriteSync(dst, o)
    requires s + |c| <= |w| && forall i :: 0 <= i < |c| ==> c[i] == w[s + i]
    modifies dst.file
    ensures Moved(old(Window(dst, zero)), Window(dst, zero), o, w, s, |c|)
    ensures Outside(dst, old(Whole(dst)), Whole(dst), zero)
    ensures WriteSync(dst, o + |c|)
  {
    PutMoved(dst.file.data, dst.pos, dst.size, o, c, w, s, zero);
    dst.file.data := Put(dst.file.data, if dst.seek then dst.pos + o else |dst.file.data|, c, zero);
  }

  // ----- system calls: any short count, or an error -----

  /** What the kernel does with transfers: anything, at least one byte of what it can, all of it, or an
      error every time. */
  datatype Pace = AnyPace | Steady | Full | Fails(errno: int)

  /** Small steps or not, a descriptor is used until everything is transferred. */
  ghost predicate Persists<T>(pace: Pace, b: Buf<T>) {
    pace.Full? || (pace.Steady? && b.Fd? && b.retry)
  }

  /** read and write may go at one pace, splice at another. */
  datatype Kernel = Kernel(copy: Pace, splice: Pace)

  function Min(a: int, b: int): int {
    if a < b then a else b
  }

  /** What is left of `total` bytes from position x on. */
  function Rest(total: nat, x: nat): nat {
    if x < total then total - x else 0
  }

  /** How many bytes can be had from a buffer, from offset o on. */
  function Avail<T>(b: Buf<T>, o: nat): nat
    reads Store(b)
  {
    match b
    case Mem(_, _, size) => Rest(size, o)
    case Fd(f, _, _, _, pos, _) => Rest(|f.data|, pos + o)
  }

  /** The result of a transfer that could move n bytes. */
  method Transferred(n: nat, pace: Pace) returns (res: int, err: int)
    ensures -1 <= res <= n && (res == -1 ==> err > 0)
    ensures pace.Steady? || pace.Full? ==> Min(1, n) <= res
    ensures pace.Full? ==> res == n
    ensures pace.Fails? && pace.errno > 0 ==> res == -1 && err == pace.errno
  {
    match pace
    case AnyPace =>
      res :| -1 <= res <= n;
      err :| err > 0;
    case Steady =>
      res :| Min(1, n) <= res <= n;
      err := 0;
    case Full =>
      res, err := n, 0;
    case Fails(errno) =>
      res, err := -1, if errno > 0 then errno else 1;
  }

  /** write, pwrite from a memory buffer. */
  method Write<T>(dst: Buf<T>, dstOff: nat, src: Buf<T>, srcOff: nat, len: nat, pace: Pace, zero: T) returns (res: int, err: int)
    requires dst.Fd? && src.Mem? && Ok(src) && dstOff + len <= dst.size && srcOff + len <= src.size
    requires WriteSync(dst, dstOff) && Separate(dst, src)
    modifies dst.file
    ensures -1 <= res <= len && (res == -1 ==> err > 0)
    ensures pace.Steady? || pace.Full? ==> Min(1, len) <= res
    ensures pace.Full? ==> res == len
    ensures pace.Fails? && pace.errno > 0 ==> res == -1 && err == pace.errno
    ensures Moved(old(Window(dst, zero)), Window(dst, zero), dstOff, Window(src, zero), srcOff, res)
    ensures Outside(dst, old(Whole(dst)), Whole(dst), zero)
    ensures WriteSync(dst, dstOff + NonNeg(res))
  {
    res, err := Transferred(len, pace);
    if res != -1 {
      var c := src.mem[src.base + srcOff..src.base + srcOff + res];
      WriteValues(dst, dstOff, c, Window(src, zero), srcOff, zero);
    }
  }

  /** read, pread into values: at most what the file still has. */
  method ReadValues<T>(b: Buf<T>, o: nat, len: nat, pace: Pace, zero: T) returns (res: int, err: int, c: seq<T>)
    requires b.Fd? && o + len <= b.size && ReadSync(b, o)
    modifies b.cursor
    ensures -1 <= res <= len && (res == -1 ==> err > 0) && |c| == if res < 0 then 0 else res
    ensures res <= Avail(b, o)
    ensures pace.Steady? || pace.Full? ==> Min(1, Min(len, Avail(b, o))) <= res
    ensures pace.Full? ==> res == Min(len, Avail(b, o))
    ensures pace.Fails? && pace.errno > 0 ==> res == -1 && err == pace.errno
    ensures c == Window(b, zero)[o..o + |c|]
    ensures ReadSync(b, o + |c|)
  {
    c := [];
    res, err := Transferred(Min(len, Avail(b, o)), pace);
    if res != -1 {
      if res > 0 {
        c := b.file.data[b.pos + o..b.pos + o + res];
      }
      if !b.seek {
        b.cursor.cur := b.cursor.cur + res;
      }
    }
  }

  /** Values arriving in memory. */
  method Fill<T>(dst: Buf<T>, o: nat, c: seq<T>, zero: T)
    requires dst.Mem? && Ok(dst) && o + |c| <= dst.size
    modifies dst.mem
    ensures Moved(old(Window(dst, zero)), Window(dst, zero), o, c, 0, |c|)
    ensures Outside(dst, old(Whole(dst)), Whole(dst), zero)
  {
    var at := dst.base + o;
    forall i | 0 <= i < |c| {
      dst.mem[at + i] := c[i];
    }
  }

  /** read, pread into a memory buffer. */
  method Read<T>(dst: Buf<T>, dstOff: nat, src: Buf<T>, srcOff: nat, len: nat, pace: Pace, zero: T) returns (res: int, err: int)
    requires dst.Mem? && src.Fd? && Ok(dst) && dstOff + len <= dst.size && srcOff + len <= src.size
    requires ReadSync(src, srcOff) && Separate(dst, src)
    modifies dst.mem, src.cursor
    ensures -1 <= res <= len && (res == -1 ==> err > 0)
    ensures res <= Avail(src, srcOff)
    ensures pace.Steady? || pace.Full? ==> Min(1, Min(len, Avail(src, srcOff))) <= res
    ensures pace.Full? ==> res == Min(len, Avail(src, srcOff))
    ensures pace.Fails? && pace.errno > 0 ==> res == -1 && err == pace.errno
    ensures Moved(old(Window(dst, zero)), Window(dst, zero), dstOff, Window(src, zero), srcOff, res)
    ensures Outside(dst, old(Whole(dst)), Whole(dst), zero)
    ensures ReadSync(src, srcOff + NonNeg(res))
  {
    var c;
    res, err, c := ReadValues(src, srcOff, len, pace, zero);
    Fill(dst, dstOff, c, zero);
  }

  // ----- one buffer to one buffer -----

  /** One round of fuse_buf_write, on top of what the earlier rounds copied. */
  method WriteMore<T>(dst: Buf<T>, dstOff: nat, src: Buf<T>, srcOff: nat, copied: nat, len: nat, pace: Pace, zero: T, ghost before: seq<T>, ghost w: seq<T>)
    returns (res: int, err: int)
    requires dst.Fd? && src.Mem? && Ok(src) && dstOff + copied + len <= dst.size && srcOff + copied + len <= src.size
    requires WriteSync(dst, dstOff + copied) && Separate(dst, src)
    requires w == Window(src, zero) && Moved(before, Window(dst, zero), dstOff, w, srcOff, copied)
    modifies dst.file
    ensures -1 <= res <= len && (res == -1 ==> err > 0)
    ensures pace.Steady? || pace.Full? ==> Min(1, len) <= res
    ensures pace.Full? ==> res == len
    ensures pace.Fails? && pace.errno > 0 ==> res == -1 && err == pace.errno
    ensures w == Window(src, zero) && Moved(before, Window(dst, zero), dstOff, w, srcOff, copied + NonNeg(res))
    ensures Outside(dst, old(Whole(dst)), Whole(dst), zero)
    ensures WriteSync(dst, dstOff + copied + NonNeg(res))
  {
    ghost var now := Window(dst, zero);
    res, err := Write(dst, dstOff + copied, src, srcOff + copied, len, pace, zero);
    ghost var after := Window(dst, zero);
    MovedMore(before, now, after, dstOff, w, srcOff, copied, res);
  }

  method BufWrite<T>(dst: Buf<T>, dstOff: nat, src: Buf<T>, srcOff: nat, len: nat, pace: Pace, zero: T) returns (r: int)
    requires dst.Fd? && src.Mem? && Ok(src) && dstOff + len <= dst.size && srcOff + len <= src.size
    requires WriteSync(dst, dstOff) && Separate(dst, src)
    modifies dst.file
    ensures r <= len && (Persists(pace, dst) ==> r == len)
    ensures pace.Fails? && pace.errno > 0 && len > 0 ==> r == -pace.errno
    ensures Moved(old(Window(dst, zero)), Window(dst, zero), dstOff, Window(src, zero), srcOff, r)
    ensures Outside(dst, old(Whole(dst)), Whole(dst), zero)
    ensures WriteSync(dst, dstOff + NonNeg(r))
  {
    ghost var before, w := Window(dst, zero), Window(src, zero);
    var copied := 0;
    while copied < len
      invariant 0 <= copied <= len && WriteSync(dst, dstOff + copied)
      invariant pace.Fails? && pace.errno > 0 ==> copied == 0
      invariant w == Window(src, zero) && Moved(before, Window(dst, zero), dstOff, w, srcOff, copied)
      invariant Outside(dst, old(Whole(dst)), Whole(dst), zero)
    {
      var res, err := WriteMore(dst, dstOff, src, srcOff, copied, len - copied, pace, zero, before, w);
      if res == -1 {
        if copied == 0 {
          return -err;
        }
        break;
      }
      if res == 0 {
        break;
      }
      copied := copied + res;
      if !dst.retry {
        break;
      }
    }
    r := copied;
  }

  /** One round of fuse_buf_read, on top of what the earlier rounds copied. */
  method ReadMore<T>(dst: Buf<T>, dstOff: nat, src: Buf<T>, srcOff: nat, copied: nat, len: nat, pace: Pace, zero: T, ghost before: seq<T>, ghost w: seq<T>, ghost total: nat)
    returns (res: int, err: int)
    requires dst.Mem? && src.Fd? && Ok(dst) && dstOff + copied + len <= dst.size && srcOff + copied + len <= src.size
    requires ReadSync(src, srcOff + copied) && Separate(dst, src)
    requires |src.file.data| == total
    requires w == Window(src, zero) && Moved(before, Window(dst, zero), dstOff, w, srcOff, copied)
    modifies dst.mem, src.cursor
    ensures -1 <= res <= len && (res == -1 ==> err > 0)
    ensures res <= Rest(total, src.pos + srcOff + copied)
    ensures pace.Steady? || pace.Full? ==> Min(1, Min(len, Rest(total, src.pos + srcOff + copied))) <= res
    ensures pace.Full? ==> res == Min(len, Rest(total, src.pos + srcOff + copied))
    ensures pace.Fails? && pace.errno > 0 ==> res == -1 && err == pace.errno
    ensures |src.file.data| == total
    ensures w == Window(src, zero) && Moved(before, Window(dst, zero), dstOff, w, srcOff, copied + NonNeg(res))
    ensures Outside(dst, old(Whole(dst)), Whole(dst), zero)
    ensures ReadSync(src, srcOff + copied + NonNeg(res))
  {
    ghost var now := Window(dst, zero);
    res, err := Read(dst, dstOff + copied, src, srcOff + copied, len, pace, zero);
    ghost var after := Window(dst, zero);
    MovedMore(before, now, after, dstOff, w, srcOff, copied, res);
  }

  method BufRead<T>(dst: Buf<T>, dstOff: nat, src: Buf<T>, srcOff: nat, len: nat, pace: Pace, zero: T) returns (r: int)
    requires dst.Mem? && src.Fd? && Ok(dst) && dstOff + len <= dst.size && srcOff + len <= src.size
    requires ReadSync(src, srcOff) && Separate(dst, src)
    modifies dst.mem, src.cursor
    ensures r <= len && NonNeg(r) <= Rest(|src.file.data|, src.pos + srcOff)
    ensures pace.Fails? && pace.errno > 0 && len > 0 ==> r == -pace.errno
    ensures Persists(pace, src) ==> r == Min(len, Rest(|src.file.data|, src.pos + srcOff))
    ensures Moved(old(Window(dst, zero)), Window(dst, zero), dstOff, Window(src, zero), srcOff, r)
    ensures Outside(dst, old(Whole(dst)), Whole(dst), zero)
    ensures ReadSync(src, srcOff + NonNeg(r))
  {
    ghost var before, w := Window(dst, zero), Window(src, zero);
    var copied := 0;
    ghost var total := |src.file.data|;
    while copied < len
      invariant 0 <= copied <= len && ReadSync(src, srcOff + copied)
      invariant |src.file.data| == total && copied <= Rest(total, src.pos + srcOff)
      invariant pace.Fails? && pace.errno > 0 ==> copied == 0
      invariant w == Window(src, zero) && Moved(before, Window(dst, zero), dstOff, w, srcOff, copied)
      invariant Outside(dst, old(Whole(dst)), Whole(dst), zero)
    {
      var res, err := ReadMore(dst, dstOff, src, srcOff, copied, len - copied, pace, zero, before, w, total);
      if res == -1 {
        if copied == 0 {
          return -err;
        }
        break;
      }
      if res == 0 {
        break;
      }
      copied := copied + res;
      if !src.retry {
        break;
      }
    }
    r := copied;
  }

  /** memcpy / memmove: the regions may overlap. */
  method MemMove<T>(dst: Buf<T>, dstOff: nat, src: Buf<T>, srcOff: nat, len: nat, zero: T)
    requires dst.Mem? && src.Mem? && Ok(dst) && Ok(src) && dstOff + len <= dst.size && srcOff + len <= src.size
    modifies dst.mem
    ensures Moved(old(Window(dst, zero)), Window(dst, zero), dstOff, old(Window(src, zero)), srcOff, len)
    ensures Outside(dst, old(Whole(dst)), Whole(dst), zero)
  {
    var from := src.base + srcOff;
    Fill(dst, dstOff, src.mem[from..from + len], zero);
  }

  const TMP_SIZE := 4096

  /** A transfer out of the bounce buffer is one out of the source that filled it. */
  lemma Through<T>(before: seq<T>, after: seq<T>, o: nat, t: seq<T>, w: seq<T>, s: nat, n: nat, res: int)
    requires Moved(before, after, o, t, 0, res) && NonNeg(res) <= n <= |t| && s + n <= |w|
    requires forall i :: 0 <= i < n ==> t[i] == w[s + i]
    ensures Moved(before, after, o, w, s, res)
  {
  }

  /** One round through the bounce buffer: a read, and a write of what was read. On a short write
      the bytes read from a stream but not written are gone: `lost` counts them. */
  method Bounce<T>(dst: Buf<T>, dstOff: nat, src: Buf<T>, srcOff: nat, len: nat, tmp: Buf<T>, pace: Pace, zero: T)
    returns (res: int, ghost lost: nat)
    requires dst.Fd? && src.Fd? && dstOff + len <= dst.size && srcOff + len <= src.size
    requires tmp.Mem? && Ok(tmp) && len <= tmp.size && Separate(tmp, src) && Separate(dst, tmp)
    requires WriteSync(dst, dstOff) && ReadSync(src, srcOff) && Separate(dst, src)
    modifies dst.file, src.cursor, tmp.mem
    ensures res <= len && (lost > 0 ==> res < len)
    ensures pace.Fails? && pace.errno > 0 && len > 0 ==> res == -pace.errno && lost == 0
    ensures Persists(pace, src) && Persists(pace, dst) ==> res == Min(len, Avail(src, srcOff)) && lost == 0
    ensures NonNeg(res) <= Avail(src, srcOff)
    ensures Moved(old(Window(dst, zero)), Window(dst, zero), dstOff, Window(src, zero), srcOff, res)
    ensures Outside(dst, old(Whole(dst)), Whole(dst), zero)
    ensures WriteSync(dst, dstOff + NonNeg(res)) && ReadSync(src, srcOff + NonNeg(res) + lost)
  {
    ghost var before, w := Window(dst, zero), Window(src, zero);
    lost := 0;
    res := BufRead(tmp, 0, src, srcOff, len, pace, zero);
    assert Window(dst, zero) == before;
    if res > 0 {
      var readLen := res;
      ghost var t := Window(tmp, zero);
      res := BufWrite(dst, dstOff, tmp, 0, readLen, pace, zero);
      Through(before, Window(dst, zero), dstOff, t, w, srcOff, readLen, res);
      lost := readLen - NonNeg(res);
    }
  }

  /** A round of fuse_buf_fd_to_fd, on top of what the earlier rounds copied. */
  method BounceMore<T>(dst: Buf<T>, dstOff: nat, src: Buf<T>, srcOff: nat, copied: nat, len: nat, tmp: Buf<T>, pace: Pace, zero: T,
                       ghost before: seq<T>, ghost w: seq<T>, ghost total: nat)
    returns (res: int, ghost lost: nat)
    requires dst.Fd? && src.Fd? && dstOff + copied + len <= dst.size && srcOff + copied + len <= src.size
    requires tmp.Mem? && Ok(tmp) && len <= tmp.size && Separate(tmp, src) && Separate(dst, tmp)
    requires WriteSync(dst, dstOff + copied) && ReadSync(src, srcOff + copied) && Separate(dst, src)
    requires |src.file.data| == total
    requires w == Window(src, zero) && Moved(before, Window(dst, zero), dstOff, w, srcOff, copied)
    modifies dst.file, src.cursor, tmp.mem
    ensures res <= len && (lost > 0 ==> res < len) && NonNeg(res) <= Rest(total, src.pos + srcOff + copied)
    ensures pace.Fails? && pace.errno > 0 && len > 0 ==> res == -pace.errno && lost == 0
    ensures Persists(pace, src) && Persists(pace, dst) ==> res == Min(len, Rest(total, src.pos + srcOff + copied)) && lost == 0
    ensures |src.file.data| == total
    ensures w == Window(src, zero) && Moved(before, Window(dst, zero), dstOff, w, srcOff, copied + NonNeg(res))
    ensures Outside(dst, old(Whole(dst)), Whole(dst), zero)
    ensures WriteSync(dst, dstOff + copied + NonNeg(res)) && ReadSync(src, srcOff + copied + NonNeg(res) + lost)
  {
    ghost var now := Window(dst, zero);
    res, lost := Bounce(dst, dstOff + copied, src, srcOff + copied, len, tmp, pace, zero);
    ghost var after := Window(dst, zero);
    MovedMore(before, now, after, dstOff, w, srcOff, copied, res);
  }

  /** The loop of fuse_buf_fd_to_fd. */
  method BounceAll<T>(dst: Buf<T>, dstOff: nat, src: Buf<T>, srcOff: nat, len: nat, tmp: Buf<T>, pace: Pace, zero: T)
    returns (r: int, ghost lost: nat)
    requires dst.Fd? && src.Fd? && dstOff + len <= dst.size && srcOff + len <= src.size
    requires WriteSync(dst, dstOff) && ReadSync(src, srcOff) && Separate(dst, src)
    requires tmp.Mem? && Ok(tmp) && tmp.size == TMP_SIZE && Separate(tmp, src) && Separate(dst, tmp)
    modifies dst.file, src.cursor, tmp.mem
    ensures r <= len && (lost > 0 ==> r < len)
    ensures pace.Fails? && pace.errno > 0 && len > 0 ==> r == -pace.errno && lost == 0
    ensures Persists(pace, src) && Persists(pace, dst) ==> r == Min(len, Rest(|src.file.data|, src.pos + srcOff)) && lost == 0
    ensures Moved(old(Window(dst, zero)), Window(dst, zero), dstOff, Window(src, zero), srcOff, r)
    ensures Outside(dst, old(Whole(dst)), Whole(dst), zero)
    ensures WriteSync(dst, dstOff + NonNeg(r)) && ReadSync(src, srcOff + NonNeg(r) + lost)
  {
    ghost var before, w := Window(dst, zero), Window(src, zero);
    var copied := 0;
    ghost var total := |src.file.data|;
    lost := 0;
    while copied < len
      invariant 0 <= copied <= len && lost == 0
      invariant pace.Fails? && pace.errno > 0 ==> copied == 0
      invariant w == Window(src, zero) && Moved(before, Window(dst, zero), dstOff, w, srcOff, copied)
      invariant Outside(dst, old(Whole(dst)), Whole(dst), zero)
      invariant WriteSync(dst, dstOff + copied) && ReadSync(src, srcOff + copied)
      invariant |src.file.data| == total && copied <= Rest(total, src.pos + srcOff)
    {
      var thisLen := if TMP_SIZE < len - copied then TMP_SIZE else len - copied;
      var res;
      res, lost := BounceMore(dst, dstOff, src, srcOff, copied, thisLen, tmp, pace, zero, before, w, total);
      if res < 0 {
        if copied == 0 {
          return res, lost;
        }
        break;
      }
      if res == 0 {
        break;
      }
      copied := copied + res;
      if res < thisLen {
        break;
      }
    }
    r := copied;
  }

  method FdToFd<T(0)>(dst: Buf<T>, dstOff: nat, src: Buf<T>, srcOff: nat, len: nat, pace: Pace, zero: T) returns (r: int, ghost lost: nat)
    requires dst.Fd? && src.Fd? && dstOff + len <= dst.size && srcOff + len <= src.size
    requires WriteSync(dst, dstOff) && ReadSync(src, srcOff) && Separate(dst, src)
    modifies dst.file, src.cursor
    ensures r <= len && (lost > 0 ==> r < len)
    ensures pace.Fails? && pace.errno > 0 && len > 0 ==> r == -pace.errno && lost == 0
    ensures Persists(pace, src) && Persists(pace, dst) ==> r == Min(len, Rest(|src.file.data|, src.pos + srcOff)) && lost == 0
    ensures Moved(old(Window(dst, zero)), Window(dst, zero), dstOff, Window(src, zero), srcOff, r)
    ensures Outside(dst, old(Whole(dst)), Whole(dst), zero)
    ensures WriteSync(dst, dstOff + NonNeg(r)) && ReadSync(src, srcOff + NonNeg(r) + lost)
  {
    var mem := new T[TMP_SIZE];
    r, lost := BounceAll(dst, dstOff, src, srcOff, len, Mem(mem, 0, TMP_SIZE), pace, zero);
  }

  const EINVAL := 22

  /** splice: bytes go from one descriptor to the other inside the kernel. */
  method SpliceCall<T>(dst: Buf<T>, dstOff: nat, src: Buf<T>, srcOff: nat, len: nat, pace: Pace, zero: T) returns (res: int, err: int)
    requires dst.Fd? && src.Fd? && dstOff + len <= dst.size && srcOff + len <= src.size
    requires WriteSync(dst, dstOff) && ReadSync(src, srcOff) && Separate(dst, src)
    modifies dst.file, src.cursor
    ensures -1 <= res <= len && (res == -1 ==> err > 0)
    ensures res <= Avail(src, srcOff)
    ensures pace.Steady? || pace.Full? ==> Min(1, Min(len, Avail(src, srcOff))) <= res
    ensures pace.Full? ==> res == Min(len, Avail(src, srcOff))
    ensures pace.Fails? && pace.errno > 0 ==> res == -1 && err == pace.errno
    ensures Moved(old(Window(dst, zero)), Window(dst, zero), dstOff, Window(src, zero), srcOff, res)
    ensures Outside(dst, old(Whole(dst)), Whole(dst), zero)
    ensures WriteSync(dst, dstOff + NonNeg(res)) && ReadSync(src, srcOff + NonNeg(res))
  {
    var c;
    res, err, c := ReadValues(src, srcOff, len, pace, zero);
    WriteValues(dst, dstOff, c, Window(src, zero), srcOff, zero);
  }

  /** A round of fuse_buf_splice, on top of what the earlier rounds copied. */
  method SpliceMore<T>(dst: Buf<T>, dstOff: nat, src: Buf<T>, srcOff: nat, copied: nat, len: nat, pace: Pace, zero: T, ghost before: seq<T>, ghost w: seq<T>, ghost total: nat)
    returns (res: int, err: int)
    requires dst.Fd? && src.Fd? && dstOff + copied + len <= dst.size && srcOff + copied + len <= src.size
    requires WriteSync(dst, dstOff + copied) && ReadSync(src, srcOff + copied) && Separate(dst, src)
    requires |src.file.data| == total
    requires w == Window(src, zero) && Moved(before, Window(dst, zero), dstOff, w, srcOff, copied)
    modifies dst.file, src.cursor
    ensures -1 <= res <= len && (res == -1 ==> err > 0)
    ensures res <= Rest(total, src.pos + srcOff + copied)
    ensures pace.Steady? || pace.Full? ==> Min(1, Min(len, Rest(total, src.pos + srcOff + copied))) <= res
    ensures pace.Full? ==> res == Min(len, Rest(total, src.pos + srcOff + copied))
    ensures pace.Fails? && pace.errno > 0 ==> res == -1 && err == pace.errno
    ensures |src.file.data| == total
    ensures w == Window(src, zero) && Moved(before, Window(dst, zero), dstOff, w, srcOff, copied + NonNeg(res))
    ensures Outside(dst, old(Whole(dst)), Whole(dst), zero)
    ensures WriteSync(dst, dstOff + copied + NonNeg(res)) && ReadSync(src, srcOff + copied + NonNeg(res))
  {
    ghost var now := Window(dst, zero);
    res, err := SpliceCall(dst, dstOff + copied, src, srcOff + copied, len, pace, zero);
    ghost var after := Window(dst, zero);
    MovedMore(before, now, after, dstOff, w, srcOff, copied, res);
  }

  /** Between two descriptors everything is spliced, or copied if the kernel cannot splice them. */
  ghost predicate Spliced<T>(k: Kernel, force: bool, dst: Buf<T>, src: Buf<T>) {
    || Persists(k.splice, src) || Persists(k.splice, dst)
    || (k.splice == Fails(EINVAL) && !force && Persists(k.copy, src) && Persists(k.copy, dst))
  }

  method BufSplice<T(0)>(dst: Buf<T>, dstOff: nat, src: Buf<T>, srcOff: nat, len: nat, force: bool, k: Kernel, zero: T)
    returns (r: int, ghost lost: nat)
    requires dst.Fd? && src.Fd? && dstOff + len <= dst.size && srcOff + len <= src.size
    requires WriteSync(dst, dstOff) && ReadSync(src, srcOff) && Separate(dst, src)
    modifies dst.file, src.cursor
    ensures r <= len && (lost > 0 ==> r < len) && (force ==> lost == 0)
    ensures k.splice.Fails? && k.splice.errno > 0 && len > 0 && (k.splice.errno != EINVAL || force) ==> r == -k.splice.errno
    ensures Spliced(k, force, dst, src) ==> r == Min(len, Rest(|src.file.data|, src.pos + srcOff)) && lost == 0
    ensures Moved(old(Window(dst, zero)), Window(dst, zero), dstOff, Window(src, zero), srcOff, r)
    ensures Outside(dst, old(Whole(dst)), Whole(dst), zero)
    ensures WriteSync(dst, dstOff + NonNeg(r)) && ReadSync(src, srcOff + NonNeg(r) + lost)
  {
    ghost var before, w := Window(dst, zero), Window(src, zero);
    var copied := 0;
    ghost var total := |src.file.data|;
    lost := 0;
    while copied < len
      invariant 0 <= copied <= len && lost == 0
      invariant k.splice.Fails? && k.splice.errno > 0 ==> copied == 0
      invariant w == Window(src, zero) && Moved(before, Window(dst, zero), dstOff, w, srcOff, copied)
      invariant Outside(dst, old(Whole(dst)), Whole(dst), zero)
      invariant WriteSync(dst, dstOff + copied) && ReadSync(src, srcOff + copied)
      invariant |src.file.data| == total && copied <= Rest(total, src.pos + srcOff)
    {
      var res, err := SpliceMore(dst, dstOff, src, srcOff, copied, len - copied, k.splice, zero, before, w, total);
      if res == -1 {
        if copied > 0 {
          break;
        }
        if err != EINVAL || force {
          return -err, 0;
        }
        assert Window(dst, zero) == before;
        r, lost := FdToFd(dst, dstOff, src, srcOff, len, k.copy, zero);
        return;
      }
      if res == 0 {
        break;
      }
      copied := copied + res;
      if !src.retry && !dst.retry {
        break;
      }
    }
    r := copied;
  }

  datatype Flags = Flags(noSplice: bool, forceSplice: bool)

  /** The descriptors between two buffers are used until everything is transferred. */
  ghost predicate Eager<T>(k: Kernel, flags: Flags, dst: Buf<T>, src: Buf<T>) {
    if src.Mem? then dst.Mem? || Persists(k.copy, dst)
    else if dst.Mem? then Persists(k.copy, src)
    else if flags.noSplice then Persists(k.copy, src) && Persists(k.copy, dst)
    else Spliced(k, flags.forceSplice, dst, src)
  }

  /** fuse_buf_copy_one. Two memory buffers may overlap. */
  method CopyOne<T(0)>(dst: Buf<T>, dstOff: nat, src: Buf<T>, srcOff: nat, len: nat, flags: Flags, k: Kernel, zero: T)
    returns (r: int, ghost lost: nat)
    requires Ok(dst) && Ok(src) && dstOff + len <= dst.size && srcOff + len <= src.size
    requires WriteSync(dst, dstOff) && ReadSync(src, srcOff) && ((dst.Mem? && src.Mem?) || Separate(dst, src))
    modifies Store(dst), Readers(src)
    ensures r <= len && (lost > 0 ==> r < len && src.Fd? && dst.Fd? && (flags.noSplice || !flags.forceSplice))
    ensures k.copy.Fails? && k.copy.errno > 0 && len > 0 && (src.Mem? != dst.Mem? || (src.Fd? && flags.noSplice)) ==> r == -k.copy.errno
    ensures Eager(k, flags, dst, src) ==> r == Min(len, Avail(src, srcOff)) && lost == 0
    ensures Moved(old(Window(dst, zero)), Window(dst, zero), dstOff, old(Window(src, zero)), srcOff, r)
    ensures Outside(dst, old(Whole(dst)), Whole(dst), zero)
    ensures WriteSync(dst, dstOff + NonNeg(r)) && ReadSync(src, srcOff + NonNeg(r) + lost)
  {
    lost := 0;
    if src.Mem? && dst.Mem? {
      MemMove(dst, dstOff, src, srcOff, len, zero);
      r := len;
    } else if src.Mem? {
      r := BufWrite(dst, dstOff, src, srcOff, len, k.copy, zero);
    } else if dst.Mem? {
      r := BufRead(dst, dstOff, src, srcOff, len, k.copy, zero);
    } else if flags.noSplice {
      r, lost := FdToFd(dst, dstOff, src, srcOff, len, k.copy, zero);
    } else {
      r, lost := BufSplice(dst, dstOff, src, srcOff, len, flags.forceSplice, k, zero);
    }
  }
}
