/** fuse_send_data_iov: answering a request with the contents of a buffer vector, through a pipe and
    splice when possible and through memory otherwise. */
module SendData {
  import opened BufCopy
  import opened BufVecs
  import FastHash

  type Byte = FastHash.Byte

  /** What a pipe holds. vmsplice maps the header's pages into the pipe: a later change of the header
      is seen by whoever reads the pipe, so the header is there by reference. */
  datatype Cell = Ref(k: nat) | Val(b: Byte)

  const ZERO: Cell := Val(0)
  const HEADER_LEN := 16
  const PAGE_SIZE := 4096

  function StoreLE(n: nat, width: nat): (r: seq<Byte>)
    ensures |r| == width
  {
    if width == 0 then [] else [n % 256] + StoreLE(n / 256, width - 1)
  }

  function Pow256(w: nat): nat {
    if w == 0 then 1 else 256 * Pow256(w - 1)
  }

  lemma {:induction false} LoadStore(n: nat, width: nat)
    requires n < Pow256(width)
    ensures FastHash.LoadLE(StoreLE(n, width)) == n
  {
    if width > 0 {
      LoadStore(n / 256, width - 1);
    }
  }

  type U32 = n: nat | n < 0x1_0000_0000
  type U64 = n: nat | n < 0x1_0000_0000_0000_0000

  /** struct fuse_out_header; `error` is the bit pattern of the negated errno. */
  class Header {
    var len: nat
    const error: U32
    const unique: U64

    constructor (error: U32, unique: U64)
      ensures this.error == error && this.unique == unique
    {
      this.error, this.unique, len := error, unique, 0;
    }

    /** The 16 bytes of struct fuse_out_header. */
    function Bytes(): (r: seq<Byte>)
      reads this
      ensures |r| == HEADER_LEN
    {
      StoreLE(len, 4) + StoreLE(error, 4) + StoreLE(unique, 8)
    }
  }

  /** What the device sees of a cell now. */
  function Resolve(c: Cell, header: seq<Byte>): Byte
    requires |header| == HEADER_LEN
  {
    match c
    case Ref(k) => if k < HEADER_LEN then header[k] else 0
    case Val(b) => b
  }

  function ResolveAll(cs: seq<Cell>, header: seq<Byte>): (r: seq<Byte>)
    requires |header| == HEADER_LEN
    ensures |r| == |cs| && forall i :: 0 <= i < |cs| ==> r[i] == Resolve(cs[i], header)
  {
    seq(|cs|, i requires 0 <= i < |cs| => Resolve(cs[i], header))
  }

  function HeaderRefs(): (r: seq<Cell>)
    ensures |r| == HEADER_LEN && forall i :: 0 <= i < HEADER_LEN ==> r[i] == Ref(i)
  {
    seq(HEADER_LEN, i requires 0 <= i => Ref(i))
  }

  /** Source data is bytes, not references. */
  ghost predicate Plain(cs: seq<Cell>) {
    forall i :: 0 <= i < |cs| ==> cs[i].Val?
  }

  ghost function BytesOf(cs: seq<Cell>): (r: seq<Byte>)
    requires Plain(cs)
    ensures |r| == |cs|
  {
    seq(|cs|, i requires 0 <= i < |cs| => cs[i].b)
  }

  /** A complete reply: its fields decode to the message's length, the error and the number of the
      request, and the payload follows. */
  ghost predicate IsReply(m: seq<Byte>, h: Header, payload: seq<Byte>)
    reads h
  {
    && m == h.Bytes() + payload
    && |m| == HEADER_LEN + |payload| && m[HEADER_LEN..] == payload
    && FastHash.LoadLE(m[..4]) == |m|
    && FastHash.LoadLE(m[4..8]) == h.error
    && FastHash.LoadLE(m[8..16]) == h.unique
  }

  lemma Fields(a: seq<Byte>, b: seq<Byte>, c: seq<Byte>, rest: seq<Byte>)
    requires |a| == 4 && |b| == 4 && |c| == 8
    ensures var m := a + b + c + rest; m[..4] == a && m[4..8] == b && m[8..16] == c && m[16..] == rest
  {
  }

  lemma ReplyLength(h: Header, payload: seq<Byte>)
    requires h.len == HEADER_LEN + |payload| && h.len < 0x1_0000_0000
    ensures IsReply(h.Bytes() + payload, h, payload)
  {
    assert Pow256(4) == 0x1_0000_0000;
    assert Pow256(8) == 0x1_0000_0000_0000_0000;
    LoadStore(h.len, 4);
    LoadStore(h.error, 4);
    LoadStore(h.unique, 8);
    Fields(StoreLE(h.len, 4), StoreLE(h.error, 4), StoreLE(h.unique, 8), payload);
  }

  /** The object is not part of the source. */
  ghost predicate Free(o: object, buf: BufVec<Cell>) {
    o !in buf.stores && o !in buf.readers && o != buf
  }

  /** The thread's pipe: all that was written to it, and how much of that was read. */
  class Pipe {
    const file: File<Cell>
    const cursor: Cursor

    constructor ()
      ensures fresh(file) && fresh(cursor) && Clean()
    {
      file := new File([]);
      cursor := new Cursor();
    }

    /** What is in the pipe. */
    ghost function Left(): seq<Cell>
      reads file, cursor
    {
      if cursor.cur <= |file.data| then file.data[cursor.cur..] else []
    }

    ghost predicate Apart(buf: BufVec<Cell>) {
      Free(file, buf) && Free(cursor, buf) && cursor as object != file
    }

    ghost predicate Clean()
      reads file, cursor
    {
      cursor.cur == |file.data|
    }
  }

  class Session {
    var pipe: Pipe?
    var pipeSize: nat
    var canGrow: bool
    var brokenNonblock: bool
    const splicing: bool           // protocol and capabilities allow it
    var sent: seq<seq<Byte>>       // what the device received

    constructor (splicing: bool)
      ensures pipe == null && sent == [] && this.splicing == splicing && !brokenNonblock
    {
      pipe, pipeSize, canGrow, brokenNonblock, sent := null, 0, true, false, [];
      this.splicing := splicing;
    }
  }

  /** What the system does: how transfers go, whether the device takes what it is given, whether there
      is memory. */
  datatype System = System(kernel: Kernel, accepts: bool, memory: bool)

  predicate FullSpeed(k: System) {
    k.kernel.copy.Full? && k.kernel.splice.Full?
  }

  /** The whole source can be had: it is in memory, or its descriptors have it and transfers are full. */
  ghost predicate Ample(k: System, buf: BufVec<Cell>)
    requires buf.Fits()
    reads buf.stores
  {
    AllMem(buf.bufs) || (FullSpeed(k) && buf.Present())
  }

  ghost predicate Willing(k: System) {
    k.accepts && k.memory
  }

  /** fuse_send_msg with a payload in memory: the length is filled in, and the device takes the
      whole message or refuses it. */
  method SendMsg(s: Session, h: Header, payload: seq<Byte>, k: System) returns (res: int)
    requires HEADER_LEN + |payload| < 0x1_0000_0000
    modifies s`sent, h
    ensures res <= 0 && (k.accepts ==> res == 0)
    ensures res == 0 ==> s.sent == old(s.sent) + [h.Bytes() + payload] && IsReply(h.Bytes() + payload, h, payload)
    ensures res != 0 ==> s.sent == old(s.sent)
  {
    h.len := HEADER_LEN + |payload|;
    ReplyLength(h, payload);
    res :| res <= 0 && (k.accepts ==> res == 0);
    if res == 0 {
      s.sent := s.sent + [h.Bytes() + payload];
    }
  }

  // ----- copying out of the source -----

  /** The pipe holds the header (by reference) and the first n bytes, and nothing else. */
  ghost predicate Loaded(p: Pipe, whole: seq<Cell>, ps: nat, n: nat)
    reads p.file, p.cursor
  {
    && ps + n <= |whole| && p.cursor.cur <= |p.file.data| && p.Left() == HeaderRefs() + whole[ps..ps + n]
  }

  lemma AmpleSmooth(k: System, flags: Flags, dst: Buf<Cell>, buf: BufVec<Cell>)
    requires buf.Fits() && dst.Mem? && Ample(k, buf)
    ensures Smooth(k.kernel, flags, [dst], buf)
  {
    if AllMem(buf.bufs) {
      MemSmooth(k.kernel, flags, [dst], buf);
    }
  }

  /** fuse_buf_copy into len cells of memory, from cell `start` on. */
  method ToMemory(buf: BufVec<Cell>, len: nat, start: nat, k: System, ghost whole: seq<Cell>, ghost ps: nat) returns (r: int, mem: array<Cell>)
    requires Source(buf, whole, ps, ZERO) && start <= len
    modifies buf, buf.readers
    ensures fresh(mem) && mem.Length == len && start + NonNeg(r) <= len && ps + NonNeg(r) <= |whole|
    ensures mem[start..start + NonNeg(r)] == whole[ps..ps + NonNeg(r)]
    ensures old(Ample(k, buf)) ==> r == Min(|whole| - ps, len - start)
  {
    mem := new Cell[len];
    var dst := Mem(mem, 0, len);
    ghost var lost, before := 0, Window(dst, ZERO);
    if Ample(k, buf) {
      AmpleSmooth(k, Flags(false, false), dst, buf);
    }
    r, lost := CopyInto(dst, start, buf, Flags(false, false), k.kernel, ZERO, whole, ps);
    ghost var after := Window(dst, ZERO);
    assert after == mem[..];
    Arrived(before, after, start, whole, ps, r);
  }

  lemma Arrived(before: seq<Cell>, after: seq<Cell>, start: nat, whole: seq<Cell>, ps: nat, r: int)
    requires Moved(before, after, start, whole, ps, r)
    ensures after[start..start + NonNeg(r)] == whole[ps..ps + NonNeg(r)]
  {
    forall i | start <= i < start + NonNeg(r)
      ensures after[i] == whole[ps + (i - start)]
    {
    }
  }

  /** fuse_buf_copy into the pipe, splicing only. */
  method ToPipe(buf: BufVec<Cell>, p: Pipe, len: nat, k: System, ghost whole: seq<Cell>, ghost ps: nat) returns (r: int)
    requires Source(buf, whole, ps, ZERO) && p.Apart(buf)
    modifies buf, buf.readers, p.file
    ensures FullSpeed(k) && old(buf.Present()) ==> r == Min(|whole| - ps, len)
    ensures NonNeg(r) <= len && ps + NonNeg(r) <= |whole|
    ensures p.file.data == old(p.file.data) + whole[ps..ps + NonNeg(r)] && p.cursor.cur == old(p.cursor.cur)
    ensures Source(buf, whole, ps + NonNeg(r), ZERO)
  {
    var used := |p.file.data|;
    // counted from the first byte the pipe ever held: len bytes remain
    var dst := Fd(p.file, p.cursor, used + len, false, 0, false);
    ghost var was, before := p.file.data, Window(dst, ZERO);
    ghost var lost;
    r, lost := CopyInto(dst, used, buf, Flags(false, true), k.kernel, ZERO, whole, ps);
    Appended(was, p.file.data, before, Window(dst, ZERO), len, whole, ps, r);
  }

  /** The same behind the header that is already in the pipe. */
  method LoadPipe(buf: BufVec<Cell>, p: Pipe, len: nat, k: System, ghost whole: seq<Cell>, ghost ps: nat) returns (r: int)
    requires Source(buf, whole, ps, ZERO) && p.Apart(buf)
    requires p.cursor.cur <= |p.file.data| && p.Left() == HeaderRefs()
    modifies buf, buf.readers, p.file
    ensures FullSpeed(k) && old(buf.Present()) ==> r == Min(|whole| - ps, len)
    ensures NonNeg(r) <= len && Loaded(p, whole, ps, NonNeg(r)) && Source(buf, whole, ps + NonNeg(r), ZERO)
  {
    ghost var was := p.file.data;
    r := ToPipe(buf, p, len, k, whole, ps);
    BehindHeader(was, p.cursor.cur, whole[ps..ps + NonNeg(r)]);
  }

  lemma BehindHeader(was: seq<Cell>, cur: nat, more: seq<Cell>)
    requires cur <= |was|
    ensures (was + more)[cur..] == was[cur..] + more
  {
  }

  lemma Appended(was: seq<Cell>, now: seq<Cell>, before: seq<Cell>, after: seq<Cell>, len: nat, whole: seq<Cell>, ps: nat, r: int)
    requires before == Slice(was, 0, |was| + len, ZERO) && after == Slice(now, 0, |was| + len, ZERO)
    requires Moved(before, after, |was|, whole, ps, r) && |now| == |was| + NonNeg(r)
    ensures NonNeg(r) <= len && ps + NonNeg(r) <= |whole| && now == was + whole[ps..ps + NonNeg(r)]
  {
    forall i | 0 <= i < |now|
      ensures now[i] == (was + whole[ps..ps + NonNeg(r)])[i]
    {
      assert after[i] == now[i];
    }
  }

  // ----- the routes -----

  /** fuse_buf_size (no buffer of unlimited size). */
  method BufSize(buf: BufVec<Cell>, ghost whole: seq<Cell>) returns (size: nat)
    requires Contents(buf, whole, ZERO)
    ensures size == |whole|
  {
    OffsetIsStart(buf.bufs, buf.Windows(ZERO), 0);
    size := 0;
    for i := 0 to |buf.bufs|
      invariant size == Offset(buf.bufs, i)
    {
      OffsetStep(buf.bufs, i);
      size := size + buf.bufs[i].size;
    }
  }

  /** Buffer j is the last descriptor among the first n. */
  ghost predicate LastFd(bufs: seq<Buf<Cell>>, j: nat, n: nat)
    requires j < n <= |bufs|
  {
    bufs[j].Fd? && forall i :: j < i < n ==> bufs[i].Mem?
  }

  /** The size is what is left of the last descriptor among the first n, counted from offset off of
      buffer idx on. */
  ghost predicate SizedUp(bufs: seq<Buf<Cell>>, idx: nat, off: nat, n: nat, size: nat)
    requires n <= |bufs|
  {
    forall j :: idx <= j < n && LastFd(bufs, j, n) ==> size == bufs[j].size - if j == idx then off else 0
  }

  lemma SizedMore(bufs: seq<Buf<Cell>>, idx: nat, off: nat, n: nat, size: nat)
    requires n < |bufs| && SizedUp(bufs, idx, off, n, size) && (n == idx ==> off <= bufs[n].size)
    ensures SizedUp(bufs, idx, off, n + 1, if bufs[n].Fd? then bufs[n].size - (if n == idx then off else 0) else size)
  {
    forall j | idx <= j < n && LastFd(bufs, j, n + 1)
      ensures bufs[n].Mem? && LastFd(bufs, j, n)
    {
    }
  }

  /** The loop that sizes up the descriptors: it ends with what is left of the last of them. */
  method FdSize(buf: BufVec<Cell>) returns (size: nat)
    requires buf.Valid()
    ensures size > 0 ==> !AllMem(buf.bufs)
    ensures SizedUp(buf.bufs, buf.idx, buf.off, |buf.bufs|, size)
  {
    size := 0;
    for i := buf.idx to |buf.bufs|
      invariant size > 0 ==> !AllMem(buf.bufs)
      invariant SizedUp(buf.bufs, buf.idx, buf.off, i, size)
    {
      SizedMore(buf.bufs, buf.idx, buf.off, i, size);
      if buf.bufs[i].Fd? {
        size := buf.bufs[i].size;
        if i == buf.idx {
          size := size - buf.off;
        }
      }
    }
  }

  /** What the caller may rely on when data went out. */
  ghost predicate Sent(sent: seq<seq<Byte>>, before: seq<seq<Byte>>, h: Header, whole: seq<Cell>, ps: nat, n: nat)
    requires Plain(whole)
    reads h
  {
    && ps + n <= |whole|
    && var payload := BytesOf(whole[ps..ps + n]);
    && sent == before + [h.Bytes() + payload] && IsReply(h.Bytes() + payload, h, payload)
  }

  lemma PlainSlice(whole: seq<Cell>, a: nat, b: nat)
    requires a <= b <= |whole| && Plain(whole)
    ensures Plain(whole[a..b])
  {
  }

  method Payload(mem: array<Cell>, n: nat, ghost cells: seq<Cell>) returns (r: seq<Byte>)
    requires n <= mem.Length && mem[..n] == cells && Plain(cells)
    ensures r == BytesOf(cells)
  {
    r := seq(n, i requires 0 <= i < n reads mem => if mem[i].Val? then mem[i].b else 0);
    assert forall i :: 0 <= i < n ==> mem[..n][i] == cells[i];
  }

  /** The payload of the memory route: the one memory buffer itself, or a copy. */
  method Gather(buf: BufVec<Cell>, len: nat, k: System, ghost whole: seq<Cell>, ghost ps: nat) returns (err: int, payload: seq<Byte>, ghost n: nat)
    requires Source(buf, whole, ps, ZERO) && Plain(whole) && len == |whole|
    modifies buf, buf.readers
    ensures err >= 0 && (err == 0 ==> ps + n <= |whole| && payload == BytesOf(whole[ps..ps + n]))
    ensures err == 0 && old(Ample(k, buf)) ==> ps + n == |whole|
    ensures k.memory && old(Ample(k, buf)) ==> err == 0
  {
    err, payload, n := 0, [], 0;
    if |buf.bufs| == 1 && buf.idx == 0 && buf.off == 0 && buf.bufs[0].Mem? {
      var b := buf.bufs[0];
      SingleContents(buf, ZERO);
      n := len;
      assert whole[ps..ps + n] == whole;
      var all := new Cell[len](i requires 0 <= i < len reads b.mem => b.mem[b.base + i]);
      assert all[..len] == whole;
      payload := Payload(all, len, whole);
    } else {
      err, payload, n := GatherCopy(buf, len, k, whole, ps);
    }
  }

  method GatherCopy(buf: BufVec<Cell>, len: nat, k: System, ghost whole: seq<Cell>, ghost ps: nat) returns (err: int, payload: seq<Byte>, ghost n: nat)
    requires Source(buf, whole, ps, ZERO) && Plain(whole) && len == |whole|
    modifies buf, buf.readers
    ensures err >= 0 && (err == 0 ==> ps + n <= |whole| && payload == BytesOf(whole[ps..ps + n]))
    ensures err == 0 && old(Ample(k, buf)) ==> ps + n == |whole|
    ensures k.memory && old(Ample(k, buf)) ==> err == 0
  {
    err, payload, n := 0, [], 0;
    var failed :| k.memory ==> !failed;
    if failed {
      err :| err > 0;
      return;
    }
    var r, mem := ToMemory(buf, len, 0, k, whole, ps);
    err, payload, n := Copied(r, mem, whole, ps);
  }

  /** What a copy with result r leaves to send, or its error. */
  method Copied(r: int, mem: array<Cell>, ghost whole: seq<Cell>, ghost ps: nat) returns (err: int, payload: seq<Byte>, ghost n: nat)
    requires Plain(whole) && NonNeg(r) <= mem.Length && ps + NonNeg(r) <= |whole|
    requires mem[0..0 + NonNeg(r)] == whole[ps..ps + NonNeg(r)]
    ensures r < 0 ==> err == -r
    ensures r >= 0 ==> err == 0 && n == r && payload == BytesOf(whole[ps..ps + n])
  {
    err, payload, n := 0, [], 0;
    if r < 0 {
      err := -r;
      return;
    }
    n := r;
    PlainSlice(whole, ps, ps + n);
    assert mem[..n] == mem[0..n];
    payload := Payload(mem, r, whole[ps..ps + n]);
  }

  /** fuse_send_data_iov_fallback: through memory. */
  method Fallback(s: Session, h: Header, buf: BufVec<Cell>, len: nat, k: System, ghost whole: seq<Cell>, ghost ps: nat)
    returns (res: int, ghost n: nat)
    requires Source(buf, whole, ps, ZERO) && Plain(whole) && len == |whole| && HEADER_LEN + len < 0x1_0000_0000
    requires Free(s, buf) && Free(h, buf)
    modifies s`sent, h, buf, buf.readers
    ensures res == 0 ==> Sent(s.sent, old(s.sent), h, whole, ps, n)
    ensures res == 0 && old(Ample(k, buf)) ==> ps + n == |whole|
    ensures Willing(k) && old(Ample(k, buf)) ==> res == 0
    ensures res != 0 ==> s.sent == old(s.sent)
  {
    var payload;
    res, payload, n := Gather(buf, len, k, whole, ps);
    if res == 0 {
      res := SendMsg(s, h, payload, k);
    }
  }

  /** vmsplice of the header: references to it go into the pipe, all of them or (short) some. */
  method VmSplice(p: Pipe, k: System) returns (res: int)
    requires p.Clean() && p.cursor as object != p.file
    modifies p.file
    ensures -1 <= res <= HEADER_LEN && (FullSpeed(k) ==> res == HEADER_LEN)
    ensures res == -1 ==> p.Clean()
    ensures res == HEADER_LEN ==> p.cursor.cur <= |p.file.data| && p.Left() == HeaderRefs()
  {
    res :| -1 <= res <= HEADER_LEN && (FullSpeed(k) ==> res == HEADER_LEN);
    if res > 0 {
      p.file.data := p.file.data + HeaderRefs()[..res];
    }
  }

  /** read_back: exactly n cells, or an error. */
  method ReadBack(p: Pipe, n: nat, k: System) returns (ok: bool, cells: seq<Cell>)
    requires p.cursor.cur + n <= |p.file.data|
    modifies p.cursor
    ensures FullSpeed(k) ==> ok
    ensures ok ==> p.cursor.cur == old(p.cursor.cur) + n
    ensures ok ==> cells == p.file.data[old(p.cursor.cur)..old(p.cursor.cur) + n]
  {
    var got :| -1 <= got <= n && (FullSpeed(k) ==> got == n);
    cells := [];
    if got > 0 {
      cells := p.file.data[p.cursor.cur..p.cursor.cur + got];
      p.cursor.cur := p.cursor.cur + got;
    }
    ok := got == n;
  }

  /** What the caller may rely on after a failure: nothing went out, or, with EIO, the device took
      only the beginning of the message out of the pipe. */
  ghost predicate Unsent(sent: seq<seq<Byte>>, before: seq<seq<Byte>>, h: Header, whole: seq<Cell>, ps: nat, n: nat, res: int)
    requires Plain(whole)
    reads h
  {
    sent == before || (res == -EIO && ps + n <= |whole| && Fragment(sent, before, h.Bytes() + BytesOf(whole[ps..ps + n])))
  }

  /** A proper, nonempty prefix of the message was the last thing the device received. */
  ghost predicate Fragment(sent: seq<seq<Byte>>, before: seq<seq<Byte>>, message: seq<Byte>) {
    |sent| == |before| + 1 && before < sent && [] < sent[|before|] < message
  }

  lemma ResolvePrefix(cells: seq<Cell>, header: seq<Byte>, k: nat)
    requires k <= |cells| && |header| == HEADER_LEN
    ensures ResolveAll(cells[..k], header) == ResolveAll(cells, header)[..k]
  {
  }

  lemma ResolveMessage(h: Header, payload: seq<Cell>)
    requires Plain(payload)
    ensures ResolveAll(HeaderRefs() + payload, h.Bytes()) == h.Bytes() + BytesOf(payload)
  {
  }

  /** splice of the whole message from the pipe to the device, which sees the header as it is now. */
  method SpliceOut(s: Session, p: Pipe, h: Header, k: System, ghost whole: seq<Cell>, ghost ps: nat, ghost n: nat)
    returns (res: int)
    requires Plain(whole) && ps + n <= |whole| && HEADER_LEN + n < 0x1_0000_0000 && h.len == HEADER_LEN + n
    requires p.cursor.cur <= |p.file.data| && p.Left() == HeaderRefs() + whole[ps..ps + n]
    modifies s`sent, p.cursor
    ensures k.accepts ==> res == 0
    ensures res == 0 ==> p.Clean() && Sent(s.sent, old(s.sent), h, whole, ps, n)
    ensures res != 0 ==> Unsent(s.sent, old(s.sent), h, whole, ps, n, res)
  {
    var out :| -1 <= out <= h.len && (k.accepts ==> out == h.len);
    if out == -1 {
      res :| res < 0;
      return;
    }
    ghost var left := p.Left();
    var cells := p.file.data[p.cursor.cur..p.cursor.cur + out];
    assert cells == left[..out];
    var message := ResolveAll(cells, h.Bytes());
    p.cursor.cur := p.cursor.cur + out;
    if out > 0 {
      s.sent := s.sent + [message];
    }
    PlainSlice(whole, ps, ps + n);
    ghost var payload := BytesOf(whole[ps..ps + n]);
    ResolveMessage(h, whole[ps..ps + n]);
    ResolvePrefix(left, h.Bytes(), out);
    if out != h.len {
      res := -EIO;
      return;
    }
    ReplyLength(h, payload);
    assert message == h.Bytes() + payload;
    res := 0;
  }

  const EIO := 5
  const EAGAIN := 11

  ghost predicate PipeOk(s: Session)
    reads s, s.pipe, if s.pipe == null then {} else {s.pipe.file, s.pipe.cursor}
  {
    s.pipe == null || s.pipe.Clean()
  }

  /** What was read back and what was read on make up the payload. */
  lemma Joined(was: seq<Cell>, filled: seq<Cell>, cells: seq<Cell>, whole: seq<Cell>, ps: nat, now: nat, more: nat)
    requires |filled| == |was| && now + more <= |was| && ps + now + more <= |whole| && cells == whole[ps..ps + now]
    requires was[now..now + more] == whole[ps + now..ps + now + more]
    requires (forall i :: 0 <= i < now ==> filled[i] == cells[i]) && (forall i :: now <= i < |filled| ==> filled[i] == was[i])
    ensures filled[..now + more] == whole[ps..ps + now + more]
  {
    forall i | 0 <= i < now + more
      ensures filled[i] == whole[ps + i]
    {
      if i >= now {
        assert was[now..now + more][i - now] == was[i];
      }
    }
  }

  /** The trickiest case: `more` further bytes were read into memory behind room for the now bytes
      that are still in the pipe. Get those back, and send everything from memory. */
  method SendReadBack(s: Session, p: Pipe, h: Header, mem: array<Cell>, now: nat, more: nat, k: System, ghost whole: seq<Cell>, ghost ps: nat)
    returns (res: int)
    requires s.pipe == p && Loaded(p, whole, ps, now) && Plain(whole) && ps + now + more <= |whole| && now + more <= mem.Length
    requires mem[now..now + more] == whole[ps + now..ps + now + more] && HEADER_LEN + now + more < 0x1_0000_0000
    requires mem as object != s && mem as object != p.file && mem as object != p.cursor && p.cursor as object != p.file
    modifies s`pipe, s`sent, h, mem, p.cursor
    ensures PipeOk(s) && (s.pipe == p || s.pipe == null)
    ensures k.accepts && FullSpeed(k) ==> res == 0
    ensures res == 0 ==> Sent(s.sent, old(s.sent), h, whole, ps, now + more)
    ensures res != 0 ==> s.sent == old(s.sent)
  {
    ghost var c, was := p.cursor.cur, mem[..];
    assert was[now..now + more] == mem[now..now + more];
    assert p.file.data[c..] == HeaderRefs() + whole[ps..ps + now];
    var ok, cells := ReadBack(p, HEADER_LEN, k);
    if !ok {
      s.pipe := null;
      return -EIO;
    }
    ok, cells := ReadBack(p, now, k);
    if !ok {
      s.pipe := null;
      return -EIO;
    }
    assert cells == whole[ps..ps + now] by {
      assert cells == p.file.data[c..][HEADER_LEN..HEADER_LEN + now];
    }
    forall i | 0 <= i < now {
      mem[i] := cells[i];
    }
    ghost var all := whole[ps..ps + now + more];
    Joined(was, mem[..], cells, whole, ps, now, more);
    assert mem[..now + more] == mem[..][..now + more];
    PlainSlice(whole, ps, ps + now + more);
    var payload := Payload(mem, now + more, all);
    res := SendMsg(s, h, payload, k);
  }

  /** Everything the send works on is apart from everything else. */
  ghost predicate Parts(s: Session, h: Header, buf: BufVec<Cell>)
    reads s
  {
    Free(s, buf) && Free(h, buf) && (s.pipe != null ==> s.pipe.Apart(buf))
  }

  /** After now > 0 bytes went into the pipe and fewer than len: see whether the source has more,
      if there is memory to look. */
  method Continue(s: Session, p: Pipe, h: Header, buf: BufVec<Cell>, len: nat, now: nat, k: System, ghost whole: seq<Cell>, ghost ps: nat)
    returns (res: int, ghost n: nat)
    requires s.pipe == p && Loaded(p, whole, ps, now) && Source(buf, whole, ps + now, ZERO) && Plain(whole)
    requires len == |whole| && HEADER_LEN + len < 0x1_0000_0000 && now <= len && Parts(s, h, buf)
    modifies s`pipe, s`sent, h, buf, buf.readers, p.cursor
    ensures PipeOk(s) && (s.pipe == p || s.pipe == null)
    ensures Willing(k) && ps + now == |whole| ==> res == 0
    ensures res == 0 && ps + now == |whole| ==> n == now
    ensures res == 0 ==> Sent(s.sent, old(s.sent), h, whole, ps, n)
    ensures res != 0 ==> Unsent(s.sent, old(s.sent), h, whole, ps, n, res)
  {
    var failed :| k.memory ==> !failed;
    if failed {
      n := now;
      s.pipe := null;
      res :| res > 0;
    } else {
      res, n := ReadOn(s, p, h, buf, len, now, k, whole, ps);
    }
  }

  method ReadOn(s: Session, p: Pipe, h: Header, buf: BufVec<Cell>, len: nat, now: nat, k: System, ghost whole: seq<Cell>, ghost ps: nat)
    returns (res: int, ghost n: nat)
    requires s.pipe == p && Loaded(p, whole, ps, now) && Source(buf, whole, ps + now, ZERO) && Plain(whole)
    requires len == |whole| && HEADER_LEN + len < 0x1_0000_0000 && now <= len && Parts(s, h, buf)
    modifies s`pipe, s`sent, h, buf, buf.readers, p.cursor
    ensures PipeOk(s) && (s.pipe == p || s.pipe == null)
    ensures Willing(k) && ps + now == |whole| ==> res == 0
    ensures res == 0 && ps + now == |whole| ==> n == now
    ensures res == 0 ==> Sent(s.sent, old(s.sent), h, whole, ps, n)
    ensures res != 0 ==> Unsent(s.sent, old(s.sent), h, whole, ps, n, res)
  {
    ghost var before := s.sent;
    var r, mem := ToMemory(buf, len, now, k, whole, ps + now);
    assert s.sent == before && Loaded(p, whole, ps, now);
    res, n := Resume(s, p, h, mem, now, r, k, whole, ps);
  }

  /** More bytes behind those in the pipe go out with them from memory; without any the pipe goes. */
  method Resume(s: Session, p: Pipe, h: Header, mem: array<Cell>, now: nat, r: int, k: System, ghost whole: seq<Cell>, ghost ps: nat)
    returns (res: int, ghost n: nat)
    requires s.pipe == p && Loaded(p, whole, ps, now) && Plain(whole)
    requires now + NonNeg(r) <= mem.Length && (ps + now) + NonNeg(r) <= |whole| && HEADER_LEN + now + NonNeg(r) < 0x1_0000_0000
    requires mem[now..now + NonNeg(r)] == whole[ps + now..(ps + now) + NonNeg(r)]
    requires mem as object != s && mem as object != p.file && mem as object != p.cursor && p.cursor as object != p.file
    modifies s`pipe, s`sent, h, mem, p.cursor
    ensures PipeOk(s) && (s.pipe == p || s.pipe == null)
    ensures n == now + NonNeg(r)
    ensures k.accepts && r <= 0 ==> res == 0
    ensures Willing(k) && FullSpeed(k) ==> res == 0
    ensures res == 0 ==> Sent(s.sent, old(s.sent), h, whole, ps, n)
    ensures res != 0 ==> Unsent(s.sent, old(s.sent), h, whole, ps, n, res)
  {
    n := now + NonNeg(r);
    if r > 0 {
      res := ReadBackOrDrop(s, p, h, mem, now, r, k, whole, ps);
    } else {
      res := Flush(s, p, h, now, k, whole, ps);
    }
  }

  /** Without memory for the read-back the pipe is given up. */
  method ReadBackOrDrop(s: Session, p: Pipe, h: Header, mem: array<Cell>, now: nat, more: nat, k: System, ghost whole: seq<Cell>, ghost ps: nat)
    returns (res: int)
    requires s.pipe == p && Loaded(p, whole, ps, now) && Plain(whole) && ps + now + more <= |whole| && now + more <= mem.Length
    requires mem[now..now + more] == whole[ps + now..ps + now + more] && HEADER_LEN + now + more < 0x1_0000_0000
    requires mem as object != s && mem as object != p.file && mem as object != p.cursor && p.cursor as object != p.file
    modifies s`pipe, s`sent, h, mem, p.cursor
    ensures PipeOk(s) && (s.pipe == p || s.pipe == null)
    ensures Willing(k) && FullSpeed(k) ==> res == 0
    ensures res == 0 ==> Sent(s.sent, old(s.sent), h, whole, ps, now + more)
    ensures res != 0 ==> s.sent == old(s.sent)
  {
    var failed :| k.memory ==> !failed;
    if failed {
      s.pipe := null;
      return ENOMEM;
    }
    res := SendReadBack(s, p, h, mem, now, more, k, whole, ps);
  }

  /** Set the final length and send what is in the pipe. */
  method Flush(s: Session, p: Pipe, h: Header, n: nat, k: System, ghost whole: seq<Cell>, ghost ps: nat) returns (res: int)
    requires s.pipe == p && Loaded(p, whole, ps, n) && Plain(whole) && HEADER_LEN + n < 0x1_0000_0000
    modifies s`pipe, s`sent, h, p.cursor
    ensures PipeOk(s) && (s.pipe == p || s.pipe == null)
    ensures k.accepts ==> res == 0
    ensures res == 0 ==> Sent(s.sent, old(s.sent), h, whole, ps, n)
    ensures res != 0 ==> Unsent(s.sent, old(s.sent), h, whole, ps, n, res)
  {
    h.len := HEADER_LEN + n;
    res := SpliceOut(s, p, h, k, whole, ps, n);
    if res != 0 {
      s.pipe := null;
    }
  }

  const ENOMEM := 12

  /** The route through the pipe. `again` asks for the memory route, with the source untouched. */
  method SpliceRoute(s: Session, p: Pipe, h: Header, buf: BufVec<Cell>, len: nat, k: System, ghost whole: seq<Cell>, ghost ps: nat)
    returns (res: int, again: bool, ghost n: nat)
    requires s.pipe == p && p.Clean() && Source(buf, whole, ps, ZERO) && Plain(whole)
    requires len == |whole| && HEADER_LEN + len < 0x1_0000_0000 && Parts(s, h, buf)
    modifies s, h, buf, buf.readers, p.file, p.cursor
    ensures PipeOk(s) && (s.pipe == p || s.pipe == null)
    ensures FullSpeed(k) && old(buf.Present()) ==> !again && (Willing(k) ==> res == 0) && (res == 0 ==> ps + n == |whole|)
    ensures again ==> Source(buf, whole, ps, ZERO) && s.sent == old(s.sent)
    ensures !again && res == 0 ==> Sent(s.sent, old(s.sent), h, whole, ps, n)
    ensures res != 0 ==> Unsent(s.sent, old(s.sent), h, whole, ps, n, res)
  {
    res, again, n := 0, false, 0;
    ghost var sent, present := s.sent, buf.Present();
    h.len := HEADER_LEN + len;
    var put := VmSplice(p, k);
    assert Source(buf, whole, ps, ZERO) && s.sent == sent && buf.Present() == present;
    if put == -1 {
      again := true;
      return;
    }
    if put != HEADER_LEN {
      s.pipe := null;
      return -EIO, false, 0;
    }
    res, again, n := LoadAndSend(s, p, h, buf, len, k, whole, ps);
  }

  /** The same with the header in the pipe. */
  method LoadAndSend(s: Session, p: Pipe, h: Header, buf: BufVec<Cell>, len: nat, k: System, ghost whole: seq<Cell>, ghost ps: nat)
    returns (res: int, again: bool, ghost n: nat)
    requires s.pipe == p && p.cursor.cur <= |p.file.data| && p.Left() == HeaderRefs()
    requires Source(buf, whole, ps, ZERO) && Plain(whole)
    requires len == |whole| && HEADER_LEN + len < 0x1_0000_0000 && Parts(s, h, buf)
    modifies s, h, buf, buf.readers, p.file, p.cursor
    ensures PipeOk(s) && (s.pipe == p || s.pipe == null)
    ensures FullSpeed(k) && old(buf.Present()) ==> !again && (Willing(k) ==> res == 0) && (res == 0 ==> ps + n == |whole|)
    ensures again ==> Source(buf, whole, ps, ZERO) && s.sent == old(s.sent)
    ensures !again && res == 0 ==> Sent(s.sent, old(s.sent), h, whole, ps, n)
    ensures res != 0 ==> Unsent(s.sent, old(s.sent), h, whole, ps, n, res)
  {
    var r := LoadPipe(buf, p, len, k, whole, ps);
    res, again, n := Dispatch(s, p, h, buf, len, r, k, whole, ps);
  }

  /** What follows the copy into the pipe, by its result. */
  method Dispatch(s: Session, p: Pipe, h: Header, buf: BufVec<Cell>, len: nat, r: int, k: System, ghost whole: seq<Cell>, ghost ps: nat)
    returns (res: int, again: bool, ghost n: nat)
    requires s.pipe == p && r <= len && Source(buf, whole, ps + NonNeg(r), ZERO) && Plain(whole)
    requires r >= 0 ==> Loaded(p, whole, ps, r)
    requires len == |whole| && HEADER_LEN + len < 0x1_0000_0000 && Parts(s, h, buf)
    modifies s, h, buf, buf.readers, p.cursor
    ensures PipeOk(s) && (s.pipe == p || s.pipe == null)
    ensures s.brokenNonblock == (old(s.brokenNonblock) || r == -EAGAIN) && (again <==> r == -EAGAIN || r == -EINVAL)
    ensures r < 0 && !again ==> res == -r
    ensures ps + r == |whole| ==> !again && (Willing(k) ==> res == 0) && (res == 0 ==> n == r)
    ensures again ==> Source(buf, whole, ps, ZERO) && s.sent == old(s.sent)
    ensures !again && res == 0 ==> Sent(s.sent, old(s.sent), h, whole, ps, n)
    ensures res != 0 ==> Unsent(s.sent, old(s.sent), h, whole, ps, n, res)
  {
    res, again, n := 0, false, 0;
    if r < 0 {
      s.pipe := null;
      if r == -EAGAIN || r == -EINVAL {
        if r == -EAGAIN {
          s.brokenNonblock := true;
        }
        again := true;
        return;
      }
      return -r, false, 0;
    }
    n := r;
    if r != 0 && r < len {
      res, n := Continue(s, p, h, buf, len, r, k, whole, ps);
    } else {
      res := Flush(s, p, h, r, k, whole, ps);
    }
  }

  /** fuse_ll_get_pipe: the thread's pipe, made on first use. */
  method GetPipe(s: Session) returns (p: Pipe?)
    requires PipeOk(s)
    modifies s`pipe, s`pipeSize, s`canGrow
    ensures PipeOk(s) && (p != null ==> s.pipe == p)
    ensures s.pipe == old(s.pipe) || (s.pipe != null && fresh(s.pipe) && fresh(s.pipe.file) && fresh(s.pipe.cursor))
  {
    if s.pipe == null {
      if * {
        return null;
      }
      s.pipe := new Pipe();
      s.pipeSize, s.canGrow := 16 * PAGE_SIZE, true;
    }
    p := s.pipe;
  }

  /** Make the pipe large enough, if it may still grow. */
  method GrowPipe(s: Session, need: nat) returns (ok: bool)
    modifies s`pipeSize, s`canGrow
    ensures ok ==> s.pipeSize >= need
  {
    if s.pipeSize < need && s.canGrow {
      var got: int :| got >= -1;
      if got == -1 {
        s.canGrow := false;
        return false;
      }
      s.pipeSize := got;
    }
    ok := s.pipeSize >= need;
  }

  /** The pipe to send through, if it can be had and made large enough. */
  method PreparePipe(s: Session, count: nat, len: nat) returns (p: Pipe?)
    requires PipeOk(s)
    modifies s`pipe, s`pipeSize, s`canGrow
    ensures PipeOk(s) && (p != null ==> s.pipe == p && s.pipeSize >= PAGE_SIZE * (1 + count + 1) + HEADER_LEN + len)
    ensures s.pipe == old(s.pipe) || (s.pipe != null && fresh(s.pipe) && fresh(s.pipe.file) && fresh(s.pipe.cursor))
  {
    p := GetPipe(s);
    if p != null {
      var grown := GrowPipe(s, PAGE_SIZE * (1 + count + 1) + HEADER_LEN + len);
      if !grown {
        p := null;
      }
    }
  }

  /** The pipe, if this send may splice: enough of the source is in descriptors. */
  method ChoosePipe(s: Session, ghost h: Header, buf: BufVec<Cell>, len: nat, noSplice: bool, ghost whole: seq<Cell>, ghost ps: nat)
    returns (p: Pipe?)
    requires PipeOk(s) && Source(buf, whole, ps, ZERO) && Parts(s, h, buf)
    modifies s`pipe, s`pipeSize, s`canGrow
    ensures PipeOk(s) && Source(buf, whole, ps, ZERO) && Parts(s, h, buf)
    ensures p != null ==> s.pipe == p && !AllMem(buf.bufs) && !noSplice && !s.brokenNonblock && s.splicing
    ensures noSplice || s.brokenNonblock || !s.splicing ==> s.pipe == old(s.pipe)
    ensures p != null ==> exists size: nat :: size >= 2 * PAGE_SIZE && SizedUp(buf.bufs, buf.idx, buf.off, |buf.bufs|, size)
    ensures s.pipe == old(s.pipe) || (s.pipe != null && fresh(s.pipe) && fresh(s.pipe.file) && fresh(s.pipe.cursor))
  {
    var fdSize := FdSize(buf);
    p := null;
    if !s.brokenNonblock && !noSplice && fdSize >= 2 * PAGE_SIZE && s.splicing {
      p := PreparePipe(s, |buf.bufs|, len);
    }
  }

  /** Through the pipe if there is one, and through memory if that asks for it. */
  method SendThrough(s: Session, p: Pipe?, h: Header, buf: BufVec<Cell>, len: nat, k: System, ghost whole: seq<Cell>, ghost ps: nat)
    returns (res: int, ghost n: nat)
    requires PipeOk(s) && Source(buf, whole, ps, ZERO) && Plain(whole) && Parts(s, h, buf) && (p != null ==> s.pipe == p && !AllMem(buf.bufs))
    requires len == |whole| && HEADER_LEN + len < 0x1_0000_0000
    modifies s, h, buf, buf.readers, if p == null then {} else {p.file, p.cursor}
    ensures PipeOk(s)
    ensures res == 0 ==> Sent(s.sent, old(s.sent), h, whole, ps, n)
    ensures res == 0 && old(Ample(k, buf)) ==> ps + n == |whole|
    ensures Willing(k) && old(Ample(k, buf)) ==> res == 0
    ensures res != 0 ==> Unsent(s.sent, old(s.sent), h, whole, ps, n, res)
  {
    if p != null {
      var again;
      res, again, n := SpliceRoute(s, p, h, buf, len, k, whole, ps);
      if !again {
        return;
      }
    }
    res, n := Fallback(s, h, buf, len, k, whole, ps);
  }

  /** fuse_send_data_iov with the header as its one leading part. With a clean pipe on entry, the
      pipe is clean or gone on every return; 0 means that one complete reply was delivered whose
      payload is an unbroken run of n source bytes from the cursor on, all that is left if the source
      is in memory. */
  method FuseSendDataIov(s: Session, h: Header, buf: BufVec<Cell>, noSplice: bool, k: System, ghost whole: seq<Cell>, ghost ps: nat)
    returns (res: int, ghost n: nat)
    requires PipeOk(s) && Source(buf, whole, ps, ZERO) && Plain(whole) && Parts(s, h, buf)
    requires HEADER_LEN + |whole| < 0x1_0000_0000
    modifies s, h, buf, buf.readers, if s.pipe == null then {} else {s.pipe.file, s.pipe.cursor}
    ensures PipeOk(s)
    ensures res == 0 ==> Sent(s.sent, old(s.sent), h, whole, ps, n)
    ensures res == 0 && old(Ample(k, buf)) ==> ps + n == |whole|
    ensures Willing(k) && old(Ample(k, buf)) ==> res == 0
    ensures res != 0 ==> Unsent(s.sent, old(s.sent), h, whole, ps, n, res)
  {
    var len := BufSize(buf, whole);
    var p := ChoosePipe(s, h, buf, len, noSplice, whole, ps);
    res, n := SendThrough(s, p, h, buf, len, k, whole, ps);
  }
}
