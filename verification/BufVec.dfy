/** fuse_bufvec: a vector of buffers with a cursor, and the copy loop over two of them. */
module BufVecs {
  import opened BufCopy

  // ----- windows laid end to end -----

  ghost function Flat<T>(ws: seq<seq<T>>): seq<T> {
    if ws == [] then [] else ws[0] + Flat(ws[1..])
  }

  /** Where window i starts. */
  ghost function Start<T>(ws: seq<seq<T>>, i: nat): nat
    requires i <= |ws|
  {
    if i == 0 then 0 else |ws[0]| + Start(ws[1..], i - 1)
  }

  /** A transfer into window i is a transfer into the whole. */
  lemma {:induction false} LiftDst<T>(ws: seq<seq<T>>, ws': seq<seq<T>>, i: nat, o: nat, w: seq<T>, s: nat, res: int)
    requires |ws| == |ws'| && i < |ws| && Moved(ws[i], ws'[i], o, w, s, res)
    requires forall k :: 0 <= k < |ws| && k != i ==> ws'[k] == ws[k]
    ensures Moved(Flat(ws), Flat(ws'), Start(ws, i) + o, w, s, res)
  {
    if i == 0 {
      assert ws[1..] == ws'[1..];
    } else {
      assert ws[0] == ws'[0];
      LiftDst(ws[1..], ws'[1..], i - 1, o, w, s, res);
    }
  }

  /** A transfer out of window j is a transfer out of the whole. */
  lemma {:induction false} LiftSrc<T>(vs: seq<seq<T>>, j: nat, b: seq<T>, a: seq<T>, o: nat, s: nat, res: int)
    requires j < |vs| && Moved(b, a, o, vs[j], s, res)
    ensures Moved(b, a, o, Flat(vs), Start(vs, j) + s, res)
    decreases j
  {
    if j > 0 {
      LiftSrc(vs[1..], j - 1, b, a, o, s, res);
    }
  }

  // ----- the vector -----

  /** How many bytes the first i buffers have room for. */
  function Offset<T>(bufs: seq<Buf<T>>, i: nat): nat
    requires i <= |bufs|
  {
    if i == 0 then 0 else bufs[0].size + Offset(bufs[1..], i - 1)
  }

  lemma {:induction false} OffsetStep<T>(bufs: seq<Buf<T>>, i: nat)
    requires i < |bufs|
    ensures Offset(bufs, i + 1) == Offset(bufs, i) + bufs[i].size
  {
    if i > 0 {
      OffsetStep(bufs[1..], i - 1);
    }
  }

  lemma {:induction false} OffsetIsStart<T>(bufs: seq<Buf<T>>, ws: seq<seq<T>>, i: nat)
    requires |ws| == |bufs| && i <= |bufs| && forall k :: 0 <= k < |bufs| ==> |ws[k]| == bufs[k].size
    ensures Offset(bufs, i) == Start(ws, i) <= |Flat(ws)| == Offset(bufs, |bufs|)
    decreases |bufs|
  {
    if bufs != [] {
      OffsetIsStart(bufs[1..], ws[1..], if i == 0 then 0 else i - 1);
    }
  }

  /** A transfer between two windows, seen on the whole vectors. */
  lemma Lift<T>(dbufs: seq<Buf<T>>, ws: seq<seq<T>>, ws': seq<seq<T>>, i: nat, o: nat, before: seq<T>, pd: nat,
                sbufs: seq<Buf<T>>, vs: seq<seq<T>>, j: nat, s: nat, whole: seq<T>, ps: nat, res: int)
    returns (after: seq<T>)
    requires |ws| == |ws'| == |dbufs| && |vs| == |sbufs|
    requires forall k :: 0 <= k < |dbufs| ==> |ws[k]| == dbufs[k].size
    requires forall k :: 0 <= k < |sbufs| ==> |vs[k]| == sbufs[k].size
    requires i < |ws| && j < |vs| && Moved(ws[i], ws'[i], o, vs[j], s, res)
    requires forall k :: 0 <= k < |ws| && k != i ==> ws'[k] == ws[k]
    requires before == Flat(ws) && pd == Offset(dbufs, i) + o && whole == Flat(vs) && ps == Offset(sbufs, j) + s
    ensures after == Flat(ws') && Moved(before, after, pd, whole, ps, res)
  {
    OffsetIsStart(dbufs, ws, i);
    OffsetIsStart(sbufs, vs, j);
    LiftSrc(vs, j, ws[i], ws'[i], o, s, res);
    LiftDst(ws, ws', i, o, whole, ps, res);
    after := Flat(ws');
  }

  ghost function ReadersOf<T>(bufs: seq<Buf<T>>): (r: set<object>)
    ensures forall i :: 0 <= i < |bufs| ==> Readers(bufs[i]) <= r
  {
    set i, o | 0 <= i < |bufs| && o in Readers(bufs[i]) :: o
  }

  ghost function StoresOf<T>(bufs: seq<Buf<T>>): (r: set<object>)
    ensures forall i :: 0 <= i < |bufs| ==> Store(bufs[i]) in r
  {
    set i | 0 <= i < |bufs| :: Store(bufs[i])
  }

  class BufVec<T(0)> {
    const bufs: seq<Buf<T>>
    ghost const stores: set<object>   // what holds the bytes
    ghost const readers: set<object>  // the cursors of the descriptors
    var idx: nat
    var off: nat

    constructor (bufs: seq<Buf<T>>, off: nat)
      requires bufs != [] && off <= bufs[0].size
      ensures this.bufs == bufs && idx == 0 && this.off == off && stores == StoresOf(bufs) && readers == ReadersOf(bufs)
    {
      this.bufs, idx, this.off := bufs, 0, off;
      stores, readers := StoresOf(bufs), ReadersOf(bufs);
    }


    ghost predicate Valid()
      reads this
    {
      && idx <= |bufs| && (idx < |bufs| ==> off <= bufs[idx].size)
      && Fits()
    }

    ghost predicate Fits() {
      forall i :: 0 <= i < |bufs| ==> Ok(bufs[i]) && Store(bufs[i]) in stores && Readers(bufs[i]) <= readers
    }

    /** The descriptors have all the bytes that the buffers ask for. */
    ghost predicate Present()
      requires Fits()
      reads stores
    {
      forall i :: 0 <= i < |bufs| ==> bufs[i].size <= Avail(bufs[i], 0)
    }

    ghost function Windows(zero: T): (ws: seq<seq<T>>)
      requires Fits()
      reads stores
      ensures |ws| == |bufs| && forall i :: 0 <= i < |bufs| ==> ws[i] == Window(bufs[i], zero)
    {
      seq(|bufs|, i requires 0 <= i < |bufs| && Fits() reads stores => Window(bufs[i], zero))
    }

    /** The offset the next byte is taken from (or put at) in buffer i. */
    ghost function OffsetIn(i: nat): nat
      reads this
    {
      if i == idx then off else 0
    }

    /** No stream is used by two buffers. */
    ghost predicate Sources() {
      forall i, j :: 0 <= i < |bufs| && 0 <= j < |bufs| && i != j && Readers(bufs[i]) * Readers(bufs[j]) != {} ==>
                       bufs[i].seek
    }

    /** Buffers of one object do not touch. */
    ghost predicate NoOverlap() {
      forall i, j :: 0 <= i < |bufs| && 0 <= j < |bufs| && i != j && Store(bufs[i]) == Store(bufs[j]) ==>
                       Disjoint(bufs[i], bufs[j])
    }

    /** Streams still to be read are where the cursor is. */
    ghost predicate ReadReady()
      reads this, readers
    {
      && Fits() && (forall i :: idx <= i < |bufs| ==> ReadSync(bufs[i], OffsetIn(i)))
      && Sources()
    }

    /** Streams are written up to the cursor; the buffers do not overlap. */
    ghost predicate WriteReady()
      reads this, stores
    {
      && Fits() && (forall i :: 0 <= i < |bufs| ==> WriteSync(bufs[i], if i < idx then bufs[i].size else OffsetIn(i)))
      && NoOverlap()
    }

    /** How far the cursor is. */
    ghost function Pos(): nat
      requires idx <= |bufs|
      reads this
    {
      Offset(bufs, idx) + if idx < |bufs| then off else 0
    }

    /** fuse_bufvec_advance, with its assertions. */
    method Advance(len: nat) returns (more: bool)
      requires Valid() && idx < |bufs| && off + len <= bufs[idx].size
      modifies this
      ensures Valid() && (more <==> idx < |bufs|) && Pos() == old(Pos()) + len
      ensures idx == old(idx) + if old(off) + len == bufs[old(idx)].size then 1 else 0
      ensures more ==> off == if old(off) + len == bufs[old(idx)].size then 0 else old(off) + len
    {
      OffsetStep(bufs, idx);
      off := off + len;
      assert off <= bufs[idx].size;
      if off == bufs[idx].size {
        assert idx < |bufs|;
        idx := idx + 1;
        if idx == |bufs| {
          return false;
        }
        off := 0;
      }
      more := true;
    }
  }

  ghost predicate AllMem<T>(bufs: seq<Buf<T>>) {
    forall i :: 0 <= i < |bufs| ==> bufs[i].Mem?
  }

  /** Between any two buffers of the vectors descriptors are used until everything is transferred. */
  ghost predicate AllEager<T>(k: Kernel, flags: Flags, dbufs: seq<Buf<T>>, sbufs: seq<Buf<T>>) {
    forall i, j :: 0 <= i < |dbufs| && 0 <= j < |sbufs| ==> Eager(k, flags, dbufs[i], sbufs[j])
  }

  /** Every source buffer can be had, and nothing keeps the bytes from being transferred. */
  ghost predicate Smooth<T(0)>(k: Kernel, flags: Flags, dbufs: seq<Buf<T>>, srcv: BufVec<T>)
    reads srcv.stores
  {
    srcv.Fits() && srcv.Present() && AllEager(k, flags, dbufs, srcv.bufs)
  }

  lemma MemSmooth<T(0)>(k: Kernel, flags: Flags, dbufs: seq<Buf<T>>, srcv: BufVec<T>)
    requires srcv.Fits()
    ensures AllMem(dbufs) && AllMem(srcv.bufs) ==> Smooth(k, flags, dbufs, srcv)
  {
  }

  /** Nothing the copy writes to the destination is part of the source. */
  ghost predicate Apart<T(0)>(dstv: BufVec<T>, srcv: BufVec<T>) {
    && dstv != srcv
    && (forall o :: o in dstv.stores ==> o !in srcv.stores && o !in srcv.readers && o != dstv && o != srcv)
    && (forall o :: o in srcv.stores ==> o !in srcv.readers && o != dstv && o != srcv)
    && (forall o :: o in srcv.readers ==> o != dstv && o != srcv)
  }

  /** Streams of a vector are where its cursor, moved on by n in the current buffer, is. */
  ghost predicate WrittenTo<T(0)>(v: BufVec<T>, n: nat)
    reads v, v.stores
  {
    v.Fits() && forall i :: 0 <= i < |v.bufs| ==>
      WriteSync(v.bufs[i], if i < v.idx then v.bufs[i].size else if i == v.idx then v.off + n else 0)
  }

  ghost predicate ReadTo<T(0)>(v: BufVec<T>, n: nat)
    reads v, v.readers
  {
    v.Fits() && forall i :: v.idx <= i < |v.bufs| ==> ReadSync(v.bufs[i], if i == v.idx then v.off + n else 0)
  }

  /** A transfer from one buffer to the current buffer of the vector leaves the others as they were. */
  method CopyAt<T(0)>(dstv: BufVec<T>, src: Buf<T>, srcOff: nat, len: nat, flags: Flags, k: Kernel, zero: T) returns (res: int, ghost lost: nat)
    requires dstv.Valid() && dstv.WriteReady() && dstv.idx < |dstv.bufs| && dstv.off + len <= dstv.bufs[dstv.idx].size
    requires Ok(src) && srcOff + len <= src.size && ReadSync(src, srcOff) && Separate(dstv.bufs[dstv.idx], src)
    requires dstv !in dstv.stores && dstv !in Readers(src) && forall o :: o in Readers(src) ==> o !in dstv.stores
    modifies dstv.stores, Readers(src)
    ensures res <= len && (lost > 0 ==> res < len && (flags.noSplice || !flags.forceSplice))
    ensures Eager(k, flags, dstv.bufs[dstv.idx], src) && srcOff + len <= src.size <= old(Avail(src, 0)) ==> res == len
    ensures Moved(old(dstv.Windows(zero))[dstv.idx], dstv.Windows(zero)[dstv.idx], dstv.off, old(Window(src, zero)), srcOff, res)
    ensures forall i :: 0 <= i < |dstv.bufs| && i != dstv.idx ==> dstv.Windows(zero)[i] == old(dstv.Windows(zero))[i]
    ensures WrittenTo(dstv, NonNeg(res)) && ReadSync(src, srcOff + NonNeg(res) + lost)
  {
    var dst := dstv.bufs[dstv.idx];
    ghost var was, ws := Whole(dst), dstv.Windows(zero);
    ghost var wholes := seq(|dstv.bufs|, k requires 0 <= k < |dstv.bufs| && dstv.Fits() reads dstv.stores => Whole(dstv.bufs[k]));
    forall k | 0 <= k < |dstv.bufs|
      ensures ws[k] == Slice(wholes[k], Begin(dstv.bufs[k]), dstv.bufs[k].size, zero)
    {
      WindowIsSlice(dstv.bufs[k], zero);
    }
    res, lost := CopyOne(dst, dstv.off, src, srcOff, len, flags, k, zero);
    forall k | 0 <= k < |dstv.bufs| && k != dstv.idx
      ensures Window(dstv.bufs[k], zero) == ws[k]
    {
      var b := dstv.bufs[k];
      if Store(b) == Store(dst) {
        OutsideKept(dst, b, was, Whole(dst), zero);
        WindowIsSlice(b, zero);
      }
    }
  }

  /** A stream has a cursor of its own. */
  lemma OwnCursor<T(0)>(v: BufVec<T>, i: nat, j: nat)
    requires v.Fits() && v.Sources() && i < |v.bufs| && j < |v.bufs| && i != j
    ensures v.bufs[i].Fd? && !v.bufs[i].seek ==> v.bufs[i].cursor !in Readers(v.bufs[j]) && v.bufs[i].cursor in v.readers
  {
    if v.bufs[i].Fd? {
      var c := v.bufs[i].cursor;
      assert c in Readers(v.bufs[i]);
      if c in Readers(v.bufs[j]) {
        assert c in Readers(v.bufs[i]) * Readers(v.bufs[j]);
      }
    }
  }

  /** One round of the loop: a transfer between the two current buffers. */
  method CopyBuffers<T(0)>(dstv: BufVec<T>, srcv: BufVec<T>, flags: Flags, k: Kernel, zero: T, ghost smooth: bool) returns (res: int, len: nat, ghost lost: nat)
    requires dstv.Valid() && srcv.Valid() && Apart(dstv, srcv)
    requires dstv.WriteReady() && srcv.ReadReady() && dstv.idx < |dstv.bufs| && srcv.idx < |srcv.bufs|
    requires smooth ==> Smooth(k, flags, dstv.bufs, srcv)
    modifies dstv.stores, srcv.readers
    ensures res <= len && (lost > 0 ==> res < len && (flags.noSplice || !flags.forceSplice))
    ensures len == Min(srcv.bufs[srcv.idx].size - srcv.off, dstv.bufs[dstv.idx].size - dstv.off)
    ensures smooth ==> Smooth(k, flags, dstv.bufs, srcv) && res == len
    ensures srcv.Windows(zero) == old(srcv.Windows(zero))
    ensures Moved(old(dstv.Windows(zero))[dstv.idx], dstv.Windows(zero)[dstv.idx], dstv.off,
                  old(srcv.Windows(zero))[srcv.idx], srcv.off, res)
    ensures forall i :: 0 <= i < |dstv.bufs| && i != dstv.idx ==> dstv.Windows(zero)[i] == old(dstv.Windows(zero))[i]
    ensures WrittenTo(dstv, NonNeg(res)) && ReadTo(srcv, NonNeg(res) + lost)
  {
    var src, dst := srcv.bufs[srcv.idx], dstv.bufs[dstv.idx];
    var srcLen, dstLen := src.size - srcv.off, dst.size - dstv.off;
    len := if srcLen < dstLen then srcLen else dstLen;
    res, lost := CopyAt(dstv, src, srcv.off, len, flags, k, zero);
    forall i | srcv.idx < i < |srcv.bufs|
      ensures ReadSync(srcv.bufs[i], 0)
    {
      OwnCursor(srcv, i, srcv.idx);
    }
  }

  ghost predicate Ready<T(0)>(dstv: BufVec<T>, srcv: BufVec<T>)
    reads dstv, srcv, dstv.stores, srcv.readers
  {
    dstv.Valid() && srcv.Valid() && Apart(dstv, srcv) && dstv.WriteReady() && srcv.ReadReady()
  }

  ghost predicate Contents<T(0)>(v: BufVec<T>, flat: seq<T>, zero: T)
    reads v, v.stores
  {
    v.Valid() && flat == Flat(v.Windows(zero))
  }

  /** The same, seen on the whole vectors: `before` and `after` are the destination's contents,
      `whole` the source's. */
  method CopyCurrent<T(0)>(dstv: BufVec<T>, srcv: BufVec<T>, flags: Flags, k: Kernel, zero: T, ghost smooth: bool,
                           ghost before: seq<T>, ghost pd: nat, ghost whole: seq<T>, ghost ps: nat)
    returns (res: int, len: nat, ghost lost: nat, ghost after: seq<T>)
    requires Ready(dstv, srcv) && dstv.idx < |dstv.bufs| && srcv.idx < |srcv.bufs|
    requires Contents(dstv, before, zero) && Contents(srcv, whole, zero) && pd == dstv.Pos() && ps == srcv.Pos()
    requires smooth ==> Smooth(k, flags, dstv.bufs, srcv)
    modifies dstv.stores, srcv.readers
    ensures res <= len && (lost > 0 ==> res < len && (flags.noSplice || !flags.forceSplice))
    ensures len == Min(srcv.bufs[srcv.idx].size - srcv.off, dstv.bufs[dstv.idx].size - dstv.off)
    ensures smooth ==> Smooth(k, flags, dstv.bufs, srcv) && res == len
    ensures Contents(dstv, after, zero) && Contents(srcv, whole, zero)
    ensures Moved(before, after, pd, whole, ps, res)
    ensures WrittenTo(dstv, NonNeg(res)) && ReadTo(srcv, NonNeg(res) + lost)
  {
    ghost var ws, vs := dstv.Windows(zero), srcv.Windows(zero);
    res, len, lost := CopyBuffers(dstv, srcv, flags, k, zero, smooth);
    after := Lift(dstv.bufs, ws, dstv.Windows(zero), dstv.idx, dstv.off, before, pd,
                  srcv.bufs, vs, srcv.idx, srcv.off, whole, ps, res);
  }

  /** The same after `copied` bytes, which took the destination from `before` to `mid`. */
  method CopyFurther<T(0)>(dstv: BufVec<T>, srcv: BufVec<T>, flags: Flags, k: Kernel, zero: T, ghost smooth: bool, ghost copied: nat,
                           ghost before: seq<T>, ghost mid: seq<T>, ghost pd: nat, ghost whole: seq<T>, ghost ps: nat)
    returns (res: int, len: nat, ghost lost: nat, ghost after: seq<T>)
    requires Ready(dstv, srcv) && dstv.idx < |dstv.bufs| && srcv.idx < |srcv.bufs|
    requires Contents(dstv, mid, zero) && Contents(srcv, whole, zero) && pd + copied == dstv.Pos() && ps + copied == srcv.Pos()
    requires Moved(before, mid, pd, whole, ps, copied)
    requires smooth ==> Smooth(k, flags, dstv.bufs, srcv)
    modifies dstv.stores, srcv.readers
    ensures res <= len && (lost > 0 ==> res < len && (flags.noSplice || !flags.forceSplice))
    ensures len == Min(srcv.bufs[srcv.idx].size - srcv.off, dstv.bufs[dstv.idx].size - dstv.off)
    ensures smooth ==> Smooth(k, flags, dstv.bufs, srcv) && res == len
    ensures Contents(dstv, after, zero) && Contents(srcv, whole, zero)
    ensures Moved(before, after, pd, whole, ps, copied + NonNeg(res))
    ensures WrittenTo(dstv, NonNeg(res)) && ReadTo(srcv, NonNeg(res) + lost)
  {
    res, len, lost, after := CopyCurrent(dstv, srcv, flags, k, zero, smooth, mid, pd + copied, whole, ps + copied);
    MovedMore(before, mid, after, pd, whole, ps, copied, res);
  }

  ghost predicate AtEnd<T(0)>(v: BufVec<T>)
    reads v
  {
    v.idx == |v.bufs|
  }

  method AdvanceSource<T(0)>(v: BufVec<T>, len: nat, zero: T, ghost flat: seq<T>, ghost lost: nat) returns (more: bool)
    requires Contents(v, flat, zero) && v !in v.stores && v !in v.readers && v.Sources()
    requires v.idx < |v.bufs| && v.off + len <= v.bufs[v.idx].size && ReadTo(v, len + lost)
    modifies v
    ensures Contents(v, flat, zero) && v.Pos() == old(v.Pos()) + len && (more <==> !AtEnd(v))
    ensures lost == 0 ==> v.ReadReady()
    ensures v.idx == old(v.idx) + if old(v.off) + len == v.bufs[old(v.idx)].size then 1 else 0
  {
    more := v.Advance(len);
  }

  method AdvanceDest<T(0)>(v: BufVec<T>, len: nat, zero: T, ghost flat: seq<T>) returns (more: bool)
    requires Contents(v, flat, zero) && v !in v.stores && v.NoOverlap()
    requires v.idx < |v.bufs| && v.off + len <= v.bufs[v.idx].size && WrittenTo(v, len)
    modifies v
    ensures Contents(v, flat, zero) && v.Pos() == old(v.Pos()) + len && (more <==> !AtEnd(v))
    ensures v.WriteReady() && WrittenTo(v, 0)
    ensures v.idx == old(v.idx) + if old(v.off) + len == v.bufs[old(v.idx)].size then 1 else 0
  {
    more := v.Advance(len);
  }

  /** After a transfer: `!fuse_bufvec_advance(srcv, res) || !fuse_bufvec_advance(dstv, res)`,
      then `res < len`. */
  method AdvanceBoth<T(0)>(dstv: BufVec<T>, srcv: BufVec<T>, res: nat, len: nat, zero: T,
                           ghost after: seq<T>, ghost whole: seq<T>, ghost lost: nat)
    returns (stop: bool, ghost lag: nat)
    requires Contents(dstv, after, zero) && Contents(srcv, whole, zero) && Apart(dstv, srcv) && srcv.Sources() && dstv.NoOverlap()
    requires dstv.idx < |dstv.bufs| && srcv.idx < |srcv.bufs|
    requires res <= len == Min(srcv.bufs[srcv.idx].size - srcv.off, dstv.bufs[dstv.idx].size - dstv.off)
    requires WrittenTo(dstv, res) && ReadTo(srcv, res + lost) && (lost > 0 ==> res < len)
    modifies dstv, srcv
    ensures Contents(dstv, after, zero) && Contents(srcv, whole, zero)
    ensures srcv.Pos() == old(srcv.Pos()) + res
    ensures dstv.Pos() + lag == old(dstv.Pos()) + res && (lag > 0 ==> AtEnd(srcv))
    ensures WrittenTo(dstv, lag) && (lost == 0 ==> srcv.ReadReady())
    ensures !stop ==> lost == 0 && lag == 0 && Ready(dstv, srcv) && srcv.idx + dstv.idx > old(srcv.idx + dstv.idx)
    ensures stop ==> res < len || AtEnd(srcv) || AtEnd(dstv)
  {
    lag, stop := res, true;
    var more := AdvanceSource(srcv, res, zero, whole, lost);
    if more {
      more := AdvanceDest(dstv, res, zero, after);
      lag, stop := 0, !more || res < len;
    }
  }

  /** What is known after the loop, and (with `stop` false) between its rounds. */
  ghost predicate Progress<T(0)>(dstv: BufVec<T>, srcv: BufVec<T>, flags: Flags, zero: T, before: seq<T>, after: seq<T>,
                                 pd: nat, whole: seq<T>, ps: nat, copied: nat, lag: nat, lost: nat)
    reads dstv, srcv, dstv.stores, srcv.stores, srcv.readers
  {
    && Contents(dstv, after, zero) && Contents(srcv, whole, zero)
    // the destination holds, from its cursor on, the next bytes of the source, and nothing else changed
    && Moved(before, after, pd, whole, ps, copied)
    // the source cursor advanced by exactly that, the destination's too unless the source is exhausted
    && srcv.Pos() == ps + copied
    && dstv.Pos() + lag == pd + copied && (lag > 0 ==> AtEnd(srcv))
    && WrittenTo(dstv, lag) && (lost == 0 ==> srcv.ReadReady())
    && (lost > 0 ==> flags.noSplice || !flags.forceSplice)
  }

  lemma NoProgressYet<T(0)>(dstv: BufVec<T>, srcv: BufVec<T>, flags: Flags, zero: T,
                            before: seq<T>, pd: nat, whole: seq<T>, ps: nat)
    requires Ready(dstv, srcv)
    requires Contents(dstv, before, zero) && Contents(srcv, whole, zero) && pd == dstv.Pos() && ps == srcv.Pos()
    ensures Progress(dstv, srcv, flags, zero, before, before, pd, whole, ps, 0, 0, 0)
  {
    WithinBounds(dstv, before, zero);
    WithinBounds(srcv, whole, zero);
  }

  /** One whole round, after `copied` bytes. When the loop goes on, the vectors are ready for the
      next round. */
  method Round<T(0)>(dstv: BufVec<T>, srcv: BufVec<T>, flags: Flags, k: Kernel, zero: T, ghost smooth: bool, ghost copied: nat,
                     ghost before: seq<T>, ghost mid: seq<T>, ghost pd: nat, ghost whole: seq<T>, ghost ps: nat)
    returns (res: int, stop: bool, ghost after: seq<T>, ghost lag: nat, ghost lost: nat)
    requires Ready(dstv, srcv) && dstv.idx < |dstv.bufs| && srcv.idx < |srcv.bufs|
    requires Progress(dstv, srcv, flags, zero, before, mid, pd, whole, ps, copied, 0, 0)
    requires smooth ==> Smooth(k, flags, dstv.bufs, srcv)
    modifies dstv, srcv, dstv.stores, srcv.readers
    ensures Progress(dstv, srcv, flags, zero, before, after, pd, whole, ps, copied + NonNeg(res), lag, lost)
    ensures !stop ==> res >= 0 && lag == 0 && lost == 0 && Ready(dstv, srcv)
    ensures !stop ==> srcv.idx + dstv.idx > old(srcv.idx + dstv.idx)
    ensures smooth ==> Smooth(k, flags, dstv.bufs, srcv) && res >= 0 && (stop ==> AtEnd(srcv) || AtEnd(dstv))
  {
    var len;
    res, len, lost, after := CopyFurther(dstv, srcv, flags, k, zero, smooth, copied, before, mid, pd, whole, ps);
    if res < 0 {
      stop, lag := true, 0;
    } else {
      stop, lag := AdvanceBoth(dstv, srcv, res, len, zero, after, whole, lost);
    }
  }

  /** The loop of fuse_buf_copy. */
  method CopyLoop<T(0)>(dstv: BufVec<T>, srcv: BufVec<T>, flags: Flags, k: Kernel, zero: T, ghost smooth: bool,
                        ghost before: seq<T>, ghost pd: nat, ghost whole: seq<T>, ghost ps: nat)
    returns (r: int, ghost after: seq<T>, ghost lag: nat, ghost lost: nat)
    requires Ready(dstv, srcv) && Progress(dstv, srcv, flags, zero, before, before, pd, whole, ps, 0, 0, 0)
    requires smooth ==> Smooth(k, flags, dstv.bufs, srcv)
    modifies dstv, srcv, dstv.stores, srcv.readers
    ensures Progress(dstv, srcv, flags, zero, before, after, pd, whole, ps, NonNeg(r), lag, lost)
    ensures smooth ==> Smooth(k, flags, dstv.bufs, srcv) && r >= 0 && (AtEnd(srcv) || AtEnd(dstv))
  {
    after, lag, lost := before, 0, 0;
    var copied, error, stop := 0, 0, false;
    while !stop && srcv.idx < |srcv.bufs| && dstv.idx < |dstv.bufs|
      invariant Progress(dstv, srcv, flags, zero, before, after, pd, whole, ps, copied, lag, lost)
      invariant !stop ==> Ready(dstv, srcv) && lag == 0 && lost == 0 && error == 0
      invariant error <= 0 && (error < 0 ==> copied == 0)
      invariant smooth ==> Smooth(k, flags, dstv.bufs, srcv) && error == 0 && (stop ==> AtEnd(srcv) || AtEnd(dstv))
      decreases !stop, |srcv.bufs| + |dstv.bufs| - srcv.idx - dstv.idx
    {
      var res;
      res, stop, after, lag, lost := Round(dstv, srcv, flags, k, zero, smooth, copied, before, after, pd, whole, ps);
      if res < 0 {
        if copied == 0 {
          error := res;
        }
      } else {
        copied := copied + res;
      }
    }
    r := if error < 0 then error else copied;
  }

  /** fuse_buf_copy between two different vectors. `after` is the destination's contents on return,
      `lag` how many of the bytes it got are not yet behind its cursor, `lost` how many were taken
      from a stream and dropped. */
  method FuseBufCopy<T(0)>(dstv: BufVec<T>, srcv: BufVec<T>, flags: Flags, k: Kernel, zero: T,
                           ghost before: seq<T>, ghost pd: nat, ghost whole: seq<T>, ghost ps: nat)
    returns (r: int, ghost after: seq<T>, ghost lag: nat, ghost lost: nat)
    requires Ready(dstv, srcv)
    requires Contents(dstv, before, zero) && Contents(srcv, whole, zero) && pd == dstv.Pos() && ps == srcv.Pos()
    modifies dstv, srcv, dstv.stores, srcv.readers
    ensures Progress(dstv, srcv, flags, zero, before, after, pd, whole, ps, NonNeg(r), lag, lost)
    // nothing is short without a cause
    ensures old(Smooth(k, flags, dstv.bufs, srcv)) ==> r == Min(|whole| - ps, |before| - pd)
    ensures AllMem(dstv.bufs) && AllMem(srcv.bufs) ==> r == Min(|whole| - ps, |before| - pd)
  {
    MemSmooth(k, flags, dstv.bufs, srcv);
    ghost var smooth := Smooth(k, flags, dstv.bufs, srcv);
    NoProgressYet(dstv, srcv, flags, zero, before, pd, whole, ps);
    r, after, lag, lost := CopyLoop(dstv, srcv, flags, k, zero, smooth, before, pd, whole, ps);
    if AtEnd(srcv) || AtEnd(dstv) {
      EndReached(dstv, srcv, flags, zero, before, after, pd, whole, ps, NonNeg(r), lag, lost);
    }
  }

  lemma EndReached<T(0)>(dstv: BufVec<T>, srcv: BufVec<T>, flags: Flags, zero: T, before: seq<T>, after: seq<T>,
                         pd: nat, whole: seq<T>, ps: nat, copied: nat, lag: nat, lost: nat)
    requires Progress(dstv, srcv, flags, zero, before, after, pd, whole, ps, copied, lag, lost)
    requires AtEnd(srcv) || AtEnd(dstv)
    ensures copied == Min(|whole| - ps, |before| - pd)
  {
    WithinBounds(dstv, after, zero);
    WithinBounds(srcv, whole, zero);
  }

  lemma WithinBounds<T(0)>(v: BufVec<T>, flat: seq<T>, zero: T)
    requires Contents(v, flat, zero)
    ensures v.Pos() <= |flat| && (AtEnd(v) ==> v.Pos() == |flat|)
  {
    OffsetIsStart(v.bufs, v.Windows(zero), v.idx);
    if v.idx < |v.bufs| {
      OffsetIsStart(v.bufs, v.Windows(zero), v.idx + 1);
      OffsetStep(v.bufs, v.idx);
    }
  }

  // ----- a destination of one buffer, as FUSE_BUFVEC_INIT makes it -----

  lemma SingleContents<T(0)>(v: BufVec<T>, zero: T)
    requires |v.bufs| == 1 && v.Valid()
    ensures Flat(v.Windows(zero)) == Window(v.bufs[0], zero) && Offset(v.bufs, 1) == v.bufs[0].size
    ensures v.Pos() == if v.idx == 0 then v.off else v.bufs[0].size
  {
    assert v.Windows(zero)[1..] == [];
  }

  /** The source vector srcv has contents `whole`, its cursor is at ps and its streams are in step. */
  ghost predicate Source<T(0)>(srcv: BufVec<T>, whole: seq<T>, ps: nat, zero: T)
    reads srcv, srcv.stores, srcv.readers
  {
    && Contents(srcv, whole, zero) && srcv.ReadReady() && srcv.Pos() == ps <= |whole|
    && srcv !in srcv.stores && srcv !in srcv.readers
    && (forall o :: o in srcv.stores ==> o !in srcv.readers)
  }

  method CopyInto<T(0)>(dst: Buf<T>, start: nat, srcv: BufVec<T>, flags: Flags, k: Kernel, zero: T, ghost whole: seq<T>, ghost ps: nat)
    returns (r: int, ghost lost: nat)
    requires Ok(dst) && start <= dst.size && WriteSync(dst, start) && Source(srcv, whole, ps, zero)
    requires Store(dst) !in srcv.stores && Store(dst) !in srcv.readers && Store(dst) != srcv
    modifies srcv, srcv.readers, Store(dst)
    ensures Moved(old(Window(dst, zero)), Window(dst, zero), start, whole, ps, r)
    ensures WriteSync(dst, start + NonNeg(r))
    ensures lost > 0 ==> flags.noSplice || !flags.forceSplice
    ensures lost == 0 ==> Source(srcv, whole, ps + NonNeg(r), zero)
    ensures old(Smooth(k, flags, [dst], srcv)) || (dst.Mem? && AllMem(srcv.bufs)) ==> r == Min(|whole| - ps, dst.size - start)
  {
    var v := new BufVec([dst], start);
    assert v.stores == {Store(dst)};
    SingleContents(v, zero);
    ghost var before, after, lag := Window(dst, zero), [], 0;
    assert v.WriteReady() && Apart(v, srcv);
    r, after, lag, lost := FuseBufCopy(v, srcv, flags, k, zero, before, start, whole, ps);
    SingleContents(v, zero);
  }
}
