/** `afl_mutate` in place: the buffer, the scratch buffer, and the C library's memory functions. */
module HavocMemory {
  import opened Bytes
  import opened HavocEdits
  import opened HavocShuffle
  import opened HavocPlan

  // ---------------------------------------------------------------- the C library

  /** `memcpy`: the two blocks must not overlap. */
  method MemCpy(dst: array<Byte>, at: nat, src: array<Byte>, from: nat, n: nat)
    requires at + n <= dst.Length && from + n <= src.Length
    requires dst != src || at + n <= from || from + n <= at
    modifies dst
    ensures forall k {:trigger dst[k]} | 0 <= k < dst.Length ::
      dst[k] == if at <= k < at + n then old(src[from + k - at]) else old(dst[k])
  {
    for i := 0 to n
      invariant forall k {:trigger dst[k]} | 0 <= k < dst.Length ::
        dst[k] == if at <= k < at + i then old(src[from + k - at]) else old(dst[k])
    {
      dst[at + i] := src[from + i];
    }
  }

  /** `memcpy` between two buffers, in terms of the block copied. */
  method MemCpyOf(dst: array<Byte>, at: nat, src: array<Byte>, from: nat, n: nat)
    requires dst != src && at + n <= dst.Length && from + n <= src.Length
    modifies dst
    ensures forall k {:trigger dst[k]} | 0 <= k < dst.Length ::
      dst[k] == if at <= k < at + n then src[from..from + n][k - at] else old(dst[k])
  {
    MemCpy(dst, at, src, from, n);
  }

  /** `memmove`: the blocks may overlap. */
  method MemMove(a: array<Byte>, at: nat, from: nat, n: nat)
    requires at + n <= a.Length && from + n <= a.Length
    modifies a
    ensures forall k {:trigger a[k]} | 0 <= k < a.Length ::
      a[k] == if at <= k < at + n then old(a[from + k - at]) else old(a[k])
  {
    if at <= from {
      for i := 0 to n
        invariant forall k {:trigger a[k]} | 0 <= k < a.Length ::
          a[k] == if at <= k < at + i then old(a[from + k - at]) else old(a[k])
      {
        a[at + i] := a[from + i];
      }
    } else {
      for i := n downto 0
        invariant forall k {:trigger a[k]} | 0 <= k < a.Length ::
          a[k] == if at + i <= k < at + n then old(a[from + k - at]) else old(a[k])
      {
        a[at + i] := a[from + i];
      }
    }
  }

  /** `memset` */
  method MemSet(dst: array<Byte>, at: nat, item: Byte, n: nat)
    requires at + n <= dst.Length
    modifies dst
    ensures forall k {:trigger dst[k]} | 0 <= k < dst.Length :: dst[k] == if at <= k < at + n then item else old(dst[k])
  {
    for i := 0 to n
      invariant forall k {:trigger dst[k]} | 0 <= k < dst.Length ::
        dst[k] == if at <= k < at + i then item else old(dst[k])
    {
      dst[at + i] := item;
    }
  }

  /** `memcpy` from memory outside the two buffers: a token, the splice buffer, a printed number. */
  method CopyIn(dst: array<Byte>, at: nat, data: seq<Byte>)
    requires at + |data| <= dst.Length
    modifies dst
    ensures forall k {:trigger dst[k]} | 0 <= k < dst.Length ::
      dst[k] == if at <= k < at + |data| then data[k - at] else old(dst[k])
  {
    for i := 0 to |data|
      invariant forall k {:trigger dst[k]} | 0 <= k < dst.Length ::
        dst[k] == if at <= k < at + i then data[k - at] else old(dst[k])
    {
      dst[at + i] := data[i];
    }
  }

  // ---------------------------------------------------------------- edits, place by place

  lemma OverwriteIs(s: seq<Byte>, t: seq<Byte>, at: nat, data: seq<Byte>)
    requires |t| == |s| && at + |data| <= |s|
    requires forall k {:trigger t[k]} | 0 <= k < |s| :: t[k] == if at <= k < at + |data| then data[k - at] else s[k]
    ensures Fits(Overwrite(at, data), |s|) && t == Apply(Overwrite(at, data), s)
  {
    assert t[..at] == s[..at];
    assert t[at..at + |data|] == data;
    assert t[at + |data|..] == s[at + |data|..];
    assert t == t[..at] + t[at..at + |data|] + t[at + |data|..];
  }

  lemma ReplaceIs(s: seq<Byte>, t: seq<Byte>, at: nat, until: nat, data: seq<Byte>)
    requires at <= until <= |s| && |t| == at + |data| + (|s| - until)
    requires forall k {:trigger t[k]} | 0 <= k < |t| ::
      t[k] == if k < at then s[k] else if k < at + |data| then data[k - at] else s[k - at - |data| + until]
    ensures Fits(Replace(at, until, data), |s|) && t == Apply(Replace(at, until, data), s)
  {
    assert t[..at] == s[..at];
    assert t[at..at + |data|] == data;
    assert t[at + |data|..] == s[until..];
    assert t == t[..at] + t[at..at + |data|] + t[at + |data|..];
  }

  lemma InsertIsReplace(s: seq<Byte>, at: nat, data: seq<Byte>)
    requires at <= |s|
    ensures Apply(Insert(at, data), s) == Apply(Replace(at, at, data), s)
  {
  }

  lemma DeleteIs(s: seq<Byte>, t: seq<Byte>, at: nat, count: nat)
    requires at + count <= |s| && |t| == |s| - count
    requires forall k {:trigger t[k]} | 0 <= k < |t| :: t[k] == if k < at then s[k] else s[k + count]
    ensures Fits(Delete(at, count), |s|) && t == Apply(Delete(at, count), s)
  {
    assert t[..at] == s[..at];
    assert t[at..] == s[at + count..];
    assert t == t[..at] + t[at..];
  }

  lemma SliceIs(s: seq<Byte>, t: seq<Byte>, lo: nat, hi: nat, from: nat)
    requires lo <= hi <= |t| && from + (hi - lo) <= |s|
    requires forall k {:trigger t[k]} | lo <= k < hi :: t[k] == s[k - lo + from]
    ensures t[lo..hi] == s[from..from + (hi - lo)]
  {
  }

  /** Where place `k` gets its byte from when two blocks trade places. */
  function SwapOrigin(left: nat, right: nat, count: nat, k: int): int {
    if left <= k < left + count then k - left + right
    else if right <= k < right + count then k - right + left else k
  }

  lemma SwapSlice(s: seq<Byte>, t: seq<Byte>, left: nat, right: nat, count: nat, lo: nat, hi: nat, from: nat)
    requires left + count <= right && right + count <= |s| == |t| && lo <= hi <= |s| && from + (hi - lo) <= |s|
    requires forall k {:trigger t[k]} | 0 <= k < |s| :: t[k] == s[SwapOrigin(left, right, count, k)]
    requires forall k {:trigger SwapOrigin(left, right, count, k)} | lo <= k < hi ::
      SwapOrigin(left, right, count, k) == k - lo + from
    ensures t[lo..hi] == s[from..from + (hi - lo)]
  {
    hide SwapOrigin;
    SliceIs(s, t, lo, hi, from);
  }

  lemma SwapIs(s: seq<Byte>, t: seq<Byte>, left: nat, right: nat, count: nat)
    requires left + count <= right && right + count <= |s| == |t|
    requires forall k {:trigger t[k]} | 0 <= k < |s| :: t[k] == s[SwapOrigin(left, right, count, k)]
    ensures Fits(SwapBlocks(left, right, count), |s|) && t == Apply(SwapBlocks(left, right, count), s)
  {
    hide Fits, Apply, Glue5;
    SwapSlice(s, t, left, right, count, 0, left, 0);
    SwapSlice(s, t, left, right, count, left, left + count, right);
    SwapSlice(s, t, left, right, count, left + count, right, left + count);
    SwapSlice(s, t, left, right, count, right, right + count, left);
    SwapSlice(s, t, left, right, count, right + count, |t|, right + count);
    FiveParts(t, left, left + count, right, right + count);
    SwappedParts(s, left, right, count);
  }

  lemma FiveParts(t: seq<Byte>, a: nat, b: nat, c: nat, d: nat)
    requires a <= b <= c <= d <= |t|
    ensures t == Glue5(t[0..a], t[a..b], t[b..c], t[c..d], t[d..|t|])
  {
    assert t[0..a] + t[a..b] == t[0..b];
    assert t[0..b] + t[b..c] == t[0..c];
    assert t[0..c] + t[c..d] == t[0..d];
  }

  lemma SwappedParts(s: seq<Byte>, left: nat, right: nat, count: nat)
    requires left + count <= right && right + count <= |s|
    ensures Fits(SwapBlocks(left, right, count), |s|)
    ensures Apply(SwapBlocks(left, right, count), s) == Glue5(s[0..left], s[right..right + count],
      s[left + count..right], s[left..left + count], s[right + count..|s|])
  {
    hide Glue5;
    assert s[..left] == s[0..left] && s[right + count..] == s[right + count..|s|];
  }

  lemma ShuffleFits(off: nat, partners: seq<nat>, len: nat)
    requires Partners(partners, |partners| + 1) && off + |partners| + 1 <= len
    ensures Fits(Permute(off, Origins(|partners| + 1, partners)), len)
  {
    hide CycleOrder, Partners;
    ShuffleIsOneCycle(|partners| + 1, partners);
    CycleIsPermutation(Origins(|partners| + 1, partners));
  }

  lemma PermuteIs(s: seq<Byte>, t: seq<Byte>, off: nat, p: seq<nat>)
    requires Fits(Permute(off, p), |s|) && |t| == |s|
    requires t[off..off + |p|] == Permuted(s[off..off + |p|], p)
    requires t[..off] == s[..off] && t[off + |p|..] == s[off + |p|..]
    ensures t == Apply(Permute(off, p), s)
  {
    hide Permuted, Glue3;
    ThreeParts(t, off, off + |p|);
  }

  lemma ThreeParts(t: seq<Byte>, a: nat, b: nat)
    requires a <= b <= |t|
    ensures t == Glue3(t[..a], t[a..b], t[b..])
  {
  }

  lemma BlockIs(block: seq<Byte>, now: seq<Byte>, p: seq<nat>)
    requires |block| == |p| == |now| && forall k | 0 <= k < |p| :: p[k] < |p|
    requires forall k | 0 <= k < |p| :: now[k] == block[p[k]]
    ensures now == Permuted(block, p)
  {
  }

  // ---------------------------------------------------------------- the edits in place

  /** The tail goes behind what the scratch buffer holds, and everything back into the buffer. */
  method TailAndBack(buf: array<Byte>, tmp: array<Byte>, len: nat, at: nat, tail: nat) returns (now: nat)
    requires buf != tmp && tail <= len <= buf.Length && at + (len - tail) <= tmp.Length
      && at + (len - tail) <= buf.Length
    modifies buf, tmp
    ensures now == at + (len - tail)
    ensures forall k {:trigger buf[k]} | 0 <= k < now ::
      buf[k] == if k < at then old(tmp[k]) else old(buf[k - at + tail])
  {
    MemCpy(tmp, at, buf, tail, len - tail);
    now := at + (len - tail);
    MemCpy(buf, 0, tmp, 0, now);
  }

  method DoCloneBlock(buf: array<Byte>, tmp: array<Byte>, len: nat, from: nat, to: nat, count: nat) returns (now: nat)
    requires buf != tmp && from + count <= len && to <= len
    requires len + count <= buf.Length && len + count <= tmp.Length
    modifies buf, tmp
    ensures now == len + count && buf[..now] == Apply(Insert(to, old(buf[from..from + count])), old(buf[..len]))
  {
    hide Apply, Fits;
    ghost var s, data := buf[..len], buf[from..from + count];
    MemCpy(tmp, 0, buf, 0, to);
    MemCpyOf(tmp, to, buf, from, count);
    now := TailAndBack(buf, tmp, len, to + count, to);
    ReplaceIs(s, buf[..now], to, to, data);
    InsertIsReplace(s, to, data);
  }

  method DoCloneByte(buf: array<Byte>, tmp: array<Byte>, len: nat, to: nat, item: Byte, count: nat) returns (now: nat)
    requires buf != tmp && to <= len && len + count <= buf.Length && len + count <= tmp.Length
    modifies buf, tmp
    ensures now == len + count && buf[..now] == Apply(Insert(to, Repeat(item, count)), old(buf[..len]))
  {
    hide Apply, Fits;
    ghost var s := buf[..len];
    MemCpy(tmp, 0, buf, 0, to);
    MemSet(tmp, to, item, count);
    now := TailAndBack(buf, tmp, len, to + count, to);
    ReplaceIs(s, buf[..now], to, to, Repeat(item, count));
    InsertIsReplace(s, to, Repeat(item, count));
  }

  /** A splice, or a longer or shorter number: the bytes [to, tail) make way for `data`. */
  method DoReplace(buf: array<Byte>, tmp: array<Byte>, len: nat, to: nat, tail: nat, data: seq<Byte>) returns (now: nat)
    requires buf != tmp && to <= tail <= len <= buf.Length
    requires to + |data| + (len - tail) <= buf.Length && to + |data| + (len - tail) <= tmp.Length
    modifies buf, tmp
    ensures now == to + |data| + (len - tail) && buf[..now] == Apply(Replace(to, tail, data), old(buf[..len]))
  {
    hide Apply, Fits;
    ghost var s := buf[..len];
    MemCpy(tmp, 0, buf, 0, to);
    CopyIn(tmp, to, data);
    now := TailAndBack(buf, tmp, len, to + |data|, tail);
    ReplaceIs(s, buf[..now], to, tail, data);
  }

  method DoMoveBlock(buf: array<Byte>, len: nat, from: nat, to: nat, count: nat)
    requires from + count <= len <= buf.Length && to + count <= len
    modifies buf
    ensures buf[..len] == Apply(Overwrite(to, old(buf[from..from + count])), old(buf[..len]))
  {
    hide Apply, Fits;
    ghost var s, data := buf[..len], buf[from..from + count];
    MemMove(buf, to, from, count);
    OverwriteIs(s, buf[..len], to, data);
  }

  method DoFillBlock(buf: array<Byte>, len: nat, to: nat, item: Byte, count: nat)
    requires to + count <= len <= buf.Length
    modifies buf
    ensures buf[..len] == Apply(Overwrite(to, Repeat(item, count)), old(buf[..len]))
  {
    hide Apply, Fits;
    ghost var s := buf[..len];
    MemSet(buf, to, item, count);
    OverwriteIs(s, buf[..len], to, Repeat(item, count));
  }

  method DoStore(buf: array<Byte>, len: nat, at: nat, data: seq<Byte>)
    requires at + |data| <= len <= buf.Length
    modifies buf
    ensures buf[..len] == Apply(Overwrite(at, data), old(buf[..len]))
  {
    hide Apply, Fits;
    ghost var s := buf[..len];
    CopyIn(buf, at, data);
    OverwriteIs(s, buf[..len], at, data);
  }

  /** Three copies, the first into the scratch buffer; the two blocks are apart. */
  method DoSwitch(buf: array<Byte>, tmp: array<Byte>, len: nat, from: nat, to: nat, count: nat)
    requires buf != tmp && from + count <= len <= buf.Length && to + count <= len && count <= tmp.Length
    requires from + count <= to || to + count <= from
    modifies buf, tmp
    ensures from <= to ==> buf[..len] == Apply(SwapBlocks(from, to, count), old(buf[..len]))
    ensures to < from ==> buf[..len] == Apply(SwapBlocks(to, from, count), old(buf[..len]))
  {
    hide Apply, Fits;
    ghost var s := buf[..len];
    ThreeCopies(buf, tmp, from, to, count);
    ghost var t := buf[..len];
    forall k {:trigger t[k]} | 0 <= k < len
      ensures t[k] == s[SwapOrigin(from, to, count, k)]
        && SwapOrigin(from, to, count, k) == SwapOrigin(to, from, count, k)
    {
      assert t[k] == buf[k];
    }
    if from <= to {
      SwapIs(s, t, from, to, count);
    } else {
      SwapIs(s, t, to, from, count);
    }
  }

  method ThreeCopies(buf: array<Byte>, tmp: array<Byte>, from: nat, to: nat, count: nat)
    requires buf != tmp && from + count <= buf.Length && to + count <= buf.Length && count <= tmp.Length
    requires from + count <= to || to + count <= from
    modifies buf, tmp
    ensures forall k {:trigger buf[k]} | 0 <= k < buf.Length :: buf[k] == old(buf[SwapOrigin(from, to, count, k)])
  {
    MemCpy(tmp, 0, buf, from, count);
    MemCpy(buf, from, buf, to, count);
    MemCpy(buf, to, tmp, 0, count);
  }

  method DoCut(buf: array<Byte>, len: nat, from: nat, count: nat) returns (now: nat)
    requires from + count <= len <= buf.Length
    modifies buf
    ensures now == len - count && buf[..now] == Apply(Delete(from, count), old(buf[..len]))
  {
    hide Apply, Fits;
    ghost var s := buf[..len];
    MemMove(buf, from, from + count, len - from - count);
    now := len - count;
    DeleteIs(s, buf[..now], from, count);
  }

  method DoPushIn(buf: array<Byte>, len: nat, at: nat, data: seq<Byte>) returns (now: nat)
    requires at <= len && len + |data| <= buf.Length
    modifies buf
    ensures now == len + |data| && buf[..now] == Apply(Insert(at, data), old(buf[..len]))
  {
    hide Apply, Fits;
    ghost var s := buf[..len];
    MemMove(buf, at + |data|, at, len - at);
    CopyIn(buf, at, data);
    now := len + |data|;
    ReplaceIs(s, buf[..now], at, at, data);
    InsertIsReplace(s, at, data);
  }

  lemma ShuffledStep(block: seq<Byte>, n: nat, js: seq<nat>)
    requires Partners(js, n) && n <= |block|
    ensures n == 1 ==> Shuffled(block, n, js) == block
    ensures n > 1 ==> Partners(js[1..], n - 1) && js[0] < n - 1
    ensures n > 1 ==> Shuffled(block, n, js) == Shuffled(Traded(block, n - 1, js[0]), n - 1, js[1..])
  {
  }

  /** The loop of MUT_SHUFFLE: from the last place of the block down, trade with the place drawn. */
  method DoShuffle(buf: array<Byte>, len: nat, off: nat, partners: seq<nat>)
    requires Partners(partners, |partners| + 1) && off + |partners| + 1 <= len <= buf.Length
    modifies buf
    ensures var e := Permute(off, Origins(|partners| + 1, partners));
      Fits(e, len) && buf[..len] == Apply(e, old(buf[..len]))
  {
    hide Shuffled, Traded, Partners, Apply, Fits, Origins;
    ghost var s, start, js := buf[..len], buf[off..off + |partners| + 1], partners;
    var blen := |partners| + 1;
    var i := blen - 1;
    while i > 0
      invariant 0 <= i <= blen - 1
      invariant js == partners[blen - 1 - i..] && Partners(js, i + 1)
      invariant Shuffled(buf[off..off + blen], i + 1, js) == Shuffled(start, blen, partners)
      invariant forall k {:trigger buf[k]} | 0 <= k < len && !(off <= k < off + blen) :: buf[k] == s[k]
    {
      ShuffledStep(buf[off..off + blen], i + 1, js);
      var j := partners[blen - 1 - i];
      js := js[1..];
      TradeOne(buf, off, blen, i, j);
      i := i - 1;
    }
    ShuffledStep(buf[off..off + blen], 1, js);
    ghost var t := buf[..len];
    assert t[off..off + blen] == buf[off..off + blen] && s[off..off + blen] == start;
    assert t[..off] == s[..off] && t[off + blen..] == s[off + blen..];
    ShuffledIs(start, blen, partners);
    BlockIs(start, t[off..off + blen], Origins(blen, partners));
    ShuffleFits(off, partners, len);
    PermuteIs(s, t, off, Origins(blen, partners));
  }

  method TradeOne(buf: array<Byte>, off: nat, blen: nat, i: nat, j: nat)
    requires off + blen <= buf.Length && i < blen && j < blen
    modifies buf
    ensures buf[off..off + blen] == Traded(old(buf[off..off + blen]), i, j)
    ensures forall k {:trigger buf[k]} | 0 <= k < buf.Length && !(off <= k < off + blen) :: buf[k] == old(buf[k])
  {
    var temp := buf[off + i];
    buf[off + i] := buf[off + j];
    buf[off + j] := temp;
  }
}
