/** The packed trace files of afl-cmin.py: fixed-width little-endian items, appended and read back by position. */
module CminPack {
  import opened Bytes
  import opened Wrappers

  type Trace = seq<nat>

  function Pow256(k: nat): (p: nat)
    ensures p > 0
  {
    if k == 0 then 1 else 256 * Pow256(k - 1)
  }

  /** One item of `array.tofile`: `k` bytes, least significant first. */
  function EncodeItem(t: nat, k: nat): (bytes: seq<Byte>)
    ensures |bytes| == k
  {
    if k == 0 then [] else [t % 256] + EncodeItem(t / 256, k - 1)
  }

  function DecodeItem(bytes: seq<Byte>): nat {
    if bytes == [] then 0 else bytes[0] + 256 * DecodeItem(bytes[1..])
  }

  lemma {:induction false} ItemReadBack(t: nat, k: nat)
    requires t < Pow256(k)
    ensures DecodeItem(EncodeItem(t, k)) == t
    decreases k
  {
    if k > 0 {
      var bytes := EncodeItem(t, k);
      assert bytes[1..] == EncodeItem(t / 256, k - 1);
      ItemReadBack(t / 256, k - 1);
    }
  }

  /** `array.tofile` */
  function Encode(trace: Trace, k: nat): (bytes: seq<Byte>)
    ensures |bytes| == |trace| * k
  {
    if trace == [] then [] else EncodeItem(trace[0], k) + Encode(trace[1..], k)
  }

  /** `array.fromfile` of `count` items; the bytes have to be there. */
  function Decode(bytes: seq<Byte>, count: nat, k: nat): (trace: Trace)
    requires count * k <= |bytes|
    ensures |trace| == count
    decreases count
  {
    if count == 0 then []
    else [DecodeItem(bytes[..k])] + Decode(bytes[k..], count - 1, k)
  }

  /** `seek(pos)` and `fromfile`: None when the file ends too early. */
  function ReadAt(pack: seq<Byte>, pos: nat, count: nat, k: nat): Option<Trace> {
    if pos + count * k <= |pack| then Some(Decode(pack[pos..], count, k)) else None
  }

  lemma DecodeJoin(item: seq<Byte>, more: seq<Byte>, count: nat, k: nat)
    requires |item| == k && count * k <= |more|
    ensures (count + 1) * k <= |item + more|
    ensures Decode(item + more, count + 1, k) == [DecodeItem(item)] + Decode(more, count, k)
  {
    hide DecodeItem;
    assert (count + 1) * k == k + count * k;
    assert (item + more)[..k] == item && (item + more)[k..] == more;
  }

  lemma EncodeJoin(trace: Trace, k: nat, rest: seq<Byte>)
    requires trace != []
    ensures Encode(trace, k) + rest == EncodeItem(trace[0], k) + (Encode(trace[1..], k) + rest)
  {
    hide EncodeItem;
  }

  lemma {:induction false} DecodeEncoded(trace: Trace, k: nat, rest: seq<Byte>)
    requires forall i | 0 <= i < |trace| :: trace[i] < Pow256(k)
    ensures Decode(Encode(trace, k) + rest, |trace|, k) == trace
    decreases |trace|
  {
    if trace != [] {
      hide Encode, EncodeItem, DecodeItem, Pow256, Decode;
      var tail := trace[1..];
      EncodeJoin(trace, k, rest);
      ItemReadBack(trace[0], k);
      DecodeEncoded(tail, k, rest);
      DecodeJoin(EncodeItem(trace[0], k), Encode(tail, k) + rest, |tail|, k);
      assert trace == [trace[0]] + tail;
    }
  }

  /** Whatever was written before and after, a trace reads back at the position it was appended at. */
  lemma ReadBack(before: seq<Byte>, trace: Trace, k: nat, rest: seq<Byte>)
    requires forall i | 0 <= i < |trace| :: trace[i] < Pow256(k)
    ensures ReadAt(before + Encode(trace, k) + rest, |before|, |trace|, k) == Some(trace)
  {
    var pack := before + Encode(trace, k) + rest;
    assert pack[|before|..] == Encode(trace, k) + rest;
    DecodeEncoded(trace, k, rest);
  }

  /** What reads back now reads back after more was appended. */
  lemma ReadAtGrows(pack: seq<Byte>, more: seq<Byte>, pos: nat, count: nat, k: nat)
    requires ReadAt(pack, pos, count, k).Some?
    ensures ReadAt(pack + more, pos, count, k) == ReadAt(pack, pos, count, k)
  {
    assert (pack + more)[pos..] == pack[pos..] + more;
    DecodeGrows(pack[pos..], more, count, k);
  }

  lemma {:induction false} DecodeGrows(bytes: seq<Byte>, more: seq<Byte>, count: nat, k: nat)
    requires count * k <= |bytes|
    ensures Decode(bytes + more, count, k) == Decode(bytes, count, k)
    decreases count
  {
    if count > 0 {
      assert k <= count * k;
      assert (bytes + more)[..k] == bytes[..k];
      assert (bytes + more)[k..] == bytes[k..] + more;
      assert (count - 1) * k == count * k - k;
      DecodeGrows(bytes[k..], more, count - 1, k);
    }
  }

  // ---------------------------------------------------------------- tuple encoding and item width

  /** How a map line `edge * 1000 + hits` becomes a tuple number. */
  function TupleOf(value: nat): nat {
    (value / 1000) * 9 + value % 1000
  }

  /** Tuples stay below nine times the map size and do not collide, given at most eight hit classes. */
  lemma TupleOfFits(edge: nat, hits: nat, edge': nat, hits': nat, mapSize: nat)
    requires edge < mapSize && edge' < mapSize && hits < 9 && hits' < 9
    ensures TupleOf(edge * 1000 + hits) < 9 * mapSize
    ensures TupleOf(edge * 1000 + hits) == TupleOf(edge' * 1000 + hits') ==> edge == edge' && hits == hits'
  {
    assert (edge * 1000 + hits) / 1000 == edge && (edge' * 1000 + hits') / 1000 == edge';
    assert TupleOf(edge * 1000 + hits) == edge * 9 + hits;
    assert TupleOf(edge' * 1000 + hits') == edge' * 9 + hits';
  }

  /** Item sizes of the type codes B, H, I, L, Q; that of L differs between platforms. */
  function ItemSizes(long: nat): (sizes: seq<nat>)
    ensures |sizes| == 5
  {
    [1, 2, 4, long, 8]
  }

  /** `detect_type_code`: the first item size whose range exceeds `size`. */
  method DetectItemSize(size: nat, long: nat) returns (k: Option<nat>)
    requires long == 4 || long == 8
    ensures k.Some? ==> size < Pow256(k.value) && k.value in {1, 2, 4, 8}
    ensures k.Some? ==> forall j | j in {1, 2, 4, 8} && j < k.value :: Pow256(j) <= size
    ensures k.None? <==> Pow256(8) <= size
  {
    var sizes := ItemSizes(long);
    var i := 0;
    while i < 5
      invariant 0 <= i <= 5
      invariant forall j | 0 <= j < i :: Pow256(sizes[j]) <= size
    {
      assert sizes[i] in {1, 2, 4, 8};
      if size < Pow256(sizes[i]) {
        WidthsOrdered(size, long, i);
        return Some(sizes[i]);
      }
      i := i + 1;
    }
    assert sizes[4] == 8;
    return None;
  }

  lemma WidthsOrdered(size: nat, long: nat, i: nat)
    requires (long == 4 || long == 8) && i < 5 && size < Pow256(ItemSizes(long)[i])
    requires forall j | 0 <= j < i :: Pow256(ItemSizes(long)[j]) <= size
    ensures forall j | j in {1, 2, 4, 8} && j < ItemSizes(long)[i] :: Pow256(j) <= size
    ensures size < Pow256(8)
  {
    var sizes := ItemSizes(long);
    PowGrows(sizes[i], 8);
    forall j | j in {1, 2, 4, 8} && j < sizes[i]
      ensures Pow256(j) <= size
    {
      if j == 1 {
        assert Pow256(sizes[0]) <= size;
      } else if j == 2 {
        assert Pow256(sizes[1]) <= size;
      } else {
        assert Pow256(sizes[2]) <= size;
      }
    }
  }

  lemma {:induction false} PowGrows(a: nat, b: nat)
    requires a <= b
    ensures Pow256(a) <= Pow256(b)
    decreases b - a
  {
    if a < b {
      PowGrows(a, b - 1);
    }
  }
}
