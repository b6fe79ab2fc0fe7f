/** The pure sequence edits that the havoc stage of afl-mutations.h comes down to. */
module HavocEdits {
  import opened Bytes

  datatype Edit =
    | Keep
    | Overwrite(at: nat, data: seq<Byte>)
    | Insert(at: nat, data: seq<Byte>)
    | Delete(at: nat, count: nat)
    | SwapBlocks(left: nat, right: nat, count: nat)
    | Permute(at: nat, origins: seq<nat>)
    | Replace(at: nat, until: nat, data: seq<Byte>)

  /** `origins` lists every number below its length once. */
  ghost predicate IsPermutation(origins: seq<nat>) {
    && (forall i | 0 <= i < |origins| :: origins[i] < |origins|)
    && (forall i, j | 0 <= i < j < |origins| :: origins[i] != origins[j])
  }

  /** The edit stays inside a buffer of `len` bytes. */
  ghost predicate Fits(e: Edit, len: nat) {
    match e
    case Keep => true
    case Overwrite(at, data) => at + |data| <= len
    case Insert(at, data) => at <= len
    case Delete(at, count) => at + count <= len
    case SwapBlocks(left, right, count) => left + count <= right && right + count <= len
    case Permute(at, origins) => at + |origins| <= len && IsPermutation(origins)
    case Replace(at, until, data) => at <= until <= len
  }

  function Glue3(a: seq<Byte>, b: seq<Byte>, c: seq<Byte>): (r: seq<Byte>)
    ensures |r| == |a| + |b| + |c|
  {
    a + b + c
  }

  function Glue5(a: seq<Byte>, b: seq<Byte>, c: seq<Byte>, d: seq<Byte>, e: seq<Byte>): (r: seq<Byte>)
    ensures |r| == |a| + |b| + |c| + |d| + |e|
  {
    a + b + c + d + e
  }

  function Apply(e: Edit, s: seq<Byte>): (r: seq<Byte>)
    requires Fits(e, |s|)
    ensures |r| == NewLength(e, |s|)
  {
    match e
    case Keep => s
    case Overwrite(at, data) => s[..at] + data + s[at + |data|..]
    case Insert(at, data) => s[..at] + data + s[at..]
    case Delete(at, count) => s[..at] + s[at + count..]
    case SwapBlocks(left, right, count) =>
      Glue5(s[..left], s[right..right + count], s[left + count..right], s[left..left + count], s[right + count..])
    case Permute(at, origins) => Glue3(s[..at], Permuted(s[at..at + |origins|], origins), s[at + |origins|..])
    case Replace(at, until, data) => s[..at] + data + s[until..]
  }

  /** The block whose place `i` holds what was at place `origins[i]`. */
  function Permuted<T>(block: seq<T>, origins: seq<nat>): (r: seq<T>)
    requires |block| == |origins| && forall i | 0 <= i < |origins| :: origins[i] < |origins|
    ensures |r| == |block| && forall i | 0 <= i < |r| :: r[i] == block[origins[i]]
  {
    seq(|block|, i requires 0 <= i < |block| => block[origins[i]])
  }

  function NewLength(e: Edit, len: nat): int {
    match e
    case Insert(_, data) => len + |data|
    case Delete(_, count) => len - count
    case Replace(at, until, data) => len - (until - at) + |data|
    case _ => len
  }

  /** One edit after the other; each has to fit, and to leave between 1 and `maxLen` bytes. */
  ghost predicate Legal(edits: seq<Edit>, s: seq<Byte>, maxLen: nat)
    decreases |edits|
  {
    edits == [] || (
      && Fits(edits[0], |s|) && 1 <= NewLength(edits[0], |s|) <= maxLen
      && Legal(edits[1..], Apply(edits[0], s), maxLen))
  }

  ghost function ApplyAll(edits: seq<Edit>, s: seq<Byte>, maxLen: nat): seq<Byte>
    requires Legal(edits, s, maxLen)
    decreases |edits|
  {
    if edits == [] then s else ApplyAll(edits[1..], Apply(edits[0], s), maxLen)
  }
}
