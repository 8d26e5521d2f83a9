/** Vocabulary shared by the device model: addresses, stored bytes, errors and results. */
module Types {

  /** A device address; the null pointer is address zero. */
  type DevAddr = nat

  const NULL: DevAddr := 0

  /** First address handed out by a freshly reset allocator (handle.hpp). */
  const HBM_BASE: nat := 0x4000000000

  /** "Modulus unknown" marker, the copy sentinel of the recorded instructions. */
  const COPY_MODULUS: nat := 0xFFFFFFFFFFFFFFFF

  const TWO_64: nat := 0x1_0000_0000_0000_0000

  /** Largest number of residues a batched allocation may ask for. */
  const MAX_CIPHERTEXT_MODULI: nat := 64

  newtype byte = x: int | 0 <= x < 256

  /** The raw storage of one polynomial: ring_dim 64-bit limbs, eight bytes each. */
  type Bytes = seq<byte>

  datatype Error =
    | InvalidArgument
    | NotConfigured
    | UnknownAddress
    | NoData
    | AllocTooSmall
    | BackendReplayFailed
    | MrpGroupAddrModuliMismatch
    | MissingPolyMapBinding
    | ShadowSizeMismatch
    | BackendOutputMissing
    | BackendOutputDecodeFailed
    | BridgeHookFailed
    | PoolMapDesync
    | SourceUnavailable
    | OutputNotFlushed
    | UnsupportedDataFormat

  datatype Result<+T> = Ok(value: T) | Err(error: Error)

  /** Result of an operation that returns nothing but may fail. */
  datatype Status = Success | Failure(error: Error)

  /** A pointer argument: null, or what it points to. */
  datatype Pointer<+T> = Null | To(target: T)

  function Zeros(n: nat): (z: Bytes)
    ensures |z| == n && forall i :: 0 <= i < n ==> z[i] == 0
  {
    seq(n, _ => 0 as byte)
  }

  /** `data` written over the front of a buffer; the tail keeps what was there. */
  function Overlay(data: Bytes, buffer: Bytes): (r: Bytes)
    requires |data| <= |buffer|
    ensures |r| == |buffer|
  {
    data + buffer[|data|..]
  }

  /** The n bytes stored for `v`: cut off or padded with zeros to exactly n. */
  function Fit(v: Bytes, n: nat): (r: Bytes)
    ensures |r| == n
    ensures |v| == n ==> r == v
    ensures forall i :: 0 <= i < n ==> r[i] == if i < |v| then v[i] else 0
  {
    if |v| >= n then v[..n] else v + Zeros(n - |v|)
  }

  function ToSet<T(!new, ==)>(s: seq<T>): (r: set<T>)
    ensures forall x :: x in r <==> x in s
  {
    set x | x in s
  }

  ghost predicate Distinct<T>(s: seq<T>) {
    forall i, j :: 0 <= i < j < |s| ==> s[i] != s[j]
  }

  lemma ConcatAssociative<T>(s: seq<T>, t: seq<T>, u: seq<T>)
    ensures (s + t) + u == s + (t + u)
  {
  }

  lemma EmptyConcat<T>(s: seq<T>)
    ensures [] + s == s
  {
  }

  lemma ToSetSnoc<T(!new)>(s: seq<T>, x: T)
    ensures ToSet(s + [x]) == {x} + ToSet(s)
  {
  }

  lemma UnionAssociative<T>(s: set<T>, t: set<T>, u: set<T>)
    ensures (s + t) + u == s + (t + u)
  {
  }
}
