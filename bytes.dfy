/** Bytes, 32-byte public keys and an Option type shared by the on-chain
    program model and the client model. */
module Bytes {

  /** One octet of an account buffer or of instruction data. */
  type byte = x: int | 0 <= x < 256

  /** Size of a public key (`PubkeyData = [u8; 32]`). */
  const KEY_SIZE: nat := 32

  /** A public key: exactly 32 bytes. */
  type Key = k: seq<byte> | |k| == KEY_SIZE witness seq(32, _ => 0)

  /** `n` zero bytes. */
  function Zeros(n: nat): (z: seq<byte>)
    ensures |z| == n
    ensures forall i :: 0 <= i < n ==> z[i] == 0
  {
    seq(n, _ => 0)
  }

  /** The all-zero key, `new PublicKey(0)` on the client and `[0; 32]` on chain:
      the end-of-feed sentinel. */
  const ZERO_KEY: Key := Zeros(KEY_SIZE)

  /** The first position at which `b` holds a zero byte at or after `from`,
      or `|b|` when there is none. */
  function IndexOfZero(b: seq<byte>, from: nat): (i: nat)
    requires from <= |b|
    ensures from <= i <= |b|
    ensures forall j :: from <= j < i ==> b[j] != 0
    ensures i < |b| ==> b[i] == 0
    decreases |b| - from
  {
    if from == |b| || b[from] == 0 then from else IndexOfZero(b, from + 1)
  }

  /** `IndexOfZero` is determined by its contract. */
  lemma {:induction false} IndexOfZeroUnique(b: seq<byte>, from: nat, i: nat)
    requires from <= i <= |b|
    requires forall j :: from <= j < i ==> b[j] != 0
    requires i < |b| ==> b[i] == 0
    ensures IndexOfZero(b, from) == i
    decreases |b| - from
  {
    if from < i {
      IndexOfZeroUnique(b, from + 1, i);
    }
  }

  /** Skipping `w` bytes that hold no zero shifts the first zero by `w`. */
  lemma IndexOfZeroShift(b: seq<byte>, w: nat)
    requires w <= IndexOfZero(b, 0)
    ensures IndexOfZero(b[w..], 0) == IndexOfZero(b, 0) - w
  {
    var k := IndexOfZero(b, 0);
    IndexOfZeroUnique(b[w..], 0, k - w);
  }

  /** Searching from `from` is searching the suffix that starts there, and
      the bytes before the zero are the same either way. */
  lemma IndexOfZeroFrom(b: seq<byte>, from: nat)
    requires from <= |b|
    ensures IndexOfZero(b, from) == from + IndexOfZero(b[from..], 0)
    ensures b[from..IndexOfZero(b, from)] == b[from..][..IndexOfZero(b[from..], 0)]
  {
    IndexOfZeroUnique(b, from, from + IndexOfZero(b[from..], 0));
    SliceOfSuffix(b, from, IndexOfZero(b, from));
  }

  /** A slice is a prefix of the suffix it starts. */
  lemma SliceOfSuffix<T>(b: seq<T>, from: nat, to: nat)
    requires from <= to <= |b|
    ensures b[from..to] == b[from..][..to - from]
  {
  }

  datatype Option<+T> = None | Some(value: T)
}
