/**
 * Values shared by the qid encoder, the name deduplicator and the union
 * resolver: C strings as byte sequences, Plan 9's Qid and Dir records, and
 * the 64-bit FNV-1a fold that both hash functions of the server use.
 */
module Common {

  /** A byte of a C string. */
  type Byte = bv8

  /** A C string without its terminating NUL. */
  type Str = seq<Byte>

  /** The NUL byte, which ends every C string in memory. */
  const Nul: Byte := 0

  /** The path separator '/'. */
  const Slash: Byte := 0x2F

  /** True of a string that a C string can hold: no NUL inside it. */
  predicate NoNul(s: Str)
  {
    forall i :: 0 <= i < |s| ==> s[i] != Nul
  }

  datatype Option<+T> = None | Some(value: T)

  /** C's unsigned integer types, as the ranges of values they hold. */
  type u8 = x: int | 0 <= x < 0x100
  type u16 = x: int | 0 <= x < 0x1_0000
  type u32 = x: int | 0 <= x < 0x1_0000_0000
  type u64 = x: int | 0 <= x < 0x1_0000_0000_0000_0000

  /** Plan 9's Qid: a 64-bit path, a 32-bit version and an 8-bit type. */
  datatype Qid = Qid(path: u64, vers: u32, qtype: u8)

  /**
   * Plan 9's Dir (the metadata dirstat returns). `dtype` is Dir.type, the
   * kernel device type (a ushort); `dev` is the device instance (a uint).
   */
  datatype Dir = Dir(
    dtype: u16,
    dev: u32,
    qid: Qid,
    mode: u32,
    atime: u32,
    mtime: u32,
    length: u64,
    name: Str,
    uid: Str,
    gid: Str,
    muid: Str)

  /** The all-zero Dir that emalloc hands out. */
  const ZeroDir := Dir(0, 0, Qid(0, 0, 0), 0, 0, 0, 0, [], [], [], [])

  const FnvBasis: bv64 := 14695981039346656037
  const FnvPrime: bv64 := 1099511628211

  /** One FNV-1a round: xor the byte in, then multiply (modulo 2^64). */
  function FnvStep(h: bv64, b: Byte): bv64
  {
    (h ^ b as bv64) * FnvPrime
  }

  /** FNV-1a rounds over `bytes`, first byte first, starting from `h`. */
  function FnvFold(h: bv64, bytes: seq<Byte>): bv64
    decreases |bytes|
  {
    if bytes == [] then h else FnvFold(FnvStep(h, bytes[0]), bytes[1..])
  }

  /** Folding two byte runs one after the other is folding their concatenation. */
  lemma {:induction false} FnvFoldAppend(h: bv64, a: seq<Byte>, b: seq<Byte>)
    ensures FnvFold(h, a + b) == FnvFold(FnvFold(h, a), b)
    decreases |a|
  {
    if a == [] {
      assert a + b == b;
    } else {
      assert (a + b)[1..] == a[1..] + b;
      FnvFoldAppend(FnvStep(h, a[0]), a[1..], b);
    }
  }
}
