/**
 * qmap.c: encoding the key (Dir.type, Dir.dev, Dir.qid.path) of an
 * underlying file into the 64-bit Qid.path the union exports.
 *
 * Keys of device type 'M' whose device instance fits in 28 bits and whose
 * path fits in 35 bits are packed directly, with bit 63 clear. Every other
 * key is hash-consed in a table of 1024 bucket chains and receives the next
 * value of a global counter, with bit 63 set.
 *
 * Paths are unsigned 64-bit values held as integers. A bit field is then
 * its arithmetic equivalent: setting bit 63 of a value below 2^63 adds
 * 2^63, shifting left by 35 multiplies by 2^35, and or-ing fields whose bits
 * do not overlap adds them.
 *
 * Bucket is written as BucketAt(k, 1), where BucketAt(k, n) takes n
 * recursive steps before it reaches the hash. The verifier unfolds a
 * definition only a bounded number of times, so the proofs of the table's
 * methods see a bucket as an index below Qmapsize and no more; the lemma
 * BucketHash exposes the hash where a proof needs it.
 */
module QidMap {
  import opened Common

  const Qmapsize := 1024
  const MapBit := 63
  const DevBits := 28
  const PathBits := 35

  /** 1 << MapBit: bit 63, clear for directly encoded paths, set for table-mapped ones. */
  const MapFlag := 0x8000_0000_0000_0000
  /** 1 << DevBits: a device instance fits in DevBits bits when it is below this. */
  const DevLimit := 0x1000_0000
  /** 1 << PathBits: a path fits in PathBits bits when it is below this. */
  const PathLimit := 0x8_0000_0000

  /** The device type 'M' (devmnt). */
  const DevMnt: u16 := 0x4D

  /** The part of a Dir that identifies the underlying file. */
  datatype Key = Key(dtype: u16, dev: u32, path: u64)

  function KeyOf(d: Dir): Key
  {
    Key(d.dtype, d.dev, d.qid.path)
  }

  /** One table entry (struct Qmap); its `next` link is its place in the chain. */
  datatype Qmap = Qmap(key: Key, qpath: u64)

  /**
   * Whether qencode packs the key directly: type 'M', and no bit of dev
   * above the low 28 and no bit of path above the low 35 is set.
   */
  predicate DirectEligible(k: Key)
  {
    k.dtype == DevMnt && k.dev < DevLimit && k.path < PathLimit
  }

  /** Reading dev (bits 35..62) and path (bits 0..34) back out of a directly encoded path. */
  function DirectDecode(p: u64): Key
  {
    Key(DevMnt, (p / PathLimit) % DevLimit, p % PathLimit)
  }

  /**
   * The direct encoding 0 | (0 << MapBit) | (dev << (63 - DevBits)) | path:
   * dev in bits 35..62, path in bits 0..34, bit 63 clear. Decoding gives the
   * key back.
   */
  function DirectPath(k: Key): (r: u64)
    requires DirectEligible(k)
    ensures r < MapFlag
    ensures DirectDecode(r) == k
  {
    k.dev * PathLimit + k.path
  }

  /** Direct encoding is injective on eligible keys. */
  lemma DirectInjective(k1: Key, k2: Key)
    requires DirectEligible(k1) && DirectEligible(k2)
    requires DirectPath(k1) == DirectPath(k2)
    ensures k1 == k2
  {
  }

  /** The `n` bytes of an unsigned field, lowest first. */
  function FieldBytes(v: nat, n: nat): (r: seq<Byte>)
    ensures |r| == n
  {
    if n == 0 then [] else [(v % 0x100) as Byte] + FieldBytes(v / 0x100, n - 1)
  }

  /** The bytes qhash feeds to FNV-1a: type (2 bytes), dev (4), qid.path (8). */
  function KeyBytes(k: Key): seq<Byte>
  {
    FieldBytes(k.dtype, 2) + FieldBytes(k.dev, 4) + FieldBytes(k.path, 8)
  }

  /** qhash: FNV-1a over the bytes of type, then dev, then qid.path. */
  function QHash(k: Key): bv64
  {
    FnvFold(FnvBasis, KeyBytes(k))
  }

  /** The bucket a key lives in: qhash(d) % Qmapsize, kept one step from the hash (see above). */
  function Bucket(k: Key): (h: int)
    ensures 0 <= h < Qmapsize
  {
    BucketAt(k, 1)
  }

  /** qhash(d) % Qmapsize, reached after `n` steps of the device described above. */
  function BucketAt(k: Key, n: nat): (h: int)
    ensures 0 <= h < Qmapsize
  {
    if n == 0 then (QHash(k) % 1024) as int else BucketAt(k, n - 1)
  }

  /** The bucket is the hash modulo the table size. */
  lemma BucketHash(k: Key)
    ensures Bucket(k) == (QHash(k) % 1024) as int
  {
    assert BucketAt(k, 0) == (QHash(k) % 1024) as int;
  }

  /** One of qhash's loops: FNV-1a rounds over the bytes of one field. */
  method HashField(h0: bv64, key: seq<Byte>) returns (h: bv64)
    ensures h == FnvFold(h0, key)
  {
    h := h0;
    for i := 0 to |key|
      invariant FnvFold(h, key[i..]) == FnvFold(h0, key)
    {
      assert key[i..][1..] == key[i + 1..];
      h := FnvStep(h, key[i]);
    }
  }

  /** qhash: the loop over type's bytes, then dev's, then qid.path's. */
  method ComputeQHash(k: Key) returns (h: bv64)
    ensures h == QHash(k)
  {
    var tb, db, pb := FieldBytes(k.dtype, 2), FieldBytes(k.dev, 4), FieldBytes(k.path, 8);
    h := HashField(FnvBasis, tb);
    h := HashField(h, db);
    h := HashField(h, pb);
    FnvFoldAppend(FnvBasis, tb, db);
    FnvFoldAppend(FnvBasis, tb + db, pb);
  }

  /** h = qhash(d) % Qmapsize: the chain qencode searches for `k`. */
  method ChainIndex(k: Key) returns (h: int)
    ensures h == Bucket(k)
  {
    var hash := ComputeQHash(k);
    h := (hash % 1024) as int;
    BucketHash(k);
  }

  /** The path stored with the first entry of `chain` whose key is `k`, if any. */
  function Find(chain: seq<Qmap>, k: Key): Option<u64>
  {
    if chain == [] then None
    else if chain[0].key == k then Some(chain[0].qpath)
    else Find(chain[1..], k)
  }

  /** The lookup misses exactly when no entry of the chain has the key. */
  lemma {:induction false} FindNone(chain: seq<Qmap>, k: Key)
    ensures Find(chain, k).None? <==> forall i :: 0 <= i < |chain| ==> chain[i].key != k
  {
    if chain != [] {
      FindNone(chain[1..], k);
      assert forall i :: 1 <= i < |chain| ==> chain[i] == chain[1..][i - 1];
    }
  }

  /** A hit comes from an entry of the chain. */
  lemma {:induction false} FindSome(chain: seq<Qmap>, k: Key)
    requires Find(chain, k).Some?
    ensures exists i :: 0 <= i < |chain| && chain[i].key == k && chain[i].qpath == Find(chain, k).value
  {
    if chain[0].key != k {
      FindSome(chain[1..], k);
      var i :| 0 <= i < |chain[1..]| && chain[1..][i].key == k && chain[1..][i].qpath == Find(chain[1..], k).value;
      assert chain[i + 1] == chain[1..][i];
    }
  }

  /** The lookup returns the path of the first entry carrying the key. */
  lemma {:induction false} FindFirst(chain: seq<Qmap>, k: Key, i: int)
    requires 0 <= i < |chain| && chain[i].key == k
    requires forall j :: 0 <= j < i ==> chain[j].key != k
    ensures Find(chain, k) == Some(chain[i].qpath)
  {
    if i > 0 {
      FindFirst(chain[1..], k, i - 1);
    }
  }

  /** A table-mapped path: bit 63 set. */
  predicate Flagged(p: u64)
  {
    p >= MapFlag
  }

  /** (1 << MapBit) | c: the path qencode gives the key it numbers `c`. */
  function Tagged(c: u64): (p: u64)
    ensures Flagged(p)
  {
    MapFlag + c % MapFlag
  }

  /** qpath++ on a 64-bit counter. */
  function Next(c: u64): u64
  {
    (c + 1) % 0x1_0000_0000_0000_0000
  }

  /**
   * The table invariant over the bucket chains `b`: every entry sits in the
   * chain its hash selects and carries bit 63, no chain holds a key twice,
   * and the lookup of every key gives what the map `m` gives.
   */
  ghost predicate ChainsHold(b: seq<seq<Qmap>>, m: map<Key, u64>)
  {
    |b| == Qmapsize &&
    (forall h, i :: 0 <= h < Qmapsize && 0 <= i < |b[h]| ==> Bucket(b[h][i].key) == h && Flagged(b[h][i].qpath)) &&
    (forall h, i, j :: 0 <= h < Qmapsize && 0 <= i < j < |b[h]| ==> b[h][i].key != b[h][j].key) &&
    (forall k :: Find(b[Bucket(k)], k) == (if k in m then Some(m[k]) else None))
  }

  /** Distinct keys own distinct paths, each 2^63 plus a number below `c`. */
  ghost predicate UniqueBelow(m: map<Key, u64>, c: u64)
  {
    (forall k :: k in m ==> MapFlag <= m[k] < MapFlag + c) &&
    (forall k1, k2 :: k1 in m && k2 in m && k1 != k2 ==> m[k1] != m[k2])
  }

  /** Pushing a new key on a chain changes the lookup of that key alone. */
  lemma InsertKeepsFind(chain: seq<Qmap>, entry: Qmap)
    requires Find(chain, entry.key).None?
    ensures forall k :: Find([entry] + chain, k) == if k == entry.key then Some(entry.qpath) else Find(chain, k)
  {
    assert ([entry] + chain)[1..] == chain;
  }

  /** Head insertion of an absent key into its own chain keeps the table invariant. */
  lemma InsertKeepsChains(b: seq<seq<Qmap>>, m: map<Key, u64>, entry: Qmap)
    requires ChainsHold(b, m) && entry.key !in m && Flagged(entry.qpath)
    ensures ChainsHold(b[Bucket(entry.key) := [entry] + b[Bucket(entry.key)]], m[entry.key := entry.qpath])
  {
    var h := Bucket(entry.key);
    var chain := b[h];
    var b': seq<seq<Qmap>> := b[h := [entry] + chain];
    var m' := m[entry.key := entry.qpath];
    FindNone(chain, entry.key);
    InsertKeepsFind(chain, entry);
    forall i: int | 0 <= i < |b'[h]|
      ensures Bucket(b'[h][i].key) == h && Flagged(b'[h][i].qpath)
    {
      if i > 0 { assert b'[h][i] == chain[i - 1]; }
    }
    forall i: int, j: int | 0 <= i < j < |b'[h]|
      ensures b'[h][i].key != b'[h][j].key
    {
      assert b'[h][j] == chain[j - 1];
      if i > 0 { assert b'[h][i] == chain[i - 1]; }
    }
  }

  /** Numbering a new key with a counter below 2^63 keeps paths distinct. */
  lemma InsertKeepsUnique(m: map<Key, u64>, c: u64, key: Key)
    requires UniqueBelow(m, c) && key !in m && c < MapFlag
    ensures UniqueBelow(m[key := Tagged(c)], Next(c))
  {
  }

  /**
   * The global map: the bucket array `qidmap` and the static counter
   * `qpath`. The ghost map `mapped` is the table's content as a function
   * from keys to exported paths.
   */
  class QidTable {
    const buckets: array<seq<Qmap>>
    var counter: u64
    ghost var mapped: map<Key, u64>

    ghost predicate Valid()
      reads this, buckets
    {
      buckets.Length == Qmapsize && ChainsHold(buckets[..], mapped)
    }

    /** Distinct keys own distinct paths, all drawn below the counter. */
    ghost predicate Unique()
      reads this
    {
      UniqueBelow(mapped, counter)
    }

    /** The exported path `p` is the one qencode gives for key `k` in this state. */
    ghost predicate Assigned(k: Key, p: u64)
      reads this
    {
      if DirectEligible(k) then p == DirectPath(k) else k in mapped && mapped[k] == p
    }

    constructor ()
      ensures Valid() && Unique()
      ensures counter == 0 && mapped == map[]
      ensures fresh(buckets) && forall h :: 0 <= h < Qmapsize ==> buckets[h] == []
    {
      buckets := new seq<Qmap>[Qmapsize](_ => []);
      counter := 0;
      mapped := map[];
      new;
      forall k ensures Find(buckets[..][Bucket(k)], k) == None {
        assert buckets[..][Bucket(k)] == [];
      }
    }

    /**
     * qencode: the exported Qid of the file described by `d`. Only the path
     * is rewritten; version and type are copied.
     */
    method Encode(d: Dir) returns (q: Qid)
      requires Valid()
      modifies this, buckets
      ensures Valid()
      ensures q.vers == d.qid.vers && q.qtype == d.qid.qtype
      ensures Assigned(KeyOf(d), q.path)
      // idempotence: a key that already has a path gets that path back
      ensures forall p :: old(Assigned(KeyOf(d), p)) ==> q.path == p
      // no key ever loses its path
      ensures forall k, p :: old(Assigned(k, p)) ==> Assigned(k, p)
      ensures DirectEligible(KeyOf(d)) ==>
                q.path == DirectPath(KeyOf(d)) && counter == old(counter) &&
                buckets[..] == old(buckets[..]) && mapped == old(mapped)
      ensures !DirectEligible(KeyOf(d)) ==> Flagged(q.path)
      ensures !DirectEligible(KeyOf(d)) && old(Find(buckets[Bucket(KeyOf(d))], KeyOf(d))).Some? ==>
                q.path == old(Find(buckets[Bucket(KeyOf(d))], KeyOf(d))).value &&
                counter == old(counter) && buckets[..] == old(buckets[..]) && mapped == old(mapped)
      ensures !DirectEligible(KeyOf(d)) && old(Find(buckets[Bucket(KeyOf(d))], KeyOf(d))).None? ==>
                q.path == Tagged(old(counter)) && counter == Next(old(counter)) &&
                buckets[..] == old(buckets[..])[Bucket(KeyOf(d)) := [Qmap(KeyOf(d), q.path)] + old(buckets[Bucket(KeyOf(d))])] &&
                mapped == old(mapped)[KeyOf(d) := q.path]
      // below 2^63 the counter keeps table-mapped paths distinct
      ensures old(Unique()) && old(counter) < MapFlag ==> Unique()
    {
      var key := KeyOf(d);
      q := Qid(0, d.qid.vers, d.qid.qtype);
      if DirectEligible(key) {
        q := q.(path := DirectPath(key));
        return;
      }
      var h := ChainIndex(key);
      assert buckets[..][h] == buckets[h];
      var chain := buckets[h];
      var i := 0;
      while i < |chain|
        invariant 0 <= i <= |chain|
        invariant forall j :: 0 <= j < i ==> chain[j].key != key
      {
        if chain[i].key == key {
          FindFirst(chain, key, i);
          q := q.(path := chain[i].qpath);
          return;
        }
        i := i + 1;
      }
      FindNone(chain, key);
      var entry := Qmap(key, Tagged(counter));
      ghost var c0 := counter;
      counter := Next(counter);
      buckets[h] := [entry] + chain;
      InsertKeepsChains(old(buckets[..]), mapped, entry);
      if UniqueBelow(mapped, c0) && c0 < MapFlag {
        InsertKeepsUnique(mapped, c0, key);
      }
      mapped := mapped[key := entry.qpath];
      q := q.(path := entry.qpath);
    }
  }

  /** Table-mapped paths have bit 63 set, so no direct path equals one. */
  lemma DisjointSpaces(t: QidTable, k1: Key, k2: Key)
    requires t.Valid()
    requires DirectEligible(k1) && !DirectEligible(k2) && k2 in t.mapped
    ensures DirectPath(k1) != t.mapped[k2]
  {
    assert Find(t.buckets[..][Bucket(k2)], k2) == Some(t.mapped[k2]);
    FindSome(t.buckets[..][Bucket(k2)], k2);
  }

  /** Collision freedom: two different keys never share an exported path. */
  lemma CollisionFree(t: QidTable, k1: Key, k2: Key, p1: u64, p2: u64)
    requires t.Valid() && t.Unique()
    requires t.Assigned(k1, p1) && t.Assigned(k2, p2) && k1 != k2
    ensures p1 != p2
  {
    if DirectEligible(k1) && DirectEligible(k2) {
      if p1 == p2 { DirectInjective(k1, k2); }
    } else if DirectEligible(k1) {
      DisjointSpaces(t, k1, k2);
    } else if DirectEligible(k2) {
      DisjointSpaces(t, k2, k1);
    }
  }
}
