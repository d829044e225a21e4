/**
 * The pool of scratch mount points of unionfs.c (mtptgrab, mtptfree): a
 * LIFO free list that hands back the most recently freed mount point and
 * otherwise makes a fresh "/mnt/mtpt<n>" with a counter n that only grows.
 */
module MountPoints {
  import opened Common

  /** The ASCII digit for `d`. */
  function Digit(d: nat): (r: Byte)
    requires d < 10
    ensures 0x30 <= r <= 0x39 && r as int - 0x30 == d
  {
    (0x30 + d) as Byte
  }

  /** The decimal form of `n` that %d prints, most significant digit first. */
  function Decimal(n: nat): (r: Str)
    ensures |r| >= 1 && (|r| == 1 <==> n < 10)
    ensures forall k :: 0 <= k < |r| ==> 0x30 <= r[k] <= 0x39
    decreases n
  {
    if n < 10 then [Digit(n)] else Decimal(n / 10) + [Digit(n % 10)]
  }

  /** Distinct numbers print differently. */
  lemma {:induction false} DecimalInjective(a: nat, b: nat)
    requires Decimal(a) == Decimal(b)
    ensures a == b
    decreases a
  {
    var r := Decimal(a);
    if a >= 10 {
      assert b >= 10;
      assert r[..|r| - 1] == Decimal(a / 10) && r[..|r| - 1] == Decimal(b / 10);
      DecimalInjective(a / 10, b / 10);
      assert r[|r| - 1] == Digit(a % 10) == Digit(b % 10);
    } else {
      assert b < 10;
      assert r[0] == Digit(a) == Digit(b);
    }
  }

  /** The literal "/mnt/mtpt". */
  const MtptPrefix: Str := [0x2F, 0x6D, 0x6E, 0x74, 0x2F, 0x6D, 0x74, 0x70, 0x74]

  /** The path of the n-th mount point made: smprint("/mnt/mtpt%d", n). */
  function MtptPath(n: nat): Str
  {
    MtptPrefix + Decimal(n)
  }

  /** Fresh mount points made with different counter values have different paths. */
  lemma MtptPathInjective(a: nat, b: nat)
    ensures MtptPath(a) == MtptPath(b) <==> a == b
  {
    if MtptPath(a) == MtptPath(b) {
      assert Decimal(a) == MtptPath(a)[|MtptPrefix|..];
      assert Decimal(b) == MtptPath(b)[|MtptPrefix|..];
      DecimalInjective(a, b);
    }
  }

  /**
   * A scratch mount point (struct Mtpt). Its `next` link is the order of
   * MtptPool.free.
   */
  class Mtpt {
    const path: Str

    constructor (p: Str)
      ensures path == p
    {
      path := p;
    }
  }

  /**
   * The pool: `free` is the list from the head `mtpt` along the next links,
   * `next` is mtptnext; `made` records every mount point ever allocated,
   * the k-th one with the path MtptPath(k).
   */
  class MtptPool {
    var free: seq<Mtpt>
    var next: nat
    ghost var made: seq<Mtpt>

    ghost predicate Valid()
      reads this
    {
      |made| == next &&
      (forall k :: 0 <= k < |made| ==> made[k].path == MtptPath(k)) &&
      (forall m :: m in free ==> m in made) &&
      (forall a, b :: 0 <= a < b < |free| ==> free[a] != free[b])
    }

    /** The pool at start-up: nothing free, nothing made. */
    constructor ()
      ensures Valid() && free == [] && next == 0 && made == []
    {
      free := [];
      next := 0;
      made := [];
    }

    /**
     * mtptgrab: pop the head of the free list; when it is empty, allocate
     * the mount point numbered by the counter first and bump the counter.
     * What it returns is no longer free.
     */
    method Grab() returns (m: Mtpt)
      requires Valid()
      modifies this
      ensures Valid() && m in made && m !in free
      ensures old(free) != [] ==>
                m == old(free)[0] && free == old(free)[1..] && next == old(next) && made == old(made)
      ensures old(free) == [] ==>
                fresh(m) && m.path == MtptPath(old(next)) && free == [] &&
                next == old(next) + 1 && made == old(made) + [m]
    {
      if free == [] {
        var n := new Mtpt(MtptPath(next));
        free := [n];
        next := next + 1;
        made := made + [n];
      }
      m := free[0];
      assert forall k :: 1 <= k < |free| ==> free[k] != m;
      free := free[1..];
    }

    /**
     * mtptfree: push `m` back on the head of the free list, so that the
     * next Grab returns it.
     */
    method Free(m: Mtpt)
      requires Valid() && m in made && m !in free
      modifies this
      ensures Valid() && free == [m] + old(free) && next == old(next) && made == old(made)
    {
      free := [m] + free;
    }
  }

  /** Mount points the pool made are told apart by their paths. */
  lemma MadeDistinct(pool: MtptPool, a: int, b: int)
    requires pool.Valid() && 0 <= a < b < |pool.made|
    ensures pool.made[a].path != pool.made[b].path
  {
    MtptPathInjective(a, b);
  }
}
