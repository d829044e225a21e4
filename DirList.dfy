/**
 * dirlist.c: the listing of a union directory. The kernel has already
 * concatenated the branch directories in branch order; `dirlist` reads that
 * combined entry sequence and keeps the first entry of every name, in
 * order. Names already met are remembered in `seen`, an open-addressing
 * string set with wrapping linear probing that doubles and rehashes once
 * more than half of its slots are taken.
 */
module DirList {
  import opened Common

  /** The slots of the `seen` table: a stored name, or nil. */
  type Slots = seq<Option<Str>>

  /**
   * A char as `h ^= *s` sees it: Plan 9's char is signed, so bytes from
   * 0x80 up are sign-extended to 64 bits.
   */
  function Widen(c: Byte): bv64
  {
    if c < 0x80 then c as bv64 else c as bv64 | 0xFFFF_FFFF_FFFF_FF00
  }

  /** One round of dirlist.c's hash: xor the widened char in, then multiply. */
  function NameStep(h: bv64, c: Byte): bv64
  {
    (h ^ Widen(c)) * FnvPrime
  }

  /** NameStep over `cs`, first char first, starting from `h`. */
  function NameFold(h: bv64, cs: seq<Byte>): bv64
    decreases |cs|
  {
    if cs == [] then h else NameFold(NameStep(h, cs[0]), cs[1..])
  }

  /**
   * hash(s): the loop tests s[k] and then xors s[k+1], so it folds every
   * byte after the first, followed by the terminating NUL. An empty name
   * hashes to the FNV basis.
   */
  function Hash(s: Str): bv64
  {
    NameFold(FnvBasis, (s + [Nul])[1..])
  }

  /** The first byte of a name never reaches the hash. */
  lemma FirstByteIgnored(s: Str, t: Str)
    requires |s| == |t| > 0 && s[1..] == t[1..]
    ensures Hash(s) == Hash(t)
  {
    assert (s + [Nul])[1..] == s[1..] + [Nul];
    assert (t + [Nul])[1..] == t[1..] + [Nul];
  }

  /** hash: walks the NUL-terminated string `s` in memory with `while(*s++)`. */
  method ComputeHash(s: Str) returns (h: bv64)
    requires NoNul(s)
    ensures h == Hash(s)
  {
    var mem := s + [Nul];
    h := FnvBasis;
    var k := 0;
    while mem[k] != Nul
      invariant 0 <= k <= |s|
      invariant NameFold(h, mem[k + 1..]) == Hash(s)
      decreases |s| - k
    {
      k := k + 1;
      assert mem[k..][1..] == mem[k + 1..];
      h := NameStep(h, mem[k]);
    }
  }

  /** The probe start of `name` in a table of `m` slots: hash(name) % mseen. */
  function Home(name: Str, m: nat): (p: int)
    requires m > 0
    ensures 0 <= p < m
  {
    (Hash(name) as int) % m
  }

  /**
   * Slot `q` lies on the wrapping probe run that starts at `a` and stops
   * just before `e` (all three being slot indices).
   */
  predicate OnRun(a: int, e: int, q: int)
  {
    if a <= e then a <= q < e else a <= q || q < e
  }

  /** The number of probe steps from `p` to `e` in a table of `m` slots. */
  function RunLength(p: int, e: int, m: int): int
  {
    if p <= e then e - p else m - p + e
  }

  /** probe = (probe + 1) % mseen: one step of the wrapping probe. */
  lemma WrapNext(p: int, m: int)
    requires 0 <= p < m
    ensures (p + 1) % m == if p + 1 == m then 0 else p + 1
  {
  }

  /** The indices of the taken slots. */
  function Taken(s: Slots): set<int>
  {
    set i | 0 <= i < |s| && s[i].Some?
  }

  /** The names stored in the slots. */
  function Names(s: Slots): set<Str>
  {
    set i | 0 <= i < |s| && s[i].Some? :: s[i].value
  }

  /** Stored names are C strings. */
  ghost predicate StoredNoNul(s: Slots)
  {
    forall j :: 0 <= j < |s| && s[j].Some? ==> NoNul(s[j].value)
  }

  /** No name is stored twice. */
  ghost predicate Distinct(s: Slots)
  {
    forall i, j :: 0 <= i < j < |s| && s[i].Some? && s[j].Some? ==> s[i].value != s[j].value
  }

  /**
   * Every slot on the probe run from a name's home up to its own slot is
   * taken, so the probe for that name cannot stop before reaching it.
   */
  ghost predicate RunsTaken(s: Slots)
  {
    forall j, q :: 0 <= j < |s| && s[j].Some? && 0 <= q < |s| && OnRun(Home(s[j].value, |s|), j, q) ==> s[q].Some?
  }

  /** The table layout: StoredNoNul, Distinct and RunsTaken. */
  ghost predicate Layout(s: Slots)
  {
    StoredNoNul(s) && Distinct(s) && RunsTaken(s)
  }

  /**
   * `p` is where the probe for a name with home `a` stops: the first free
   * slot on the wrapping run from `a`.
   */
  ghost predicate FirstFree(s: Slots, a: int, p: int)
  {
    0 <= p < |s| && s[p].None? && forall q :: 0 <= q < |s| && OnRun(a, p, q) ==> s[q].Some?
  }

  /** A subset has no more elements than its superset. */
  lemma SubsetSize(a: set<int>, b: set<int>)
    requires a <= b
    ensures |a| <= |b|
  {
    assert b == a + (b - a);
    assert a * (b - a) == {};
  }

  /** A prefix of `n` slots with fewer than `n` taken ones has a free slot. */
  lemma {:induction false} FreeSlotBelow(s: Slots, n: int)
    requires 0 <= n <= |s| && |Taken(s[..n])| < n
    ensures exists e :: 0 <= e < n && s[e].None?
  {
    PrefixStep(s, n - 1);
    if s[n - 1].Some? {
      FreeSlotBelow(s, n - 1);
    }
  }

  /** A table with fewer taken slots than slots has a free slot. */
  lemma FreeSlotExists(s: Slots)
    requires |Taken(s)| < |s|
    ensures exists e :: 0 <= e < |s| && s[e].None?
  {
    assert s[..|s|] == s;
    FreeSlotBelow(s, |s|);
  }

  /**
   * When the probe for `name` stops at a free slot, having passed only
   * other names, `name` is not stored anywhere in the table.
   */
  lemma NotStored(s: Slots, name: Str, p: int)
    requires Layout(s) && |s| > 0 && FirstFree(s, Home(name, |s|), p)
    requires forall q :: 0 <= q < |s| && OnRun(Home(name, |s|), p, q) ==> s[q].value != name
    ensures name !in Names(s)
  {
    var a := Home(name, |s|);
    forall j | 0 <= j < |s| && s[j].Some? && !OnRun(a, p, j)
      ensures s[j].value != name
    {
      assert j != p && !OnRun(Home(s[j].value, |s|), j, p);
    }
  }

  /** Storing a new name at the first free slot of its probe run keeps the layout. */
  lemma InsertKeepsLayout(s: Slots, name: Str, p: int)
    requires Layout(s) && |s| > 0 && NoNul(name) && name !in Names(s)
    requires FirstFree(s, Home(name, |s|), p)
    ensures Layout(s[p := Some(name)])
    ensures Names(s[p := Some(name)]) == Names(s) + {name}
    ensures Taken(s[p := Some(name)]) == Taken(s) + {p}
  {
    var s' := s[p := Some(name)];
    forall i, j | 0 <= i < j < |s'| && s'[i].Some? && s'[j].Some?
      ensures s'[i].value != s'[j].value
    {
      if i == p { assert s[j].value in Names(s); }
      if j == p { assert s[i].value in Names(s); }
    }
    assert Names(s') == Names(s) + {name} by {
      forall x | x in Names(s) ensures x in Names(s') {
        var i :| 0 <= i < |s| && s[i].Some? && s[i].value == x;
        assert s'[i] == s[i];
      }
      assert s'[p].value == name;
    }
  }

  /** Appending one slot to a prefix adds that slot, if taken, and its name. */
  lemma PrefixStep(s: Slots, i: int)
    requires 0 <= i < |s|
    ensures Taken(s[..i + 1]) == Taken(s[..i]) + (if s[i].Some? then {i} else {})
    ensures Names(s[..i + 1]) == Names(s[..i]) + (if s[i].Some? then {s[i].value} else {})
  {
    var u, v := s[..i + 1], s[..i];
    assert forall j :: 0 <= j < i ==> u[j] == v[j];
    if s[i].Some? {
      assert u[i].value == s[i].value;
    }
  }

  /** A stored name does not occur earlier in the table. */
  lemma DistinctFromPrefix(s: Slots, i: int)
    requires Layout(s) && 0 <= i < |s| && s[i].Some?
    ensures s[i].value !in Names(s[..i])
  {
    forall j | 0 <= j < i && s[..i][j].Some?
      ensures s[..i][j].value != s[i].value
    {
      assert s[..i][j] == s[j];
    }
  }

  /**
   * The name deduplication state of one listing (struct Dirlist): `all` is
   * the entry sequence read from the directory, `dirs` the kept entries as
   * indices into `all` (nil-terminated), and `seen`, `nseen`, `mseen` the
   * name table with its count of stored names and its size.
   */
  class Dirlist {
    const all: seq<Dir>
    const dirs: array<Option<nat>>
    var ndirs: nat
    var seen: array<Option<Str>>
    var nseen: nat
    var mseen: nat

    /** The table invariant: at most half full, counted exactly, laid out for probing. */
    ghost predicate SeenValid()
      reads this, seen
    {
      seen.Length == mseen && 2 * nseen <= mseen &&
      nseen == |Taken(seen[..])| && Layout(seen[..])
    }

    /** The set of names `seen` holds. */
    ghost function Contents(): set<Str>
      reads this, seen
    {
      Names(seen[..])
    }

    /**
     * The finished listing: dirs[0..ndirs) points, in order, at the first
     * entry of each name, and dirs[ndirs] is nil.
     */
    ghost predicate Ready()
      reads this, dirs
    {
      ndirs == |Firsts(all)| && dirs.Length == |all| + 1 &&
      (forall k :: 0 <= k < ndirs ==> dirs[k] == Some(Firsts(all)[k])) &&
      dirs[ndirs] == None
    }

    /**
     * dirlist's set-up after a successful read: `dirs` with room for
     * nall + 1 pointers, all nil, and an empty name table of nall slots.
     */
    constructor (entries: seq<Dir>)
      ensures all == entries && ndirs == 0
      ensures dirs.Length == |entries| + 1 && forall k :: 0 <= k < dirs.Length ==> dirs[k] == None
      ensures mseen == |entries| && nseen == 0 && SeenValid() && Contents() == {}
      ensures fresh(dirs) && fresh(seen)
    {
      all := entries;
      dirs := new Option<nat>[|entries| + 1](_ => None);
      ndirs := 0;
      mseen := |entries|;
      nseen := 0;
      seen := new Option<Str>[|entries|](_ => None);
      new;
      assert Taken(seen[..]) == {};
    }

    /**
     * The probe loop of seen: from hash(name) % mseen, step to the next slot
     * (wrapping) until a free slot or a slot holding `name` is reached. A
     * free slot always exists, since at most half of the slots are taken.
     */
    method Probe(name: Str) returns (probe: int, found: bool)
      requires SeenValid() && mseen > 0 && NoNul(name)
      ensures found <==> name in Contents()
      ensures found ==> 0 <= probe < mseen && seen[probe] == Some(name)
      ensures !found ==> FirstFree(seen[..], Home(name, mseen), probe)
    {
      var h := ComputeHash(name);
      probe := (h as int) % mseen;
      ghost var s := seen[..];
      ghost var a := probe;
      FreeSlotExists(s);
      ghost var e :| 0 <= e < |s| && s[e].None?;
      while seen[probe] != None
        invariant 0 <= probe < mseen
        invariant forall q :: 0 <= q < |s| && OnRun(a, probe, q) ==> s[q].Some? && s[q].value != name
        decreases RunLength(probe, e, mseen)
      {
        if seen[probe].value == name {
          assert s[probe].value == name;
          return probe, true;
        }
        WrapNext(probe, mseen);
        probe := (probe + 1) % mseen;
      }
      NotStored(s, name, probe);
      found := false;
    }

    /**
     * seen: reports whether `name` is already stored and stores it if not.
     * A new name goes into the first free slot of its probe run; when that
     * makes the table more than half full, the table grows.
     */
    method Seen(name: Str) returns (dup: bool)
      requires SeenValid() && mseen > 0 && NoNul(name)
      modifies this`seen, this`nseen, this`mseen, seen
      ensures SeenValid() && mseen >= old(mseen)
      ensures dup <==> name in old(Contents())
      ensures Contents() == old(Contents()) + {name}
      ensures nseen == old(nseen) + (if dup then 0 else 1)
      ensures dup ==> mseen == old(mseen) && seen == old(seen) && unchanged(seen)
      ensures !dup && old(nseen) + 1 <= old(mseen) / 2 ==>
                mseen == old(mseen) && seen == old(seen) &&
                exists p :: FirstFree(old(seen[..]), Home(name, old(mseen)), p) &&
                            seen[..] == old(seen[..])[p := Some(name)]
      ensures !dup && old(nseen) + 1 > old(mseen) / 2 ==> mseen == 2 * old(mseen) && fresh(seen)
      decreases if nseen < mseen / 2 then 0 else 1, 2
    {
      var probe, found := Probe(name);
      if found {
        return true;
      }
      InsertKeepsLayout(seen[..], name, probe);
      seen[probe] := Some(name);
      nseen := nseen + 1;
      if nseen > mseen / 2 {
        Grow();
      }
      dup := false;
    }

    /**
     * The growth step of seen: double mseen, start a fresh table of nil
     * slots, and enter every stored name again with seen. The re-entered
     * names fit in half of the new table, so no second growth happens.
     */
    method Grow()
      requires seen.Length == mseen > 0 && nseen == |Taken(seen[..])| && Layout(seen[..])
      requires mseen / 2 < nseen <= mseen / 2 + 1
      modifies this`seen, this`nseen, this`mseen
      ensures SeenValid() && fresh(seen)
      ensures mseen == 2 * old(mseen) && nseen == old(nseen)
      ensures Contents() == old(Contents())
      decreases 1, 1
    {
      var oseen := seen;
      var omseen := mseen;
      ghost var os := oseen[..];
      mseen := mseen * 2;
      nseen := 0;
      seen := new Option<Str>[mseen](_ => None);
      assert Taken(seen[..]) == {};
      for i := 0 to omseen
        invariant fresh(seen) && mseen == 2 * omseen
        invariant oseen[..] == os
        invariant SeenValid()
        invariant Contents() == Names(os[..i])
        invariant nseen == |Taken(os[..i])|
      {
        Reenter(oseen, os, i);
      }
      assert os[..omseen] == os;
    }

    /**
     * One round of Grow's loop: if old slot `i` holds a name, seen enters
     * it into the new table, where it is not yet stored. `os` is the old
     * table's content.
     */
    method Reenter(oseen: array<Option<Str>>, ghost os: Slots, i: int)
      requires oseen[..] == os && oseen != seen && 0 <= i < |os|
      requires Layout(os) && |Taken(os)| <= |os| / 2 + 1 && mseen == 2 * |os|
      requires SeenValid() && Contents() == Names(os[..i]) && nseen == |Taken(os[..i])|
      modifies this`seen, this`nseen, this`mseen, seen
      ensures SeenValid() && seen == old(seen) && mseen == old(mseen)
      ensures Contents() == Names(os[..i + 1]) && nseen == |Taken(os[..i + 1])|
      decreases 1, 0
    {
      PrefixStep(os, i);
      if oseen[i] != None {
        ReenterFits(os, i);
        var _ := Seen(oseen[i].value);
      }
    }

    /**
     * One round of dirlist's loop: enter the name of entry `i` with seen
     * and, when it is new, keep the entry at position `j` of dirs.
     */
    method Keep(i: int, j: int) returns (j': int)
      requires 0 <= i < |all| && dirs.Length == |all| + 1 && mseen >= |all|
      requires NoNul(all[i].name) && SeenValid() && Contents() == NamesOf(all[..i])
      requires j == |Firsts(all[..i])| && forall k :: 0 <= k < j ==> dirs[k] == Some(Firsts(all[..i])[k])
      modifies this`seen, this`nseen, this`mseen, seen, dirs
      ensures SeenValid() && mseen >= |all| && (seen == old(seen) || fresh(seen))
      ensures Contents() == NamesOf(all[..i + 1])
      ensures j' == |Firsts(all[..i + 1])| && forall k :: 0 <= k < j' ==> dirs[k] == Some(Firsts(all[..i + 1])[k])
    {
      NamesOfStep(all, i);
      FirstsStep(all, i);
      var dup := Seen(all[i].name);
      j' := j;
      if !dup {
        dirs[j] := Some(i);
        j' := j + 1;
      }
    }
  }

  /**
   * A name re-entered by Grow is a C string not yet in the new table, and
   * the new table has room for it without growing again.
   */
  lemma ReenterFits(os: Slots, i: int)
    requires Layout(os) && 0 <= i < |os| && os[i].Some? && |Taken(os)| <= |os| / 2 + 1
    ensures NoNul(os[i].value) && os[i].value !in Names(os[..i])
    ensures |Taken(os[..i])| < |os|
  {
    DistinctFromPrefix(os, i);
    PrefixStep(os, i);
    SubsetSize(Taken(os[..i + 1]), Taken(os));
  }

  /** The set of names of a run of entries. */
  function NamesOf(ds: seq<Dir>): set<Str>
  {
    set i | 0 <= i < |ds| :: ds[i].name
  }

  /**
   * The indices of `all` that dirlist keeps: each entry whose name no
   * earlier entry carries, in order.
   */
  function Firsts(all: seq<Dir>): (r: seq<nat>)
    ensures |r| <= |all|
    ensures forall k :: 0 <= k < |r| ==> r[k] < |all|
  {
    if all == [] then []
    else
      var n := |all| - 1;
      Firsts(all[..n]) + (if all[n].name in NamesOf(all[..n]) then [] else [n])
  }

  /** The first `n` entries' names, as a step of NamesOf. */
  lemma NamesOfStep(all: seq<Dir>, n: int)
    requires 0 <= n < |all|
    ensures NamesOf(all[..n + 1]) == NamesOf(all[..n]) + {all[n].name}
  {
    var u, v := all[..n + 1], all[..n];
    assert forall j :: 0 <= j < n ==> u[j] == v[j];
    assert u[n] == all[n];
  }

  /** Extending the entries by one keeps the first `i` entries' kept indices. */
  lemma FirstsStep(all: seq<Dir>, i: int)
    requires 0 <= i < |all|
    ensures Firsts(all[..i + 1]) == Firsts(all[..i]) + (if all[i].name in NamesOf(all[..i]) then [] else [i])
  {
    assert all[..i + 1][..i] == all[..i];
  }

  /** An index is kept exactly when no earlier entry has its name. */
  lemma {:induction false} FirstsMember(all: seq<Dir>, i: int)
    ensures i in Firsts(all) <==> 0 <= i < |all| && forall j :: 0 <= j < i ==> all[j].name != all[i].name
    decreases |all|
  {
    if all != [] {
      var n := |all| - 1;
      var pre := all[..n];
      FirstsMember(pre, i);
      if i == n {
        assert n !in Firsts(pre);
        if all[n].name in NamesOf(pre) {
          var j :| 0 <= j < n && pre[j].name == all[n].name;
          assert all[j] == pre[j];
        } else {
          forall j | 0 <= j < n ensures all[j].name != all[n].name {
            assert all[j] == pre[j];
            assert pre[j].name in NamesOf(pre);
          }
        }
      } else if 0 <= i < n {
        assert pre[i] == all[i];
        assert forall j :: 0 <= j < i ==> pre[j] == all[j];
      }
    }
  }

  /** The kept indices are strictly increasing: dirs keeps the order of all. */
  lemma {:induction false} FirstsIncreasing(all: seq<Dir>)
    ensures forall a, b :: 0 <= a < b < |Firsts(all)| ==> Firsts(all)[a] < Firsts(all)[b]
    decreases |all|
  {
    if all != [] {
      FirstsIncreasing(all[..|all| - 1]);
    }
  }

  /** No two kept entries share a name. */
  lemma FirstsDistinct(all: seq<Dir>)
    ensures forall a, b :: 0 <= a < b < |Firsts(all)| ==> all[Firsts(all)[a]].name != all[Firsts(all)[b]].name
  {
    var r := Firsts(all);
    FirstsIncreasing(all);
    forall a, b | 0 <= a < b < |r|
      ensures all[r[a]].name != all[r[b]].name
    {
      FirstsMember(all, r[b]);
    }
  }

  /** The first index from `k` on whose entry is named `name`, given one at `i`. */
  function FirstNamed(all: seq<Dir>, name: Str, k: int, i: int): (f: int)
    requires 0 <= k <= i < |all| && all[i].name == name
    ensures k <= f <= i && all[f].name == name
    ensures forall j :: k <= j < f ==> all[j].name != name
    decreases i - k
  {
    if all[k].name == name then k else FirstNamed(all, name, k + 1, i)
  }

  /** The kept entries carry exactly the names of the whole listing. */
  lemma FirstsCover(all: seq<Dir>)
    ensures (set k | 0 <= k < |Firsts(all)| :: all[Firsts(all)[k]].name) == NamesOf(all)
  {
    var r := Firsts(all);
    var kept := set k | 0 <= k < |r| :: all[r[k]].name;
    forall x | x in NamesOf(all)
      ensures x in kept
    {
      var i :| 0 <= i < |all| && all[i].name == x;
      var f := FirstNamed(all, x, 0, i);
      FirstsMember(all, f);
      var k :| 0 <= k < |r| && r[k] == f;
      assert all[r[k]].name == x;
    }
  }

  /**
   * dirlist: reads the combined entries (`read` is what dirreadall
   * returned, None for its failure) and keeps the first entry of each
   * name. With no entries the name table has no slots, and seen is never
   * called.
   */
  method MakeDirlist(read: Option<seq<Dir>>) returns (dl: Dirlist?)
    requires read.Some? ==> forall i :: 0 <= i < |read.value| ==> NoNul(read.value[i].name)
    ensures read.None? <==> dl == null
    ensures dl != null ==>
              fresh(dl) && fresh(dl.dirs) && dl.all == read.value && dl.SeenValid() &&
              dl.Contents() == NamesOf(dl.all) && dl.Ready()
  {
    if read.None? {
      return null;
    }
    var all := read.value;
    dl := new Dirlist(all);
    var j := 0;
    for i := 0 to |all|
      invariant fresh(dl.seen) && dl.all == all && dl.dirs.Length == |all| + 1
      invariant dl.SeenValid() && dl.mseen >= |all|
      invariant dl.Contents() == NamesOf(all[..i])
      invariant j == |Firsts(all[..i])|
      invariant forall k :: 0 <= k < j ==> dl.dirs[k] == Some(Firsts(all[..i])[k])
    {
      j := dl.Keep(i, j);
    }
    assert all[..|all|] == all;
    dl.dirs[j] := None;
    dl.ndirs := j;
  }
}
