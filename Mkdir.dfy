/**
 * mkdirp (unionfs.c): make every missing directory on a path. It copies
 * the path, and for each component in turn writes a NUL over the '/' that
 * ends it, stats the shortened string, creates it if missing, and puts
 * the '/' back.
 *
 * The walk still to do from a pointer p is written Rest(fs, path, p, 1),
 * where Rest(.., n) takes n recursive steps before it reaches Visit. The
 * verifier unfolds a definition only a bounded number of times, so the
 * proofs of MkdirP and MkdirRound see that walk as one term and do not
 * expand Visit into every case; RestIsVisit exposes it where a proof needs it.
 */
module Mkdir {
  import opened Common
  import opened Host

  /** The C string stored at the start of `m`: its bytes up to the first NUL. */
  function CString(m: seq<Byte>): (s: Str)
    ensures |s| <= |m| && NoNul(s) && s == m[..|s|]
    ensures |s| < |m| ==> m[|s|] == Nul
  {
    if m == [] || m[0] == Nul then [] else [m[0]] + CString(m[1..])
  }

  /** A string without NUL, followed by a NUL, reads back as itself. */
  lemma {:induction false} CStringOf(s: Str, rest: seq<Byte>)
    requires NoNul(s)
    ensures CString(s + [Nul] + rest) == s
  {
    if s != [] {
      assert (s + [Nul] + rest)[1..] == s[1..] + [Nul] + rest;
      CStringOf(s[1..], rest);
    }
  }

  /** strchr(s + p, '/'): the first '/' at or after `p`, if any. */
  function FindSlash(s: Str, p: nat): (r: Option<nat>)
    requires p <= |s|
    ensures r.Some? ==> p <= r.value < |s| && s[r.value] == Slash
    ensures r.Some? ==> forall k :: p <= k < r.value ==> s[k] != Slash
    ensures r.None? ==> forall k :: p <= k < |s| ==> s[k] != Slash
    decreases |s| - p
  {
    if p == |s| then None else if s[p] == Slash then Some(p) else FindSlash(s, p + 1)
  }

  /**
   * The lengths of the prefixes mkdirp's loop visits from position `p`:
   * step over one '/' at `p`, then cut at the next '/', or take the whole
   * path when there is none.
   */
  function Cuts(s: Str, p: nat): (cs: seq<nat>)
    requires p <= |s|
    ensures |cs| > 0 && cs[|cs| - 1] == |s|
    ensures forall k :: 0 <= k < |cs| ==> p <= cs[k] <= |s|
    decreases |s| - p
  {
    match FindSlash(s, Skip(s, p))
    case None => [|s|]
    case Some(q) => [q] + Cuts(s, q + 1)
  }

  /** `if(p[0] == '/') p++`: the pointer steps over one '/'. */
  function Skip(s: Str, p: nat): (p': nat)
    requires p <= |s|
    ensures p <= p' <= |s|
  {
    if p < |s| && s[p] == Slash then p + 1 else p
  }

  /** The prefixes of `s` cut at `cs`, in order. */
  function Prefixes(s: Str, cs: seq<nat>): (ds: seq<Str>)
    requires forall k :: 0 <= k < |cs| ==> cs[k] <= |s|
    ensures |ds| == |cs| && forall k :: 0 <= k < |cs| ==> ds[k] == s[..cs[k]]
  {
    if cs == [] then [] else [s[..cs[0]]] + Prefixes(s, cs[1..])
  }

  /** The directories mkdirp visits for `s`, shortest first, ending with `s` itself. */
  function Steps(s: Str): (ds: seq<Str>)
    ensures |ds| > 0 && ds[|ds| - 1] == s
  {
    Prefixes(s, Cuts(s, 0))
  }

  /**
   * The cuts rise strictly, and every cut but the last ends before a '/'.
   * So the visited prefixes grow in length, each one a directory of the next.
   */
  lemma {:induction false} CutsRise(s: Str, p: nat)
    requires p <= |s|
    ensures forall a, b :: 0 <= a < b < |Cuts(s, p)| ==> Cuts(s, p)[a] < Cuts(s, p)[b]
    decreases |s| - p
  {
    var cs := Cuts(s, p);
    match FindSlash(s, Skip(s, p))
    case None =>
    case Some(q) =>
      var rest := Cuts(s, q + 1);
      CutsRise(s, q + 1);
      assert cs == [q] + rest;
      forall a, b | 0 <= a < b < |cs| ensures cs[a] < cs[b] {
        if a > 0 {
          assert cs[a] == rest[a - 1];
        }
        assert cs[b] == rest[b - 1];
      }
  }

  /** Every cut but the last is the position of a '/'. */
  lemma {:induction false} CutsAtSlash(s: Str, p: nat)
    requires p <= |s|
    ensures forall k :: 0 <= k < |Cuts(s, p)| - 1 ==> Cuts(s, p)[k] < |s| && s[Cuts(s, p)[k]] == Slash
    decreases |s| - p
  {
    var cs := Cuts(s, p);
    match FindSlash(s, Skip(s, p))
    case None =>
    case Some(q) =>
      var rest := Cuts(s, q + 1);
      CutsAtSlash(s, q + 1);
      assert cs == [q] + rest;
      forall k | 1 <= k < |cs| - 1 ensures cs[k] < |s| && s[cs[k]] == Slash {
        assert cs[k] == rest[k - 1];
      }
  }

  /**
   * From pointer `p`, mkdirp visits the prefix ending at the next cut, then
   * (when that cut was a '/') carries on one past it.
   */
  lemma PrefixesStep(s: Str, p: nat)
    requires p <= |s|
    ensures var f := FindSlash(s, Skip(s, p));
            Prefixes(s, Cuts(s, p)) ==
              [s[..if f.Some? then f.value else |s|]] + (if f.Some? then Prefixes(s, Cuts(s, f.value + 1)) else [])
  {
  }

  /**
   * Every '/' that does not follow another '/' (and is not the first byte)
   * is a cut: mkdirp visits the directory that ends just before it.
   */
  lemma {:induction false} CutsComplete(s: Str, p: nat, c: nat)
    requires p < c < |s| && s[c] == Slash && s[c - 1] != Slash
    ensures c in Cuts(s, p)
    decreases |s| - p
  {
    var q := FindSlash(s, Skip(s, p)).value;
    if q != c {
      CutsComplete(s, q + 1, c);
    }
  }

  /**
   * mkdirp's loop as a specification: stat each directory in turn, create
   * it when missing, and stop with -1 at the first create that fails.
   */
  function Visit(fs: Fs, ds: seq<Str>): (int, Fs)
    decreases |ds|
  {
    if ds == [] then (1, fs)
    else if ds[0] in fs.files then Visit(fs, ds[1..])
    else match Create(fs, ds[0])
      case None => (-1, fs)
      case Some(fs1) => Visit(fs1, ds[1..])
  }

  /**
   * What Visit makes of the directories mkdirp has still to visit from
   * pointer `p`, reached after `n` steps of the device described above.
   * MkdirP and MkdirRound state their contracts with n = 1; RestIsVisit
   * unfolds it.
   */
  function Rest(fs: Fs, path: Str, p: nat, n: nat): (int, Fs)
    requires p <= |path|
  {
    if n == 0 then Visit(fs, Prefixes(path, Cuts(path, p))) else Rest(fs, path, p, n - 1)
  }

  /** Rest with one step to go is Visit's walk. */
  lemma RestIsVisit(fs: Fs, path: Str, p: nat)
    requires p <= |path|
    ensures Rest(fs, path, p, 1) == Visit(fs, Prefixes(path, Cuts(path, p)))
  {
    assert Rest(fs, path, p, 0) == Visit(fs, Prefixes(path, Cuts(path, p)));
  }

  /** mkdirp's outcome: 1 at once when the path exists, otherwise Visit of its steps. */
  function MkdirResult(fs: Fs, path: Str): (int, Fs)
  {
    if path in fs.files then (1, fs) else Rest(fs, path, 0, 1)
  }

  /**
   * Visit only adds: what existed keeps its metadata, a new path is one of
   * the visited directories that was missing and creatable, and what create
   * may do is unchanged. In particular nothing made before a failure is
   * removed again.
   */
  lemma {:induction false} VisitAdds(fs: Fs, ds: seq<Str>)
    decreases |ds|
    ensures Visit(fs, ds).1.creatable == fs.creatable
    ensures forall p :: p in fs.files ==> p in Visit(fs, ds).1.files && Visit(fs, ds).1.files[p] == fs.files[p]
    ensures forall p :: p in Visit(fs, ds).1.files && p !in fs.files ==>
              p in ds && p in fs.creatable && Visit(fs, ds).1.files[p] == fs.creatable[p]
  {
    if ds != [] && ds[0] !in fs.files && Create(fs, ds[0]).Some? {
      var fs1 := Create(fs, ds[0]).value;
      VisitAdds(fs1, ds[1..]);
      forall p | p in ds[1..] ensures p in ds { }
    } else if ds != [] && ds[0] in fs.files {
      VisitAdds(fs, ds[1..]);
      forall p | p in ds[1..] ensures p in ds { }
    }
  }

  /**
   * Visit succeeds (1) exactly when every visited directory exists at the
   * end; it fails (-1) exactly when some visited directory is missing and
   * cannot be created.
   */
  lemma {:induction false} VisitOutcome(fs: Fs, ds: seq<Str>)
    decreases |ds|
    ensures Visit(fs, ds).0 == 1 || Visit(fs, ds).0 == -1
    ensures Visit(fs, ds).0 == 1 <==> forall k :: 0 <= k < |ds| ==> ds[k] in Visit(fs, ds).1.files
    ensures Visit(fs, ds).0 == -1 ==>
              exists k :: 0 <= k < |ds| && ds[k] !in Visit(fs, ds).1.files && ds[k] !in fs.creatable
  {
    if ds == [] {
    } else if ds[0] in fs.files {
      VisitOutcome(fs, ds[1..]);
      VisitAdds(fs, ds[1..]);
      if Visit(fs, ds).0 == -1 {
        var k :| 0 <= k < |ds[1..]| && ds[1..][k] !in Visit(fs, ds[1..]).1.files && ds[1..][k] !in fs.creatable;
        assert ds[k + 1] == ds[1..][k];
      }
    } else if Create(fs, ds[0]).None? {
      assert ds[0] !in Visit(fs, ds).1.files;
    } else {
      var fs1 := Create(fs, ds[0]).value;
      VisitOutcome(fs1, ds[1..]);
      VisitAdds(fs1, ds[1..]);
      if Visit(fs, ds).0 == -1 {
        var k :| 0 <= k < |ds[1..]| && ds[1..][k] !in Visit(fs1, ds[1..]).1.files && ds[1..][k] !in fs1.creatable;
        assert ds[k + 1] == ds[1..][k];
      }
    }
  }

  /** Writing a NUL over byte `end` of the copy leaves the C string path[..end]. */
  lemma CutString(path: Str, end: nat)
    requires NoNul(path) && end <= |path|
    ensures CString((path + [Nul])[end := Nul]) == path[..end]
  {
    if end < |path| {
      assert (path + [Nul])[end := Nul] == path[..end] + [Nul] + (path[end + 1..] + [Nul]);
      CStringOf(path[..end], path[end + 1..] + [Nul]);
    } else {
      assert (path + [Nul])[end := Nul] == path + [Nul] + [];
      CStringOf(path, []);
    }
  }

  /** The body of one round: the tree once `dir` exists, None when creating it fails. */
  function Ensure(fs: Fs, dir: Str): Option<Fs>
  {
    if dir in fs.files then Some(fs) else Create(fs, dir)
  }

  /** One step of Visit over a first directory `d` and the rest `ds`. */
  lemma VisitStep(fs: Fs, d: Str, ds: seq<Str>)
    ensures Visit(fs, [d] + ds) ==
              if d in fs.files then Visit(fs, ds)
              else if Create(fs, d).None? then (-1, fs)
              else Visit(Create(fs, d).value, ds)
  {
    assert ([d] + ds)[1..] == ds;
  }

  /**
   * One round of mkdirp's loop from pointer `p`, whose next cut `end`
   * strchr found (`f`) or not: the directory path[..end] is made to exist;
   * a failed create ends the walk with -1, a round without a '/' ends it
   * with 1, and otherwise the walk goes on one past the '/'.
   */
  lemma MkdirRound(fs: Fs, path: Str, p: nat, f: Option<nat>, end: nat)
    requires p <= |path| && f == FindSlash(path, Skip(path, p))
    requires end == if f.Some? then f.value else |path|
    ensures Ensure(fs, path[..end]).None? ==> Rest(fs, path, p, 1) == (-1, fs)
    ensures Ensure(fs, path[..end]).Some? && f.None? ==> Rest(fs, path, p, 1) == (1, Ensure(fs, path[..end]).value)
    ensures Ensure(fs, path[..end]).Some? && f.Some? ==>
              Rest(fs, path, p, 1) == Rest(Ensure(fs, path[..end]).value, path, end + 1, 1)
  {
    PrefixesStep(path, p);
    var dir := path[..end];
    var rest := if f.Some? then Prefixes(path, Cuts(path, end + 1)) else [];
    assert Prefixes(path, Cuts(path, p)) == [dir] + rest;
    VisitStep(fs, dir, rest);
    RestIsVisit(fs, path, p);
    if Ensure(fs, dir).Some? && f.Some? {
      RestIsVisit(Ensure(fs, dir).value, path, end + 1);
    }
  }

  /**
   * What mkdirp does to the tree. It answers 1 or -1. An existing path
   * gives 1 and changes nothing. Otherwise it answers 1 exactly when every
   * directory on the path (the path included) exists afterwards. Existing
   * entries keep their metadata, and each new entry is one of the visited
   * directories, made as create makes it; what was made before a failure
   * stays.
   */
  lemma MkdirEffect(fs: Fs, path: Str)
    ensures var res := MkdirResult(fs, path);
            (res.0 == 1 || res.0 == -1) && res.1.creatable == fs.creatable &&
            (path in fs.files ==> res == (1, fs)) &&
            (path !in fs.files ==> (res.0 == 1 <==> forall d :: d in Steps(path) ==> d in res.1.files)) &&
            (forall q :: q in fs.files ==> q in res.1.files && res.1.files[q] == fs.files[q]) &&
            (forall q :: q in res.1.files && q !in fs.files ==> q in Steps(path) && q in fs.creatable && res.1.files[q] == fs.creatable[q])
  {
    if path !in fs.files {
      RestIsVisit(fs, path, 0);
      VisitAdds(fs, Steps(path));
      VisitOutcome(fs, Steps(path));
    }
  }

  /**
   * The string work of one round of mkdirp's loop, with the pointer at `p`
   * in the copy `buf` of `path`: step over a '/', let strchr find the next
   * '/' and write a NUL over it. `dir` is the C string dirstat and create
   * then see.
   */
  method Cut(buf: array<Byte>, path: Str, p: nat) returns (cut: Option<nat>, dir: Str)
    requires NoNul(path) && buf[..] == path + [Nul] && p <= |path|
    modifies buf
    ensures cut == FindSlash(path, Skip(path, p))
    ensures cut.Some? ==> dir == path[..cut.value] && buf[..] == (path + [Nul])[cut.value := Nul]
    ensures cut.None? ==> dir == path && buf[..] == path + [Nul]
  {
    var q := p;
    if buf[q] == Slash {
      q := q + 1;
    }
    cut := FindSlash(path, q);
    var end := if cut.Some? then cut.value else |path|;
    if cut.Some? {
      buf[end] := Nul;
    } else {
      assert (path + [Nul])[end := Nul] == path + [Nul];
    }
    CutString(path, end);
    dir := CString(buf[..]);
  }

  /**
   * The file work of one round: stat `dir` and create it when missing.
   * Fails, and leaves the tree as it was, when that create fails.
   */
  method Make(fs: Fs, dir: Str) returns (ok: bool, fs': Fs)
    ensures ok <==> Ensure(fs, dir).Some?
    ensures ok ==> fs' == Ensure(fs, dir).value
    ensures !ok ==> fs' == fs
  {
    fs' := fs;
    ok := true;
    if dir !in fs.files {
      var made := Create(fs, dir);
      if made.None? {
        return false, fs;
      }
      fs' := made.value;
    }
  }

  /**
   * mkdirp: `fs` is the host tree before the call. The string copy is an
   * array holding the path and its NUL; `p` is the pointer into it, None
   * once strchr has found no further '/'.
   */
  method MkdirP(fs: Fs, path: Str) returns (r: int, fs': Fs)
    requires NoNul(path)
    ensures (r, fs') == MkdirResult(fs, path)
  {
    if path in fs.files {
      return 1, fs;
    }
    var copy := path + [Nul];
    var buf := new Byte[|copy|](i requires 0 <= i < |copy| => copy[i]);
    assert buf[..] == copy;
    fs' := fs;
    var p: Option<nat> := Some(0);
    ghost var goal := Rest(fs, path, 0, 1);
    while p.Some?
      invariant buf[..] == copy
      invariant p.Some? ==> p.value <= |path| && Rest(fs', path, p.value, 1) == goal
      invariant p.None? ==> (1, fs') == goal
      decreases if p.Some? then |path| + 1 - p.value else 0
    {
      var cut, dir := Cut(buf, path, p.value);
      ghost var end := if cut.Some? then cut.value else |path|;
      assert dir == path[..end];
      MkdirRound(fs', path, p.value, cut, end);
      var ok;
      ok, fs' := Make(fs', dir);
      if !ok {
        return -1, fs';
      }
      if cut.Some? {
        buf[cut.value] := Slash;
        assert buf[..] == copy;
        p := Some(cut.value + 1);
      } else {
        p := None;
      }
    }
    r := 1;
  }
}
