/**
 * The union resolver of unionfs.c: the per-fid FILE record, cloning it,
 * walking a name through the branches in priority order, creating a file
 * in the create branch, and replaying a directory listing.
 */
module Union {
  import opened Common
  import opened Host
  import opened QidMap
  import opened DirList
  import opened Branches
  import opened MountPoints
  import Mkdir

  /** The DMDIR bit of Dir.mode. */
  const DMDIR: u32 := 0x8000_0000

  /** A directory's mode carries the DMDIR bit (bit 31 of a 32-bit mode). */
  predicate IsDir(d: Dir)
  {
    d.mode >= DMDIR
  }

  /**
   * dircopy(a, b): `a` takes every field of `b` (type, dev, qid, mode,
   * atime, mtime and the four strings) except the length, which stays a's.
   */
  function DirCopy(a: Dir, b: Dir): (r: Dir)
    ensures r.length == a.length
    ensures r.(length := b.length) == b
    ensures a.length == b.length ==> r == b
  {
    Dir(b.dtype, b.dev, b.qid, b.mode, b.atime, b.mtime, a.length, b.name, b.uid, b.gid, b.muid)
  }

  /**
   * A fid's state (struct FILE): its Dir, the union-relative path, the
   * host path it resolved to, its open descriptor (-1 for none), its
   * directory snapshot and the mount point it merges a directory on.
   */
  class File {
    var dir: Dir
    var path: Str
    var realpath: Str
    var fd: int
    var dl: Dirlist?
    var mtpt: Mtpt?

    /** filenew: an all-zero FILE with no descriptor. */
    constructor ()
      ensures dir == ZeroDir && path == [] && realpath == [] && fd == -1
      ensures dl == null && mtpt == null
    {
      dir := ZeroDir;
      path := [];
      realpath := [];
      fd := -1;
      dl := null;
      mtpt := null;
    }
  }

  /**
   * clone: a new FILE for the new fid with the parent's metadata (the
   * length is the zero of filenew, since dircopy does not copy it) and
   * copies of both paths; no descriptor, snapshot or mount point.
   */
  method Clone(parent: File) returns (f: File)
    ensures fresh(f)
    ensures f.dir == parent.dir.(length := 0)
    ensures f.path == parent.path && f.realpath == parent.realpath
    ensures f.fd == -1 && f.dl == null && f.mtpt == null
  {
    f := new File();
    f.dir := DirCopy(f.dir, parent.dir);
    f.path := parent.path;
    f.realpath := parent.realpath;
  }

  /**
   * The host path of union path `path` in the branch rooted at `root`:
   * the string is reset (or new) before the walk, so whatever it held
   * before plays no part.
   */
  function RealPath(clean: Str -> Str, root: Str, path: Str): (r: Str)
    ensures r == clean([Slash] + root + [Slash] + path)
  {
    assert Joined([], root, path) == [Slash] + root + [Slash] + path;
    Walk(clean, [], root, path)
  }

  /**
   * The first branch from `from` on in which `path` exists, None when it
   * exists in none of them.
   */
  function FirstHit(branches: seq<Branch>, fs: Fs, clean: Str -> Str, path: Str, from: nat): (r: Option<nat>)
    requires from <= |branches|
    ensures r.Some? ==> from <= r.value < |branches| &&
                        RealPath(clean, branches[r.value].root, path) in fs.files &&
                        forall j :: from <= j < r.value ==> RealPath(clean, branches[j].root, path) !in fs.files
    ensures r.None? ==> forall j :: from <= j < |branches| ==> RealPath(clean, branches[j].root, path) !in fs.files
    decreases |branches| - from
  {
    if from == |branches| then None
    else if RealPath(clean, branches[from].root, path) in fs.files then Some(from)
    else FirstHit(branches, fs, clean, path, from + 1)
  }

  /**
   * walkto: extend the FILE's path by `name`, then try the branches in
   * order and take the first in which the path exists: the FILE gets that
   * branch's host path and metadata (dircopy) and the encoded qid of it.
   * When no branch has it the walk fails, but the path stays extended and
   * the host path is the one last tried.
   */
  method WalkTo(f: File, name: Str, branches: seq<Branch>, fs: Fs, clean: Str -> Str, table: QidTable) returns (ok: bool)
    requires table.Valid()
    modifies f, table, table.buckets
    ensures f.path == Walk(clean, old(f.path), name, [])
    ensures ok <==> FirstHit(branches, fs, clean, f.path, 0).Some?
    ensures ok ==> f.realpath == RealPath(clean, branches[FirstHit(branches, fs, clean, f.path, 0).value].root, f.path) &&
                   f.realpath in fs.files &&
                   f.dir.(qid := fs.files[f.realpath].qid) == DirCopy(old(f.dir), fs.files[f.realpath]) &&
                   f.dir.qid.vers == fs.files[f.realpath].qid.vers && f.dir.qid.qtype == fs.files[f.realpath].qid.qtype &&
                   table.Assigned(KeyOf(fs.files[f.realpath]), f.dir.qid.path)
    ensures !ok ==> f.dir == old(f.dir) && unchanged(table) && table.buckets[..] == old(table.buckets[..]) &&
                    f.realpath == if branches == [] then old(f.realpath)
                                  else RealPath(clean, branches[|branches| - 1].root, f.path)
    ensures table.Valid() && forall k, p :: old(table.Assigned(k, p)) ==> table.Assigned(k, p)
    ensures ok ==> table.mapped == old(table.mapped) ||
                   table.mapped == old(table.mapped)[KeyOf(fs.files[f.realpath]) := f.dir.qid.path]
    ensures table.counter == old(table.counter) || table.counter == Next(old(table.counter))
    ensures old(table.Unique()) && old(table.counter) < MapFlag ==> table.Unique()
    ensures f.fd == old(f.fd) && f.dl == old(f.dl) && f.mtpt == old(f.mtpt)
  {
    f.path := Walk(clean, f.path, name, []);
    for i := 0 to |branches|
      invariant FirstHit(branches, fs, clean, f.path, i) == FirstHit(branches, fs, clean, f.path, 0)
      invariant f.path == Walk(clean, old(f.path), name, [])
      invariant f.realpath == if i == 0 then old(f.realpath) else RealPath(clean, branches[i - 1].root, f.path)
      invariant f.dir == old(f.dir) && f.fd == old(f.fd) && f.dl == old(f.dl) && f.mtpt == old(f.mtpt)
      invariant unchanged(table) && table.buckets[..] == old(table.buckets[..])
    {
      f.realpath := RealPath(clean, branches[i].root, f.path);
      if f.realpath !in fs.files {
        continue;
      }
      Adopt(f, fs.files[f.realpath], table);
      return true;
    }
    return false;
  }

  /**
   * The hit of walkto: dircopy the branch's metadata `d` into the FILE and
   * replace its qid by the encoded one.
   */
  method Adopt(f: File, d: Dir, table: QidTable)
    requires table.Valid()
    modifies f`dir, table, table.buckets
    ensures f.dir.(qid := d.qid) == DirCopy(old(f.dir), d)
    ensures f.dir.qid.vers == d.qid.vers && f.dir.qid.qtype == d.qid.qtype
    ensures table.Assigned(KeyOf(d), f.dir.qid.path)
    ensures table.Valid() && forall k, p :: old(table.Assigned(k, p)) ==> table.Assigned(k, p)
    ensures table.mapped == old(table.mapped) || table.mapped == old(table.mapped)[KeyOf(d) := f.dir.qid.path]
    ensures table.counter == old(table.counter) || table.counter == Next(old(table.counter))
    ensures old(table.Unique()) && old(table.counter) < MapFlag ==> table.Unique()
  {
    f.dir := DirCopy(f.dir, d);
    var q := table.Encode(d);
    f.dir := f.dir.(qid := q);
  }

  /**
   * The create branch: the first branch marked create, or |branches| when
   * none is.
   */
  function CreateIndex(branches: seq<Branch>): (r: nat)
    ensures r <= |branches|
    ensures r < |branches| ==> branches[r].create
    ensures forall j :: 0 <= j < r ==> !branches[j].create
    decreases |branches|
  {
    if branches == [] || branches[0].create then 0 else 1 + CreateIndex(branches[1..])
  }

  /**
   * The branch list main builds has a create branch exactly when c ends 0,
   * so that branch 0 takes creates, or some existing path was scanned while
   * c was 1. Otherwise fscreate has nowhere to put a file.
   */
  lemma CreateBranchExists(args: seq<Str>, c0: int, env: Env)
    requires BranchList(args, c0, env).Some?
    ensures var bs := BranchList(args, c0, env).value;
            var o := Origins(args, env);
            CreateIndex(bs) < |bs| <==>
              CAt(args, c0, |args|) == 0 || exists k :: 0 <= k < |o| && CAt(args, c0, o[k]) == 1
  {
    var bs := BranchList(args, c0, env).value;
    var o := Origins(args, env);
    var st := ScanArgs(args, c0, env, true);
    ScanBranches(args, c0, env, true);
    assert |bs| == |o|;
    if exists k :: 0 <= k < |o| && CAt(args, c0, o[k]) == 1 {
      var k :| 0 <= k < |o| && CAt(args, c0, o[k]) == 1;
      assert st.kept[k].create;
      assert bs[k].create;
    }
    if CreateIndex(bs) < |bs| && CAt(args, c0, |args|) != 0 {
      var r := CreateIndex(bs);
      assert bs[r] == st.kept[r];
    }
  }

  /**
   * fscreate: the new file goes to the first create branch, whatever
   * branch the parent directory came from. mkdirp first makes the parent
   * directory's host path exist there (failing with it); then the file is
   * created (failing when create refuses), and the fid gets a new FILE:
   * the created file's metadata with length 0 and its encoded qid, the
   * descriptor `fd`, the union path parent + name and the host path.
   * The reply carries the new FILE's qid. The tree keeps whatever mkdirp
   * made even when the request fails.
   */
  method FsCreate(parent: File, name: Str, branches: seq<Branch>, fs: Fs, clean: Str -> Str, table: QidTable, fd: int)
      returns (f: File?, fs': Fs)
    requires CreateIndex(branches) < |branches|
    requires forall s :: NoNul(clean(s))
    requires table.Valid()
    modifies table, table.buckets
    ensures var dirpath := RealPath(clean, branches[CreateIndex(branches)].root, parent.path);
            var made := Mkdir.MkdirResult(fs, dirpath);
            var target := Walk(clean, dirpath, name, []);
            (made.0 < 0 ==> f == null && fs' == made.1) &&
            (made.0 >= 0 && target !in fs.creatable ==> f == null && fs' == made.1) &&
            (made.0 >= 0 && target in fs.creatable ==>
               f != null && Create(made.1, target) == Some(fs') &&
               f.realpath == target && f.path == Walk(clean, parent.path, name, []) && f.fd == fd &&
               f.dir.(qid := fs.creatable[target].qid) == fs.creatable[target].(length := 0) &&
               f.dir.qid.vers == fs.creatable[target].qid.vers && f.dir.qid.qtype == fs.creatable[target].qid.qtype &&
               table.Assigned(KeyOf(fs.creatable[target]), f.dir.qid.path) &&
               f.dl == null && f.mtpt == null)
    ensures f != null ==> fresh(f)
    ensures f == null ==> unchanged(table) && table.buckets[..] == old(table.buckets[..])
    ensures table.Valid() && forall k, p :: old(table.Assigned(k, p)) ==> table.Assigned(k, p)
    ensures f != null ==> table.mapped == old(table.mapped) ||
                          table.mapped == old(table.mapped)[KeyOf(fs'.files[f.realpath]) := f.dir.qid.path]
    ensures table.counter == old(table.counter) || table.counter == Next(old(table.counter))
    ensures old(table.Unique()) && old(table.counter) < MapFlag ==> table.Unique()
  {
    var i := CreateIndex(branches);
    var realpath := RealPath(clean, branches[i].root, parent.path);
    var r;
    r, fs' := Mkdir.MkdirP(fs, realpath);
    Mkdir.MkdirEffect(fs, realpath);
    if r < 0 {
      return null, fs';
    }
    var target := Walk(clean, realpath, name, []);
    var created := Create(fs', target);
    if created.None? {
      return null, fs';
    }
    fs' := created.value;
    f := NewFile(fs'.files[target], fd, Walk(clean, parent.path, name, []), target, table);
  }

  /**
   * The end of a successful fscreate: a new FILE holding the created
   * file's metadata `d` (dircopy onto filenew's zero, so length 0) with
   * its encoded qid, the open descriptor and both paths.
   */
  method NewFile(d: Dir, fd: int, path: Str, realpath: Str, table: QidTable) returns (f: File)
    requires table.Valid()
    modifies table, table.buckets
    ensures fresh(f)
    ensures f.dir.(qid := d.qid) == d.(length := 0) &&
            f.dir.qid.vers == d.qid.vers && f.dir.qid.qtype == d.qid.qtype &&
            table.Assigned(KeyOf(d), f.dir.qid.path)
    ensures f.path == path && f.realpath == realpath && f.fd == fd && f.dl == null && f.mtpt == null
    ensures table.Valid() && forall k, p :: old(table.Assigned(k, p)) ==> table.Assigned(k, p)
    ensures table.mapped == old(table.mapped) || table.mapped == old(table.mapped)[KeyOf(d) := f.dir.qid.path]
    ensures table.counter == old(table.counter) || table.counter == Next(old(table.counter))
    ensures old(table.Unique()) && old(table.counter) < MapFlag ==> table.Unique()
  {
    f := new File();
    f.dir := DirCopy(f.dir, d);
    f.fd := fd;
    var q := table.Encode(d);
    f.dir := f.dir.(qid := q);
    f.path := path;
    f.realpath := realpath;
  }

  /**
   * dirgen: entry `i` of the snapshot, or -1 once i reaches ndirs. The
   * entry is dircopy'd into the caller's Dir `d` with the encoded qid of
   * the branch entry, which is the first entry of its name in the merged
   * listing.
   */
  method Dirgen(dl: Dirlist, i: int, d: Dir, table: QidTable) returns (r: int, d': Dir)
    requires dl.Ready() && 0 <= i <= dl.ndirs
    requires table.Valid()
    modifies table, table.buckets
    ensures r == -1 <==> i == dl.ndirs
    ensures r != -1 ==>
              r == 0 &&
              d'.(qid := dl.all[Firsts(dl.all)[i]].qid) == DirCopy(d, dl.all[Firsts(dl.all)[i]]) &&
              d'.qid.vers == dl.all[Firsts(dl.all)[i]].qid.vers &&
              d'.qid.qtype == dl.all[Firsts(dl.all)[i]].qid.qtype &&
              table.Assigned(KeyOf(dl.all[Firsts(dl.all)[i]]), d'.qid.path)
    ensures r == -1 ==> d' == d && unchanged(table) && table.buckets[..] == old(table.buckets[..])
    ensures table.Valid() && forall k, p :: old(table.Assigned(k, p)) ==> table.Assigned(k, p)
    ensures r != -1 ==> table.mapped == old(table.mapped) ||
                        table.mapped == old(table.mapped)[KeyOf(dl.all[Firsts(dl.all)[i]]) := d'.qid.path]
    ensures table.counter == old(table.counter) || table.counter == Next(old(table.counter))
    ensures old(table.Unique()) && old(table.counter) < MapFlag ==> table.Unique()
  {
    if dl.ndirs == i {
      return -1, d;
    }
    var dd := dl.all[dl.dirs[i].value];
    d' := DirCopy(d, dd);
    var q := table.Encode(dd);
    d' := d'.(qid := q);
    r := 0;
  }

  /**
   * The directory branch of fsread. At offset 0 the snapshot is rebuilt:
   * the descriptor is rewound (`seekOk` says whether that worked) and
   * dirlist rereads it (`read` is what dirreadall gives, None for its
   * failure), replacing the old snapshot or, on failure, leaving none. At
   * any other offset the existing snapshot is replayed unchanged.
   */
  method ReadDir(f: File, offset: int, seekOk: bool, read: Option<seq<Dir>>) returns (ok: bool)
    requires IsDir(f.dir)
    requires offset != 0 ==> f.dl != null && f.dl.Ready()
    requires read.Some? ==> forall i :: 0 <= i < |read.value| ==> NoNul(read.value[i].name)
    modifies f
    ensures f.dir == old(f.dir) && f.path == old(f.path) && f.realpath == old(f.realpath)
    ensures f.fd == old(f.fd) && f.mtpt == old(f.mtpt)
    ensures offset != 0 ==> ok && f.dl == old(f.dl)
    ensures offset == 0 && !seekOk ==> !ok && f.dl == old(f.dl)
    ensures offset == 0 && seekOk ==> (ok <==> read.Some?) && (!ok ==> f.dl == null)
    ensures offset == 0 && seekOk && ok ==>
              f.dl != null && fresh(f.dl) && f.dl.all == read.value && f.dl.Ready() &&
              f.dl.Contents() == NamesOf(read.value)
  {
    if offset == 0 {
      if !seekOk {
        return false;
      }
      f.dl := MakeDirlist(read);
      if f.dl == null {
        return false;
      }
    }
    return true;
  }
}
