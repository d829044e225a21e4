/**
 * The branch list of unionfs (main, unionfs.c): every path argument that
 * exists becomes a branch, in argument order; a "-c" argument between
 * them moves the create mark on, and with no "-c" at all the first branch
 * takes new files.
 */
module Branches {
  import opened Common
  import opened Host

  /** A branch of the union (struct Branch): its root, and whether new files go there. */
  datatype Branch = Branch(root: Str, create: bool)

  /** A slot of main's branch array. emalloc zeroes it, so its root starts nil (None). */
  datatype Slot = Slot(root: Option<Str>, create: bool)

  /** The argument "-c". */
  const CArg: Str := [0x2D, 0x63]

  /**
   * What main consults while it scans the arguments: the host tree
   * (dirstat), cleanname, the mount point of the union, and pivot, which
   * rebinds a branch that is the mount point itself and names the new place.
   */
  datatype Env = Env(fs: Fs, clean: Str -> Str, mountat: Option<Str>, pivot: Str -> Str)

  /** The root recorded for the cleaned, existing path `path`. */
  function RootOf(env: Env, path: Str): Str
  {
    if env.mountat == Some(path) then env.pivot(path) else path
  }

  /**
   * The scan state after some arguments: the branches filled in so far,
   * how many times nbranch was decremented, and the counter c.
   */
  datatype Scan = Scan(kept: seq<Branch>, dropped: nat, c: int)

  /**
   * main's loop over `args` from the counter `c0` (1 when the -c flag was
   * given). A "-c" drops one from nbranch and bumps c; a path that does not
   * exist is skipped, and dropped from nbranch only when `fixed`; an
   * existing path fills the next slot, marked create exactly when c == 1.
   */
  function ScanArgs(args: seq<Str>, c0: int, env: Env, fixed: bool): (r: Scan)
    ensures |r.kept| + r.dropped <= |args|
  {
    if args == [] then Scan([], 0, c0)
    else
      var st := ScanArgs(args[..|args| - 1], c0, env, fixed);
      var a := args[|args| - 1];
      if a == CArg then Scan(st.kept, st.dropped + 1, st.c + 1)
      else if env.clean(a) !in env.fs.files then
        if fixed then Scan(st.kept, st.dropped + 1, st.c) else st
      else Scan(st.kept + [Branch(RootOf(env, env.clean(a)), st.c == 1)], st.dropped, st.c)
  }

  /** The value of c when argument `i` is reached. */
  function CAt(args: seq<Str>, c0: int, i: int): int
    requires 0 <= i <= |args|
  {
    if i == 0 then c0 else CAt(args, c0, i - 1) + (if args[i - 1] == CArg then 1 else 0)
  }

  /** The path arguments that exist, by index: the ones that become branches. */
  function Origins(args: seq<Str>, env: Env): (r: seq<nat>)
    ensures forall k :: 0 <= k < |r| ==> r[k] < |args|
  {
    if args == [] then []
    else
      var n := |args| - 1;
      Origins(args[..n], env) + (if args[n] != CArg && env.clean(args[n]) in env.fs.files then [n] else [])
  }

  /** The number of path arguments that do not exist. */
  function Missing(args: seq<Str>, env: Env): nat
  {
    if args == [] then 0
    else
      var n := |args| - 1;
      Missing(args[..n], env) + (if args[n] != CArg && env.clean(args[n]) !in env.fs.files then 1 else 0)
  }

  /**
   * The scan, stated argument by argument: the k-th branch comes from the
   * k-th existing path argument, is rooted at its cleaned (or pivoted)
   * path, and is marked create exactly when c == 1 there; c ends as c0
   * plus the number of "-c" arguments. Skipping a missing path does not
   * change the branches, so this holds whether or not it is dropped.
   */
  lemma {:induction false} ScanBranches(args: seq<Str>, c0: int, env: Env, fixed: bool)
    ensures var st := ScanArgs(args, c0, env, fixed);
            var o := Origins(args, env);
            |st.kept| == |o| && st.c == CAt(args, c0, |args|) &&
            forall k :: 0 <= k < |o| ==>
              st.kept[k] == Branch(RootOf(env, env.clean(args[o[k]])), CAt(args, c0, o[k]) == 1)
    decreases |args|
  {
    if args != [] {
      var n := |args| - 1;
      var pre := args[..n];
      ScanBranches(pre, c0, env, fixed);
      assert forall i :: 0 <= i < n ==> pre[i] == args[i];
      CAtPrefix(args, c0, n);
      forall k | 0 <= k < |Origins(pre, env)|
        ensures CAt(pre, c0, Origins(pre, env)[k]) == CAt(args, c0, Origins(pre, env)[k])
      {
        CAtPrefix(args, c0, Origins(pre, env)[k]);
      }
    }
  }

  /** c at argument `i` depends only on the arguments before it. */
  lemma {:induction false} CAtPrefix(args: seq<Str>, c0: int, i: int)
    requires 0 <= i < |args|
    ensures CAt(args[..|args| - 1], c0, i) == CAt(args, c0, i)
    decreases i
  {
    if i > 0 {
      CAtPrefix(args, c0, i - 1);
    }
  }

  /**
   * With the fix, nbranch = argc - dropped counts exactly the filled
   * slots: every argument is a "-c", a missing path, or a branch.
   */
  lemma {:induction false} FixedCount(args: seq<Str>, c0: int, env: Env)
    ensures |args| - ScanArgs(args, c0, env, true).dropped == |ScanArgs(args, c0, env, true).kept|
    decreases |args|
  {
    if args != [] {
      FixedCount(args[..|args| - 1], c0, env);
    }
  }

  /**
   * As written, nbranch = argc - dropped overcounts the filled slots by
   * the number of missing paths.
   */
  lemma {:induction false} AsWrittenCount(args: seq<Str>, c0: int, env: Env)
    ensures |args| - ScanArgs(args, c0, env, false).dropped ==
              |ScanArgs(args, c0, env, false).kept| + Missing(args, env)
    decreases |args|
  {
    if args != [] {
      AsWrittenCount(args[..|args| - 1], c0, env);
    }
  }

  /**
   * main as written: the branch array of argc slots (the filled ones
   * first, the rest still nil) and nbranch, or None when branch[0].root is
   * nil and main exits. With c == 0 at the end branch[0] takes creates.
   */
  function BranchesAsWritten(args: seq<Str>, c0: int, env: Env): (r: Option<(seq<Slot>, int)>)
    ensures var st := ScanArgs(args, c0, env, false);
            (r.Some? <==> st.kept != []) &&
            (r.Some? ==>
               |r.value.0| == |args| && r.value.1 == |args| - st.dropped &&
               (forall k :: 0 <= k < |st.kept| ==> r.value.0[k].root == Some(st.kept[k].root)) &&
               (forall k :: 0 <= k < |st.kept| ==>
                  r.value.0[k].create == (st.kept[k].create || (k == 0 && st.c == 0))) &&
               (forall k :: |st.kept| <= k < |args| ==> r.value.0[k] == Slot(None, false)))
  {
    var st := ScanArgs(args, c0, env, false);
    var filled := seq(|st.kept|, k requires 0 <= k < |st.kept| => Slot(Some(st.kept[k].root), st.kept[k].create));
    var slots := filled + seq(|args| - |st.kept|, _ => Slot(None, false));
    if st.kept == [] then None
    else Some((if st.c == 0 then slots[0 := slots[0].(create := true)] else slots, |args| - st.dropped))
  }

  /**
   * The input that shows the miscount: branches "/a" and "/gone", where
   * "/gone" does not exist. main keeps nbranch = 2, so the branch list
   * ends in a slot whose root is nil.
   */
  lemma SkipMiscount(d: Dir)
    ensures var a: Str := [0x2F, 0x61];
            var gone: Str := [0x2F, 0x67, 0x6F, 0x6E, 0x65];
            var env := Env(Fs(map[a := d], map[]), s => s, None, s => s);
            var r := BranchesAsWritten([a, gone], 0, env);
            r.Some? && r.value.1 == 2 && r.value.0[1].root == None
  {
    var a: Str := [0x2F, 0x61];
    var gone: Str := [0x2F, 0x67, 0x6F, 0x6E, 0x65];
    var env := Env(Fs(map[a := d], map[]), s => s, None, s => s);
    assert a != CArg && gone != CArg && gone != a;
    assert [a, gone][..1] == [a];
    assert [a][..0] == [];
    assert ScanArgs([a], 0, env, false) == Scan([Branch(a, false)], 0, 0);
    assert ScanArgs([a, gone], 0, env, false) == Scan([Branch(a, false)], 0, 0);
  }

  /**
   * The branch list as evidently intended: the existing paths in order,
   * with the create marks of the scan, and branch 0 marked when c ends 0;
   * None when no path exists.
   */
  function BranchList(args: seq<Str>, c0: int, env: Env): Option<seq<Branch>>
  {
    var st := ScanArgs(args, c0, env, true);
    if st.kept == [] then None
    else Some(if st.c == 0 then st.kept[0 := st.kept[0].(create := true)] else st.kept)
  }

  /**
   * When no path is missing the fix changes nothing: main as written
   * builds the same branches and the same nbranch.
   */
  lemma {:induction false} NoMissingAgrees(args: seq<Str>, c0: int, env: Env)
    requires Missing(args, env) == 0
    ensures ScanArgs(args, c0, env, false) == ScanArgs(args, c0, env, true)
    decreases |args|
  {
    if args != [] {
      NoMissingAgrees(args[..|args| - 1], c0, env);
    }
  }

  /**
   * main's branch loop with nbranch dropped for a missing path too: fills
   * the array `branch` of argc slots through the index `b`, then refuses
   * an empty list and gives creates to branch 0 when no "-c" was seen.
   */
  method MakeBranches(args: seq<Str>, c0: int, env: Env) returns (branch: array<Slot>, nbranch: int, ok: bool)
    requires |args| >= 1
    ensures ok <==> BranchList(args, c0, env).Some?
    ensures ok ==> nbranch == |BranchList(args, c0, env).value| <= branch.Length &&
                   forall k :: 0 <= k < nbranch ==>
                     branch[k] == Slot(Some(BranchList(args, c0, env).value[k].root), BranchList(args, c0, env).value[k].create)
  {
    branch := new Slot[|args|](_ => Slot(None, false));
    nbranch := |args|;
    var c := c0;
    var b := 0;
    for i := 0 to |args|
      invariant var st := ScanArgs(args[..i], c0, env, true);
                b == |st.kept| && nbranch == |args| - st.dropped && c == st.c && b <= i
      invariant forall k :: 0 <= k < b ==>
                  branch[k] == Slot(Some(ScanArgs(args[..i], c0, env, true).kept[k].root),
                                    ScanArgs(args[..i], c0, env, true).kept[k].create)
      invariant forall k :: b <= k < branch.Length ==> branch[k] == Slot(None, false)
    {
      assert args[..i + 1][..i] == args[..i];
      if args[i] == CArg {
        nbranch := nbranch - 1;
        c := c + 1;
        continue;
      }
      var path := env.clean(args[i]);
      if path !in env.fs.files {
        nbranch := nbranch - 1;
        continue;
      }
      branch[b] := Slot(Some(RootOf(env, path)), c == 1);
      b := b + 1;
    }
    assert args[..|args|] == args;
    FixedCount(args, c0, env);
    if branch[0].root == None {
      return branch, nbranch, false;
    }
    if c == 0 {
      branch[0] := branch[0].(create := true);
    }
    ok := true;
  }
}
