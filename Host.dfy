/**
 * What the server sees of the host. The file tree behind dirstat and
 * create is a value handed in; a path exists when it is in `files`.
 * unionfs.c's `walk` joins path parts and applies cleanname, which is a
 * function parameter whose workings are not modelled.
 */
module Host {
  import opened Common

  /**
   * The host file tree: `files` holds the metadata dirstat returns for
   * every existing path, `creatable` the paths where create succeeds and
   * the metadata of what it makes there.
   */
  datatype Fs = Fs(files: map<Str, Dir>, creatable: map<Str, Dir>)

  /**
   * create(path, ...): fails (None) where the tree refuses it; otherwise
   * the path exists afterwards with the metadata the tree gives it.
   */
  function Create(fs: Fs, path: Str): (r: Option<Fs>)
    ensures r.Some? <==> path in fs.creatable
    ensures r.Some? ==> r.value.creatable == fs.creatable &&
                        r.value.files == fs.files[path := fs.creatable[path]]
  {
    if path in fs.creatable then Some(fs.(files := fs.files[path := fs.creatable[path]])) else None
  }

  /**
   * The string walk's four s_append calls build: `s`, "/", `n0`, "/" and
   * `n1`, in that order. A nil `n1` is the empty string here: libString's
   * s_append(s, nil) is taken to append nothing.
   */
  function Joined(s: Str, n0: Str, n1: Str): (r: Str)
    ensures |r| == |s| + |n0| + |n1| + 2
    ensures r[..|s|] == s && r[|s|] == Slash && r[|s| + 1..|s| + 1 + |n0|] == n0
    ensures r[|s| + 1 + |n0|] == Slash && r[|s| + 2 + |n0|..] == n1
  {
    s + [Slash] + n0 + [Slash] + n1
  }

  /** walk(s, n0, n1): cleanname of what the appends built. */
  function Walk(clean: Str -> Str, s: Str, n0: Str, n1: Str): Str
  {
    clean(Joined(s, n0, n1))
  }
}
