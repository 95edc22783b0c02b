/** A loop over the files a folder search found, collecting one entry per file. */
module PerFile {

  /** The entries of `paths`, in that order, each computed by `f` from its path. */
  function MapFiles<R>(paths: seq<string>, f: string -> R): (entries: seq<R>)
    ensures |entries| == |paths|
  {
    if paths == [] then [] else MapFiles(paths[..|paths| - 1], f) + [f(paths[|paths| - 1])]
  }

  /** Entry `k` is computed from file `k` alone. */
  lemma {:induction false} MapFilesAt<R>(paths: seq<string>, f: string -> R, k: nat)
    requires k < |paths|
    ensures MapFiles(paths, f)[k] == f(paths[k])
  {
    var init, last := paths[..|paths| - 1], paths[|paths| - 1];
    var head := MapFiles(init, f);
    assert MapFiles(paths, f) == head + [f(last)];
    if k < |init| {
      MapFilesAt(init, f, k);
      assert init[k] == paths[k];
      assert (head + [f(last)])[k] == head[k];
    } else {
      assert paths[k] == last && (head + [f(last)])[k] == f(last);
    }
  }
}
