/** The backing filesystem: a set of directories and a map from path to file
    text. `FsState` is its value; `FileSystem` is the object the handler
    holds and changes in place. */
module Files {
  import opened Paths

  /** A directory path together with all its ancestors, as `mkdirs` creates
      them (the path itself is always included). */
  function Lineage(p: string): (r: set<string>)
    ensures p in r
    ensures forall d :: d in r ==> d <= p
    decreases |p|
  {
    var parent := Dirname(p);
    if parent != "" && |parent| < |p| then {p} + Lineage(parent) else {p}
  }

  datatype FsState = FsState(dirs: set<string>, files: map<string, string>) {

    /** `filesystem.exists(p)`: a directory or a file is there. */
    predicate Exists(p: string) {
      p in dirs || p in files
    }

    /** `filesystem.mkdirs(p, exist_ok=True)`. */
    function MakeDirs(p: string): (r: FsState)
      ensures r.files == files
      ensures r.Exists(p)
      ensures dirs <= r.dirs
      ensures forall q :: r.Exists(q) <==> Exists(q) || q in Lineage(p)
    {
      FsState(dirs + Lineage(p), files)
    }

    /** Writing `text` to the file at `p`, replacing what was there. */
    function WriteText(p: string, text: string): (r: FsState)
      ensures r.dirs == dirs
      ensures p in r.files && r.files[p] == text
      ensures forall q :: q != p ==> (q in r.files <==> q in files)
      ensures forall q :: q != p && q in files ==> r.files[q] == files[q]
      ensures forall q :: r.Exists(q) <==> q == p || Exists(q)
    {
      FsState(dirs, files[p := text])
    }
  }

  class FileSystem {
    var dirs: set<string>
    var files: map<string, string>

    function State(): FsState
      reads this
    {
      FsState(dirs, files)
    }

    constructor (dirs: set<string>, files: map<string, string>)
      ensures State() == FsState(dirs, files)
    {
      this.dirs := dirs;
      this.files := files;
    }

    method MakeDirs(p: string)
      modifies this
      ensures State() == old(State()).MakeDirs(p)
    {
      dirs := dirs + Lineage(p);
    }

    method WriteText(p: string, text: string)
      modifies this
      ensures State() == old(State()).WriteText(p, text)
    {
      files := files[p := text];
    }
  }
}
