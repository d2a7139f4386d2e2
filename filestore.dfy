/** The part of the filesystem the pipeline writes: file contents by path, and directory paths. */
module FileStore {
  import opened Paths

  class Store {
    var files: map<string, string>
    var dirs: set<string>

    constructor (files0: map<string, string>, dirs0: set<string>)
      ensures files == files0 && dirs == dirs0
    {
      files := files0;
      dirs := dirs0;
    }

    /** `os.path.isdir(p)`; a trailing separator names the same directory. */
    predicate IsDir(p: string)
      reads this
    {
      Canon(p) in dirs
    }

    /** `os.makedirs(p, exist_ok=True)`. */
    method MakeDirs(p: string)
      modifies this
      ensures dirs == old(dirs) + DirsOf(p)
      ensures files == old(files)
    {
      dirs := dirs + DirsOf(p);
    }

    /** The file at `p` now holds `data`: `shutil.copy` to `p`, or the seek/write/truncate rewrite. */
    method Put(p: string, data: string)
      modifies this
      ensures files == old(files)[p := data]
      ensures dirs == old(dirs)
    {
      files := files[p := data];
    }
  }
}
