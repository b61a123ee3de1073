/**
 * The slice of the operating system's file system that the service touches:
 * which directories exist and which files exist with what bytes. Each operation
 * that can fail for reasons outside the program (permissions, a full disk, a
 * missing `convert` tool) takes that outcome from the environment as a parameter.
 */
module Files {
  import opened Basics

  /** The text of the `*PathError` Go returns when an exclusive create finds `path` taken. */
  function ExistsError(path: string): string {
    "open " + path + ": file exists"
  }

  class FileSystem {
    var dirs: set<string>
    var files: map<string, seq<byte>>

    constructor (dirs: set<string>, files: map<string, seq<byte>>)
      ensures this.dirs == dirs && this.files == files
    {
      this.dirs := dirs;
      this.files := files;
    }

    /**
     * `os.MkdirAll(dir, perm)`: nothing to do when `dir` exists; otherwise it
     * is created unless the environment reports a failure `fault`.
     */
    method MkdirAll(dir: string, fault: Option<string>) returns (err: Option<string>)
      modifies this
      ensures err == (if dir in old(dirs) then None else fault)
      ensures dirs == old(dirs) + (if err.None? then {dir} else {})
      ensures files == old(files)
    {
      if dir in dirs {
        err := None;
      } else {
        err := fault;
        if err.None? {
          dirs := dirs + {dir};
        }
      }
    }

    /**
     * `os.WriteFile(path, data, perm)`: creates or truncates `path` and stores
     * `data` in it, unless the environment reports a failure `fault`.
     */
    method WriteFile(path: string, data: seq<byte>, fault: Option<string>) returns (err: Option<string>)
      modifies this
      ensures err == fault
      ensures files == if err.None? then old(files)[path := data] else old(files)
      ensures dirs == old(dirs)
    {
      err := fault;
      if err.None? {
        files := files[path := data];
      }
    }

    /**
     * `os.Remove(path)`: removes an existing `path` unless the environment reports
     * a failure `fault` (permissions, a read-only file system); a missing path is
     * an error too.
     */
    method Remove(path: string, fault: Option<string>) returns (removed: bool)
      modifies this
      ensures removed == (path in old(files) && fault.None?)
      ensures files == if fault.None? then old(files) - {path} else old(files)
      ensures dirs == old(dirs)
    {
      removed := path in files && fault.None?;
      if fault.None? {
        files := files - {path};
      }
    }

    /**
     * `os.OpenFile(path, O_WRONLY|O_CREATE|O_EXCL, perm)` followed by a write:
     * like `WriteFile`, except that an existing `path` is an error and is left
     * as it was.
     */
    method CreateExclusive(path: string, data: seq<byte>, fault: Option<string>) returns (err: Option<string>)
      modifies this
      ensures err == if path in old(files) then Some(ExistsError(path)) else fault
      ensures files == if err.None? then old(files)[path := data] else old(files)
      ensures dirs == old(dirs)
    {
      if path in files {
        err := Some(ExistsError(path));
      } else {
        err := fault;
        if err.None? {
          files := files[path := data];
        }
      }
    }

    /**
     * The external `convert <path> <path>` process, which rewrites an image file
     * in place. `output` is what the process would write, or `None` when it fails;
     * a missing input file makes it fail too.
     */
    method Convert(path: string, output: Option<seq<byte>>) returns (ok: bool)
      modifies this
      ensures ok == (path in old(files) && output.Some?)
      ensures files == if ok then old(files)[path := output.value] else old(files)
      ensures dirs == old(dirs)
    {
      ok := path in files && output.Some?;
      if ok {
        files := files[path := output.value];
      }
    }
  }
}
