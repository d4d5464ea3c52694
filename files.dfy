/**
 * `FileProxy`, the wrapper through which the core sees files, reduced to the facts the
 * core asks of a file: its path, its name, whether it exists, and its bytes.
 */
module Files {
  import opened Bytes

  /** `path` with its trailing separators dropped, as `java.io.File` normalises it. */
  function TrimSeparators(path: string): string
  {
    if path == [] || path[|path| - 1] != '/' then path
    else TrimSeparators(path[..|path| - 1])
  }

  /** The characters after the last separator of `path`. */
  function LastComponent(path: string): string
  {
    if path == [] || path[|path| - 1] == '/' then []
    else LastComponent(path[..|path| - 1]) + [path[|path| - 1]]
  }

  /** `File.getName()` on a Unix path: the last name of the path, trailing separators ignored. */
  function FileName(path: string): string
  {
    LastComponent(TrimSeparators(path))
  }

  /** Trimming keeps a prefix that does not end in a separator and drops only separators. */
  lemma {:induction false} TrimSeparatorsIsPrefix(path: string)
    ensures var t := TrimSeparators(path);
            && |t| <= |path| && t == path[..|t|]
            && (forall i :: |t| <= i < |path| ==> path[i] == '/')
            && (t == [] || t[|t| - 1] != '/')
  {
    if path != [] && path[|path| - 1] == '/' {
      TrimSeparatorsIsPrefix(path[..|path| - 1]);
    }
  }

  /** The last component has no separator, ends `path`, and follows a separator unless it is all of `path`. */
  lemma {:induction false} LastComponentIsSuffix(path: string)
    ensures var r := LastComponent(path);
            && '/' !in r
            && |r| <= |path| && r == path[|path| - |r|..]
            && (|r| < |path| ==> path[|path| - |r| - 1] == '/')
  {
    if path != [] && path[|path| - 1] != '/' {
      var init, c := path[..|path| - 1], path[|path| - 1];
      LastComponentIsSuffix(init);
      var r := LastComponent(init);
      assert LastComponent(path) == r + [c];
      assert init[|init| - |r|..] + [c] == path[|path| - |r| - 1..];
      assert '/' !in r + [c] by {
        forall i | 0 <= i < |r| + 1 ensures (r + [c])[i] != '/' {
          if i < |r| {
            assert (r + [c])[i] == r[i];
          }
        }
      }
    }
  }

  /** A name with no separator names itself, so a file name is its own file name. */
  lemma {:induction false} FileNameOfName(name: string)
    requires '/' !in name
    ensures FileName(name) == name
  {
    if name != [] {
      var init := name[..|name| - 1];
      assert '/' !in init by {
        forall i | 0 <= i < |init| ensures init[i] != '/' {
          assert init[i] == name[i];
        }
      }
      FileNameOfName(init);
      assert TrimSeparators(init) == init;
    }
  }

  /**
   * The file name has no separator; it ends the path once the trailing separators are
   * dropped, and is preceded there by a separator unless it is the whole trimmed path.
   */
  lemma FileNameIsLast(path: string)
    ensures '/' !in FileName(path)
    ensures var t := TrimSeparators(path);
            var r := FileName(path);
            && |r| <= |t| <= |path| && t[|t| - |r|..] == r && path[..|t|] == t
            && (|r| < |t| ==> t[|t| - |r| - 1] == '/')
            && (forall i :: |t| <= i < |path| ==> path[i] == '/')
  {
    TrimSeparatorsIsPrefix(path);
    LastComponentIsSuffix(TrimSeparators(path));
  }

  /**
   * A file as seen when the proxy was created: the path it was made from, `exists()`, and
   * the bytes at that path. A missing file has no bytes.
   */
  datatype FileProxy = FileProxy(path: string, present: bool, contents: seq<byte>)
  {
    /** `getName()`: the last name of the path. */
    function Name(): string
    {
      FileName(path)
    }

    /** `isEmpty()`: `File.length() == 0`, which also holds for a missing file. */
    predicate IsEmpty()
    {
      |contents| == 0
    }
  }

  /** The files present on disk, by path. */
  type FileSystem = map<string, seq<byte>>

  /** `new FileProxy()` set to `new File(path)`: a view of `path` in `fs`. */
  function Open(fs: FileSystem, path: string): (f: FileProxy)
    ensures f.path == path && (f.present <==> path in fs)
    ensures !f.present ==> f.IsEmpty()
  {
    if path in fs then FileProxy(path, true, fs[path]) else FileProxy(path, false, [])
  }

  /** `touch()`: `createNewFile`, which leaves an existing file alone and creates an empty one otherwise. */
  function Touch(f: FileProxy): (g: FileProxy)
    ensures g.path == f.path && g.present
    ensures f.present ==> g == f
    ensures !f.present ==> g.IsEmpty()
  {
    if f.present then f else FileProxy(f.path, true, [])
  }
}
