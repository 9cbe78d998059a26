/** The disk as rich-codex's capture-and-save code sees it (a map from path
    to contents, changed by shutil.copyfile, tempfile.mkstemp, Path.unlink
    and file writes) and the pathlib operations applied to paths. Directories
    are not modelled. */
module Files {
  import opened Py
  import opened PyStr

  newtype byte = x: int | 0 <= x < 256

  type Bytes = seq<byte>

  /** The output formats save_images knows, by file extension. */
  datatype Format = Svg | Png | Pdf

  /** The last index of c in s, if any (str.rfind). */
  function LastIndexOf(s: string, c: char): (r: Option<nat>)
    ensures r.Some? ==> r.value < |s| && s[r.value] == c
    ensures r.Some? ==> forall j :: r.value < j < |s| ==> s[j] != c
    ensures r.None? ==> forall j :: 0 <= j < |s| ==> s[j] != c
    decreases |s|
  {
    if s == [] then None
    else if s[|s| - 1] == c then Some(|s| - 1)
    else LastIndexOf(s[..|s| - 1], c)
  }

  /** Path.parent: everything before the last '/', "/" for a root entry,
      "." for a bare file name. */
  function Parent(p: string): string
  {
    match LastIndexOf(p, '/')
    case None => "."
    case Some(k) => if k == 0 then "/" else p[..k]
  }

  /** Path.name: the last component. */
  function Name(p: string): (r: string)
    ensures forall j :: 0 <= j < |r| ==> r[j] != '/'
  {
    match LastIndexOf(p, '/')
    case None => p
    case Some(k) => p[k + 1..]
  }

  /** pathlib's `dir / rel`: an absolute right-hand side replaces the left,
      an empty one (Path("") is ".") leaves the left, and a "." on the left
      disappears. */
  function JoinPath(dir: string, rel: string): string
  {
    if rel == "" then dir
    else if StartsWith(rel, "/") then rel
    else if dir == "." then rel
    else if EndsWith(dir, "/") then dir + rel
    else dir + "/" + rel
  }

  /** Path.suffix: the last '.'-part of the name, unless the dot starts or
      ends the name. */
  function Suffix(p: string): (r: string)
    ensures r == [] || (r[0] == '.' && EndsWith(p, r))
  {
    var name := Name(p);
    match LastIndexOf(name, '.')
    case None => ""
    case Some(i) =>
      if 0 < i < |name| - 1 then
        assert EndsWith(p, name);
        name[i..]
      else ""
  }

  /** PurePath.is_relative_to(base): p is base or lies below it. */
  predicate IsRelativeTo(p: string, base: string)
  {
    p == base || StartsWith(p, if EndsWith(base, "/") then base else base + "/")
  }

  /** Going from `before` to `after` left every file outside dir alone,
      except those in written, and created files only in written or under
      dir. */
  predicate FilesKept(before: map<string, Bytes>, after: map<string, Bytes>, written: set<string>, dir: string)
  {
    (forall p :: p in before && p !in written && !IsRelativeTo(p, dir) ==> p in after && after[p] == before[p])
    && (forall p :: p in after && p !in before ==> p in written || IsRelativeTo(p, dir))
  }

  /** Two such changes in a row are one, writing what either wrote. */
  lemma FilesKeptChain(a: map<string, Bytes>, b: map<string, Bytes>, c: map<string, Bytes>,
                       w1: set<string>, w2: set<string>, w: set<string>, dir: string)
    requires FilesKept(a, b, w1, dir) && FilesKept(b, c, w2, dir) && w1 <= w && w2 <= w
    ensures FilesKept(a, c, w, dir)
  {
    forall p | p in c && p !in a ensures p in w || IsRelativeTo(p, dir) {
      if p in b {
        assert p in w1 || IsRelativeTo(p, dir);
      }
    }
  }

  /** The format a destination asks for: `filename.lower().endswith(ext)`.
      At most one extension can match, so the three tests of save_images
      are exclusive. */
  function FormatOf(p: string): (r: Option<Format>)
    ensures r == Some(Png) <==> EndsWith(Lower(p), ".png")
    ensures r == Some(Pdf) <==> EndsWith(Lower(p), ".pdf")
    ensures r == Some(Svg) <==> EndsWith(Lower(p), ".svg")
  {
    var l := Lower(p);
    if EndsWith(l, ".png") then Some(Png)
    else if EndsWith(l, ".pdf") then Some(Pdf)
    else if EndsWith(l, ".svg") then Some(Svg)
    else None
  }

  /** The error shutil.copyfile(src, dst) raises, if any. */
  function CopyError(files: map<string, Bytes>, src: string, dst: string): Option<Error>
  {
    if src !in files then Some(FileNotFound)
    else if src == dst then Some(SameFileError)
    else None
  }

  /** Some string is longer than every member of a finite set. */
  lemma {:induction false} LongerThanAll(s: set<string>) returns (n: nat)
    ensures forall x :: x in s ==> |x| < n
    decreases s
  {
    if s == {} {
      n := 0;
    } else {
      var x :| x in s;
      var m := LongerThanAll(s - {x});
      n := if |x| < m then m else |x| + 1;
    }
  }

  class FileSystem {
    var files: map<string, Bytes>

    constructor (initial: map<string, Bytes>)
      ensures files == initial
    {
      files := initial;
    }

    /** shutil.copyfile(src, dst) */
    method CopyFile(src: string, dst: string) returns (err: Option<Error>)
      modifies this
      ensures err == CopyError(old(files), src, dst)
      ensures files == if err.None? then old(files)[dst := old(files)[src]] else old(files)
    {
      err := CopyError(files, src, dst);
      if err.None? {
        files := files[dst := files[src]];
      }
    }

    /** Writing a whole file (what the renderer and the converters do). */
    method WriteFile(p: string, data: Bytes)
      modifies this
      ensures files == old(files)[p := data]
    {
      files := files[p := data];
    }

    /** tempfile.mkstemp(): a new, empty file under dir whose name no file
        has yet. */
    method MkTemp(dir: string) returns (p: string)
      modifies this
      ensures p !in old(files) && IsRelativeTo(p, dir) && p != dir
      ensures files == old(files)[p := []]
    {
      var n := LongerThanAll(files.Keys);
      var base := if EndsWith(dir, "/") then dir else dir + "/";
      var longer := base + seq(n, _ => 't');
      assert StartsWith(longer, base) && longer !in files;
      p :| p !in files && IsRelativeTo(p, dir) && p != dir;
      files := files[p := []];
    }

    /** Path.unlink() */
    method Unlink(p: string) returns (err: Option<Error>)
      modifies this
      ensures err == if p in old(files) then None else Some(FileNotFound)
      ensures files == old(files) - {p}
    {
      err := if p in files then None else Some(FileNotFound);
      files := files - {p};
    }
  }
}
