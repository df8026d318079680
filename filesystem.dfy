/** The part of the file system the cache builder touches: files and
    directories keyed by path, POSIX path joining and extension splitting,
    and the image-file count of a directory listing. */
module FileStore {
  import opened Text

  /** The contents of a file: the downloaded image bytes, or the UTF-8 text
      of an attribution file. */
  datatype FileData = Binary(bytes: seq<bv8>) | TextFile(text: string)

  /** The files and directories, by path. */
  datatype FileSystem = FileSystem(files: map<string, FileData>, dirs: set<string>)

  /** `os.path.exists`: a file or a directory. */
  predicate Exists(fs: FileSystem, path: string) {
    path in fs.files || path in fs.dirs
  }

  /** `os.path.join(dir, name)` on POSIX. */
  function Join(dir: string, name: string): (r: string)
    ensures StartsWith(name, "/") ==> r == name
    ensures !StartsWith(name, "/") ==> EndsWith(r, name) && StartsWith(r, dir) && |r| >= |dir| + |name|
  {
    if StartsWith(name, "/") then name
    else if dir == [] || EndsWith(dir, "/") then dir + name
    else dir + "/" + name
  }

  /** The text `Join(dir, name)` puts in front of a relative `name`. */
  function DirPrefix(dir: string): (r: string)
    ensures StartsWith(r, dir)
  {
    if dir == [] || EndsWith(dir, "/") then dir else dir + "/"
  }

  lemma JoinRelative(dir: string, name: string)
    requires !StartsWith(name, "/")
    ensures Join(dir, name) == DirPrefix(dir) + name
  {
  }

  /** Two relative names joined onto one directory give one path only if
      they are the same name. */
  lemma JoinInjective(dir: string, a: string, b: string)
    requires !StartsWith(a, "/") && !StartsWith(b, "/")
    requires Join(dir, a) == Join(dir, b)
    ensures a == b
  {
    var p := DirPrefix(dir);
    assert Join(dir, a)[|p|..] == a;
    assert Join(dir, b)[|p|..] == b;
  }

  /** The extension `os.path.splitext` splits off: from the last `.` of the
      last path segment, provided that segment has a character other than
      `.` before it (so `.bashrc` and `..` have none). */
  function SplitExt(path: string): (ext: string)
    ensures ext == [] || (ext[0] == '.' && EndsWith(path, ext) && '/' !in ext && '.' !in ext[1..])
  {
    var sep := RFind(path, '/', |path|);
    var dot := RFind(path, '.', |path|);
    if dot > sep && exists k | sep + 1 <= k < dot :: path[k] != '.' then
      assert path[dot..][1..] == path[dot + 1..];
      path[dot..]
    else []
  }

  /** A path segment `{stem}{ext}` whose stem is not all dots and whose
      `ext` is a dot followed by neither `.` nor `/` has extension `ext`. */
  lemma SplitExtOfName(dir: string, stem: string, ext: string)
    requires '/' !in stem && ext != [] && ext[0] == '.' && '/' !in ext && '.' !in ext[1..]
    requires exists k :: 0 <= k < |stem| && stem[k] != '.'
    ensures SplitExt(dir + "/" + stem + ext) == ext
  {
    var path := dir + "/" + stem + ext;
    var sep := RFind(path, '/', |path|);
    var dot := RFind(path, '.', |path|);
    assert path[|dir|] == '/';
    assert forall i :: |dir| < i < |path| ==> path[i] != '/';
    assert sep == |dir|;
    assert path[|dir| + 1 + |stem|] == '.';
    assert forall i :: |dir| + 1 + |stem| < i < |path| ==> path[i] != '.' by {
      forall i | |dir| + 1 + |stem| < i < |path| ensures path[i] != '.' {
        assert path[i] == ext[1..][i - |dir| - 2 - |stem|];
      }
    }
    assert dot == |dir| + 1 + |stem|;
    var k :| 0 <= k < |stem| && stem[k] != '.';
    assert path[sep + 1 + k] == stem[k];
    assert path[dot..] == ext;
  }

  /** The same for a bare file name `{stem}{ext}`. */
  lemma SplitExtOfBareName(stem: string, ext: string)
    requires '/' !in stem && ext != [] && ext[0] == '.' && '/' !in ext && '.' !in ext[1..]
    requires exists k :: 0 <= k < |stem| && stem[k] != '.'
    ensures SplitExt(stem + ext) == ext
  {
    var path := stem + ext;
    assert forall i :: 0 <= i < |path| ==> path[i] != '/';
    assert RFind(path, '/', |path|) == -1;
    assert path[|stem|] == '.';
    assert forall i :: |stem| < i < |path| ==> path[i] != '.' by {
      forall i | |stem| < i < |path| ensures path[i] != '.' {
        assert path[i] == ext[1..][i - |stem| - 1];
      }
    }
    var dot := RFind(path, '.', |path|);
    assert dot == |stem|;
    var k :| 0 <= k < |stem| && stem[k] != '.';
    assert path[k] == stem[k];
    assert path[dot..] == ext;
  }

  /** The entries `os.listdir(dir)` returns: the last segment of every file
      or directory directly inside `dir`. */
  predicate InDir(dir: string, path: string) {
    var p := DirPrefix(dir);
    StartsWith(path, p) && |path| > |p| && '/' !in path[|p|..]
  }

  function Entries(fs: FileSystem, dir: string): set<string> {
    set path | path in fs.files.Keys + fs.dirs && InDir(dir, path) :: path[|DirPrefix(dir)|..]
  }

  /** A file directly inside `dir` is listed under its bare name. */
  lemma FileIsListed(fs: FileSystem, dir: string, name: string)
    requires name != [] && '/' !in name && Join(dir, name) in fs.files
    ensures name in Entries(fs, dir)
  {
    assert name[..1] == [name[0]] && name[0] != '/';
    JoinRelative(dir, name);
    var path := Join(dir, name);
    assert path[|DirPrefix(dir)|..] == name;
    assert InDir(dir, path);
  }

  /** A name the cache treats as an image: it ends in `.png`, `.jpg` or
      `.jpeg`, whatever the case of its letters. */
  predicate IsImageName(name: string) {
    var l := Lower(name);
    EndsWith(l, ".png") || EndsWith(l, ".jpg") || EndsWith(l, ".jpeg")
  }

  /** The entries of `dir` that count as images. */
  function ImageEntries(fs: FileSystem, dir: string): set<string> {
    set name | name in Entries(fs, dir) && IsImageName(name)
  }

  /** An attribution file is not an image, whatever else is in its name. */
  lemma TxtIsNotImage(base: string)
    ensures !IsImageName(base + ".txt")
  {
    var l := Lower(base + ".txt");
    assert l[|l| - 4..] == ".txt";
  }

  /** Adding a non-image file never changes the images a directory counts. */
  lemma ImageEntriesIgnoreOtherFiles(fs: FileSystem, dir: string, path: string, data: FileData)
    requires InDir(dir, path) ==> !IsImageName(path[|DirPrefix(dir)|..])
    ensures ImageEntries(FileSystem(fs.files[path := data], fs.dirs), dir) == ImageEntries(fs, dir)
  {
    var fs2 := FileSystem(fs.files[path := data], fs.dirs);
    forall name | name in ImageEntries(fs2, dir)
      ensures name in ImageEntries(fs, dir)
    {
      var q :| q in fs2.files.Keys + fs2.dirs && InDir(dir, q) && q[|DirPrefix(dir)|..] == name;
      assert q != path;
    }
  }
}
