/** The I/O layer over an explicit file-system value: validated absolute
    file handles, line-oriented reading, overwriting and appending with
    deep parent creation, file collections, and the `ls` basename mode. */
module Files {
  import opened Errors
  import Text
  import Vectors
  import Convert

  /** The part of the file system the daemon touches. `text` holds regular
      files; paths in `unreadable`, `unwritable` and `unmakeable` are where
      opening for reading, opening for writing and `mkdir` fail. */
  datatype FileSystem = FileSystem(
    text: map<string, string>,
    dirs: set<string>,
    unreadable: set<string>,
    unwritable: set<string>,
    unmakeable: set<string>)

  /** `file_exists(path)` (a successful `stat`). */
  predicate Exists(fs: FileSystem, path: string) {
    path in fs.text || path in fs.dirs
  }

  // ---------------------------------------------------------------------
  // lines

  function FirstNewline(t: string, from: nat): (r: Option<nat>)
    requires from <= |t|
    ensures r.Some? ==> from <= r.value < |t| && t[r.value] == '\n'
    ensures r.Some? ==> forall k :: from <= k < r.value ==> t[k] != '\n'
    ensures r.None? ==> forall k :: from <= k < |t| ==> t[k] != '\n'
    decreases |t| - from
  {
    if from == |t| then None
    else if t[from] == '\n' then Some(from)
    else FirstNewline(t, from + 1)
  }

  /** The lines `std::getline` yields: the text between newlines, the last
      one kept only if it is not empty. */
  function Lines(t: string): seq<string>
    decreases |t|
  {
    if |t| == 0 then []
    else match FirstNewline(t, 0)
      case None => [t]
      case Some(i) => [t[..i]] + Lines(t[i + 1..])
  }

  /** Text that is empty or ends with a newline. */
  predicate Terminated(t: string) {
    |t| == 0 || t[|t| - 1] == '\n'
  }

  /** Appending a terminated line adds exactly that line. */
  lemma {:induction false} LinesAppend(t: string, line: string)
    requires Terminated(t) && '\n' !in line
    ensures Lines(t + line + "\n") == Lines(t) + [line]
    decreases |t|
  {
    var u := t + line + "\n";
    if |t| == 0 {
      assert u == line + "\n";
      assert FirstNewline(u, 0) == Some(|line|) by {
        forall k | 0 <= k < |line|
          ensures u[k] != '\n'
        {
          assert u[k] == line[k];
          assert line[k] in line;
        }
        FirstNewlineIs(u, 0, |line|);
      }
      assert u[..|line|] == line && u[|line| + 1..] == "";
    } else {
      var i := FirstNewline(t, 0).value;
      forall k | 0 <= k < i
        ensures u[k] != '\n'
      {
        assert u[k] == t[k];
      }
      assert u[i] == '\n';
      FirstNewlineIs(u, 0, i);
      assert u[..i] == t[..i];
      assert u[i + 1..] == t[i + 1..] + line + "\n";
      LinesAppend(t[i + 1..], line);
    }
  }

  lemma {:induction false} FirstNewlineIs(t: string, from: nat, i: nat)
    requires from <= i < |t| && t[i] == '\n'
    requires forall k :: from <= k < i ==> t[k] != '\n'
    ensures FirstNewline(t, from) == Some(i)
    decreases i - from
  {
    if from < i {
      FirstNewlineIs(t, from + 1, i);
    }
  }

  /** A single terminated line reads back as itself. */
  lemma LinesSingle(line: string)
    requires '\n' !in line
    ensures Lines(line + "\n") == [line]
  {
    LinesAppend("", line);
    assert "" + line + "\n" == line + "\n";
  }

  // ---------------------------------------------------------------------
  // File

  /** A file handle; `existed` is whether the path existed when it was made. */
  datatype File = File(path: string, existed: bool)

  predicate ValidPath(path: string) {
    |path| > 0 && path[0] == '/' && path[|path| - 1] != '/'
  }

  /** Constructing a `File` validates its path and records existence. */
  function Open(fs: FileSystem, path: string): (r: Result<File>)
    ensures r.Ok? <==> ValidPath(path)
    ensures r.Ok? ==> r.value == File(path, Exists(fs, path))
    ensures r.Err? ==> r.error.ArgumentError? && r.error.argName == "file_path"
  {
    if |path| == 0 then
      Err(ArgumentError("file_path", "string", "/dev/null",
                        "File path provided during construction of File object is blank."))
    else if path[0] != '/' then
      Err(ArgumentError("file_path", "string", "/dev/null",
                        "File object must be constructed with an absolute filepath."))
    else if path[|path| - 1] == '/' then
      Err(ArgumentError("file_path", "string", "/dev/null",
                        "File object was constructed with a directory path."))
    else Ok(File(path, Exists(fs, path)))
  }

  /** Reading a file's lines; existence is checked afresh. A directory opens
      but yields no lines. */
  function Read(fs: FileSystem, f: File): (r: Result<seq<string>>)
    ensures r.Err? <==> !Exists(fs, f.path) || f.path in fs.unreadable
    ensures !Exists(fs, f.path) ==> r == Err(IOError(f.path, "read", "File does not exist."))
    ensures Exists(fs, f.path) && f.path in fs.unreadable ==> r == Err(IOError(f.path, "read", ""))
  {
    if !Exists(fs, f.path) then Err(IOError(f.path, "read", "File does not exist."))
    else if f.path in fs.unreadable then Err(IOError(f.path, "read", ""))
    else if f.path in fs.text then Ok(Lines(fs.text[f.path]))
    else Ok([])
  }

  /** Reading a file whose lines convert to an integer type. */
  function ReadValues(fs: FileSystem, f: File, t: Convert.IntType): (r: Result<seq<int>>)
    ensures r.Ok? ==> Read(fs, f).Ok? && r == Convert.ConvertAll(t, Read(fs, f).value)
    ensures Read(fs, f).Err? ==> r == Err(Read(fs, f).error)
  {
    var lines :- Read(fs, f);
    Convert.ConvertAll(t, lines)
  }

  // ---------------------------------------------------------------------
  // directories

  /** The path of the first `depth` components, with a leading slash. */
  function Prefix(spl: seq<string>, depth: nat): string
    requires 0 < depth <= |spl|
  {
    "/" + Vectors.Join(spl[..depth], "/")
  }

  /** `mkdir_deep` from component `depth` on: every prefix that does not
      exist is created, the first failing one raising an error. */
  function MkdirFrom(fs: FileSystem, spl: seq<string>, depth: nat): (r: Result<FileSystem>)
    requires depth <= |spl|
    ensures r.Ok? ==> r.value.text == fs.text && fs.dirs <= r.value.dirs
    ensures r.Ok? ==> r.value.unreadable == fs.unreadable && r.value.unwritable == fs.unwritable
                      && r.value.unmakeable == fs.unmakeable
    ensures r.Ok? ==> forall d :: depth < d <= |spl| ==> Exists(r.value, Prefix(spl, d))
    ensures r.Err? ==> exists d :: depth < d <= |spl| && r.error == IOError(Prefix(spl, d), "mkdir", "")
                                   && Prefix(spl, d) in fs.unmakeable
    decreases |spl| - depth
  {
    if depth == |spl| then Ok(fs)
    else
      var cur := Prefix(spl, depth + 1);
      if Exists(fs, cur) then MkdirFrom(fs, spl, depth + 1)
      else if cur in fs.unmakeable then Err(IOError(cur, "mkdir", ""))
      else MkdirFrom(fs.(dirs := fs.dirs + {cur}), spl, depth + 1)
  }

  /** `mkdir_deep(dir_path)`: on success every ancestor of the directory,
      and the directory itself, exists and no file changed; a failure names
      the first prefix that could not be created. */
  function MkdirDeep(fs: FileSystem, dir: string): (r: Result<FileSystem>)
    ensures r.Ok? ==> r.value.text == fs.text && fs.dirs <= r.value.dirs
    ensures r.Ok? ==> forall d :: 0 < d <= |Text.Split(dir, '/')| ==>
                        Exists(r.value, Prefix(Text.Split(dir, '/'), d))
    ensures r.Err? ==> exists d :: 0 < d <= |Text.Split(dir, '/')|
                                   && r.error == IOError(Prefix(Text.Split(dir, '/'), d), "mkdir", "")
                                   && Prefix(Text.Split(dir, '/'), d) in fs.unmakeable
  {
    MkdirFrom(fs, Text.Split(dir, '/'), 0)
  }

  /** A path written as slash-separated plain components splits back into
      them. */
  lemma PathComponents(comps: seq<string>)
    requires |comps| > 0
    requires forall k :: 0 <= k < |comps| ==> comps[k] != "" && '/' !in comps[k] && '\\' !in comps[k]
    ensures Text.Split("/" + Vectors.Join(comps, "/"), '/') == comps
    ensures Prefix(comps, |comps|) == "/" + Vectors.Join(comps, "/")
  {
    var j := Vectors.Join(comps, "/");
    Text.LeadingDelimiterSkipped(j, '/');
    Vectors.SplitInvertsJoin(comps, '/');
    assert "/" + j == ['/'] + j;
    assert comps[..|comps|] == comps;
  }

  /** A directory path written as slash-separated plain components is
      created with every ancestor. */
  lemma MkdirDeepCreatesAll(fs: FileSystem, comps: seq<string>)
    requires |comps| > 0
    requires forall k :: 0 <= k < |comps| ==> comps[k] != "" && '/' !in comps[k] && '\\' !in comps[k]
    requires MkdirDeep(fs, "/" + Vectors.Join(comps, "/")).Ok?
    ensures Exists(MkdirDeep(fs, "/" + Vectors.Join(comps, "/")).value, "/" + Vectors.Join(comps, "/"))
    ensures forall d :: 0 < d <= |comps| ==>
              Exists(MkdirDeep(fs, "/" + Vectors.Join(comps, "/")).value, Prefix(comps, d))
    ensures MkdirDeep(fs, "/" + Vectors.Join(comps, "/")).value.text == fs.text
  {
    PathComponents(comps);
  }

  /** `ensure_deep_parent(file_path)`; the source needs at least one
      directory component (joining an empty list is undefined). */
  predicate HasParent(path: string) {
    |Text.Split(path, '/')| >= 2
  }

  /** The parent directory: for a backslash-free path, its components are
      the path's components without the last. */
  function ParentOf(path: string): (r: string)
    requires HasParent(path)
    ensures '\\' !in path ==> Text.Split(r, '/') == Text.Split(path, '/')[..|Text.Split(path, '/')| - 1]
  {
    var spl := Text.Split(path, '/');
    ParentComponents(path);
    "/" + Vectors.Join(spl[..|spl| - 1], "/")
  }

  lemma ParentComponents(path: string)
    requires HasParent(path)
    ensures var spl := Text.Split(path, '/');
            '\\' !in path ==> Text.Split("/" + Vectors.Join(spl[..|spl| - 1], "/"), '/') == spl[..|spl| - 1]
  {
    var spl := Text.Split(path, '/');
    if '\\' !in path {
      Text.SplitPlainText(path, '/');
      var parent := spl[..|spl| - 1];
      assert forall k :: 0 <= k < |parent| ==> parent[k] == spl[k];
      PathComponents(parent);
    }
  }

  function EnsureDeepParent(fs: FileSystem, path: string): (r: Result<FileSystem>)
    requires HasParent(path)
    ensures Exists(fs, ParentOf(path)) ==> r == Ok(fs)
    ensures r.Ok? ==> r.value.text == fs.text && fs.dirs <= r.value.dirs
                      && r.value.unwritable == fs.unwritable && r.value.unreadable == fs.unreadable
    ensures r.Err? ==> r.error.IOError? && r.error.operation == "mkdir"
  {
    var spl := Text.Split(path, '/');
    var sub := Vectors.Subvect(spl, 0, |spl| - 1).value;
    assert sub == spl[..|spl| - 1];
    var parent := "/" + Vectors.Join(sub, "/");
    if !Exists(fs, parent) then MkdirDeep(fs, parent) else Ok(fs)
  }

  /** Opening for writing: the parent chain first, then the stream. */
  function OpenWrite(fs: FileSystem, f: File): (r: Result<FileSystem>)
    requires HasParent(f.path)
    ensures r.Ok? ==> r.value.text == fs.text && f.path !in r.value.unwritable && f.path !in r.value.dirs
  {
    var fs1 :- EnsureDeepParent(fs, f.path);
    if f.path in fs1.unwritable || f.path in fs1.dirs then Err(IOError(f.path, "write", ""))
    else Ok(fs1)
  }

  /** `overwrite(data)`: the file becomes the one terminated line. */
  function Overwrite(fs: FileSystem, f: File, line: string): (r: Result<FileSystem>)
    requires HasParent(f.path)
    ensures r.Ok? ==> f.path in r.value.text && r.value.text[f.path] == line + "\n"
    ensures r.Ok? ==> forall p :: p in fs.text && p != f.path ==> p in r.value.text && r.value.text[p] == fs.text[p]
  {
    var fs1 :- OpenWrite(fs, f);
    Ok(fs1.(text := fs1.text[f.path := line + "\n"]))
  }

  /** `append(data)`: one terminated line added at the end. */
  function Append(fs: FileSystem, f: File, line: string): (r: Result<FileSystem>)
    requires HasParent(f.path)
    ensures r.Ok? ==> f.path in r.value.text
                      && r.value.text[f.path] == (if f.path in fs.text then fs.text[f.path] else "") + line + "\n"
    ensures r.Ok? ==> forall p :: p in fs.text && p != f.path ==> p in r.value.text && r.value.text[p] == fs.text[p]
  {
    var fs1 :- OpenWrite(fs, f);
    var old_text := if f.path in fs1.text then fs1.text[f.path] else "";
    Ok(fs1.(text := fs1.text[f.path := old_text + line + "\n"]))
  }

  /** Overwriting then reading gives back exactly the written line. */
  lemma ReadAfterOverwrite(fs: FileSystem, f: File, line: string)
    requires HasParent(f.path) && '\n' !in line
    requires Overwrite(fs, f, line).Ok?
    requires f.path !in Overwrite(fs, f, line).value.unreadable
    ensures Read(Overwrite(fs, f, line).value, f) == Ok([line])
  {
    LinesSingle(line);
  }

  /** Appending then reading adds exactly the line to what was there. */
  lemma ReadAfterAppend(fs: FileSystem, f: File, line: string)
    requires HasParent(f.path) && '\n' !in line
    requires f.path in fs.text && Terminated(fs.text[f.path])
    requires Append(fs, f, line).Ok? && f.path !in fs.unreadable
    ensures Read(Append(fs, f, line).value, f) == Ok(Read(fs, f).value + [line])
  {
    LinesAppend(fs.text[f.path], line);
  }

  /** A written frequency reads back as the same value. */
  lemma ValueRoundTrip(fs: FileSystem, f: File, v: int)
    requires HasParent(f.path) && Convert.InRange(Convert.ULong, v)
    requires Overwrite(fs, f, Convert.IntToString(v)).Ok?
    requires f.path !in Overwrite(fs, f, Convert.IntToString(v)).value.unreadable
    ensures ReadValues(Overwrite(fs, f, Convert.IntToString(v)).value, f, Convert.ULong) == Ok([v])
  {
    var s := Convert.IntToString(v);
    assert '\n' !in s by {
      Convert.DigitsRoundTrip(v);
      assert forall k :: 0 <= k < |s| ==> Convert.IsDigit(s[k]);
    }
    ReadAfterOverwrite(fs, f, s);
    Convert.IntRoundTrip(Convert.ULong, v);
    assert Convert.PrintAll([v]) == [s];
    Convert.ConvertAllRoundTrip(Convert.ULong, [v]);
  }

  // ---------------------------------------------------------------------
  // ls

  /** The last path component (`ls` without paths); a path with no
      component makes `subvect` reject a negative start index. */
  function Basename(path: string): (r: Result<string>)
    ensures r.Ok? <==> |Text.Split(path, '/')| > 0
    ensures r.Ok? ==> r.value == Text.Split(path, '/')[|Text.Split(path, '/')| - 1]
    ensures r.Err? ==> r.error.ArgumentError? && r.error.argName == "start_index"
  {
    var spl := Text.Split(path, '/');
    var sub :- Vectors.Subvect(spl, |spl| - 1, 1);
    Ok(Vectors.Join(sub, "/"))
  }

  /** The slash glob appends to a directory does not change its basename. */
  lemma BasenameIgnoresMark(path: string)
    requires '\\' !in path
    ensures Basename(path + "/") == Basename(path)
  {
    Text.TrailingDelimiterIgnored(path, '/', "");
  }

  /** `ls(pattern, include_paths)` over the paths glob matched, in glob's
      order. */
  function Ls(globbed: seq<string>, includePaths: bool): (r: Result<seq<string>>)
    ensures includePaths ==> r == Ok(globbed)
    ensures r.Ok? ==> |r.value| == |globbed|
    ensures !includePaths && r.Ok? ==> forall k :: 0 <= k < |globbed| ==> Ok(r.value[k]) == Basename(globbed[k])
    decreases |globbed|
  {
    if includePaths then Ok(globbed)
    else if |globbed| == 0 then Ok([])
    else
      var head :- Basename(globbed[0]);
      var tail :- Ls(globbed[1..], false);
      assert forall k :: 1 <= k < |globbed| ==> globbed[k] == globbed[1..][k - 1];
      Ok([head] + tail)
  }

  // ---------------------------------------------------------------------
  // FileCollection

  datatype Collection = Collection(files: seq<File>)

  function OpenAll(fs: FileSystem, paths: seq<string>): (r: Result<seq<File>>)
    ensures r.Ok? <==> forall k :: 0 <= k < |paths| ==> ValidPath(paths[k])
    ensures r.Ok? ==> |r.value| == |paths|
    ensures r.Ok? ==> forall k :: 0 <= k < |paths| ==> r.value[k] == File(paths[k], Exists(fs, paths[k]))
    decreases |paths|
  {
    if |paths| == 0 then Ok([])
    else
      var f :- Open(fs, paths[0]);
      var rest :- OpenAll(fs, paths[1..]);
      assert forall k :: 1 <= k < |paths| ==> paths[k] == paths[1..][k - 1];
      Ok([f] + rest)
  }

  /** A collection from an explicit, non-empty path list. */
  function FromPaths(fs: FileSystem, paths: seq<string>): (r: Result<Collection>)
    ensures |paths| == 0 ==> r == Err(ArgumentError("file_paths", "std::vector", "{ \"/dev/null\" }",
                                 "No file paths provided during construction of the FileCollection."))
    ensures r.Ok? ==> |r.value.files| == |paths| > 0
  {
    if |paths| > 0 then
      var files :- OpenAll(fs, paths);
      Ok(Collection(files))
    else
      Err(ArgumentError("file_paths", "std::vector", "{ \"/dev/null\" }",
                        "No file paths provided during construction of the FileCollection."))
  }

  /** A collection from the paths a pattern globbed to. */
  function FromPattern(fs: FileSystem, globbed: seq<string>): (r: Result<Collection>)
    ensures |globbed| == 0 ==> r == Err(ArgumentError("pattern", "std::string", "\"/dev/n*ll\"",
                                   "No file paths found using the provided pattern used to construct the FileCollection."))
    ensures r.Ok? ==> |r.value.files| == |globbed| > 0
  {
    var results := Ls(globbed, true).value;
    if |results| > 0 then
      var files :- OpenAll(fs, results);
      Ok(Collection(files))
    else
      Err(ArgumentError("pattern", "std::string", "\"/dev/n*ll\"",
                        "No file paths found using the provided pattern used to construct the FileCollection."))
  }

  function Size(c: Collection): nat {
    |c.files|
  }

  /** The lines of every file, file after file. */
  function ReadAll(fs: FileSystem, files: seq<File>): (r: Result<seq<string>>)
    ensures r.Ok? <==> forall k :: 0 <= k < |files| ==> Read(fs, files[k]).Ok?
    decreases |files|
  {
    if |files| == 0 then Ok([])
    else
      var head :- Read(fs, files[0]);
      var tail :- ReadAll(fs, files[1..]);
      assert forall k :: 1 <= k < |files| ==> files[k] == files[1..][k - 1];
      Ok(head + tail)
  }

  /** The converted lines of every file, file after file: a file's
      conversion error surfaces before a later file is read. */
  function ReadAllValues(fs: FileSystem, files: seq<File>, t: Convert.IntType): (r: Result<seq<int>>)
    ensures r.Ok? ==> forall k :: 0 <= k < |files| ==> ReadValues(fs, files[k], t).Ok?
    ensures r.Ok? ==> forall x :: x in r.value ==> Convert.InRange(t, x)
    decreases |files|
  {
    if |files| == 0 then Ok([])
    else
      var head :- ReadValues(fs, files[0], t);
      var tail :- ReadAllValues(fs, files[1..], t);
      assert forall k :: 1 <= k < |files| ==> files[k] == files[1..][k - 1];
      assert forall x :: x in head ==> Convert.InRange(t, x);
      Ok(head + tail)
  }

  /** One collection read concatenates the single-file reads. */
  lemma {:induction false} ReadAllAppend(fs: FileSystem, a: seq<File>, b: seq<File>)
    requires ReadAll(fs, a).Ok? && ReadAll(fs, b).Ok?
    ensures ReadAll(fs, a + b) == Ok(ReadAll(fs, a).value + ReadAll(fs, b).value)
    decreases |a|
  {
    if |a| == 0 {
      assert a + b == b;
      assert ReadAll(fs, a).value == [];
      assert [] + ReadAll(fs, b).value == ReadAll(fs, b).value;
    } else {
      assert (a + b)[0] == a[0] && (a + b)[1..] == a[1..] + b;
      assert ReadAll(fs, a[1..]).Ok? by {
        forall k | 0 <= k < |a[1..]|
          ensures Read(fs, a[1..][k]).Ok?
        {
          assert a[1..][k] == a[k + 1];
        }
      }
      ReadAllAppend(fs, a[1..], b);
      var head := Read(fs, a[0]).value;
      assert ReadAll(fs, a).value == head + ReadAll(fs, a[1..]).value;
      assert ReadAll(fs, a + b).value == head + ReadAll(fs, a[1..] + b).value;
      assert head + (ReadAll(fs, a[1..]).value + ReadAll(fs, b).value)
          == (head + ReadAll(fs, a[1..]).value) + ReadAll(fs, b).value;
    }
  }

  /** `max_line()`: the largest value of any file. The source dereferences
      the maximum of an empty list, so some file must hold a line. */
  function MaxLine(fs: FileSystem, c: Collection, t: Convert.IntType): (r: Result<int>)
    requires ReadAllValues(fs, c.files, t).Ok? ==> |ReadAllValues(fs, c.files, t).value| > 0
    ensures r.Ok? ==> ReadAllValues(fs, c.files, t).Ok?
    ensures r.Ok? ==> r.value in ReadAllValues(fs, c.files, t).value
    ensures r.Ok? ==> forall x :: x in ReadAllValues(fs, c.files, t).value ==> x <= r.value
    ensures r.Err? ==> ReadAllValues(fs, c.files, t).Err?
  {
    var vals :- ReadAllValues(fs, c.files, t);
    Ok(MaxOf(vals))
  }

  /** The first largest element, as `std::max_element` picks it. */
  function MaxOf(v: seq<int>): (m: int)
    requires |v| > 0
    ensures m in v && forall x :: x in v ==> x <= m
  {
    if |v| == 1 then v[0]
    else
      var rest := MaxOf(v[1..]);
      assert forall x :: x in v ==> x == v[0] || x in v[1..];
      if v[0] < rest then rest else v[0]
  }

  predicate AllHaveParents(c: Collection) {
    forall k :: 0 <= k < |c.files| ==> HasParent(c.files[k].path)
  }

  /** `overwrite(line)` on every file, in order. */
  function OverwriteEach(fs: FileSystem, files: seq<File>, line: string): (r: Result<FileSystem>)
    requires forall k :: 0 <= k < |files| ==> HasParent(files[k].path)
    decreases |files|
  {
    if |files| == 0 then Ok(fs)
    else
      var fs1 :- Overwrite(fs, files[0], line);
      OverwriteEach(fs1, files[1..], line)
  }

  /** `append(line)` on every file, in order. */
  function AppendEach(fs: FileSystem, files: seq<File>, line: string): (r: Result<FileSystem>)
    requires forall k :: 0 <= k < |files| ==> HasParent(files[k].path)
    decreases |files|
  {
    if |files| == 0 then Ok(fs)
    else
      var fs1 :- Append(fs, files[0], line);
      AppendEach(fs1, files[1..], line)
  }

  /** Overwriting every file leaves each holding exactly the line. */
  lemma {:induction false} OverwriteEachWrites(fs: FileSystem, files: seq<File>, line: string)
    requires forall k :: 0 <= k < |files| ==> HasParent(files[k].path)
    requires OverwriteEach(fs, files, line).Ok?
    ensures forall k :: 0 <= k < |files| ==>
              files[k].path in OverwriteEach(fs, files, line).value.text
              && OverwriteEach(fs, files, line).value.text[files[k].path] == line + "\n"
    decreases |files|
  {
    if |files| > 0 {
      var fs1 := Overwrite(fs, files[0], line).value;
      assert OverwriteEach(fs, files, line) == OverwriteEach(fs1, files[1..], line);
      OverwriteEachWrites(fs1, files[1..], line);
      OverwriteEachKeeps(fs1, files[1..], line, files[0].path);
      forall k | 1 <= k < |files|
        ensures files[k] == files[1..][k - 1]
      {
      }
    }
  }

  /** A file the loop does not name keeps its contents, and so does a named
      one that already held the line. */
  lemma {:induction false} OverwriteEachKeeps(fs: FileSystem, files: seq<File>, line: string, p: string)
    requires forall k :: 0 <= k < |files| ==> HasParent(files[k].path)
    requires OverwriteEach(fs, files, line).Ok?
    requires p in fs.text
    requires fs.text[p] == line + "\n" || forall k :: 0 <= k < |files| ==> files[k].path != p
    ensures p in OverwriteEach(fs, files, line).value.text
            && OverwriteEach(fs, files, line).value.text[p] == fs.text[p]
    decreases |files|
  {
    if |files| > 0 {
      var fs1 := Overwrite(fs, files[0], line).value;
      assert OverwriteEach(fs, files, line) == OverwriteEach(fs1, files[1..], line);
      assert forall k :: 0 <= k < |files[1..]| ==> files[1..][k] == files[k + 1];
      OverwriteEachKeeps(fs1, files[1..], line, p);
    }
  }

  function IndexError(): Error {
    ArgumentError("file_index", "size_t", "2", "File index must be less than FileCollection size.")
  }

  /** `overwrite(file_index, line)` */
  function OverwriteAt(fs: FileSystem, c: Collection, index: nat, line: string): (r: Result<FileSystem>)
    requires AllHaveParents(c)
    ensures index >= Size(c) ==> r == Err(IndexError())
    ensures index < Size(c) ==> r == Overwrite(fs, c.files[index], line)
  {
    if index < |c.files| then Overwrite(fs, c.files[index], line) else Err(IndexError())
  }

  /** `append(file_index, line)` */
  function AppendAt(fs: FileSystem, c: Collection, index: nat, line: string): (r: Result<FileSystem>)
    requires AllHaveParents(c)
    ensures index >= Size(c) ==> r == Err(IndexError())
    ensures index < Size(c) ==> r == Append(fs, c.files[index], line)
  {
    if index < |c.files| then Append(fs, c.files[index], line) else Err(IndexError())
  }
}
