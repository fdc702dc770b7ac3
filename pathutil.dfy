/** pandasutils/pathutil.py: file-name clean-up, the suffix rule that decides between a file and a
    directory for a path that does not exist, and the filter of `get_paths`. The file system is a
    map from existing paths to their kind. */
module PathUtil {
  import opened Common
  import opened Text

  // ---------------------------------------------------------------------------------------------
  // sanitize_filename

  /** The characters of the class `[<>:"/\\|?*]`. */
  predicate Forbidden(c: char)
  {
    c == '<' || c == '>' || c == ':' || c == '"' || c == '/' || c == '\\' || c == '|' || c == '?' || c == '*'
  }

  predicate Clean(s: string)
  {
    forall i :: 0 <= i < |s| ==> !Forbidden(s[i])
  }

  /** `sanitize_filename(filename, repl)`: every forbidden character becomes `repl`. */
  function SanitizeFilename(filename: string, repl: string): string
    requires '\\' !in repl
  {
    if filename == [] then []
    else (if Forbidden(filename[0]) then repl else [filename[0]]) + SanitizeFilename(filename[1..], repl)
  }

  /** A name with none of the forbidden characters is returned as it is. */
  lemma {:induction false} SanitizeKeepsClean(filename: string, repl: string)
    requires '\\' !in repl && Clean(filename)
    ensures SanitizeFilename(filename, repl) == filename
  {
    if filename != [] {
      assert !Forbidden(filename[0]);
      SanitizeKeepsClean(filename[1..], repl);
      assert [filename[0]] + filename[1..] == filename;
    }
  }

  /** Sanitising works character by character, so it distributes over concatenation. */
  lemma {:induction false} SanitizeAppend(a: string, b: string, repl: string)
    requires '\\' !in repl
    ensures SanitizeFilename(a + b, repl) == SanitizeFilename(a, repl) + SanitizeFilename(b, repl)
  {
    if a != [] {
      assert (a + b)[0] == a[0] && (a + b)[1..] == a[1..] + b;
      SanitizeAppend(a[1..], b, repl);
    } else {
      assert a + b == b;
    }
  }

  /** With a one-character replacement the length is kept, each forbidden character's place takes
      the replacement and every other character stays where it was. */
  lemma {:induction false} SanitizeOneForOne(filename: string, repl: string)
    requires '\\' !in repl && |repl| == 1
    ensures var r := SanitizeFilename(filename, repl);
      && |r| == |filename|
      && forall i :: 0 <= i < |filename| ==> r[i] == (if Forbidden(filename[i]) then repl[0] else filename[i])
  {
    if filename != [] {
      SanitizeOneForOne(filename[1..], repl);
      var r := SanitizeFilename(filename, repl);
      var tail := SanitizeFilename(filename[1..], repl);
      assert forall i :: 1 <= i < |filename| ==> r[i] == tail[i - 1] && filename[i] == filename[1..][i - 1];
    }
  }

  /** A replacement free of forbidden characters leaves none in the result. */
  lemma {:induction false} SanitizeCleans(filename: string, repl: string)
    requires '\\' !in repl && Clean(repl)
    ensures Clean(SanitizeFilename(filename, repl))
  {
    if filename != [] {
      SanitizeCleans(filename[1..], repl);
    }
  }

  /** Hence sanitising twice is sanitising once. */
  lemma SanitizeIdempotent(filename: string, repl: string)
    requires '\\' !in repl && Clean(repl)
    ensures SanitizeFilename(SanitizeFilename(filename, repl), repl) == SanitizeFilename(filename, repl)
  {
    SanitizeCleans(filename, repl);
    SanitizeKeepsClean(SanitizeFilename(filename, repl), repl);
  }

  // ---------------------------------------------------------------------------------------------
  // convert_lowstr

  /** `convert_lowstr(s)`: the letters of `s`, lower-cased, in their order. */
  function ConvertLowstr(s: string): (r: string)
    ensures |r| <= |s|
    ensures forall i :: 0 <= i < |r| ==> IsLower(r[i])
  {
    if s == [] then []
    else (if IsAsciiLetter(s[0]) then [ToLower(s[0])] else []) + ConvertLowstr(s[1..])
  }

  lemma {:induction false} ConvertLowstrAppend(a: string, b: string)
    ensures ConvertLowstr(a + b) == ConvertLowstr(a) + ConvertLowstr(b)
  {
    if a != [] {
      assert (a + b)[0] == a[0] && (a + b)[1..] == a[1..] + b;
      ConvertLowstrAppend(a[1..], b);
    } else {
      assert a + b == b;
    }
  }

  /** A string of lower-case letters is its own conversion. */
  lemma {:induction false} ConvertLowstrFixed(s: string)
    requires forall i :: 0 <= i < |s| ==> IsLower(s[i])
    ensures ConvertLowstr(s) == s
  {
    if s != [] {
      ConvertLowstrFixed(s[1..]);
    }
  }

  /** So converting twice is converting once. */
  lemma ConvertLowstrIdempotent(s: string)
    ensures ConvertLowstr(ConvertLowstr(s)) == ConvertLowstr(s)
  {
    ConvertLowstrFixed(ConvertLowstr(s));
  }

  // ---------------------------------------------------------------------------------------------
  // isfile / isdir

  /** A path by its parts, as `Path.parts` gives them: the anchor (such as `"/"`) first when there
      is one, then each name. */
  datatype FsPath = FsPath(parts: seq<string>)
  {
    /** `Path.name`: the last part, or `""` for an anchor or the empty path. */
    function Name(): string
    {
      if parts == [] || parts[|parts| - 1] == "/" then "" else parts[|parts| - 1]
    }
  }

  /** What is at an existing path: a regular file, a directory, or anything else. */
  datatype Kind = RegularFile | Directory | OtherKind

  /** The file system: the kind of every existing path. */
  type FileSystem = map<FsPath, Kind>

  /** The position of the last `.` in a name. */
  function LastDot(name: string): (p: Option<nat>)
    ensures p.Some? ==> p.value < |name| && name[p.value] == '.'
    ensures p.Some? ==> forall j :: p.value < j < |name| ==> name[j] != '.'
    ensures p.None? ==> forall j :: 0 <= j < |name| ==> name[j] != '.'
  {
    if name == [] then None
    else if name[|name| - 1] == '.' then Some(|name| - 1)
    else LastDot(name[..|name| - 1])
  }

  /** `PurePath.suffix`: from the last dot of the name on, when that dot is neither the first nor
      the last character. */
  function Suffix(name: string): (r: string)
    ensures r != "" ==> 2 <= |r| < |name| && r == name[|name| - |r|..] && r[0] == '.'
  {
    match LastDot(name)
    case Some(i) => if 0 < i < |name| - 1 then name[i..] else ""
    case None => ""
  }

  /** A name has a suffix exactly when a dot that is not its first character is followed by at
      least one character and by no further dot. */
  lemma SuffixExists(name: string)
    ensures Suffix(name) != "" <==>
      exists i :: 0 < i < |name| - 1 && name[i] == '.' && forall j :: i < j < |name| ==> name[j] != '.'
  {
    if exists i :: 0 < i < |name| - 1 && name[i] == '.' && forall j :: i < j < |name| ==> name[j] != '.' {
      var i :| 0 < i < |name| - 1 && name[i] == '.' && forall j :: i < j < |name| ==> name[j] != '.';
      assert LastDot(name) == Some(i);
    }
  }

  /** `isfile(p)`: the file system's answer for an existing path, else "it has a suffix". */
  predicate IsFile(fs: FileSystem, p: FsPath)
  {
    if p in fs then fs[p] == RegularFile else Suffix(p.Name()) != ""
  }

  /** `isdir(p)`: the file system's answer for an existing path, else "it has no suffix". */
  predicate IsDir(fs: FileSystem, p: FsPath)
  {
    if p in fs then fs[p] == Directory else Suffix(p.Name()) == ""
  }

  /** A path that does not exist is taken for exactly one of the two; an existing one is never
      both, and is neither when it is some other kind of entry. */
  lemma FileOrDir(fs: FileSystem, p: FsPath)
    ensures p !in fs ==> (IsDir(fs, p) <==> !IsFile(fs, p))
    ensures !(IsFile(fs, p) && IsDir(fs, p))
    ensures p in fs && fs[p] == OtherKind ==> !IsFile(fs, p) && !IsDir(fs, p)
  {
  }

  /** A missing `data/report.csv` is a file and a missing `data/archive` a directory; a missing
      `.bashrc` or `notes.` has no suffix and so is a directory. */
  lemma SuffixExamples(fs: FileSystem)
    requires fs == map[]
    ensures IsFile(fs, FsPath(["data", "report.csv"]))
    ensures IsDir(fs, FsPath(["data", "archive"]))
    ensures IsDir(fs, FsPath([".bashrc"])) && IsDir(fs, FsPath(["notes."]))
  {
    SuffixOfReport();
    NoSuffixes();
    assert FsPath(["data", "report.csv"]).Name() == "report.csv";
    assert FsPath(["data", "archive"]).Name() == "archive";
    assert FsPath([".bashrc"]).Name() == ".bashrc";
    assert FsPath(["notes."]).Name() == "notes.";
  }

  lemma SuffixOfReport()
    ensures Suffix("report.csv") != ""
  {
    SuffixExists("report.csv");
    assert "report.csv"[6] == '.' && forall j :: 6 < j < 10 ==> "report.csv"[j] != '.';
  }

  lemma NoSuffixes()
    ensures Suffix("archive") == "" && Suffix(".bashrc") == "" && Suffix("notes.") == ""
  {
    assert LastDot("archive") == None by {
      assert forall j :: 0 <= j < 7 ==> "archive"[j] != '.';
    }
    assert LastDot(".bashrc") == Some(0) by {
      assert ".bashrc"[0] == '.' && forall j :: 0 < j < 7 ==> ".bashrc"[j] != '.';
    }
    assert LastDot("notes.") == Some(5);
  }

  // ---------------------------------------------------------------------------------------------
  // get_paths

  /** A path with some part that starts with `.`, its base directory's parts included. */
  predicate Hidden(p: FsPath)
  {
    exists k :: 0 <= k < |p.parts| && |p.parts[k]| > 0 && p.parts[k][0] == '.'
  }

  predicate KnownType(fileDirType: string)
  {
    fileDirType == "all" || fileDirType == "dir" || fileDirType == "file"
  }

  /** Whether a globbed path passes both filters. */
  predicate Keep(fs: FileSystem, p: FsPath, includeHidden: bool, fileDirType: string)
  {
    && (includeHidden || !Hidden(p))
    && (fileDirType == "all"
        || (fileDirType == "dir" && p in fs && fs[p] == Directory)
        || (fileDirType == "file" && p in fs && fs[p] == RegularFile))
  }

  /** The kept paths, in glob order. */
  function Filtered(fs: FileSystem, paths: seq<FsPath>, includeHidden: bool, fileDirType: string): (r: seq<FsPath>)
    ensures |r| <= |paths|
  {
    if paths == [] then []
    else
      var init := paths[..|paths| - 1];
      var last := paths[|paths| - 1];
      Filtered(fs, init, includeHidden, fileDirType) + (if Keep(fs, last, includeHidden, fileDirType) then [last] else [])
  }

  /** A path is kept exactly when it was globbed and passes both filters. */
  lemma {:induction false} FilteredMembers(fs: FileSystem, paths: seq<FsPath>, includeHidden: bool, fileDirType: string, p: FsPath)
    ensures p in Filtered(fs, paths, includeHidden, fileDirType) <==> p in paths && Keep(fs, p, includeHidden, fileDirType)
  {
    if paths != [] {
      var init := paths[..|paths| - 1];
      assert paths == init + [paths[|paths| - 1]];
      FilteredMembers(fs, init, includeHidden, fileDirType, p);
    }
  }

  /** Filtering keeps the glob order: it distributes over concatenation. */
  lemma {:induction false} FilteredAppend(fs: FileSystem, a: seq<FsPath>, b: seq<FsPath>, includeHidden: bool, fileDirType: string)
    ensures Filtered(fs, a + b, includeHidden, fileDirType)
         == Filtered(fs, a, includeHidden, fileDirType) + Filtered(fs, b, includeHidden, fileDirType)
  {
    if b != [] {
      var init := b[..|b| - 1];
      assert (a + b)[..|a + b| - 1] == a + init;
      assert (a + b)[|a + b| - 1] == b[|b| - 1];
      FilteredAppend(fs, a, init, includeHidden, fileDirType);
    } else {
      assert a + b == a;
    }
  }

  /** Some globbed path gets past the hidden filter. */
  predicate AnyVisible(paths: seq<FsPath>, includeHidden: bool)
  {
    exists k :: 0 <= k < |paths| && (includeHidden || !Hidden(paths[k]))
  }

  /** `get_paths(dir, pattern, include_hidden, filedirtype)` with the glob's result given: the
      kept paths, or `TypeError` for an unknown `filedirtype` once some path is past the hidden
      filter. */
  function GetPathsSpec(fs: FileSystem, paths: seq<FsPath>, includeHidden: bool, fileDirType: string): Result<seq<FsPath>>
  {
    if !KnownType(fileDirType) && AnyVisible(paths, includeHidden) then Err(TypeError)
    else Ok(Filtered(fs, paths, includeHidden, fileDirType))
  }

  /** The loop of `get_paths`. */
  method GetPaths(fs: FileSystem, paths: seq<FsPath>, includeHidden: bool, fileDirType: string) returns (r: Result<seq<FsPath>>)
    ensures r == GetPathsSpec(fs, paths, includeHidden, fileDirType)
  {
    var filtered: seq<FsPath> := [];
    var i := 0;
    while i < |paths|
      invariant 0 <= i <= |paths|
      invariant filtered == Filtered(fs, paths[..i], includeHidden, fileDirType)
      invariant !KnownType(fileDirType) ==> !AnyVisible(paths[..i], includeHidden)
    {
      var path := paths[i];
      FilteredStep(fs, paths, i, includeHidden, fileDirType);
      if !includeHidden && Hidden(path) {
        i := i + 1;
        continue;
      }
      if fileDirType == "all" {
        filtered := filtered + [path];
      } else if fileDirType == "dir" {
        if path in fs && fs[path] == Directory {
          filtered := filtered + [path];
        }
      } else if fileDirType == "file" {
        if path in fs && fs[path] == RegularFile {
          filtered := filtered + [path];
        }
      } else {
        assert AnyVisible(paths, includeHidden) by {
          assert includeHidden || !Hidden(paths[i]);
        }
        return Err(TypeError);
      }
      i := i + 1;
    }
    assert paths[..i] == paths;
    r := Ok(filtered);
  }

  lemma FilteredStep(fs: FileSystem, paths: seq<FsPath>, i: nat, includeHidden: bool, fileDirType: string)
    requires i < |paths|
    ensures Filtered(fs, paths[..i + 1], includeHidden, fileDirType)
         == Filtered(fs, paths[..i], includeHidden, fileDirType)
            + (if Keep(fs, paths[i], includeHidden, fileDirType) then [paths[i]] else [])
  {
    assert paths[..i + 1][..i] == paths[..i];
  }

  /** An empty glob gives `[]` whatever `filedirtype` is, and with hidden paths shown and `"all"`
      every globbed path is returned in order. */
  lemma GetPathsEdges(fs: FileSystem, paths: seq<FsPath>, fileDirType: string, includeHidden: bool)
    ensures GetPathsSpec(fs, [], includeHidden, fileDirType) == Ok([])
    ensures GetPathsSpec(fs, paths, true, "all") == Ok(paths)
  {
    AllKept(fs, paths);
  }

  lemma {:induction false} AllKept(fs: FileSystem, paths: seq<FsPath>)
    ensures Filtered(fs, paths, true, "all") == paths
  {
    if paths != [] {
      AllKept(fs, paths[..|paths| - 1]);
    }
  }

  /** A hidden part anywhere, including the base directory's own `..`, drops the path unless
      hidden paths are asked for. */
  lemma GetPathsDropsHidden(fs: FileSystem, paths: seq<FsPath>, fileDirType: string, p: FsPath)
    requires KnownType(fileDirType) && p in paths && Hidden(p)
    ensures GetPathsSpec(fs, paths, false, fileDirType).Ok?
    ensures p !in GetPathsSpec(fs, paths, false, fileDirType).value
  {
    FilteredMembers(fs, paths, false, fileDirType, p);
  }
}
