/** The buildout recipe itself: reading its options, resolving the paths
    (`get_paths`), writing the library file (`_write_paths`), patching the
    module file (`_update_idea_project`) and the `install`/`update` entry
    point that gates the last two. The disk is a `FileSystem` object whose
    files and directories the methods change; what buildout and the disk
    report otherwise (the working set, the link files, glob results, the
    parser) comes in as parameters. */
module Recipe {
  import opened Wrappers
  import opened Text
  import opened Paths
  import opened Resolver
  import opened LibraryFile
  import opened ElementTree
  import opened ProjectPatcher

  // ----- Options -----

  /** The configuration errors the constructor raises. */
  datatype OptionError = InvalidValue(option: string, value: string) | MissingOption(option: string)

  /** `bool_option(options, name, default)` from `zc.buildout`: an absent
      option takes the default; a present one must be `true` or `false`. */
  function BoolOption(options: map<string, string>, name: string, default: bool): Result<bool, OptionError>
  {
    if name !in options then Ok(default)
    else if options[name] == "true" then Ok(true)
    else if options[name] == "false" then Ok(false)
    else Err(InvalidValue(name, options[name]))
  }

  /** What the constructor keeps from the options. */
  datatype Settings = Settings(ideaDir: Path, flags: Flags)

  /** `idea_dir`, or `<buildout directory>/.idea` when it is absent or empty. */
  function IdeaDirectory(options: map<string, string>, directory: string): string
  {
    if "idea_dir" in options && options["idea_dir"] != "" then options["idea_dir"] else directory + "/.idea"
  }

  /** `Recipe.__init__`: the options in the order the constructor reads
      them; the first bad one is the error. */
  function ReadOptions(options: map<string, string>, directory: string): Result<Settings, OptionError>
  {
    match BoolOption(options, "include_develop", false)
    case Err(e) => Err(e)
    case Ok(develop) =>
      match BoolOption(options, "include_eggs", true)
      case Err(e) => Err(e)
      case Ok(eggs) =>
        match BoolOption(options, "include_other", false)
        case Err(e) => Err(e)
        case Ok(other) =>
          if "eggs" !in options then Err(MissingOption("eggs"))
          else Ok(Settings(PathOf(IdeaDirectory(options, directory)), Flags(develop, eggs, other)))
  }

  predicate ValidBool(options: map<string, string>, name: string)
  {
    name in options ==> options[name] == "true" || options[name] == "false"
  }

  /** The options are accepted exactly when `eggs` is given and each flag
      is absent, `true` or `false`; a flag is set exactly when it says `true`,
      or, for `include_eggs` only, when it is absent. */
  lemma ReadOptionsAccepts(options: map<string, string>, directory: string)
    ensures ReadOptions(options, directory).Ok?
        <==> "eggs" in options && ValidBool(options, "include_develop")
             && ValidBool(options, "include_eggs") && ValidBool(options, "include_other")
    ensures ReadOptions(options, directory).Ok? ==>
      var f := ReadOptions(options, directory).value.flags;
      (f.includeDevelop <==> "include_develop" in options && options["include_develop"] == "true")
      && (f.includeEggs <==> "include_eggs" !in options || options["include_eggs"] == "true")
      && (f.includeOther <==> "include_other" in options && options["include_other"] == "true")
  {
  }

  /** With only `eggs` given, the project directory is `.idea` in the
      buildout directory and only egg paths are listed. */
  lemma DefaultSettings(eggs: string, directory: string)
    ensures ReadOptions(map["eggs" := eggs], directory)
         == Ok(Settings(PathOf(directory + "/.idea"), Flags(false, true, false)))
  {
  }

  // ----- The disk -----

  /** The files (with their text) and directories on disk. */
  class FileSystem {
    var files: map<Path, string>
    var dirs: set<Path>

    constructor(files: map<Path, string>, dirs: set<Path>)
      ensures this.files == files && this.dirs == dirs
    {
      this.files := files;
      this.dirs := dirs;
    }
  }

  /** `<idea_dir>/libraries`. */
  function LibrariesDir(ideaDir: Path): Path
  {
    Child(ideaDir, "libraries")
  }

  /** `<idea_dir>/libraries/Buildout_Eggs.xml`. */
  function ResultPath(ideaDir: Path): Path
  {
    Child(LibrariesDir(ideaDir), "Buildout_Eggs.xml")
  }

  /** `p` is an entry of directory `dir`, as `dir.glob('*.iml')` returns them. */
  predicate InDirectory(p: Path, dir: Path)
  {
    |p.parts| > 0 && Parents(p)[0] == dir
  }

  /** The library file is not a module file of the project directory. */
  lemma ResultIsNotInProjectDirectory(ideaDir: Path)
    ensures !InDirectory(ResultPath(ideaDir), ideaDir)
    ensures LibrariesDir(ideaDir) != ResultPath(ideaDir) && LibrariesDir(ideaDir) != ideaDir
  {
    var r := ResultPath(ideaDir);
    assert |Parents(r)[0].parts| == |ideaDir.parts| + 1;
  }

  /** What `get_paths` reads besides the options: the working set's
      distribution locations, the text of each `.egg-link` file in the
      develop-eggs directory, the eggs directory, the `extra-paths`
      entries and what `glob.glob` returns for a pattern. */
  datatype Workspace = Workspace(locations: seq<string>, eggLinks: seq<string>, eggsDirectory: string,
                                 extraPaths: seq<string>, glob: string -> seq<string>)

  /** The paths `get_paths` returns. */
  function Resolved(flags: Flags, w: Workspace): seq<Path>
  {
    Unique(Candidates(w.locations, DevelopPaths(w.eggLinks), PathOf(w.eggsDirectory), flags, w.extraPaths, w.glob))
  }

  /** The disk as a value, for stating what a whole run does. */
  datatype Disk = Disk(files: map<Path, string>, dirs: set<Path>)

  /** `_write_paths` on a disk: `libraries` becomes a directory if it was
      not one, and the file is written; `None` when opening the file fails
      because `libraries` is a file or the result path is a directory. */
  function WrittenLibrary(d: Disk, ideaDir: Path, libraryName: string, paths: seq<Path>): Option<Disk>
  {
    var lib := LibrariesDir(ideaDir);
    if lib in d.files || ResultPath(ideaDir) in d.dirs then None
    else Some(Disk(d.files[ResultPath(ideaDir) := Document(Lines(libraryName, paths))], d.dirs + {lib}))
  }

  /** How a run of `install` ends. */
  datatype Outcome = NoProject | NoModuleFile | WriteFailed | Done(update: Update)

  /** The module files listed by the glob: files directly in the project directory. */
  predicate ModuleFiles(d: Disk, ideaDir: Path, imlPaths: seq<Path>)
  {
    forall i :: 0 <= i < |imlPaths| ==> imlPaths[i] in d.files && InDirectory(imlPaths[i], ideaDir)
  }

  /** `install` on a disk: nothing without the project directory or
      without a module file; otherwise the library file is written and the
      first module file patched. */
  function Installation(d: Disk, ideaDir: Path, flags: Flags, libraryName: string, w: Workspace,
                        imlPaths: seq<Path>, parse: string -> Option<Element>): (Disk, Outcome)
    requires ModuleFiles(d, ideaDir, imlPaths)
  {
    if ideaDir !in d.dirs then (d, NoProject)
    else if |imlPaths| == 0 then (d, NoModuleFile)
    else match WrittenLibrary(d, ideaDir, libraryName, Resolved(flags, w))
      case None => (d, WriteFailed)
      case Some(d1) =>
        var u := UpdateText(d1.files[imlPaths[0]], parse, libraryName);
        (if u.Rewritten? then d1.(files := d1.files[imlPaths[0] := u.text]) else d1, Done(u))
  }

  /** Writing the library leaves every module file as it was. */
  lemma WrittenLibraryKeepsModuleFiles(d: Disk, ideaDir: Path, libraryName: string, paths: seq<Path>,
                                       imlPaths: seq<Path>)
    requires ModuleFiles(d, ideaDir, imlPaths)
    requires WrittenLibrary(d, ideaDir, libraryName, paths).Some?
    ensures var d1 := WrittenLibrary(d, ideaDir, libraryName, paths).value;
      ModuleFiles(d1, ideaDir, imlPaths)
      && forall i :: 0 <= i < |imlPaths| ==> d1.files[imlPaths[i]] == d.files[imlPaths[i]]
  {
    ResultIsNotInProjectDirectory(ideaDir);
  }

  /** Writing the library onto a disk that already holds the same file
      changes nothing. */
  lemma WrittenLibraryAgain(d: Disk, ideaDir: Path, libraryName: string, paths: seq<Path>)
    requires LibrariesDir(ideaDir) in d.dirs && LibrariesDir(ideaDir) !in d.files
    requires ResultPath(ideaDir) !in d.dirs && ResultPath(ideaDir) in d.files
    requires d.files[ResultPath(ideaDir)] == Document(Lines(libraryName, paths))
    ensures WrittenLibrary(d, ideaDir, libraryName, paths) == Some(d)
  {
    var lib, result := LibrariesDir(ideaDir), ResultPath(ideaDir);
    var text := Document(Lines(libraryName, paths));
    assert d.files[result := text] == d.files;
    assert d.dirs + {lib} == d.dirs;
  }

  /** `update` is `install`, and running it again changes nothing: the
      library file is written with the same text, and the module file,
      once it names the library, is left alone. */
  lemma InstallIsIdempotent(d: Disk, ideaDir: Path, flags: Flags, w: Workspace, imlPaths: seq<Path>,
                            parse: string -> Option<Element>)
    requires ModuleFiles(d, ideaDir, imlPaths)
    ensures var (d1, _) := Installation(d, ideaDir, flags, LibraryName, w, imlPaths, parse);
      ModuleFiles(d1, ideaDir, imlPaths)
      && Installation(d1, ideaDir, flags, LibraryName, w, imlPaths, parse).0 == d1
  {
    var paths := Resolved(flags, w);
    var (d1, o) := Installation(d, ideaDir, flags, LibraryName, w, imlPaths, parse);
    if o.Done? {
      var iml := imlPaths[0];
      var dw := WrittenLibrary(d, ideaDir, LibraryName, paths).value;
      var u := UpdateText(dw.files[iml], parse, LibraryName);
      assert o.update == u;
      assert d1 == if u.Rewritten? then dw.(files := dw.files[iml := u.text]) else dw;
      WrittenLibraryKeepsModuleFiles(d, ideaDir, LibraryName, paths, imlPaths);
      ResultIsNotInProjectDirectory(ideaDir);
      var lib, result := LibrariesDir(ideaDir), ResultPath(ideaDir);
      assert InDirectory(iml, ideaDir);
      assert iml != result && iml != lib;
      assert d1.dirs == dw.dirs == d.dirs + {lib};
      assert d1.files[result] == dw.files[result];
      WrittenLibraryAgain(d1, ideaDir, LibraryName, paths);
      assert ModuleFiles(d1, ideaDir, imlPaths) by {
        forall i | 0 <= i < |imlPaths| ensures imlPaths[i] in d1.files && InDirectory(imlPaths[i], ideaDir) {
          assert imlPaths[i] in dw.files;
        }
      }
      var u2 := UpdateText(d1.files[iml], parse, LibraryName);
      if u.Rewritten? {
        assert d1.files[iml] == u.text;
        LibraryNameIsPlain();
        UpdateIsIdempotent(dw.files[iml], parse, parse, LibraryName);
        assert u2 == Unchanged;
      } else {
        assert d1 == dw;
        assert u2 == u;
      }
      assert Installation(d1, ideaDir, flags, LibraryName, w, imlPaths, parse) == (d1, Done(u2));
    } else {
      assert d1 == d;
    }
  }

  // ----- The recipe object -----

  class Recipe {
    const ideaDir: Path
    const flags: Flags
    const libraryName: string

    constructor(settings: Settings)
      ensures ideaDir == settings.ideaDir && flags == settings.flags && libraryName == LibraryName
    {
      ideaDir := settings.ideaDir;
      flags := settings.flags;
      libraryName := LibraryName;
    }

    /** The develop paths, one per `.egg-link` file. */
    static method ReadDevelopPaths(eggLinks: seq<string>) returns (developPaths: set<Path>)
      ensures developPaths == DevelopPaths(eggLinks)
      ensures forall p :: p in developPaths <==> exists i :: 0 <= i < |eggLinks| && LinkTarget(eggLinks[i]) == p
    {
      developPaths := {};
      for i := 0 to |eggLinks|
        invariant developPaths == DevelopPaths(eggLinks[..i])
      {
        DevelopPathsStep(eggLinks, i);
        developPaths := developPaths + {LinkTarget(eggLinks[i])};
      }
      assert eggLinks[..|eggLinks|] == eggLinks;
    }

    /** The working set sorted into the three lists, each switched off by its flag. */
    method Classify(locations: seq<string>, developPaths: set<Path>, eggsDir: Path)
      returns (develop: seq<Path>, eggs: seq<Path>, other: seq<Path>)
      ensures develop == Selected(PathsOf(locations), Develop, developPaths, eggsDir, flags)
      ensures eggs == Selected(PathsOf(locations), Egg, developPaths, eggsDir, flags)
      ensures other == Selected(PathsOf(locations), Other, developPaths, eggsDir, flags)
    {
      var ps := PathsOf(locations);
      develop, eggs, other := [], [], [];
      for i := 0 to |locations|
        invariant develop == Selected(ps[..i], Develop, developPaths, eggsDir, flags)
        invariant eggs == Selected(ps[..i], Egg, developPaths, eggsDir, flags)
        invariant other == Selected(ps[..i], Other, developPaths, eggsDir, flags)
      {
        var path := PathOf(locations[i]);
        assert ps[..i + 1][..i] == ps[..i] && ps[..i + 1][i] == path;
        if path in developPaths {
          if flags.includeDevelop {
            develop := develop + [path];
          }
        } else if eggsDir in Parents(path) {
          if flags.includeEggs {
            eggs := eggs + [path];
          }
        } else if flags.includeOther {
          other := other + [path];
        }
      }
      assert ps[..|locations|] == ps;
    }

    /** The extra paths appended to `paths`, globs expanded. */
    static method AppendExtras(paths: seq<Path>, extras: seq<string>, glob: string -> seq<string>)
      returns (r: seq<Path>)
      ensures r == paths + ExpandExtras(extras, glob)
    {
      r := paths;
      for i := 0 to |extras|
        invariant r == paths + ExpandExtras(extras[..i], glob)
      {
        var entry := extras[i];
        ExpandExtrasStep(extras, i, glob);
        ghost var before := r;
        if '*' in entry {
          r := r + PathsOf(glob(entry));
        } else {
          r := r + [PathOf(entry)];
        }
        assert r == before + ExpandEntry(entry, glob);
        ConcatAssoc(paths, ExpandExtras(extras[..i], glob), ExpandEntry(entry, glob));
      }
      assert extras[..|extras|] == extras;
    }

    /** The order-preserving unique loop. */
    static method Deduplicate(paths: seq<Path>) returns (r: seq<Path>)
      ensures r == Unique(paths)
      ensures NoDuplicates(r)
      ensures forall p :: p in r <==> p in paths
    {
      r := [];
      for i := 0 to |paths|
        invariant r == Unique(paths[..i])
      {
        assert paths[..i + 1][..i] == paths[..i];
        if paths[i] !in r {
          r := r + [paths[i]];
        }
      }
      assert paths[..|paths|] == paths;
      UniqueNoDuplicates(paths);
      forall p ensures p in r <==> p in paths {
        UniqueElements(paths, p);
      }
    }

    /** `get_paths`: read the develop links, sort the working set into the
        three lists, append the extra paths, then drop repeats keeping the
        first of each. */
    method GetPaths(w: Workspace) returns (r: seq<Path>)
      ensures r == Resolved(flags, w)
      ensures NoDuplicates(r)
      ensures forall i :: 0 <= i < |r| ==> WellFormed(r[i])
    {
      var developPaths := ReadDevelopPaths(w.eggLinks);
      var eggsDir := PathOf(w.eggsDirectory);
      var develop, eggs, other := Classify(w.locations, developPaths, eggsDir);
      var paths := AppendExtras(develop + eggs + other, w.extraPaths, w.glob);
      r := Deduplicate(paths);
      ResultWellFormed(w.locations, developPaths, eggsDir, flags, w.extraPaths, w.glob);
    }

    /** The lines `_write_paths` builds: the opening lines, a `root` line
        per path, the closing lines. A reader finds the same paths in them. */
    method LibraryLines(paths: seq<Path>) returns (lines: seq<string>)
      requires forall i :: 0 <= i < |paths| ==> WellFormed(paths[i])
      ensures lines == Lines(libraryName, paths)
      ensures ReadPaths(lines) == paths
    {
      lines := Header(libraryName);
      for i := 0 to |paths|
        invariant lines == Header(libraryName) + RootLines(paths[..i])
      {
        assert paths[..i + 1][..i] == paths[..i];
        lines := lines + [RootLine(paths[i])];
      }
      assert paths[..|paths|] == paths;
      lines := lines + Footer;
      LinesReadBack(libraryName, paths);
    }

    /** `_write_paths`: create `libraries` if nothing is there, then write
        the library file; `false` when the file cannot be opened. */
    method WritePaths(fs: FileSystem, w: Workspace) returns (written: bool)
      requires ideaDir in fs.dirs
      modifies fs
      ensures var d := WrittenLibrary(Disk(old(fs.files), old(fs.dirs)), ideaDir, libraryName, Resolved(flags, w));
        written == d.Some? && Disk(fs.files, fs.dirs) == if written then d.value else Disk(old(fs.files), old(fs.dirs))
    {
      var paths := GetPaths(w);
      var lines := LibraryLines(paths);
      var resultDir := LibrariesDir(ideaDir);
      if resultDir in fs.files || ResultPath(ideaDir) in fs.dirs {
        return false;
      }
      fs.dirs := fs.dirs + {resultDir};
      fs.files := fs.files[ResultPath(ideaDir) := Document(lines)];
      return true;
    }

    /** `_update_idea_project`: patch the module file unless it already
        names the library; `parse` stands for `ElementTree.fromstring`. */
    method UpdateIdeaProject(fs: FileSystem, imlPath: Path, parse: string -> Option<Element>) returns (u: Update)
      requires imlPath in fs.files
      modifies fs
      ensures u == UpdateText(old(fs.files[imlPath]), parse, libraryName)
      ensures fs.files == if u.Rewritten? then old(fs.files)[imlPath := u.text] else old(fs.files)
      ensures fs.dirs == old(fs.dirs)
    {
      var text := fs.files[imlPath];
      if Contains(text, Marker(libraryName)) {
        return Unchanged;
      }
      var parsed := parse(text);
      if parsed.None? {
        return ParseError;
      }
      var root := parsed.value;
      var found := FindRootManager(root.children);
      if found.None? || |root.children[found.value].children| == 0 {
        return Unchanged;
      }
      var element := root.children[found.value];
      var n := |element.children|;
      var lastTail := element.children[n - 1].tail;
      var children := element.children[n - 1 := element.children[n - 1].(tail := EntryIndent)];
      children := children + [OrderEntry(libraryName, lastTail)];
      assert children == element.children[..n - 1] + [element.children[n - 1].(tail := EntryIndent), OrderEntry(libraryName, lastTail)];
      var patched := root.(children := root.children[found.value := element.(children := children)]);
      var data := XmlDeclaration + Serialize(patched);
      fs.files := fs.files[imlPath := data];
      return Rewritten(data);
    }

    /** `install` (and `update`): write the library and patch the first
        module file, when there is a project directory holding one. */
    method Install(fs: FileSystem, w: Workspace, imlPaths: seq<Path>, parse: string -> Option<Element>)
      returns (outcome: Outcome)
      requires ModuleFiles(Disk(fs.files, fs.dirs), ideaDir, imlPaths)
      modifies fs
      ensures (Disk(fs.files, fs.dirs), outcome)
           == Installation(Disk(old(fs.files), old(fs.dirs)), ideaDir, flags, libraryName, w, imlPaths, parse)
    {
      if ideaDir !in fs.dirs {
        return NoProject;
      }
      if |imlPaths| == 0 {
        return NoModuleFile;
      }
      ghost var d := Disk(fs.files, fs.dirs);
      var written := WritePaths(fs, w);
      if !written {
        return WriteFailed;
      }
      WrittenLibraryKeepsModuleFiles(d, ideaDir, libraryName, Resolved(flags, w), imlPaths);
      var u := UpdateIdeaProject(fs, imlPaths[0], parse);
      return Done(u);
    }
  }
}
