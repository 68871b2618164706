/** The specification of the path resolver (`Recipe.get_paths`): how each
    distribution location is classified, which buckets are kept, how the
    extra paths are expanded, and the order-preserving de-duplication. The
    method that computes it step by step is `Recipe.Recipe.GetPaths`. */
module Resolver {
  import opened Text
  import opened Paths

  /** The three buckets a distribution location can fall into. */
  datatype Kind = Develop | Egg | Other

  /** The `include_develop`, `include_eggs` and `include_other` options. */
  datatype Flags = Flags(includeDevelop: bool, includeEggs: bool, includeOther: bool)

  predicate Enabled(flags: Flags, k: Kind)
  {
    match k
    case Develop => flags.includeDevelop
    case Egg => flags.includeEggs
    case Other => flags.includeOther
  }

  /** A develop-link target is a develop path whatever its place on disk;
      otherwise a location is an egg path exactly when the eggs directory
      is among its parents. */
  function KindOf(p: Path, developPaths: set<Path>, eggsDir: Path): Kind
  {
    if p in developPaths then Develop
    else if eggsDir in Parents(p) then Egg
    else Other
  }

  /** `[Path(loc) for loc in locations]`. */
  function PathsOf(locations: seq<string>): (r: seq<Path>)
    ensures |r| == |locations|
    ensures forall i :: 0 <= i < |r| ==> r[i] == PathOf(locations[i])
  {
    seq(|locations|, i requires 0 <= i < |locations| => PathOf(locations[i]))
  }

  /** The develop path an `.egg-link` file names: its first line, stripped.
      The source's `if path:` tests a `Path`, which is never false, so an
      empty first line names the current directory. */
  function LinkTarget(content: string): Path
  {
    PathOf(Strip(FirstLine(content)))
  }

  /** The set of develop paths read from the `.egg-link` files. */
  function DevelopPaths(links: seq<string>): set<Path>
  {
    set i | 0 <= i < |links| :: LinkTarget(links[i])
  }

  /** The list the source fills for bucket `k`: the paths of kind `k`, in
      working-set order, or nothing at all when the bucket is switched off. */
  function Selected(ps: seq<Path>, k: Kind, developPaths: set<Path>, eggsDir: Path, flags: Flags): seq<Path>
  {
    if |ps| == 0 then []
    else
      var last := ps[|ps| - 1];
      Selected(ps[..|ps| - 1], k, developPaths, eggsDir, flags)
        + (if KindOf(last, developPaths, eggsDir) == k && Enabled(flags, k) then [last] else [])
  }

  /** What one `extra-paths` entry contributes: the glob matches, in the
      order the glob returns them, when the entry holds `*`; otherwise the
      entry itself, whether or not it exists. */
  function ExpandEntry(entry: string, glob: string -> seq<string>): seq<Path>
  {
    if '*' in entry then PathsOf(glob(entry)) else [PathOf(entry)]
  }

  function ExpandExtras(extras: seq<string>, glob: string -> seq<string>): seq<Path>
  {
    if |extras| == 0 then []
    else ExpandExtras(extras[..|extras| - 1], glob) + ExpandEntry(extras[|extras| - 1], glob)
  }

  /** The list before de-duplication: develop, egg and other paths, then the extras. */
  function Candidates(locations: seq<string>, developPaths: set<Path>, eggsDir: Path, flags: Flags,
                      extras: seq<string>, glob: string -> seq<string>): seq<Path>
  {
    var ps := PathsOf(locations);
    Selected(ps, Develop, developPaths, eggsDir, flags)
      + Selected(ps, Egg, developPaths, eggsDir, flags)
      + Selected(ps, Other, developPaths, eggsDir, flags)
      + ExpandExtras(extras, glob)
  }

  /** The order-preserving unique loop: an element is appended unless it is
      already in the result. */
  function Unique<T(==)>(s: seq<T>): seq<T>
  {
    if |s| == 0 then []
    else
      var u := Unique(s[..|s| - 1]);
      if s[|s| - 1] in u then u else u + [s[|s| - 1]]
  }

  /** The elements of `s` that are not in `a`, in order. */
  function Without<T(==)>(s: seq<T>, a: seq<T>): seq<T>
  {
    if |s| == 0 then []
    else Without(s[..|s| - 1], a) + (if s[|s| - 1] in a then [] else [s[|s| - 1]])
  }

  predicate NoDuplicates<T(==)>(s: seq<T>)
  {
    forall i, j :: 0 <= i < j < |s| ==> s[i] != s[j]
  }

  /** Index of the first occurrence of `x` in `s`. */
  function FirstIndex<T(==)>(s: seq<T>, x: T): (r: nat)
    requires x in s
    ensures r < |s| && s[r] == x && x !in s[..r]
  {
    if s[0] == x then 0 else 1 + FirstIndex(s[1..], x)
  }

  // ----- Develop links -----

  /** Reading one more link file adds the path it names. */
  lemma DevelopPathsAppend(links: seq<string>, link: string)
    ensures DevelopPaths(links + [link]) == DevelopPaths(links) + {LinkTarget(link)}
  {
    var all := links + [link];
    forall p | p in DevelopPaths(all) ensures p in DevelopPaths(links) + {LinkTarget(link)} {
      var i :| 0 <= i < |all| && LinkTarget(all[i]) == p;
      if i < |links| {
        assert all[i] == links[i];
      }
    }
    forall p | p in DevelopPaths(links) ensures p in DevelopPaths(all) {
      var i :| 0 <= i < |links| && LinkTarget(links[i]) == p;
      assert all[i] == links[i];
    }
    assert LinkTarget(all[|links|]) == LinkTarget(link);
  }

  lemma DevelopPathsStep(links: seq<string>, i: int)
    requires 0 <= i < |links|
    ensures DevelopPaths(links[..i + 1]) == DevelopPaths(links[..i]) + {LinkTarget(links[i])}
  {
    var before, link := links[..i], links[i];
    assert links[..i + 1] == before + [link];
    DevelopPathsAppend(before, link);
    assert DevelopPaths(links[..i + 1]) == DevelopPaths(before + [link]);
  }

  /** A link file is read up to its first line ending, with the whitespace
      around the location dropped. */
  lemma LinkTargetReadsFirstLine(a: string, location: string, b: string, ending: char, rest: string)
    requires AllSpace(a) && AllSpace(b) && Trimmed(location) && ending in "\n\r"
    requires '\n' !in a + location + b && '\r' !in a + location + b
    ensures LinkTarget(a + location + b + [ending] + rest) == PathOf(location)
  {
    FirstLineOf(a + location + b, ending, rest);
    StripSurrounded(a, location, b);
  }

  /** A link file whose first line is blank names the current directory,
      which the source keeps as a develop path. */
  lemma BlankLinkNamesCurrentDirectory(a: string, ending: char, rest: string)
    requires AllSpace(a) && '\n' !in a && '\r' !in a && ending in "\n\r"
    ensures LinkTarget(a + [ending] + rest) == Path(false, [])
  {
    LinkTargetReadsFirstLine(a, "", "", ending, rest);
    assert a + "" + "" == a;
    assert Split("", '/') == [""];
  }

  // ----- Classification -----

  /** A path is in a bucket's list exactly when it is in the working set,
      has that kind and the bucket is switched on. */
  lemma {:induction false} SelectedMembership(ps: seq<Path>, k: Kind, developPaths: set<Path>, eggsDir: Path,
                                             flags: Flags, x: Path)
    ensures x in Selected(ps, k, developPaths, eggsDir, flags)
        <==> x in ps && KindOf(x, developPaths, eggsDir) == k && Enabled(flags, k)
  {
    if |ps| > 0 {
      SelectedMembership(ps[..|ps| - 1], k, developPaths, eggsDir, flags, x);
      assert ps == ps[..|ps| - 1] + [ps[|ps| - 1]];
    }
  }

  /** A develop-link target never falls through to the egg or other list,
      and it is in the develop list only when `include_develop` is set. */
  lemma DevelopPathsStayInDevelopBucket(ps: seq<Path>, developPaths: set<Path>, eggsDir: Path,
                                        flags: Flags, x: Path)
    requires x in developPaths
    ensures x !in Selected(ps, Egg, developPaths, eggsDir, flags)
    ensures x !in Selected(ps, Other, developPaths, eggsDir, flags)
    ensures x in Selected(ps, Develop, developPaths, eggsDir, flags) <==> x in ps && flags.includeDevelop
  {
    SelectedMembership(ps, Egg, developPaths, eggsDir, flags, x);
    SelectedMembership(ps, Other, developPaths, eggsDir, flags, x);
    SelectedMembership(ps, Develop, developPaths, eggsDir, flags, x);
  }

  /** Outside the develop set, a location is an egg path exactly when the
      eggs directory is a proper ancestor of it, and an other path otherwise. */
  lemma EggPathsAreUnderEggsDirectory(p: Path, developPaths: set<Path>, eggsDir: Path)
    requires p !in developPaths
    ensures KindOf(p, developPaths, eggsDir) == Egg <==> IsProperAncestor(eggsDir, p)
    ensures KindOf(p, developPaths, eggsDir) == Other <==> !IsProperAncestor(eggsDir, p)
  {
    ParentsAreProperAncestors(eggsDir, p);
  }

  /** The eggs directory itself is not an egg path. */
  lemma EggsDirectoryIsNotAnEggPath(developPaths: set<Path>, eggsDir: Path)
    ensures KindOf(eggsDir, developPaths, eggsDir) != Egg
  {
    NotOwnParent(eggsDir);
  }

  /** Each list keeps the working-set order: it is the working set with the
      paths of other kinds (or all, when switched off) taken out. */
  lemma {:induction false} SelectedKeepsOrder(ps: seq<Path>, k: Kind, developPaths: set<Path>, eggsDir: Path,
                                             flags: Flags, i: int, j: int)
    requires 0 <= i < j < |Selected(ps, k, developPaths, eggsDir, flags)|
    ensures exists a, b :: (0 <= a < b < |ps|
      && ps[a] == Selected(ps, k, developPaths, eggsDir, flags)[i]
      && ps[b] == Selected(ps, k, developPaths, eggsDir, flags)[j])
  {
    var init := ps[..|ps| - 1];
    var s := Selected(ps, k, developPaths, eggsDir, flags);
    var s0 := Selected(init, k, developPaths, eggsDir, flags);
    if j < |s0| {
      SelectedKeepsOrder(init, k, developPaths, eggsDir, flags, i, j);
      var a, b :| 0 <= a < b < |init| && init[a] == s0[i] && init[b] == s0[j];
      assert ps[a] == s[i] && ps[b] == s[j];
    } else {
      assert s[j] == ps[|ps| - 1];
      assert s0[i] in init by { SelectedMembership(init, k, developPaths, eggsDir, flags, s0[i]); }
      var a :| 0 <= a < |init| && init[a] == s0[i];
      assert ps[a] == s[i] && ps[|ps| - 1] == s[j];
    }
  }

  // ----- Extra paths -----

  /** A path comes from the extras exactly when some entry expands to it. */
  lemma {:induction false} ExpandExtrasMembership(extras: seq<string>, glob: string -> seq<string>, x: Path)
    ensures x in ExpandExtras(extras, glob)
        <==> exists i :: 0 <= i < |extras| && x in ExpandEntry(extras[i], glob)
  {
    if |extras| > 0 {
      var init := extras[..|extras| - 1];
      ExpandExtrasMembership(init, glob, x);
      if x in ExpandExtras(extras, glob) && x !in ExpandExtras(init, glob) {
        assert x in ExpandEntry(extras[|extras| - 1], glob);
      }
      if exists i :: 0 <= i < |extras| && x in ExpandEntry(extras[i], glob) {
        var i :| 0 <= i < |extras| && x in ExpandEntry(extras[i], glob);
        if i < |extras| - 1 {
          assert init[i] == extras[i];
        }
      }
    }
  }

  lemma ExpandExtrasStep(extras: seq<string>, i: int, glob: string -> seq<string>)
    requires 0 <= i < |extras|
    ensures ExpandExtras(extras[..i + 1], glob) == ExpandExtras(extras[..i], glob) + ExpandEntry(extras[i], glob)
  {
    assert extras[..i + 1][..i] == extras[..i];
  }

  /** An entry without `*` is taken literally; an entry with `*` contributes
      exactly its glob matches. */
  lemma ExtraEntries(extras: seq<string>, glob: string -> seq<string>, i: int)
    requires 0 <= i < |extras|
    ensures '*' !in extras[i] ==> PathOf(extras[i]) in ExpandExtras(extras, glob)
    ensures '*' in extras[i] ==> forall m :: m in glob(extras[i]) ==> PathOf(m) in ExpandExtras(extras, glob)
  {
    forall x | x in ExpandEntry(extras[i], glob)
      ensures x in ExpandExtras(extras, glob)
    {
      ExpandExtrasMembership(extras, glob, x);
    }
    if '*' in extras[i] {
      forall m | m in glob(extras[i])
        ensures PathOf(m) in ExpandEntry(extras[i], glob)
      {
        var k :| 0 <= k < |glob(extras[i])| && glob(extras[i])[k] == m;
        assert PathsOf(glob(extras[i]))[k] == PathOf(m);
      }
    }
  }

  // ----- De-duplication -----

  /** The unique list holds exactly the elements of its input. */
  lemma {:induction false} UniqueElements<T>(s: seq<T>, x: T)
    ensures x in Unique(s) <==> x in s
  {
    if |s| > 0 {
      UniqueElements(s[..|s| - 1], x);
      assert s == s[..|s| - 1] + [s[|s| - 1]];
    }
  }

  /** The unique list has no duplicates. */
  lemma {:induction false} UniqueNoDuplicates<T>(s: seq<T>)
    ensures NoDuplicates(Unique(s))
  {
    if |s| > 0 {
      UniqueNoDuplicates(s[..|s| - 1]);
    }
  }

  lemma {:induction false} FirstIndexOfPrefix<T>(s: seq<T>, y: T, x: T)
    requires y in s
    ensures y in s + [x] && FirstIndex(s + [x], y) == FirstIndex(s, y)
  {
    if s[0] != y {
      assert (s + [x])[1..] == s[1..] + [x];
      FirstIndexOfPrefix(s[1..], y, x);
    }
  }

  /** An element absent from `s` is first found at the end of `s + [z]`. */
  lemma FirstIndexOfNew<T>(s: seq<T>, z: T)
    requires z !in s
    ensures FirstIndex(s + [z], z) == |s|
  {
    var t := s + [z];
    assert forall k :: 0 <= k < |s| ==> t[k] == s[k];
  }

  /** The unique list keeps the first occurrence of each element: its
      elements come in the order in which they first appear in the input. */
  lemma {:induction false} UniqueKeepsFirstOccurrences<T>(s: seq<T>)
    ensures forall x :: x in Unique(s) ==> x in s
    ensures forall i, j :: 0 <= i < j < |Unique(s)| ==> FirstIndex(s, Unique(s)[i]) < FirstIndex(s, Unique(s)[j])
  {
    forall x | x in Unique(s) ensures x in s { UniqueElements(s, x); }
    if |s| > 0 {
      var init, x := s[..|s| - 1], s[|s| - 1];
      var u := Unique(init);
      UniqueKeepsFirstOccurrences(init);
      assert s == init + [x];
      forall y | y in u ensures FirstIndex(s, y) == FirstIndex(init, y) && FirstIndex(s, y) < |init|
      {
        FirstIndexOfPrefix(init, y, x);
      }
      if x !in u {
        UniqueElements(init, x);
        FirstIndexOfNew(init, x);
      }
    }
  }

  lemma {:induction false} WithoutAppend<T>(s: seq<T>, x: T, a: seq<T>)
    ensures Without(s + [x], a) == Without(s, a) + (if x in a then [] else [x])
  {
    assert (s + [x])[..|s|] == s;
  }

  /** De-duplicating a concatenation: the unique prefix, then the unique rest
      without what the prefix already holds. */
  lemma {:induction false} UniqueAppend<T>(a: seq<T>, b: seq<T>)
    ensures Unique(a + b) == Unique(a) + Without(Unique(b), a)
  {
    if |b| == 0 {
      assert a + b == a;
    } else {
      var init, x := b[..|b| - 1], b[|b| - 1];
      var ab := a + b;
      assert ab[..|ab| - 1] == a + init && ab[|ab| - 1] == x;
      UniqueAppend(a, init);
      var u := Unique(a + init);
      var v := Unique(init);
      assert Unique(ab) == if x in u then u else u + [x];
      assert Unique(b) == if x in v then v else v + [x];
      UniqueElements(a + init, x);
      UniqueElements(init, x);
      if x !in v {
        WithoutAppend(v, x, a);
        if x !in a {
          assert Unique(ab) == u + [x];
          assert Unique(a) + Without(Unique(b), a) == (Unique(a) + Without(v, a)) + [x];
        }
      }
    }
  }

  /** The layout of `get_paths`' result: the unique develop paths, then the
      egg paths not already listed, then the other paths, then the extras. */
  lemma ResultLayout(d: seq<Path>, e: seq<Path>, o: seq<Path>, x: seq<Path>)
    ensures Unique(d + e + o + x)
         == Unique(d) + Without(Unique(e), d) + Without(Unique(o), d + e) + Without(Unique(x), d + e + o)
  {
    UniqueAppend(d + e + o, x);
    UniqueAppend(d + e, o);
    UniqueAppend(d, e);
  }

  /** A path is in the result exactly when it is a working-set location whose
      bucket is switched on, or comes from the extra paths. */
  lemma ResultMembership(locations: seq<string>, developPaths: set<Path>, eggsDir: Path, flags: Flags,
                         extras: seq<string>, glob: string -> seq<string>, x: Path)
    ensures x in Unique(Candidates(locations, developPaths, eggsDir, flags, extras, glob))
        <==> (x in PathsOf(locations) && Enabled(flags, KindOf(x, developPaths, eggsDir)))
             || x in ExpandExtras(extras, glob)
  {
    var ps := PathsOf(locations);
    UniqueElements(Candidates(locations, developPaths, eggsDir, flags, extras, glob), x);
    SelectedMembership(ps, Develop, developPaths, eggsDir, flags, x);
    SelectedMembership(ps, Egg, developPaths, eggsDir, flags, x);
    SelectedMembership(ps, Other, developPaths, eggsDir, flags, x);
  }

  /** Every resolved path is a well-formed `Path`: each one was built from a string. */
  lemma ResultWellFormed(locations: seq<string>, developPaths: set<Path>, eggsDir: Path, flags: Flags,
                         extras: seq<string>, glob: string -> seq<string>)
    ensures var r := Unique(Candidates(locations, developPaths, eggsDir, flags, extras, glob));
      forall i :: 0 <= i < |r| ==> WellFormed(r[i])
  {
    var r := Unique(Candidates(locations, developPaths, eggsDir, flags, extras, glob));
    forall i | 0 <= i < |r| ensures WellFormed(r[i]) {
      var x := r[i];
      ResultMembership(locations, developPaths, eggsDir, flags, extras, glob, x);
      if x in PathsOf(locations) {
        var j :| 0 <= j < |locations| && PathsOf(locations)[j] == x;
        PathOfWellFormed(locations[j]);
      } else {
        ExpandExtrasMembership(extras, glob, x);
        var j :| 0 <= j < |extras| && x in ExpandEntry(extras[j], glob);
        if '*' in extras[j] {
          var k :| 0 <= k < |glob(extras[j])| && PathsOf(glob(extras[j]))[k] == x;
          PathOfWellFormed(glob(extras[j])[k]);
        } else {
          PathOfWellFormed(extras[j]);
        }
      }
    }
  }
}
