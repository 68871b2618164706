/** The library file writer (`Recipe._write_paths`): the text of
    `libraries/Buildout_Eggs.xml`, as lines joined by newlines. Three fixed
    opening lines, one `root` line per path, six closing lines (the last one
    empty, so the text ends with a newline). Each path is written as a
    `file://` URL of its POSIX form, escaped as character data. */
module LibraryFile {
  import opened Wrappers
  import opened Text
  import opened XmlEscape
  import opened Paths

  function Header(libraryName: string): seq<string>
  {
    ["<component name=\"libraryTable\">",
     "  <library name=\"" + libraryName + "\" type=\"python\">",
     "    <CLASSES>"]
  }

  const Footer: seq<string> :=
    ["    </CLASSES>", "    <JAVADOC />", "    <SOURCES />", "  </library>", "</component>", ""]

  const RootPrefix: string := "      <root url=\"file://"
  const RootSuffix: string := "\" />"

  function RootLine(p: Path): string
  {
    RootPrefix + Escape(AsPosix(p)) + RootSuffix
  }

  /** `[f(x) for x in xs]`. */
  function Map<A, B>(xs: seq<A>, f: A -> B): (r: seq<B>)
    ensures |r| == |xs|
    ensures forall i :: 0 <= i < |xs| ==> r[i] == f(xs[i])
  {
    if |xs| == 0 then [] else Map(xs[..|xs| - 1], f) + [f(xs[|xs| - 1])]
  }

  /** One `root` line per path, in order. */
  function RootLines(paths: seq<Path>): seq<string>
  {
    Map(paths, RootLine)
  }

  function Lines(libraryName: string, paths: seq<Path>): seq<string>
  {
    Header(libraryName) + RootLines(paths) + Footer
  }

  /** `'\n'.join(lines)`. */
  function Document(lines: seq<string>): string
  {
    JoinWith(lines, '\n')
  }

  // ----- Reading the file back -----

  /** The escaped URL path of a `root` line, or `None` for any other line. */
  function RootUrl(line: string): (r: Option<string>)
  {
    if |line| >= |RootPrefix| + |RootSuffix|
       && line[..|RootPrefix|] == RootPrefix && line[|line| - |RootSuffix|..] == RootSuffix
    then Some(line[|RootPrefix|..|line| - |RootSuffix|])
    else None
  }

  /** The paths a reader finds on one line: the URL of a `root` line,
      unescaped and read as a path; nothing on any other line. */
  function LinePaths(line: string): seq<Path>
  {
    match RootUrl(line)
    case None => []
    case Some(url) => [PathOf(Unescape(url))]
  }

  /** Each element's results, concatenated in order. */
  function FlatMap<A, B>(xs: seq<A>, f: A -> seq<B>): seq<B>
  {
    if |xs| == 0 then [] else FlatMap(xs[..|xs| - 1], f) + f(xs[|xs| - 1])
  }

  /** The paths a reader finds in the lines, in order. */
  function ReadPaths(lines: seq<string>): seq<Path>
  {
    FlatMap(lines, LinePaths)
  }

  lemma {:induction false} FlatMapAppend<A, B>(a: seq<A>, b: seq<A>, f: A -> seq<B>)
    ensures FlatMap(a + b, f) == FlatMap(a, f) + FlatMap(b, f)
  {
    if |b| == 0 {
      assert a + b == a;
    } else {
      FlatMapAppend(a, b[..|b| - 1], f);
      assert (a + b)[..|a + b| - 1] == a + b[..|b| - 1];
    }
  }

  lemma {:induction false} FlatMapNothing<A, B>(xs: seq<A>, f: A -> seq<B>)
    requires forall i :: 0 <= i < |xs| ==> f(xs[i]) == []
    ensures FlatMap(xs, f) == []
  {
    if |xs| > 0 {
      FlatMapNothing(xs[..|xs| - 1], f);
    }
  }

  /** Elements that each give one result give those results, in order. */
  lemma {:induction false} FlatMapOneEach<A, B>(xs: seq<A>, ys: seq<B>, f: A -> seq<B>)
    requires |xs| == |ys|
    requires forall i :: 0 <= i < |xs| ==> f(xs[i]) == [ys[i]]
    ensures FlatMap(xs, f) == ys
  {
    if |xs| > 0 {
      var n := |xs| - 1;
      FlatMapOneEach(xs[..n], ys[..n], f);
      assert ys == ys[..n] + [ys[n]];
    }
  }

  /** A line that differs from the root prefix somewhere is not a root line. */
  lemma NotRootLine(line: string, k: int)
    requires 0 <= k < |RootPrefix| && k < |line| && line[k] != RootPrefix[k]
    ensures RootUrl(line).None? && LinePaths(line) == []
  {
    if |line| >= |RootPrefix| {
      assert line[..|RootPrefix|][k] == line[k];
    }
  }

  lemma NameLineIsNotRootLine(libraryName: string)
    ensures LinePaths("  <library name=\"" + libraryName + "\" type=\"python\">") == []
  {
    var line := "  <library name=\"" + libraryName + "\" type=\"python\">";
    assert line[2] == '<';
    NotRootLine(line, 2);
  }

  lemma HeaderHasNoPaths(libraryName: string)
    ensures ReadPaths(Header(libraryName)) == []
  {
    NotRootLine("<component name=\"libraryTable\">", 0);
    NameLineIsNotRootLine(libraryName);
    NotRootLine("    <CLASSES>", 4);
    FlatMapNothing(Header(libraryName), LinePaths);
  }

  lemma FooterHasNoPaths()
    ensures ReadPaths(Footer) == []
  {
    NotRootLine("    </CLASSES>", 4);
    NotRootLine("    <JAVADOC />", 4);
    NotRootLine("    <SOURCES />", 4);
    NotRootLine("  </library>", 2);
    NotRootLine("</component>", 0);
    assert LinePaths("") == [];
    FlatMapNothing(Footer, LinePaths);
  }

  lemma RootLineUrl(p: Path)
    ensures RootUrl(RootLine(p)) == Some(Escape(AsPosix(p)))
  {
    var e := Escape(AsPosix(p));
    var line := RootPrefix + e + RootSuffix;
    assert line[..|RootPrefix|] == RootPrefix;
    assert line[|line| - |RootSuffix|..] == RootSuffix;
    assert line[|RootPrefix|..|line| - |RootSuffix|] == e;
  }

  /** One root line reads back as its path. */
  lemma RootLineReadBack(p: Path)
    requires WellFormed(p)
    ensures LinePaths(RootLine(p)) == [p]
  {
    RootLineUrl(p);
    EscapeRoundTrip(AsPosix(p));
    PathOfAsPosix(p);
  }

  lemma RootLinesEachReadBack(paths: seq<Path>)
    requires forall i :: 0 <= i < |paths| ==> WellFormed(paths[i])
    ensures forall i :: 0 <= i < |paths| ==> LinePaths(RootLines(paths)[i]) == [paths[i]]
  {
    forall i | 0 <= i < |paths| ensures LinePaths(RootLine(paths[i])) == [paths[i]] {
      RootLineReadBack(paths[i]);
    }
  }

  lemma RootLinesReadBack(paths: seq<Path>)
    requires forall i :: 0 <= i < |paths| ==> WellFormed(paths[i])
    ensures ReadPaths(RootLines(paths)) == paths
  {
    RootLinesEachReadBack(paths);
    FlatMapOneEach(RootLines(paths), paths, LinePaths);
  }

  lemma ReadPathsBetween(h: seq<string>, m: seq<string>, f: seq<string>)
    requires ReadPaths(h) == [] && ReadPaths(f) == []
    ensures ReadPaths(h + m + f) == ReadPaths(m)
  {
    FlatMapAppend(h + m, f, LinePaths);
    FlatMapAppend(h, m, LinePaths);
  }

  /** Reading the written lines back gives exactly the resolved paths, in
      order: one `root` line per path and no other line taken for one. */
  lemma LinesReadBack(libraryName: string, paths: seq<Path>)
    requires forall i :: 0 <= i < |paths| ==> WellFormed(paths[i])
    ensures ReadPaths(Lines(libraryName, paths)) == paths
  {
    HeaderHasNoPaths(libraryName);
    FooterHasNoPaths();
    RootLinesReadBack(paths);
    ReadPathsBetween(Header(libraryName), RootLines(paths), Footer);
  }

  lemma ConcatLayout<T>(h: seq<T>, m: seq<T>, f: seq<T>)
    ensures (h + m + f)[..|h|] == h && (h + m + f)[|h| + |m|..] == f
    ensures forall i :: 0 <= i < |m| ==> (h + m + f)[|h| + i] == m[i]
  {
  }

  /** The line layout: three opening lines, one root line per path in order,
      six closing lines. */
  lemma LinesLayout(libraryName: string, paths: seq<Path>)
    ensures |Lines(libraryName, paths)| == |paths| + 9
    ensures Lines(libraryName, paths)[..3] == Header(libraryName)
    ensures forall i :: 0 <= i < |paths| ==> Lines(libraryName, paths)[3 + i] == RootLine(paths[i])
    ensures Lines(libraryName, paths)[|paths| + 3..] == Footer
  {
    var h, m := Header(libraryName), RootLines(paths);
    assert |h| == 3 && |Footer| == 6;
    assert |m| == |paths|;
    assert Lines(libraryName, paths) == h + m + Footer;
    ConcatLayout(h, m, Footer);
    forall i | 0 <= i < |paths| ensures Lines(libraryName, paths)[3 + i] == RootLine(paths[i]) {
      assert (h + m + Footer)[|h| + i] == m[i];
      assert m[i] == RootLine(paths[i]);
    }
  }

  /** An `&` in a path is written as `&amp;`. */
  lemma RootLineAmpersand(p: Path)
    requires '&' in AsPosix(p)
    ensures Contains(RootLine(p), "&amp;")
  {
    EscapeAmpersand(AsPosix(p));
    ContainsWithin(RootPrefix, Escape(AsPosix(p)), RootSuffix, "&amp;");
  }

  // ----- The text of the file -----

  lemma {:induction false} EscapeEachKeepsLines(s: string)
    requires '\n' !in s
    ensures '\n' !in EscapeEach(s)
  {
    if |s| > 0 {
      EscapeEachKeepsLines(s[1..]);
    }
  }

  lemma RootLineIsOneLine(p: Path)
    requires '\n' !in AsPosix(p)
    ensures '\n' !in RootLine(p)
  {
    EscapeIsPerCharacter(AsPosix(p));
    EscapeEachKeepsLines(AsPosix(p));
    assert '\n' !in RootPrefix && '\n' !in RootSuffix;
  }

  lemma {:induction false} JoinEndsWithEmpty(lines: seq<string>, sep: char)
    requires |lines| >= 2 && lines[|lines| - 1] == ""
    ensures |JoinWith(lines, sep)| >= 1 && JoinWith(lines, sep)[|JoinWith(lines, sep)| - 1] == sep
  {
    if |lines| > 2 {
      JoinEndsWithEmpty(lines[1..], sep);
    }
  }

  lemma HeaderIsLines(libraryName: string)
    requires '\n' !in libraryName
    ensures forall i :: 0 <= i < |Header(libraryName)| ==> '\n' !in Header(libraryName)[i]
  {
    var h := Header(libraryName);
    assert '\n' !in h[0];
    assert '\n' !in "  <library name=\"" && '\n' !in "\" type=\"python\">";
    assert '\n' !in h[1];
    assert '\n' !in h[2];
  }

  lemma FooterIsLines()
    ensures forall i :: 0 <= i < |Footer| ==> '\n' !in Footer[i]
  {
  }

  lemma ConcatLines(h: seq<string>, m: seq<string>, f: seq<string>)
    requires forall i :: 0 <= i < |h| ==> '\n' !in h[i]
    requires forall i :: 0 <= i < |m| ==> '\n' !in m[i]
    requires forall i :: 0 <= i < |f| ==> '\n' !in f[i]
    ensures forall i :: 0 <= i < |h + m + f| ==> '\n' !in (h + m + f)[i]
  {
  }

  /** The text splits back into the lines (when no path holds a newline),
      and ends with a newline. */
  lemma DocumentLines(libraryName: string, paths: seq<Path>)
    requires '\n' !in libraryName
    requires forall i :: 0 <= i < |paths| ==> '\n' !in AsPosix(paths[i])
    ensures Split(Document(Lines(libraryName, paths)), '\n') == Lines(libraryName, paths)
    ensures var d := Document(Lines(libraryName, paths)); |d| >= 1 && d[|d| - 1] == '\n'
  {
    var rl := RootLines(paths);
    forall i | 0 <= i < |rl| ensures '\n' !in rl[i] {
      RootLineIsOneLine(paths[i]);
    }
    HeaderIsLines(libraryName);
    FooterIsLines();
    ConcatLines(Header(libraryName), rl, Footer);
    var ls := Lines(libraryName, paths);
    SplitJoin(ls, '\n');
    LinesLayout(libraryName, paths);
    assert ls[|ls| - 1] == Footer[5] == "";
    JoinEndsWithEmpty(ls, '\n');
  }

  /** What a reader of the written file finds: splitting the text into
      lines and reading the `root` lines gives back the paths, in order. */
  lemma DocumentReadBack(libraryName: string, paths: seq<Path>)
    requires '\n' !in libraryName
    requires forall i :: 0 <= i < |paths| ==> WellFormed(paths[i]) && '\n' !in AsPosix(paths[i])
    ensures ReadPaths(Split(Document(Lines(libraryName, paths)), '\n')) == paths
  {
    DocumentLines(libraryName, paths);
    LinesReadBack(libraryName, paths);
  }
}
