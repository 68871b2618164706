/** Filesystem paths as `pathlib` sees them on a POSIX system: an anchor (the
    root `/` or none) and a sequence of name components. Two paths are equal
    exactly when anchor and components are equal, as for `PurePosixPath`. */
module Paths {
  import opened Text

  datatype Path = Path(absolute: bool, parts: seq<string>)

  /** A component as `pathlib` keeps it: not empty, not `.`, no separator. */
  predicate IsName(name: string)
  {
    name != "" && name != "." && '/' !in name
  }

  predicate WellFormed(p: Path)
  {
    forall i :: 0 <= i < |p.parts| ==> IsName(p.parts[i])
  }

  /** `p / name` for a single component. */
  function Child(p: Path, name: string): (r: Path)
    requires IsName(name)
    ensures |r.parts| == |p.parts| + 1 && r.parts[|p.parts|] == name
    ensures r.absolute == p.absolute && r.parts[..|p.parts|] == p.parts
  {
    Path(p.absolute, p.parts + [name])
  }

  /** `p.parents`, nearest ancestor first; the path itself is not among them. */
  function Parents(p: Path): (r: seq<Path>)
    ensures |r| == |p.parts|
  {
    seq(|p.parts|, i requires 0 <= i < |p.parts| => Path(p.absolute, p.parts[..|p.parts| - 1 - i]))
  }

  /** `a` is a proper ancestor of `p`: same anchor, and `a`'s components a
      proper prefix of `p`'s. */
  predicate IsProperAncestor(a: Path, p: Path)
  {
    a.absolute == p.absolute && |a.parts| < |p.parts| && a.parts == p.parts[..|a.parts|]
  }

  /** Membership in `p.parents` is exactly the proper-ancestor relation. */
  lemma ParentsAreProperAncestors(a: Path, p: Path)
    ensures a in Parents(p) <==> IsProperAncestor(a, p)
  {
    var ps := Parents(p);
    if IsProperAncestor(a, p) {
      var i := |p.parts| - 1 - |a.parts|;
      assert ps[i] == a;
    }
    if a in ps {
      var i :| 0 <= i < |ps| && ps[i] == a;
      assert |a.parts| == |p.parts| - 1 - i;
    }
  }

  /** No path is its own proper ancestor. */
  lemma NotOwnParent(p: Path)
    ensures p !in Parents(p)
  {
    ParentsAreProperAncestors(p, p);
  }

  /** `p.as_posix()`. */
  function AsPosix(p: Path): string
  {
    if p.absolute then "/" + JoinWith(p.parts, '/')
    else if |p.parts| == 0 then "."
    else JoinWith(p.parts, '/')
  }

  /** The components `pathlib` keeps from the pieces between separators:
      empty pieces (from `//` or a trailing `/`) and `.` are dropped. */
  function KeptNames(pieces: seq<string>): (r: seq<string>)
    ensures forall i :: 0 <= i < |r| ==> r[i] in pieces
  {
    if |pieces| == 0 then []
    else if pieces[0] == "" || pieces[0] == "." then KeptNames(pieces[1..])
    else [pieces[0]] + KeptNames(pieces[1..])
  }

  /** `Path(s)` on a POSIX system. */
  function PathOf(s: string): Path
  {
    Path(|s| > 0 && s[0] == '/', KeptNames(Split(s, '/')))
  }

  lemma {:induction false} KeptNamesWellFormed(pieces: seq<string>)
    requires forall i :: 0 <= i < |pieces| ==> '/' !in pieces[i]
    ensures WellFormed(Path(false, KeptNames(pieces)))
  {
    if |pieces| > 0 {
      KeptNamesWellFormed(pieces[1..]);
    }
  }

  /** Every path built from a string is well formed. */
  lemma PathOfWellFormed(s: string)
    ensures WellFormed(PathOf(s))
  {
    KeptNamesWellFormed(Split(s, '/'));
  }

  lemma {:induction false} KeptNamesOfNames(parts: seq<string>)
    requires forall i :: 0 <= i < |parts| ==> IsName(parts[i])
    ensures KeptNames(parts) == parts
  {
    if |parts| > 0 {
      KeptNamesOfNames(parts[1..]);
      assert [parts[0]] + parts[1..] == parts;
    }
  }

  lemma {:induction false} JoinStartsWithFirst(parts: seq<string>, sep: char)
    requires |parts| >= 1
    ensures JoinWith(parts, sep)[..|parts[0]|] == parts[0]
  {
    if |parts| > 1 {
      assert JoinWith(parts, sep) == parts[0] + ([sep] + JoinWith(parts[1..], sep));
    }
  }

  /** Reading back `as_posix()` gives the same path. */
  lemma PathOfAsPosix(p: Path)
    requires WellFormed(p)
    ensures PathOf(AsPosix(p)) == p
  {
    var s := AsPosix(p);
    if p.absolute {
      assert s == "" + ['/'] + JoinWith(p.parts, '/');
      SplitAtSeparator("", '/', JoinWith(p.parts, '/'));
      if |p.parts| == 0 {
        assert Split(s, '/') == ["", ""];
        assert KeptNames(["", ""]) == KeptNames([""]) == KeptNames([]);
      } else {
        SplitJoin(p.parts, '/');
        KeptNamesOfNames(p.parts);
      }
    } else if |p.parts| == 0 {
      SplitNoSeparator(s, '/');
      assert s == "." && !(|s| > 0 && s[0] == '/') && KeptNames(["."]) == KeptNames([]);
    } else {
      SplitJoin(p.parts, '/');
      KeptNamesOfNames(p.parts);
      JoinStartsWithFirst(p.parts, '/');
      assert s[0] == p.parts[0][0];
    }
  }
}
