/**
 * The part of Python's `pathlib.PurePosixPath` the subscriber and the
 * download worker rely on: parsing a string into a root and components,
 * the `/` operator, `Path(*segments)`, `str(path)` and `.parent`.
 *
 * Parsing splits on '/', drops empty and "." components and keeps "..";
 * a leading "//" (exactly two slashes) is a root of its own, one or three
 * or more leading slashes give the root "/".  Joining with a segment that
 * has a root discards everything joined so far.
 */
module PosixPath {
  import Strings

  datatype Path = Path(root: string, parts: seq<string>)

  /** A component pathlib keeps: not empty and not ".". */
  predicate IsComponent(s: string)
  {
    s != [] && s != "."
  }

  /** The shape every parsed path has. */
  predicate WellFormed(p: Path)
  {
    && (p.root == "" || p.root == "/" || p.root == "//")
    && forall i :: 0 <= i < |p.parts| ==> IsComponent(p.parts[i]) && '/' !in p.parts[i]
  }

  /** The components kept from the pieces of a string split on '/'. */
  function Keep(pieces: seq<string>): (kept: seq<string>)
    ensures |kept| <= |pieces|
    ensures forall i :: 0 <= i < |kept| ==> IsComponent(kept[i])
    ensures forall x :: x in kept ==> x in pieces
    decreases |pieces|
  {
    if pieces == [] then []
    else (if IsComponent(pieces[0]) then [pieces[0]] else []) + Keep(pieces[1..])
  }

  function RootOf(s: string): string
  {
    if |s| >= 2 && s[0] == '/' && s[1] == '/' && (|s| == 2 || s[2] != '/') then "//"
    else if |s| >= 1 && s[0] == '/' then "/"
    else ""
  }

  /** `PurePosixPath(s)`. */
  function Parse(s: string): (p: Path)
    ensures WellFormed(p)
  {
    var pieces := Strings.Split(s, '/');
    assert forall x :: x in Keep(pieces) ==> '/' !in x;
    Path(RootOf(s), Keep(pieces))
  }

  /** `p / s`: a segment with a root replaces the path. */
  function JoinOne(p: Path, s: string): Path
  {
    var q := Parse(s);
    if q.root != "" then q else Path(p.root, p.parts + q.parts)
  }

  /** `PurePosixPath(*segments)`. */
  function FromParts(segments: seq<string>): Path
    decreases |segments|
  {
    if segments == [] then Path("", [])
    else JoinOne(FromParts(segments[..|segments| - 1]), segments[|segments| - 1])
  }

  /** `str(p)`: "." for the empty relative path. */
  function Render(p: Path): string
  {
    if p.root == "" && p.parts == [] then "." else p.root + Strings.Join(p.parts, '/')
  }

  /** `p.parent`: the path without its last component; a bare root is its own parent. */
  function Parent(p: Path): (q: Path)
    ensures WellFormed(p) ==> WellFormed(q)
  {
    if p.parts == [] then p else Path(p.root, p.parts[..|p.parts| - 1])
  }

  /** Neither the root nor any component holds `c`. */
  predicate Avoids(p: Path, c: char)
  {
    c !in p.root && forall i :: 0 <= i < |p.parts| ==> c !in p.parts[i]
  }

  lemma {:induction false} KeepComponents(pieces: seq<string>)
    requires forall i :: 0 <= i < |pieces| ==> IsComponent(pieces[i])
    ensures Keep(pieces) == pieces
    decreases |pieces|
  {
    if pieces != [] {
      KeepComponents(pieces[1..]);
      assert [pieces[0]] + pieces[1..] == pieces;
    }
  }

  lemma {:induction false} JoinStartsWithFirst(parts: seq<string>)
    requires |parts| >= 1 && parts[0] != []
    ensures Strings.Join(parts, '/') != [] && Strings.Join(parts, '/')[0] == parts[0][0]
  {
  }

  /** The components of a joined component list, split again. */
  lemma ComponentsOfJoin(parts: seq<string>)
    requires forall i :: 0 <= i < |parts| ==> IsComponent(parts[i]) && '/' !in parts[i]
    ensures Keep(Strings.Split(Strings.Join(parts, '/'), '/')) == parts
    ensures parts != [] ==> Strings.Join(parts, '/') != [] && Strings.Join(parts, '/')[0] != '/'
  {
    if parts == [] {
      assert Strings.Split([], '/') == [[]];
    } else {
      Strings.SplitJoin(parts, '/');
      KeepComponents(parts);
      JoinStartsWithFirst(parts);
      assert parts[0][0] in parts[0];
    }
  }

  /** Parsing what `str` prints gives back the same path. */
  lemma ParseRender(p: Path)
    requires WellFormed(p)
    ensures Parse(Render(p)) == p
  {
    ComponentsOfJoin(p.parts);
    if p.root == "" {
      ParseRenderRelative(p);
    } else if p.root == "/" {
      ParseRenderRooted(p);
    } else {
      ParseRenderDoubleRooted(p);
    }
  }

  lemma ParseRenderRelative(p: Path)
    requires WellFormed(p) && p.root == ""
    ensures Parse(Render(p)) == p
  {
    ComponentsOfJoin(p.parts);
    if p.parts == [] {
      Strings.SplitFree(".", '/');
      assert Keep(["."]) == [] + Keep([]);
    } else {
      assert Render(p) == Strings.Join(p.parts, '/');
    }
  }

  lemma ParseRenderRooted(p: Path)
    requires WellFormed(p) && p.root == "/"
    ensures Parse(Render(p)) == p
  {
    var j := Strings.Join(p.parts, '/');
    ComponentsOfJoin(p.parts);
    var s := Render(p);
    assert s == [] + ['/'] + j;
    Strings.SplitAtSeparator([], j, '/');
    var inner := Strings.Split(j, '/');
    assert Keep([[]] + inner) == Keep(inner);
    assert RootOf(s) == "/" by {
      assert |s| == 1 || s[1] == j[0];
    }
  }

  lemma ParseRenderDoubleRooted(p: Path)
    requires WellFormed(p) && p.root == "//"
    ensures Parse(Render(p)) == p
  {
    var j := Strings.Join(p.parts, '/');
    ComponentsOfJoin(p.parts);
    var s := Render(p);
    assert s == [] + ['/'] + ([] + ['/'] + j);
    Strings.SplitAtSeparator([], ['/'] + j, '/');
    Strings.SplitAtSeparator([], j, '/');
    var inner := Strings.Split(j, '/');
    assert Keep([[]] + ([[]] + inner)) == Keep([[]] + inner) == Keep(inner);
    assert RootOf(s) == "//" by {
      assert |s| == 2 || s[2] == j[0];
    }
  }

  /** Every piece of a split of a string without `c` is without `c`. */
  lemma {:induction false} SplitAvoids(s: string, sep: char, c: char)
    requires c !in s
    ensures forall i :: 0 <= i < |Strings.Split(s, sep)| ==> c !in Strings.Split(s, sep)[i]
    decreases |s|
  {
    if s != [] {
      assert c !in s[1..];
      SplitAvoids(s[1..], sep, c);
    }
  }

  /** Parsing a string without `c` gives a path without `c`. */
  lemma ParseAvoids(s: string, c: char)
    requires c !in s
    ensures Avoids(Parse(s), c)
  {
    SplitAvoids(s, '/', c);
    var pieces := Strings.Split(s, '/');
    var kept := Keep(pieces);
    forall i | 0 <= i < |kept| ensures c !in kept[i] {
      assert kept[i] in pieces;
    }
  }

  /** Joining segments without `c` gives a path without `c`. */
  lemma {:induction false} FromPartsAvoids(segments: seq<string>, c: char)
    requires forall i :: 0 <= i < |segments| ==> c !in segments[i]
    ensures Avoids(FromParts(segments), c)
    decreases |segments|
  {
    if segments != [] {
      var n := |segments| - 1;
      FromPartsAvoids(segments[..n], c);
      ParseAvoids(segments[n], c);
    }
  }

  /** `str` of a path without `c` (not '/' nor '.') has no `c`. */
  lemma RenderAvoids(p: Path, c: char)
    requires c != '/' && c != '.'
    requires Avoids(p, c)
    ensures c !in Render(p)
  {
    Strings.JoinAvoids(p.parts, '/', c);
  }

  /** Segments without '/' never carry a root, so they are only filtered. */
  lemma {:induction false} FromPartsRelative(segments: seq<string>)
    requires forall i :: 0 <= i < |segments| ==> '/' !in segments[i]
    ensures FromParts(segments) == Path("", Keep(segments))
    decreases |segments|
  {
    if segments != [] {
      var n := |segments| - 1;
      var prefix, last := segments[..n], segments[n];
      assert prefix + [last] == segments;
      assert forall i :: 0 <= i < |prefix| ==> prefix[i] == segments[i];
      FromPartsRelative(prefix);
      FromPartsLast(segments);
      JoinFreeSegment(FromParts(prefix), last);
      KeepAppend(prefix, [last]);
    }
  }

  /** `/name` parses to the path rooted at `/` with the one component `name`. */
  lemma ParseRooted(name: string)
    requires IsComponent(name) && '/' !in name
    ensures Parse(['/'] + name) == Path("/", [name])
  {
    var r := ['/'] + name;
    assert r == [] + ['/'] + name;
    Strings.SplitAtSeparator([], name, '/');
    Strings.SplitFree(name, '/');
    assert Keep(["", name]) == [name] by {
      assert ["", name][1..] == [name];
      KeepComponents([name]);
    }
  }

  /** `PurePosixPath(*segments)` joins the last segment onto the path of the others. */
  lemma FromPartsLast(segments: seq<string>)
    requires segments != []
    ensures FromParts(segments) == JoinOne(FromParts(segments[..|segments| - 1]), segments[|segments| - 1])
  {
  }

  /** Joining a segment without '/' appends it when it is a component. */
  lemma JoinFreeSegment(p: Path, s: string)
    requires '/' !in s
    ensures JoinOne(p, s) == Path(p.root, p.parts + Keep([s]))
  {
    Strings.SplitFree(s, '/');
  }

  lemma {:induction false} KeepAppend(a: seq<string>, b: seq<string>)
    ensures Keep(a + b) == Keep(a) + Keep(b)
    decreases |a|
  {
    if a != [] {
      KeepAppend(a[1..], b);
      assert (a + b)[1..] == a[1..] + b;
    } else {
      assert a + b == b;
    }
  }
}
