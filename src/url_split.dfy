/**
 * `os.path.basename(urlsplit(url).path)` as CPython 3.12 computes it: the
 * part of `urlsplit` that decides where the path component starts and
 * ends, and the one netloc check that raises on ordinary input (an
 * unmatched IPv6 bracket).
 */
module UrlSplit {
  import opened Wrappers

  /** The outcome of `urlsplit(url).path`: the path, or the ValueError it raises. */
  datatype PathResult = UrlPath(path: string) | InvalidUrl

  /** Leading characters `lstrip` removes: C0 controls and space. */
  predicate IsStripped(c: char)
  {
    c <= ' '
  }

  function StripLeading(s: string): (r: string)
    ensures |r| <= |s| && r == s[|s| - |r|..]
    ensures r == [] || !IsStripped(r[0])
    ensures forall i :: 0 <= i < |s| - |r| ==> IsStripped(s[i])
    decreases |s|
  {
    if s != [] && IsStripped(s[0]) then StripLeading(s[1..]) else s
  }

  /** Tab, carriage return and line feed are deleted anywhere in the URL. */
  function RemoveUnsafe(s: string): (r: string)
    ensures forall i :: 0 <= i < |r| ==> r[i] != '\t' && r[i] != '\r' && r[i] != '\n'
    ensures '\t' !in s && '\r' !in s && '\n' !in s ==> r == s
    decreases |s|
  {
    if s == [] then []
    else if s[0] == '\t' || s[0] == '\r' || s[0] == '\n' then RemoveUnsafe(s[1..])
    else [s[0]] + RemoveUnsafe(s[1..])
  }

  predicate IsAsciiLetter(c: char)
  {
    'a' <= c <= 'z' || 'A' <= c <= 'Z'
  }

  predicate IsSchemeChar(c: char)
  {
    IsAsciiLetter(c) || '0' <= c <= '9' || c == '+' || c == '-' || c == '.'
  }

  /** Index of the first occurrence of `c`, or `|s|`. */
  function IndexOf(s: string, c: char): (i: nat)
    ensures i <= |s|
    ensures i < |s| ==> s[i] == c
    ensures forall j :: 0 <= j < i ==> s[j] != c
    decreases |s|
  {
    if s == [] then 0
    else if s[0] == c then 0
    else 1 + IndexOf(s[1..], c)
  }

  /** Index of the first of '/', '?', '#', or `|s|`: where a netloc ends. */
  function NetlocEnd(s: string): (i: nat)
    ensures i <= |s|
    ensures i < |s| ==> s[i] == '/' || s[i] == '?' || s[i] == '#'
    ensures forall j :: 0 <= j < i ==> s[j] != '/' && s[j] != '?' && s[j] != '#'
    decreases |s|
  {
    if s == [] then 0
    else if s[0] == '/' || s[0] == '?' || s[0] == '#' then 0
    else 1 + NetlocEnd(s[1..])
  }

  /** The URL after a recognised `scheme:` prefix, or the URL itself when there is none. */
  function AfterScheme(url: string): (rest: string)
    ensures |rest| <= |url|
  {
    var i := IndexOf(url, ':');
    if 0 < i < |url| && IsAsciiLetter(url[0]) && forall j :: 0 <= j < i ==> IsSchemeChar(url[j])
    then url[i + 1..]
    else url
  }

  /** `urlsplit(url).path`. */
  function SplitPath(url: string): PathResult
  {
    SplitRest(AfterScheme(RemoveUnsafe(StripLeading(url))))
  }

  /** The path of what follows the scheme: after the netloc when `//` opens it. */
  function SplitRest(rest: string): PathResult
  {
    if |rest| >= 2 && rest[0] == '/' && rest[1] == '/' then
      var netlocEnd := 2 + NetlocEnd(rest[2..]);
      var netloc := rest[2..netlocEnd];
      if ('[' in netloc) != (']' in netloc) then InvalidUrl
      else UrlPath(PathPart(rest[netlocEnd..]))
    else UrlPath(PathPart(rest))
  }

  /** What is left once the fragment (from '#') and then the query (from '?') are cut off. */
  function PathPart(s: string): (p: string)
    ensures '#' !in p && '?' !in p
    ensures p <= s
    ensures |p| == |s| || s[|p|] == '?' || s[|p|] == '#'
  {
    var noFragment := s[..IndexOf(s, '#')];
    noFragment[..IndexOf(noFragment, '?')]
  }

  /**
   * The path part is the only prefix without '?' or '#' that ends the
   * string or stops at one of them: the text up to the first '?' or '#'.
   */
  lemma PathPartUnique(s: string, q: string)
    requires q <= s && '#' !in q && '?' !in q
    requires |q| == |s| || s[|q|] == '?' || s[|q|] == '#'
    ensures q == PathPart(s)
  {
  }

  /** The index just after the last '/' of `path`, or 0 when there is none. */
  function AfterLastSlash(path: string): (i: nat)
    ensures i <= |path|
    ensures i > 0 ==> path[i - 1] == '/'
    ensures forall j :: i <= j < |path| ==> path[j] != '/'
    decreases |path|
  {
    if path == [] then 0
    else if path[|path| - 1] == '/' then |path|
    else AfterLastSlash(path[..|path| - 1])
  }

  /** `os.path.basename`: the text after the last '/'. */
  function Basename(path: string): (name: string)
    ensures '/' !in name
    ensures |name| <= |path| && name == path[|path| - |name|..]
    ensures |name| < |path| ==> path[|path| - |name| - 1] == '/'
  {
    path[AfterLastSlash(path)..]
  }

  /** `extract_filename`: None for a missing link, InvalidUrl when urlsplit raises. */
  function ExtractFilename(url: Option<string>): (r: Option<PathResult>)
    ensures url.None? <==> r.None?
    ensures r.Some? && r.value.UrlPath? ==> '/' !in r.value.path
  {
    match url
    case None => None
    case Some(u) =>
      match SplitPath(u)
      case InvalidUrl => Some(InvalidUrl)
      case UrlPath(p) => Some(UrlPath(Basename(p)))
  }

  /** The basename of `dir + "/" + name` is `name` when `name` has no '/'. */
  lemma BasenameOfJoin(dir: string, name: string)
    requires '/' !in name
    ensures Basename(dir + "/" + name) == name
  {
    var path := dir + "/" + name;
    var i := AfterLastSlash(path);
    assert path[|dir|] == '/';
    forall j | |dir| + 1 <= j < |path| ensures path[j] != '/' {
      assert path[j] == name[j - |dir| - 1];
    }
    assert i == |dir| + 1;
    assert path[i..] == name;
  }

  predicate NoUnsafe(s: string)
  {
    '\t' !in s && '\r' !in s && '\n' !in s
  }

  /**
   * The usual shape of a download link: `scheme://host/dir/name?query#fragment`
   * with a letters-only scheme, a host without delimiters or brackets, and
   * a name without '/', '?' or '#', gives `name`.
   */
  lemma StandardLinkFilename(scheme: string, host: string, dir: string, name: string, tail: string)
    requires |scheme| >= 1 && forall j :: 0 <= j < |scheme| ==> IsAsciiLetter(scheme[j])
    requires '/' !in host && '?' !in host && '#' !in host && '[' !in host && ']' !in host && NoUnsafe(host)
    requires '?' !in dir && '#' !in dir && NoUnsafe(dir)
    requires '/' !in name && '?' !in name && '#' !in name && NoUnsafe(name)
    requires tail == [] || tail[0] == '?' || tail[0] == '#'
    requires NoUnsafe(tail)
    ensures ExtractFilename(Some(scheme + "://" + host + "/" + dir + "/" + name + tail)) == Some(UrlPath(name))
  {
    var path := "/" + dir + "/" + name;
    var rest := "//" + host + path + tail;
    assert scheme + "://" + host + "/" + dir + "/" + name + tail == scheme + ":" + rest;
    assert NoUnsafe(rest);
    SplitStandardLink(scheme, host, path, tail);
    assert path == ("/" + dir) + "/" + name;
    BasenameOfJoin("/" + dir, name);
  }

  lemma SplitStandardLink(scheme: string, host: string, path: string, tail: string)
    requires |scheme| >= 1 && forall j :: 0 <= j < |scheme| ==> IsAsciiLetter(scheme[j])
    requires '/' !in host && '?' !in host && '#' !in host && '[' !in host && ']' !in host
    requires path != [] && path[0] == '/' && '?' !in path && '#' !in path
    requires tail == [] || tail[0] == '?' || tail[0] == '#'
    requires NoUnsafe("//" + host + path + tail)
    ensures SplitPath(scheme + ":" + ("//" + host + path + tail)) == UrlPath(path)
  {
    SplitAfterLetters(scheme, "//" + host + path + tail);
    SplitStandardRest(host, path, tail);
  }

  lemma SplitStandardRest(host: string, path: string, tail: string)
    requires '/' !in host && '?' !in host && '#' !in host && '[' !in host && ']' !in host
    requires path != [] && path[0] == '/' && '?' !in path && '#' !in path
    requires tail == [] || tail[0] == '?' || tail[0] == '#'
    ensures SplitRest("//" + host + path + tail) == UrlPath(path)
  {
    NetlocOfStandardLink(host, path, tail);
    PathOfTail(path, tail);
  }

  /** After a letters-only scheme and no unsafe character, only the rest is split. */
  lemma SplitAfterLetters(scheme: string, rest: string)
    requires |scheme| >= 1 && forall j :: 0 <= j < |scheme| ==> IsAsciiLetter(scheme[j])
    requires NoUnsafe(rest)
    ensures SplitPath(scheme + ":" + rest) == SplitRest(rest)
  {
    CleanStandardLink(scheme, rest);
    SchemeRecognised(scheme, rest);
  }

  lemma CleanStandardLink(scheme: string, rest: string)
    requires |scheme| >= 1 && forall j :: 0 <= j < |scheme| ==> IsAsciiLetter(scheme[j])
    requires NoUnsafe(rest)
    ensures RemoveUnsafe(StripLeading(scheme + ":" + rest)) == scheme + ":" + rest
  {
    var url := scheme + ":" + rest;
    assert NoUnsafe(scheme) by {
      forall j | 0 <= j < |scheme| ensures scheme[j] != '\t' && scheme[j] != '\r' && scheme[j] != '\n' {
        assert IsAsciiLetter(scheme[j]);
      }
    }
    assert NoUnsafe(url);
    assert url[0] == scheme[0] && !IsStripped(url[0]);
  }

  lemma NetlocOfStandardLink(host: string, path: string, tail: string)
    requires '/' !in host && '?' !in host && '#' !in host
    requires path != [] && path[0] == '/'
    ensures var rest := "//" + host + path + tail;
            var netlocEnd := 2 + NetlocEnd(rest[2..]);
            netlocEnd <= |rest| && rest[2..netlocEnd] == host && rest[netlocEnd..] == path + tail
  {
    var rest := "//" + host + path + tail;
    assert rest[2..] == host + (path + tail);
    HostEnds(host, path + tail);
  }

  lemma SchemeRecognised(scheme: string, rest: string)
    requires |scheme| >= 1 && forall j :: 0 <= j < |scheme| ==> IsAsciiLetter(scheme[j])
    ensures AfterScheme(scheme + ":" + rest) == rest
  {
    var url := scheme + ":" + rest;
    assert forall j :: 0 <= j < |scheme| ==> url[j] == scheme[j] && url[j] != ':';
    assert url[|scheme|] == ':';
    assert IndexOf(url, ':') == |scheme|;
    assert url[|scheme| + 1..] == rest;
  }

  lemma HostEnds(host: string, rest: string)
    requires '/' !in host && '?' !in host && '#' !in host
    requires rest != [] && rest[0] == '/'
    ensures NetlocEnd(host + rest) == |host|
  {
    var s := host + rest;
    assert s[|host|] == '/';
    forall j | 0 <= j < |host| ensures s[j] != '/' && s[j] != '?' && s[j] != '#' {
      assert s[j] == host[j] && host[j] in host;
    }
  }

  lemma PathOfTail(path: string, tail: string)
    requires '?' !in path && '#' !in path
    requires tail == [] || tail[0] == '?' || tail[0] == '#'
    ensures PathPart(path + tail) == path
  {
    var s := path + tail;
    assert forall j :: 0 <= j < |path| ==> s[j] == path[j];
    var f := IndexOf(s, '#');
    assert f >= |path|;
    var noFragment := s[..f];
    assert noFragment[..|path|] == path;
    var q := IndexOf(noFragment, '?');
    assert q >= |path|;
    if f > |path| {
      assert s[|path|] == tail[0] && tail[0] != '#';
      assert noFragment[|path|] == '?';
    }
    assert q == |path|;
  }

  /** A host with an opening IPv6 bracket and no closing one makes `urlsplit` raise. */
  lemma UnmatchedBracketInvalid(scheme: string, host: string, path: string, tail: string)
    requires |scheme| >= 1 && forall j :: 0 <= j < |scheme| ==> IsAsciiLetter(scheme[j])
    requires '/' !in host && '?' !in host && '#' !in host && '[' in host && ']' !in host
    requires path != [] && path[0] == '/'
    requires NoUnsafe("//" + host + path + tail)
    ensures ExtractFilename(Some(scheme + ":" + ("//" + host + path + tail))) == Some(InvalidUrl)
  {
    SplitAfterLetters(scheme, "//" + host + path + tail);
    BracketRest(host, path, tail);
  }

  lemma BracketRest(host: string, path: string, tail: string)
    requires '/' !in host && '?' !in host && '#' !in host && '[' in host && ']' !in host
    requires path != [] && path[0] == '/'
    ensures SplitRest("//" + host + path + tail) == InvalidUrl
  {
    NetlocOfStandardLink(host, path, tail);
  }
}
