/**
 * URL normalisation, component bitmasks and canonical ("standardized") URL strings
 * (url-utils.js).
 *
 * The WHATWG URL parser behind `new URL(url)` is not modelled: `ParseUrl` starts from what it
 * yields (host, pathname, search, hash), or from `None` when it throws.
 */
module UrlUtils {
  import opened Wrappers

  // Component bit flags; the host is always part of a canonical URL and has no flag.
  const ComponentPath: nat := 1
  const ComponentQuery: nat := 2
  const ComponentFragment: nat := 4

  /** `mask & flag` for a single-bit flag and a non-negative mask. */
  predicate HasFlag(mask: nat, flag: nat)
  {
    flag > 0 && (mask / flag) % 2 == 1
  }

  /** The four strings the URL standard splits an absolute URL into. */
  datatype UrlSplit = UrlSplit(host: string, pathname: string, search: string, hash: string)

  /** The normalised components of a URL (the result of `parseURL`). */
  datatype UrlParts = UrlParts(host: string, path: string, query: string, fragment: string)

  /** The user's choice of which components identify a page. */
  datatype ComponentSettings = ComponentSettings(includePath: bool, includeQuery: bool, includeFragment: bool)

  /** One entry of `generateSpecificityLevels`. */
  datatype Level = Level(url: string, bitmask: nat, description: string)

  /** What `createURLData` bundles for one URL. */
  datatype UrlData = UrlData(urlParts: UrlParts, userStandardized: string, userBitmask: nat,
                             specificityLevels: seq<Level>)

  // ---------------------------------------------------------------------------
  // Character-level helpers
  // ---------------------------------------------------------------------------

  predicate NoneOf(s: string, forbidden: set<char>)
  {
    forall i :: 0 <= i < |s| ==> s[i] !in forbidden
  }

  /** Empty, or starting with one of the given separators. */
  predicate EmptyOrStartsWith(s: string, seps: set<char>)
  {
    s == [] || s[0] in seps
  }

  function LowerChar(c: char): char
  {
    if 'A' <= c <= 'Z' then (c as int + 32) as char else c
  }

  /** ASCII lower-casing (`toLowerCase` on a host the URL parser produced). */
  function ToLower(s: string): (r: string)
    ensures |r| == |s|
    ensures forall i :: 0 <= i < |s| ==> r[i] == LowerChar(s[i])
  {
    seq(|s|, i requires 0 <= i < |s| => LowerChar(s[i]))
  }

  /** Lower-casing never produces nor removes '/', '?' or '#'. */
  lemma ToLowerKeepsSeparators(s: string, seps: set<char>)
    requires forall c :: c in seps ==> !('A' <= c <= 'Z') && !('a' <= c <= 'z')
    ensures NoneOf(s, seps) ==> NoneOf(ToLower(s), seps)
    ensures NoneOf(ToLower(s), seps) ==> NoneOf(s, seps)
  {
  }

  // ---------------------------------------------------------------------------
  // normalizePath and parseURL
  // ---------------------------------------------------------------------------

  /** The path with a '/' put in front when it does not start with one. */
  function Rooted(path: string): (p: string)
    ensures |p| > 0 && p[0] == '/'
    ensures |path| > 0 && path[0] == '/' ==> p == path
    ensures !(|path| > 0 && path[0] == '/') ==> p == "/" + path
  {
    if |path| > 0 && path[0] == '/' then path else "/" + path
  }

  function NormalizePath(path: string): (r: string)
    // always rooted; the empty path and the root path both become "/"
    ensures |r| > 0 && r[0] == '/'
    ensures path == "" ==> r == "/"
    ensures path == "/" ==> r == "/"
    // at most ONE trailing '/' is removed, and only from a rooted path longer than "/"
    ensures var p := Rooted(path);
      && |p| - 1 <= |r| <= |p|
      && r == p[..|r|]
      && (|r| < |p| <==> (|p| > 1 && p[|p| - 1] == '/'))
    // no character other than the added '/' is introduced
    ensures forall c :: c in r ==> c == '/' || c in path
  {
    var p := Rooted(path);
    if p == "/" then
      "/"
    else if |p| > 1 && p[|p| - 1] == '/' then
      p[..|p| - 1]
    else
      p
  }

  /** Only one trailing slash goes, so normalising twice can differ from normalising once. */
  lemma NormalizePathNotIdempotent()
    ensures NormalizePath("/a//") == "/a/"
    ensures NormalizePath(NormalizePath("/a//")) == "/a"
  {
    assert Rooted("/a//") == "/a//";
    assert Rooted("/a/") == "/a/";
    assert "/a//"[..3] == "/a/";
    assert "/a/"[..2] == "/a";
  }

  /** The shape of the strings the URL parser returns for an http(s) URL. */
  predicate WellFormedSplit(s: UrlSplit)
  {
    && NoneOf(s.host, {'/', '?', '#'})
    && NoneOf(s.pathname, {'?', '#'})
    && EmptyOrStartsWith(s.search, {'?'}) && NoneOf(s.search, {'#'})
    && EmptyOrStartsWith(s.hash, {'#'})
  }

  /** The shape of normalised URL parts that makes canonical strings unambiguous. */
  predicate WellFormed(p: UrlParts)
  {
    && NoneOf(p.host, {'/', '?', '#'})
    && |p.path| > 0 && p.path[0] == '/' && NoneOf(p.path, {'?', '#'})
    && EmptyOrStartsWith(p.query, {'?'}) && NoneOf(p.query, {'#'})
    && EmptyOrStartsWith(p.fragment, {'#'})
  }

  function ParseUrl(split: Option<UrlSplit>): (r: Option<UrlParts>)
    // a URL the parser rejects gives null
    ensures r.None? <==> split.None?
    ensures r.Some? ==>
      && r.value.host == ToLower(split.value.host)
      && r.value.path == NormalizePath(split.value.pathname)
      && r.value.query == split.value.search
      && r.value.fragment == split.value.hash
    // normalisation keeps the parser's separators where they were
    ensures split.Some? && WellFormedSplit(split.value) ==> WellFormed(r.value)
  {
    match split
    case None => None
    case Some(s) =>
      ToLowerKeepsSeparators(s.host, {'/', '?', '#'});
      Some(UrlParts(ToLower(s.host), NormalizePath(s.pathname), s.search, s.hash))
  }

  // ---------------------------------------------------------------------------
  // generateComponentBitmask and createStandardizedURL
  // ---------------------------------------------------------------------------

  function GenerateComponentBitmask(settings: ComponentSettings): (m: nat)
    ensures m <= 7
    ensures HasFlag(m, ComponentPath) <==> settings.includePath
    ensures HasFlag(m, ComponentQuery) <==> settings.includeQuery
    ensures HasFlag(m, ComponentFragment) <==> settings.includeFragment
  {
    // the three flags are distinct bits, so `|=` on 0 is a sum
    (if settings.includePath then ComponentPath else 0)
    + (if settings.includeQuery then ComponentQuery else 0)
    + (if settings.includeFragment then ComponentFragment else 0)
  }

  function PathPart(p: UrlParts, flags: nat): string
  {
    if HasFlag(flags, ComponentPath) then p.path else ""
  }

  function QueryPart(p: UrlParts, flags: nat): string
  {
    if HasFlag(flags, ComponentQuery) then p.query else ""
  }

  function FragmentPart(p: UrlParts, flags: nat): string
  {
    if HasFlag(flags, ComponentFragment) then p.fragment else ""
  }

  /** The part of a canonical URL after the host. */
  function Tail(p: UrlParts, flags: nat): string
  {
    PathPart(p, flags) + QueryPart(p, flags) + FragmentPart(p, flags)
  }

  /** `createStandardizedURL` on non-null parts. */
  function Standardized(p: UrlParts, flags: nat): (r: string)
    ensures r == p.host + Tail(p, flags)
    ensures (!HasFlag(flags, ComponentPath) && !HasFlag(flags, ComponentQuery)
             && !HasFlag(flags, ComponentFragment)) ==> r == p.host
  {
    var withHost := p.host;
    var withPath := if HasFlag(flags, ComponentPath) then withHost + p.path else withHost;
    var withQuery := if HasFlag(flags, ComponentQuery) then withPath + p.query else withPath;
    if HasFlag(flags, ComponentFragment) then withQuery + p.fragment else withQuery
  }

  function CreateStandardizedUrl(parts: Option<UrlParts>, flags: nat): (r: Option<string>)
    ensures r.None? <==> parts.None?
    ensures r.Some? ==> r.value == parts.value.host + Tail(parts.value, flags)
    ensures flags == 0 && parts.Some? ==> r == Some(parts.value.host)
  {
    match parts
    case None => None
    case Some(p) => Some(Standardized(p, flags))
  }

  /** Two URLs agree on the host and on every component that `flags` selects. */
  predicate Agree(a: UrlParts, b: UrlParts, flags: nat)
  {
    && a.host == b.host
    && (HasFlag(flags, ComponentPath) ==> a.path == b.path)
    && (HasFlag(flags, ComponentQuery) ==> a.query == b.query)
    && (HasFlag(flags, ComponentFragment) ==> a.fragment == b.fragment)
  }

  /** A prefix free of separators, followed by a rest that starts at a separator, splits uniquely. */
  lemma SplitAtSeparator(a1: string, t1: string, a2: string, t2: string, seps: set<char>)
    requires NoneOf(a1, seps) && NoneOf(a2, seps)
    requires EmptyOrStartsWith(t1, seps) && EmptyOrStartsWith(t2, seps)
    requires a1 + t1 == a2 + t2
    ensures a1 == a2 && t1 == t2
  {
    assert a1 == (a1 + t1)[..|a1|];
    assert a2 == (a2 + t2)[..|a2|];
    assert t1 == (a1 + t1)[|a1|..];
    assert t2 == (a2 + t2)[|a2|..];
  }

  /** Each selected piece of a well-formed tail begins at its own separator. */
  lemma TailShape(p: UrlParts, flags: nat)
    requires WellFormed(p)
    ensures Tail(p, flags) == PathPart(p, flags) + (QueryPart(p, flags) + FragmentPart(p, flags))
    ensures EmptyOrStartsWith(FragmentPart(p, flags), {'#'})
    ensures EmptyOrStartsWith(QueryPart(p, flags) + FragmentPart(p, flags), {'?', '#'})
    ensures EmptyOrStartsWith(Tail(p, flags), {'/', '?', '#'})
  {
    var pp, qp, fp := PathPart(p, flags), QueryPart(p, flags), FragmentPart(p, flags);
    assert pp + qp + fp == pp + (qp + fp);
    if qp != [] {
      assert (qp + fp)[0] == qp[0];
    } else {
      assert qp + fp == fp;
    }
    if pp != [] {
      assert (pp + (qp + fp))[0] == pp[0];
    } else {
      assert pp + (qp + fp) == qp + fp;
    }
  }

  /**
   * For well-formed parts the canonical string loses nothing the mask selects: two URLs have the
   * same canonical string under `flags` exactly when they agree on host and selected components.
   */
  lemma StandardizedAgreement(a: UrlParts, b: UrlParts, flags: nat)
    requires WellFormed(a) && WellFormed(b)
    ensures Standardized(a, flags) == Standardized(b, flags) <==> Agree(a, b, flags)
  {
    if Standardized(a, flags) == Standardized(b, flags) {
      TailShape(a, flags);
      TailShape(b, flags);
      SplitAtSeparator(a.host, Tail(a, flags), b.host, Tail(b, flags), {'/', '?', '#'});
      var qfa := QueryPart(a, flags) + FragmentPart(a, flags);
      var qfb := QueryPart(b, flags) + FragmentPart(b, flags);
      if HasFlag(flags, ComponentPath) {
        SplitAtSeparator(a.path, qfa, b.path, qfb, {'?', '#'});
      } else {
        assert Tail(a, flags) == qfa && Tail(b, flags) == qfb;
      }
      if HasFlag(flags, ComponentQuery) {
        SplitAtSeparator(a.query, FragmentPart(a, flags), b.query, FragmentPart(b, flags), {'#'});
      } else {
        assert qfa == FragmentPart(a, flags) && qfb == FragmentPart(b, flags);
      }
    }
  }

  // ---------------------------------------------------------------------------
  // generateSpecificityLevels
  // ---------------------------------------------------------------------------

  // The labels `generateSpecificityLevels` gives its levels.
  const DescFull: string := "Host + Path + Query + Fragment"
  const DescPathQuery: string := "Host + Path + Query"
  const DescPathFragment: string := "Host + Path + Fragment"
  const DescPath: string := "Host + Path"
  const DescHost: string := "Host only"

  /** Position of a level's bitmask in the order 7, 3, 5, 1, 0 (most to least specific). */
  function LevelRank(bitmask: nat): nat
  {
    if bitmask == 7 then 0
    else if bitmask == 3 then 1
    else if bitmask == 5 then 2
    else if bitmask == 1 then 3
    else 4
  }

  predicate HasLevel(levels: seq<Level>, bitmask: nat)
  {
    exists l :: l in levels && l.bitmask == bitmask
  }

  /** The bitmasks of the levels appear in the order 7, 3, 5, 1, 0, each at most once. */
  predicate StrictlyRanked(levels: seq<Level>)
  {
    forall i, j :: 0 <= i < j < |levels| ==> LevelRank(levels[i].bitmask) < LevelRank(levels[j].bitmask)
  }

  /** A level pushed only when its condition holds. */
  function PushIf(cond: bool, level: Level): (r: seq<Level>)
    ensures |r| <= 1
  {
    if cond then [level] else []
  }

  function GenerateSpecificityLevels(parts: Option<UrlParts>): (levels: seq<Level>)
    ensures parts.None? ==> levels == []
    ensures parts.Some? ==> 1 <= |levels| <= 5
    // the last level is always host only
    ensures parts.Some? ==> levels[|levels| - 1].bitmask == 0
                            && levels[|levels| - 1].url == parts.value.host
  {
    match parts
    case None => []
    case Some(p) =>
      var full := PushIf(p.fragment != "" || p.query != "", Level(Standardized(p, 7), 7, DescFull));
      var pathQuery := PushIf(p.query != "" && p.path != "/", Level(Standardized(p, 3), 3, DescPathQuery));
      var pathFragment := PushIf(p.fragment != "" && p.path != "/", Level(Standardized(p, 5), 5, DescPathFragment));
      var path := PushIf(p.path != "/", Level(Standardized(p, 1), 1, DescPath));
      var hostOnly := Level(Standardized(p, 0), 0, DescHost);
      assert hostOnly.url == p.host;
      full + pathQuery + pathFragment + path + [hostOnly]
  }

  /** Appending a level of a larger rank than all before it keeps the list strictly ranked. */
  lemma PushIfKeepsRanked(levels: seq<Level>, cond: bool, level: Level)
    requires StrictlyRanked(levels)
    requires forall l :: l in levels ==> LevelRank(l.bitmask) < LevelRank(level.bitmask)
    ensures StrictlyRanked(levels + PushIf(cond, level))
    ensures forall l :: l in levels + PushIf(cond, level) ==> LevelRank(l.bitmask) <= LevelRank(level.bitmask)
  {
    var r := levels + PushIf(cond, level);
    forall i, j | 0 <= i < j < |r| ensures LevelRank(r[i].bitmask) < LevelRank(r[j].bitmask) {
      if j >= |levels| {
        assert r[j] == level;
        assert r[i] in levels;
      }
    }
  }

  /** The bitmasks appear as an ordered subsequence of 7, 3, 5, 1, 0. */
  lemma SpecificityLevelsOrdered(p: UrlParts)
    ensures StrictlyRanked(GenerateSpecificityLevels(Some(p)))
  {
    var l7 := PushIf(p.fragment != "" || p.query != "", Level(Standardized(p, 7), 7, DescFull));
    var l3 := PushIf(p.query != "" && p.path != "/", Level(Standardized(p, 3), 3, DescPathQuery));
    var l5 := PushIf(p.fragment != "" && p.path != "/", Level(Standardized(p, 5), 5, DescPathFragment));
    var l1 := PushIf(p.path != "/", Level(Standardized(p, 1), 1, DescPath));
    PushIfKeepsRanked([], p.fragment != "" || p.query != "", Level(Standardized(p, 7), 7, DescFull));
    assert [] + l7 == l7;
    PushIfKeepsRanked(l7, p.query != "" && p.path != "/", Level(Standardized(p, 3), 3, DescPathQuery));
    PushIfKeepsRanked(l7 + l3, p.fragment != "" && p.path != "/", Level(Standardized(p, 5), 5, DescPathFragment));
    PushIfKeepsRanked(l7 + l3 + l5, p.path != "/", Level(Standardized(p, 1), 1, DescPath));
    PushIfKeepsRanked(l7 + l3 + l5 + l1, true, Level(Standardized(p, 0), 0, DescHost));
  }

  /** The label `generateSpecificityLevels` gives each of the five bitmasks. */
  function DescOf(bitmask: nat): string
  {
    if bitmask == 7 then DescFull
    else if bitmask == 3 then DescPathQuery
    else if bitmask == 5 then DescPathFragment
    else if bitmask == 1 then DescPath
    else DescHost
  }

  /**
   * Every level is one of the five, carries the canonical URL of `p` for its own bitmask, and
   * is labelled for that bitmask.
   */
  predicate CanonicalLevels(levels: seq<Level>, p: UrlParts)
  {
    forall l :: l in levels ==>
      && l.bitmask in {7, 3, 5, 1, 0}
      && l.url == Standardized(p, l.bitmask)
      && l.description == DescOf(l.bitmask)
  }

  lemma CanonicalLevelsAppend(a: seq<Level>, b: seq<Level>, p: UrlParts)
    requires CanonicalLevels(a, p) && CanonicalLevels(b, p)
    ensures CanonicalLevels(a + b, p)
  {
    forall l | l in a + b
      ensures l.bitmask in {7, 3, 5, 1, 0} && l.url == Standardized(p, l.bitmask) && l.description == DescOf(l.bitmask)
    {
      assert l in a || l in b;
    }
  }

  /** Each level is one of the five, with the canonical URL and the label of its own bitmask. */
  lemma SpecificityLevelsUrls(p: UrlParts)
    ensures CanonicalLevels(GenerateSpecificityLevels(Some(p)), p)
  {
    var l7 := PushIf(p.fragment != "" || p.query != "", Level(Standardized(p, 7), 7, DescFull));
    var l3 := PushIf(p.query != "" && p.path != "/", Level(Standardized(p, 3), 3, DescPathQuery));
    var l5 := PushIf(p.fragment != "" && p.path != "/", Level(Standardized(p, 5), 5, DescPathFragment));
    var l1 := PushIf(p.path != "/", Level(Standardized(p, 1), 1, DescPath));
    var l0 := [Level(Standardized(p, 0), 0, DescHost)];
    assert GenerateSpecificityLevels(Some(p)) == l7 + l3 + l5 + l1 + l0;
    CanonicalLevelsAppend(l7, l3, p);
    CanonicalLevelsAppend(l7 + l3, l5, p);
    CanonicalLevelsAppend(l7 + l3 + l5, l1, p);
    CanonicalLevelsAppend(l7 + l3 + l5 + l1, l0, p);
  }

  lemma HasLevelAppend(a: seq<Level>, b: seq<Level>, bitmask: nat)
    ensures HasLevel(a + b, bitmask) <==> HasLevel(a, bitmask) || HasLevel(b, bitmask)
  {
    if HasLevel(a + b, bitmask) {
      var l :| l in a + b && l.bitmask == bitmask;
      assert l in a || l in b;
    }
    if HasLevel(a, bitmask) {
      var l :| l in a && l.bitmask == bitmask;
      assert l in a + b;
    }
    if HasLevel(b, bitmask) {
      var l :| l in b && l.bitmask == bitmask;
      assert l in a + b;
    }
  }

  lemma HasLevelPushIf(cond: bool, level: Level, bitmask: nat)
    ensures HasLevel(PushIf(cond, level), bitmask) <==> cond && level.bitmask == bitmask
  {
    if cond && level.bitmask == bitmask {
      assert level in PushIf(cond, level);
    }
  }

  /** Which levels a URL gets, by what it has. */
  lemma SpecificityLevelsPresence(p: UrlParts)
    ensures var levels := GenerateSpecificityLevels(Some(p));
      && (HasLevel(levels, 7) <==> p.query != "" || p.fragment != "")
      && (HasLevel(levels, 3) <==> p.query != "" && p.path != "/")
      && (HasLevel(levels, 5) <==> p.fragment != "" && p.path != "/")
      && (HasLevel(levels, 1) <==> p.path != "/")
      && HasLevel(levels, 0)
  {
    var c7, c3, c5, c1 := p.fragment != "" || p.query != "", p.query != "" && p.path != "/",
                          p.fragment != "" && p.path != "/", p.path != "/";
    var l7 := PushIf(c7, Level(Standardized(p, 7), 7, DescFull));
    var l3 := PushIf(c3, Level(Standardized(p, 3), 3, DescPathQuery));
    var l5 := PushIf(c5, Level(Standardized(p, 5), 5, DescPathFragment));
    var l1 := PushIf(c1, Level(Standardized(p, 1), 1, DescPath));
    var l0 := PushIf(true, Level(Standardized(p, 0), 0, DescHost));
    assert GenerateSpecificityLevels(Some(p)) == l7 + l3 + l5 + l1 + l0;
    forall m: nat | m in {7, 3, 5, 1, 0}
      ensures HasLevel(l7 + l3 + l5 + l1 + l0, m) <==>
        (c7 && m == 7) || (c3 && m == 3) || (c5 && m == 5) || (c1 && m == 1) || m == 0
    {
      HasLevelAppend(l7 + l3 + l5 + l1, l0, m);
      HasLevelAppend(l7 + l3 + l5, l1, m);
      HasLevelAppend(l7 + l3, l5, m);
      HasLevelAppend(l7, l3, m);
      HasLevelPushIf(c7, Level(Standardized(p, 7), 7, DescFull), m);
      HasLevelPushIf(c3, Level(Standardized(p, 3), 3, DescPathQuery), m);
      HasLevelPushIf(c5, Level(Standardized(p, 5), 5, DescPathFragment), m);
      HasLevelPushIf(c1, Level(Standardized(p, 1), 1, DescPath), m);
      HasLevelPushIf(true, Level(Standardized(p, 0), 0, DescHost), m);
    }
  }

  // ---------------------------------------------------------------------------
  // createURLData and getUserStandardizedURL (settings passed in)
  // ---------------------------------------------------------------------------

  function CreateUrlData(split: Option<UrlSplit>, settings: ComponentSettings): (r: Option<UrlData>)
    ensures r.None? <==> split.None?
    ensures r.Some? ==>
      && Some(r.value.urlParts) == ParseUrl(split)
      && r.value.userBitmask <= 7
      && (HasFlag(r.value.userBitmask, ComponentPath) <==> settings.includePath)
      && (HasFlag(r.value.userBitmask, ComponentQuery) <==> settings.includeQuery)
      && (HasFlag(r.value.userBitmask, ComponentFragment) <==> settings.includeFragment)
      && r.value.userStandardized == r.value.urlParts.host + Tail(r.value.urlParts, r.value.userBitmask)
      && r.value.specificityLevels == GenerateSpecificityLevels(Some(r.value.urlParts))
  {
    match ParseUrl(split)
    case None => None
    case Some(parts) =>
      var userBitmask := GenerateComponentBitmask(settings);
      Some(UrlData(parts, Standardized(parts, userBitmask), userBitmask, GenerateSpecificityLevels(Some(parts))))
  }

  function GetUserStandardizedUrl(split: Option<UrlSplit>, settings: ComponentSettings): (r: Option<string>)
    ensures r.None? <==> split.None?
    ensures r.Some? ==> r.value == ParseUrl(split).value.host
                                   + Tail(ParseUrl(split).value, GenerateComponentBitmask(settings))
  {
    match ParseUrl(split)
    case None => None
    case Some(parts) => Some(Standardized(parts, GenerateComponentBitmask(settings)))
  }

  /**
   * Two well-formed URLs share their user-standardized string exactly when they agree on the
   * host and on every component the settings select.
   */
  lemma UserStandardizedAgreement(s1: UrlSplit, s2: UrlSplit, settings: ComponentSettings)
    requires WellFormedSplit(s1) && WellFormedSplit(s2)
    ensures GetUserStandardizedUrl(Some(s1), settings) == GetUserStandardizedUrl(Some(s2), settings)
            <==> Agree(ParseUrl(Some(s1)).value, ParseUrl(Some(s2)).value, GenerateComponentBitmask(settings))
  {
    StandardizedAgreement(ParseUrl(Some(s1)).value, ParseUrl(Some(s2)).value, GenerateComponentBitmask(settings));
  }
}
