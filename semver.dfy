/** The conventional optional value. */
module Wrappers {
  datatype Option<+T> = None | Some(value: T)
}

/**
  Semantic versions as the selection routine sees them: a numeric
  (major, minor, patch) triple ordered lexicographically, the comparator the
  release list is sorted with, and the clean-up of a release tag before it is
  parsed.
*/
module SemVer {
  import opened Wrappers

  /** A parsed release version. Pre-release and build metadata are not part of this model. */
  datatype Version = Version(major: nat, minor: nat, patch: nat)

  /** A minor line: every version sharing one (major, minor) pair. */
  datatype Line = Line(major: nat, minor: nat)

  function LineOf(v: Version): Line {
    Line(v.major, v.minor)
  }

  /** One minor line comes before another: by major, then by minor. */
  predicate LineBelow(l: Line, m: Line) {
    l.major < m.major || (l.major == m.major && l.minor < m.minor)
  }

  /**
    Version.LessThan: lexicographic comparison of the numeric triple. The
    minor line decides first; within one line the patch number decides.
  */
  function LessThan(a: Version, b: Version): (r: bool)
    ensures LineOf(a) != LineOf(b) ==> (r <==> LineBelow(LineOf(a), LineOf(b)))
    ensures LineOf(a) == LineOf(b) ==> (r <==> a.patch < b.patch)
    ensures r ==> a != b
  {
    || a.major < b.major
    || (a.major == b.major && a.minor < b.minor)
    || (a.major == b.major && a.minor == b.minor && a.patch < b.patch)
  }

  /** a >= b, written as the source writes it: not a.LessThan(b). */
  function AtLeast(a: Version, b: Version): (r: bool)
    ensures r <==> a == b || LessThan(b, a)
  {
    !LessThan(a, b)
  }

  /** LessThan is a strict total order on versions. */
  lemma LessThanIsStrictTotalOrder(a: Version, b: Version, c: Version)
    ensures !LessThan(a, a)
    ensures LessThan(a, b) ==> !LessThan(b, a)
    ensures LessThan(a, b) && LessThan(b, c) ==> LessThan(a, c)
    ensures LessThan(a, b) || a == b || LessThan(b, a)
  {
  }

  /** A version that lies between two versions of one minor line belongs to that line too. */
  lemma BetweenIsSameLine(a: Version, b: Version, c: Version)
    requires AtLeast(a, b) && AtLeast(b, c)
    requires LineOf(a) == LineOf(c)
    ensures LineOf(b) == LineOf(a)
  {
  }

  /**
    sortSemVer.Less: element i goes before element j when it is not below it.
    This is ">=", not ">": Less(s, i, i) holds, so it is not a strict weak order.
  */
  function Less(s: seq<Version>, i: nat, j: nat): (r: bool)
    requires i < |s| && j < |s|
    ensures r <==> s[i] == s[j] || LessThan(s[j], s[i])
    ensures i == j ==> r
  {
    !LessThan(s[i], s[j])
  }

  /**
    The tag clean-up in printLatestVersions: a single leading 'v' is dropped,
    any other tag is kept as it is. Indexing the first character of an empty
    tag panics in the source; that outcome is None here.
  */
  function TrimTag(tag: string): (r: Option<string>)
    ensures r.None? <==> tag == []
    ensures r.Some? ==> |tag| - 1 <= |r.value| <= |tag| && r.value == tag[|tag| - |r.value|..]
    ensures r.Some? ==> (|r.value| < |tag| <==> tag[0] == 'v')
  {
    if tag == [] then None
    else if tag[0] == 'v' then Some(tag[1..])
    else Some(tag)
  }

  /** Prefixing a version string with 'v' and trimming the tag gives the string back. */
  lemma TrimTagPrefixed(s: string)
    ensures TrimTag("v" + s) == Some(s)
  {
    assert ("v" + s)[1..] == s;
  }

  /** Only a leading 'v' is removed: 'v' + 'v1.2.3' trims to 'v1.2.3', not to '1.2.3'. */
  lemma TrimTagRemovesOne(s: string)
    requires |s| > 0 && s[0] == 'v'
    ensures TrimTag("v" + s) == Some(s) && TrimTag(s) != Some(s)
  {
    TrimTagPrefixed(s);
  }
}
