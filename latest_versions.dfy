/**
  The version selection of LatestVersions: sort the release list into descending order in place, then
  keep, in one pass, the first version of each minor line that is not below
  the minimum. On a descending list that first version is the line's highest.
*/
module VersionSelection {
  import opened SemVer
  import opened SortSemVer

  /**
    What the pass emits after reading the list s from left to right: a version
    is kept when it is not below min and its minor line differs from that of
    the last version kept so far.
  */
  function Select(s: seq<Version>, min: Version): (r: seq<Version>)
    ensures |r| <= |s|
    ensures forall v :: v in r ==> v in s && AtLeast(v, min)
  {
    if s == [] then []
    else
      var r := Select(s[..|s| - 1], min);
      var v := s[|s| - 1];
      if AtLeast(v, min) && (r == [] || LineOf(r[|r| - 1]) != LineOf(v)) then r + [v] else r
  }

  /**
    The independent description of a selected version: it is one of the
    inputs, it is not below the minimum, and no input of its minor line is
    above it.
  */
  ghost predicate IsLatestOfLine(v: Version, s: seq<Version>, min: Version) {
    && v in s
    && AtLeast(v, min)
    && forall w :: w in s && LineOf(w) == LineOf(v) ==> AtLeast(v, w)
  }

  /** In a descending list, everything before the last element is not below it. */
  lemma PrefixAtLeastLast(p: seq<Version>, v: Version)
    requires Descending(p + [v])
    ensures forall x :: x in p ==> AtLeast(x, v)
  {
    forall x | x in p ensures AtLeast(x, v) {
      var k :| 0 <= k < |p| && p[k] == x;
      assert (p + [v])[k] == x && (p + [v])[|p|] == v;
    }
  }

  /** Some version of r lies on minor line l. */
  ghost predicate HasLine(r: seq<Version>, l: Line) {
    exists u :: u in r && LineOf(u) == l
  }

  /** The pass emits versions in strictly descending order. */
  lemma {:induction false} SelectStrictlyDescending(s: seq<Version>, min: Version)
    requires Descending(s)
    ensures StrictlyDescending(Select(s, min))
  {
    if s != [] {
      var p := s[..|s| - 1];
      var v := s[|s| - 1];
      var r := Select(p, min);
      SelectStrictlyDescending(p, min);
      assert s == p + [v];
      PrefixAtLeastLast(p, v);
      if Select(s, min) != r {
        assert Select(s, min) == r + [v];
        forall i | 0 <= i < |r| ensures LessThan(v, r[i]) {
          var last := r[|r| - 1];
          assert AtLeast(r[i], last);
          assert AtLeast(last, v);
          assert LineOf(last) != LineOf(v);
        }
      }
    }
  }

  /** No two emitted versions share a minor line. */
  lemma {:induction false} SelectDistinctLines(s: seq<Version>, min: Version)
    requires Descending(s)
    ensures forall i, j :: 0 <= i < j < |Select(s, min)| ==> LineOf(Select(s, min)[i]) != LineOf(Select(s, min)[j])
  {
    if s != [] {
      var p := s[..|s| - 1];
      var v := s[|s| - 1];
      var r := Select(p, min);
      SelectDistinctLines(p, min);
      SelectStrictlyDescending(p, min);
      assert s == p + [v];
      PrefixAtLeastLast(p, v);
      if Select(s, min) != r {
        assert Select(s, min) == r + [v];
        forall i | 0 <= i < |r| ensures LineOf(r[i]) != LineOf(v) {
          SameLineAsLast(r, r[i], v);
        }
      }
    }
  }

  /** Every minor line with an input version not below the minimum is represented. */
  lemma {:induction false} SelectComplete(s: seq<Version>, min: Version)
    ensures forall w :: w in s && AtLeast(w, min) ==> HasLine(Select(s, min), LineOf(w))
  {
    if s != [] {
      var p := s[..|s| - 1];
      var v := s[|s| - 1];
      var r := Select(p, min);
      SelectComplete(p, min);
      assert s == p + [v];
      forall w | w in s && AtLeast(w, min) ensures HasLine(Select(s, min), LineOf(w)) {
        if w in p {
          var u :| u in r && LineOf(u) == LineOf(w);
          assert u in Select(s, min);
        } else if Select(s, min) == r + [v] {
          assert v in Select(s, min);
        } else {
          assert r[|r| - 1] in Select(s, min);
        }
      }
    }
  }

  /** Every emitted version is the highest input version of its minor line. */
  lemma {:induction false} SelectLatestOfLine(s: seq<Version>, min: Version)
    requires Descending(s)
    ensures forall x, w :: x in Select(s, min) && w in s && LineOf(w) == LineOf(x) ==> AtLeast(x, w)
  {
    if s != [] {
      var p := s[..|s| - 1];
      var v := s[|s| - 1];
      var r := Select(p, min);
      assert s == p + [v];
      assert Descending(p);
      SelectLatestOfLine(p, min);
      PrefixAtLeastLast(p, v);
      if Select(s, min) == r {
        forall x, w | x in r && w in s && LineOf(w) == LineOf(x) ensures AtLeast(x, w) {
          if w !in p {
            assert w == v;
          }
        }
      } else {
        assert Select(s, min) == r + [v];
        SelectComplete(p, min);
        SelectStrictlyDescending(p, min);
        forall w | w in p ensures LineOf(w) != LineOf(v) {
          var u :| u in r && LineOf(u) == LineOf(w);
          SameLineAsLast(r, u, v);
        }
        forall w | w in s && LineOf(w) == LineOf(v) ensures AtLeast(v, w) {
          assert w !in p;
        }
        forall x, w | x in r && w in s && LineOf(w) == LineOf(x) ensures AtLeast(x, w) {
          assert w in p;
        }
      }
    }
  }

  /**
    If a version u emitted so far and a later input v share a minor line,
    the last version emitted so far shares it too.
  */
  lemma SameLineAsLast(r: seq<Version>, u: Version, v: Version)
    requires StrictlyDescending(r)
    requires u in r && AtLeast(r[|r| - 1], v)
    ensures LineOf(u) == LineOf(v) ==> LineOf(r[|r| - 1]) == LineOf(v)
  {
    if LineOf(u) == LineOf(v) {
      var iu :| 0 <= iu < |r| && r[iu] == u;
      assert AtLeast(u, r[|r| - 1]);
      BetweenIsSameLine(u, r[|r| - 1], v);
    }
  }

  /** Two versions each not below the other are the same version. */
  lemma AtLeastAntisymmetric(a: Version, b: Version)
    requires AtLeast(a, b) && AtLeast(b, a)
    ensures a == b
  {
    LessThanIsStrictTotalOrder(a, b, a);
  }

  /**
    On a descending list, a version is emitted exactly when it is the highest
    input version of its minor line and not below the minimum.
  */
  lemma SelectMembers(s: seq<Version>, min: Version)
    requires Descending(s)
    ensures forall v :: v in Select(s, min) <==> IsLatestOfLine(v, s, min)
  {
    SelectLatestOfLine(s, min);
    SelectComplete(s, min);
    forall v | IsLatestOfLine(v, s, min) ensures v in Select(s, min) {
      var u :| u in Select(s, min) && LineOf(u) == LineOf(v);
      AtLeastAntisymmetric(u, v);
    }
  }

  /**
    The first emitted version is the highest input version, and nothing is
    emitted exactly when every input is below the minimum (in particular for
    an empty input).
  */
  lemma SelectHead(s: seq<Version>, min: Version)
    requires Descending(s)
    ensures Select(s, min) == [] <==> forall w :: w in s ==> LessThan(w, min)
    ensures Select(s, min) != [] ==> Select(s, min)[0] in s && forall w :: w in s ==> AtLeast(Select(s, min)[0], w)
  {
    var r := Select(s, min);
    SelectComplete(s, min);
    SelectLatestOfLine(s, min);
    SelectStrictlyDescending(s, min);
    if r != [] {
      assert r[0] in r;
      forall w | w in s ensures AtLeast(r[0], w) {
        if AtLeast(w, min) {
          var u :| u in r && LineOf(u) == LineOf(w);
          var iu :| 0 <= iu < |r| && r[iu] == u;
          assert AtLeast(r[0], u);
        }
      }
    } else {
      forall w | w in s ensures LessThan(w, min) {
        if AtLeast(w, min) {
          assert false;
        }
      }
    }
  }

  /** Two strictly descending lists with the same elements are the same list. */
  lemma {:induction false} StrictlyDescendingUnique(a: seq<Version>, b: seq<Version>)
    requires StrictlyDescending(a) && StrictlyDescending(b)
    requires forall x :: x in a <==> x in b
    ensures a == b
  {
    assert b != [] ==> b[0] in b;
    if a != [] {
      assert a[0] in b;
      assert b != [] && b[0] in a;
      var ia :| 0 <= ia < |a| && a[ia] == b[0];
      var ib :| 0 <= ib < |b| && b[ib] == a[0];
      assert AtLeast(a[0], b[0]);
      assert AtLeast(b[0], a[0]);
      AtLeastAntisymmetric(a[0], b[0]);
      forall x ensures x in a[1..] <==> x in b[1..] {
        if x in a[1..] {
          var i :| 1 <= i < |a| && a[i] == x;
          assert x != a[0];
          assert x in b;
          var j :| 0 <= j < |b| && b[j] == x;
          assert j != 0;
          assert b[1..][j - 1] == x;
        }
        if x in b[1..] {
          var j :| 1 <= j < |b| && b[j] == x;
          assert x != b[0];
          assert x in a;
          var i :| 0 <= i < |a| && a[i] == x;
          assert i != 0;
          assert a[1..][i - 1] == x;
        }
      }
      StrictlyDescendingUnique(a[1..], b[1..]);
      assert a == [a[0]] + a[1..];
      assert b == [b[0]] + b[1..];
    }
  }

  /**
    The result is determined by the independent description alone: it is the
    one strictly descending list of the highest versions of the minor lines.
  */
  lemma SelectIsUnique(s: seq<Version>, min: Version, t: seq<Version>)
    requires Descending(s) && StrictlyDescending(t)
    requires forall v :: v in t <==> IsLatestOfLine(v, s, min)
    ensures t == Select(s, min)
  {
    SelectMembers(s, min);
    SelectStrictlyDescending(s, min);
    StrictlyDescendingUnique(t, Select(s, min));
  }

  /**
    The result depends only on which versions were supplied: however the sort
    orders equal versions, and whatever order the caller passed them in, the
    same list comes out.
  */
  lemma SelectOrderIndependent(s1: seq<Version>, s2: seq<Version>, min: Version)
    requires Descending(s1) && Descending(s2)
    requires multiset(s1) == multiset(s2)
    ensures Select(s1, min) == Select(s2, min)
  {
    SelectMembers(s1, min);
    SelectMembers(s2, min);
    forall v ensures v in s1 <==> v in s2 {
      assert v in s1 <==> v in multiset(s1);
      assert v in s2 <==> v in multiset(s2);
    }
    SelectStrictlyDescending(s1, min);
    SelectIsUnique(s2, min, Select(s1, min));
  }

  /** Worked case: two minor lines above the floor, the lower line's highest patch kept. */
  lemma ScenarioTwoLines()
    ensures Select([Version(2, 1, 0), Version(2, 0, 5), Version(2, 0, 1), Version(1, 9, 0)], Version(2, 0, 0))
         == [Version(2, 1, 0), Version(2, 0, 5)]
  {
    var s := [Version(2, 1, 0), Version(2, 0, 5), Version(2, 0, 1), Version(1, 9, 0)];
    var m := Version(2, 0, 0);
    assert Select(s[..1], m) == [Version(2, 1, 0)] by { assert s[..1][..0] == []; }
    assert Select(s[..2], m) == [Version(2, 1, 0), Version(2, 0, 5)] by { assert s[..2][..1] == s[..1]; }
    assert Select(s[..3], m) == [Version(2, 1, 0), Version(2, 0, 5)] by { assert s[..3][..2] == s[..2]; }
    assert s[..4][..3] == s[..3] && s[..4] == s;
  }

  /** Worked cases: the floor is inclusive, and a floor above every version leaves nothing. */
  lemma ScenarioFloor()
    ensures Select([Version(1, 0, 0)], Version(1, 0, 0)) == [Version(1, 0, 0)]
    ensures Select([Version(1, 0, 0)], Version(2, 0, 0)) == []
  {
    assert [Version(1, 0, 0)][..0] == [];
  }

  /** Worked case: a duplicated version collapses to one entry. */
  lemma ScenarioDuplicate()
    ensures Select([Version(3, 0, 0), Version(3, 0, 0)], Version(0, 0, 0)) == [Version(3, 0, 0)]
  {
    var d := [Version(3, 0, 0), Version(3, 0, 0)];
    assert Select(d[..1], Version(0, 0, 0)) == [Version(3, 0, 0)] by { assert d[..1][..0] == []; }
    assert d[..2][..1] == d[..1] && d[..2] == d;
  }

  /**
    main.go's LatestVersions: sorts releases in place into descending order,
    then returns, newest first, the highest version of every minor line that
    is not below minVersion. The last kept (major, minor) pair starts at the
    sentinel (-1, -1), which no version can match.
  */
  method LatestVersions(releases: array<Version>, minVersion: Version) returns (versionSlice: seq<Version>)
    modifies releases
    ensures multiset(releases[..]) == multiset(old(releases[..]))
    ensures Descending(releases[..])
    ensures versionSlice == Select(releases[..], minVersion)
    ensures StrictlyDescending(versionSlice)
    ensures forall i, j :: 0 <= i < j < |versionSlice| ==> LineOf(versionSlice[i]) != LineOf(versionSlice[j])
    ensures forall v :: v in versionSlice <==> IsLatestOfLine(v, old(releases[..]), minVersion)
    ensures versionSlice == [] <==> forall w :: w in old(releases[..]) ==> LessThan(w, minVersion)
    ensures versionSlice != [] ==> forall w :: w in old(releases[..]) ==> AtLeast(versionSlice[0], w)
  {
    SortDescending(releases);
    var prevMajor: int := -1;
    var prevMinor: int := -1;
    versionSlice := [];
    for i := 0 to releases.Length
      invariant versionSlice == Select(releases[..i], minVersion)
      invariant versionSlice == [] ==> prevMajor == -1 && prevMinor == -1
      invariant versionSlice != [] ==> prevMajor == versionSlice[|versionSlice| - 1].major
      invariant versionSlice != [] ==> prevMinor == versionSlice[|versionSlice| - 1].minor
    {
      var v := releases[i];
      assert releases[..i + 1][..i] == releases[..i];
      if !LessThan(v, minVersion) && (v.major != prevMajor || (v.major == prevMajor && v.minor != prevMinor)) {
        versionSlice := versionSlice + [v];
        prevMajor := v.major;
        prevMinor := v.minor;
      }
    }
    assert releases[..releases.Length] == releases[..];
    SelectStrictlyDescending(releases[..], minVersion);
    SelectDistinctLines(releases[..], minVersion);
    SelectMembers(releases[..], minVersion);
    SelectHead(releases[..], minVersion);
    forall v ensures v in releases[..] <==> v in old(releases[..]) {
      assert v in releases[..] <==> v in multiset(releases[..]);
      assert v in old(releases[..]) <==> v in multiset(old(releases[..]));
    }
  }
}
