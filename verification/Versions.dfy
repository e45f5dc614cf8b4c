/** Sets of version numbers: extremes and ascending listings. */
module Versions {
  import opened Common

  ghost function Oldest(versions: set<int>): (v: int)
    requires versions != {}
    ensures v in versions && forall w <- versions :: v <= w
  {
    HasExtremes(versions);
    var v :| v in versions && forall w <- versions :: v <= w;
    v
  }

  ghost function Newest(versions: set<int>): (v: int)
    requires versions != {}
    ensures v in versions && forall w <- versions :: w <= v
  {
    HasExtremes(versions);
    var v :| v in versions && forall w <- versions :: w <= v;
    v
  }

  lemma HasMember(versions: set<int>)
    requires versions != {}
    ensures exists v :: v in versions
  {
    if !(exists v :: v in versions) {
      assert false;
    }
  }

  lemma {:induction false} HasExtremes(versions: set<int>)
    requires versions != {}
    ensures exists v :: v in versions && forall w <- versions :: v <= w
    ensures exists v :: v in versions && forall w <- versions :: w <= v
  {
    HasMember(versions);
    var x :| x in versions;
    var rest := versions - {x};
    if rest != {} {
      HasExtremes(rest);
      var low :| low in rest && forall w <- rest :: low <= w;
      var high :| high in rest && forall w <- rest :: w <= high;
      var least, most := Min(low, x), Max(high, x);
      forall w | w in versions ensures least <= w <= most {
        if w != x {
          assert w in rest;
        }
      }
      assert least in versions && most in versions;
    } else {
      assert versions == rest + {x};
    }
  }

  /** versions lists exactly the given numbers, ascending. */
  ghost predicate Lists(versions: seq<int>, all: set<int>) {
    && (forall i, j :: 0 <= i < j < |versions| ==> versions[i] < versions[j])
    && (forall i :: 0 <= i < |versions| ==> versions[i] in all)
    && (forall v :: v in all ==> v in versions)
  }

  lemma ListsExtremes(versions: seq<int>, all: set<int>)
    requires Lists(versions, all)
    ensures versions == [] <==> all == {}
    ensures versions != [] ==> versions[0] == Oldest(all) && versions[|versions| - 1] == Newest(all)
  {
    if all != {} {
      assert Oldest(all) in versions && Newest(all) in versions;
    }
    if versions != [] {
      assert versions[0] in all;
    }
  }

  function InsertAscending(v: int, s: seq<int>): seq<int> {
    if s == [] || v < s[0] then [v] + s else [s[0]] + InsertAscending(v, s[1..])
  }

  ghost predicate Ascending(s: seq<int>) {
    forall i, j :: 0 <= i < j < |s| ==> s[i] < s[j]
  }

  lemma {:induction false} InsertMembers(v: int, s: seq<int>)
    ensures forall w :: w in InsertAscending(v, s) <==> w == v || w in s
  {
    if s != [] && !(v < s[0]) {
      InsertMembers(v, s[1..]);
      assert s == [s[0]] + s[1..];
    }
  }

  lemma {:induction false} InsertKeepsAscending(v: int, s: seq<int>)
    requires Ascending(s) && v !in s
    ensures Ascending(InsertAscending(v, s))
    ensures InsertAscending(v, s)[0] == if s == [] || v < s[0] then v else s[0]
  {
    if s != [] && !(v < s[0]) {
      InsertKeepsAscending(v, s[1..]);
      var tail := InsertAscending(v, s[1..]);
      assert tail[0] > s[0];
      forall i | 0 <= i < |tail| ensures s[0] < tail[i] {
        assert tail[0] <= tail[i];
      }
    }
  }

  lemma InsertAscendingLists(v: int, s: seq<int>, all: set<int>)
    requires Lists(s, all) && v !in all
    ensures Lists(InsertAscending(v, s), all + {v})
  {
    hide InsertAscending;
    assert Ascending(s) && v !in s;
    InsertMembers(v, s);
    InsertKeepsAscending(v, s);
    var r := InsertAscending(v, s);
    assert Ascending(r);
    forall i | 0 <= i < |r| ensures r[i] in all + {v} {
      assert r[i] in r;
    }
  }

  /** Collects the numbers and sorts them. */
  method SortedVersions(all: set<int>) returns (versions: seq<int>)
    ensures Lists(versions, all)
  {
    versions := [];
    var left := all;
    while left != {}
      invariant left <= all
      invariant Lists(versions, all - left)
    {
      HasMember(left);
      var v :| v in left;
      InsertAscendingLists(v, versions, all - left);
      assert all - left + {v} == all - (left - {v});
      versions := InsertAscending(v, versions);
      left := left - {v};
    }
    assert all - left == all;
  }
}
