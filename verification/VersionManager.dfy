/** The in-memory manifest cache: the most recent versions, oldest evicted first. */
module VersionManager {
  import opened Common
  import opened Store
  import opened Versions

  type Cache = map<int, Manifest>

  // ---------- What the operations do to the cache ----------

  /** Evicts the oldest version until the limit holds, but never the latest one. */
  ghost function Evicted(manifests: Cache, latest: int, limit: int): Cache
    decreases |manifests|
  {
    if limit <= 0 || |manifests| <= limit || Oldest(manifests.Keys) == latest then manifests
    else
      RemoveSmaller(manifests, Oldest(manifests.Keys));
      Evicted(manifests - {Oldest(manifests.Keys)}, latest, limit)
  }

  lemma RemoveSmaller(manifests: Cache, v: int)
    requires v in manifests
    ensures |manifests - {v}| == |manifests| - 1
  {
    assert (manifests - {v}).Keys == manifests.Keys - {v};
  }

  datatype Snapshot = Snapshot(manifests: Cache, latest: int)

  ghost function AfterPublish(s: Snapshot, limit: int, m: Manifest): Snapshot {
    var latest := Max(s.latest, m.version);
    Snapshot(Evicted(s.manifests[m.version := m], latest, limit), latest)
  }

  ghost function AfterRemove(s: Snapshot, v: int): Snapshot {
    var rest := s.manifests - {v};
    Snapshot(rest, if v != s.latest then s.latest else if rest == map[] then -1 else Newest(rest.Keys))
  }

  // ---------- Invariants ----------

  /** latest is the newest cached version, or -1 when nothing is cached. */
  ghost predicate Tracks(s: Snapshot) {
    && (forall v <- s.manifests.Keys :: v >= 0)
    && s.latest == if s.manifests == map[] then -1 else Newest(s.manifests.Keys)
  }

  ghost predicate WithinLimit(s: Snapshot, limit: int) {
    limit > 0 ==> |s.manifests| <= limit
  }

  datatype Op = Publish(m: Manifest) | Remove(version: int) | Clear

  ghost function AfterOps(ops: seq<Op>, limit: int): Snapshot {
    if ops == [] then Snapshot(map[], -1)
    else
      var before := AfterOps(ops[..|ops| - 1], limit);
      match ops[|ops| - 1]
      case Publish(m) => AfterPublish(before, limit, m)
      case Remove(v) => AfterRemove(before, v)
      case Clear => Snapshot(map[], -1)
  }

  ghost predicate NonNegative(ops: seq<Op>) {
    forall i :: 0 <= i < |ops| && ops[i].Publish? ==> ops[i].m.version >= 0
  }

  lemma OneVersion(versions: set<int>, v: int)
    requires v in versions && forall w <- versions :: w == v
    ensures |versions| == 1
  {
    if versions - {v} != {} {
      HasMember(versions - {v});
    }
    assert versions == (versions - {v}) + {v};
  }

  /** One publish evicts at most one version: the oldest, and never the latest. */
  lemma PublishEvictsOldest(s: Snapshot, limit: int, m: Manifest)
    requires Tracks(s) && WithinLimit(s, limit) && m.version >= 0
    ensures var all, after := s.manifests[m.version := m], AfterPublish(s, limit, m);
      && after.latest == Newest(all.Keys)
      && after.manifests == (if limit <= 0 || |all| <= limit then all else all - {Oldest(all.Keys)})
      && (limit > 0 && |all| > limit ==> Oldest(all.Keys) != after.latest)
  {
    var all := s.manifests[m.version := m];
    var latest := Max(s.latest, m.version);
    assert all.Keys == s.manifests.Keys + {m.version};
    assert latest == Newest(all.Keys);
    InsertSize(s.manifests.Keys, m.version);
    assert |all.Keys| == |all| && |s.manifests.Keys| == |s.manifests|;
    if limit > 0 && |all| > limit {
      var oldest := Oldest(all.Keys);
      if oldest == latest {
        OneVersion(all.Keys, latest);
      }
      RemoveSmaller(all, oldest);
      assert Evicted(all - {oldest}, latest, limit) == all - {oldest};
    }
  }

  lemma InsertSize(versions: set<int>, v: int)
    ensures |versions + {v}| == |versions| + if v in versions then 0 else 1
  {
    if v in versions {
      assert versions + {v} == versions;
    }
  }

  lemma PublishKeeps(s: Snapshot, limit: int, m: Manifest)
    requires Tracks(s) && WithinLimit(s, limit) && m.version >= 0
    ensures Tracks(AfterPublish(s, limit, m)) && WithinLimit(AfterPublish(s, limit, m), limit)
  {
    PublishEvictsOldest(s, limit, m);
    var all, after := s.manifests[m.version := m], AfterPublish(s, limit, m);
    assert |all.Keys| == |all| && |s.manifests.Keys| == |s.manifests|;
    assert all.Keys == s.manifests.Keys + {m.version};
    InsertSize(s.manifests.Keys, m.version);
    if limit > 0 && |all| > limit {
      RemoveSmaller(all, Oldest(all.Keys));
      assert after.latest in after.manifests;
    }
  }

  lemma RemoveKeeps(s: Snapshot, limit: int, v: int)
    requires Tracks(s) && WithinLimit(s, limit)
    ensures Tracks(AfterRemove(s, v)) && WithinLimit(AfterRemove(s, v), limit)
  {
    var rest := s.manifests - {v};
    assert rest.Keys == s.manifests.Keys - {v};
    if v in s.manifests {
      RemoveSmaller(s.manifests, v);
    } else {
      assert rest == s.manifests;
    }
    if v != s.latest && s.manifests != map[] {
      assert s.latest in rest;
    }
  }

  /** After any mix of publishes, removals and clearing, latest is the newest cached version or -1. */
  lemma {:induction false} LatestTracksCache(ops: seq<Op>, limit: int)
    requires NonNegative(ops)
    ensures Tracks(AfterOps(ops, limit)) && WithinLimit(AfterOps(ops, limit), limit)
  {
    if ops != [] {
      var front := ops[..|ops| - 1];
      LatestTracksCache(front, limit);
      match ops[|ops| - 1]
      case Publish(m) => PublishKeeps(AfterOps(front, limit), limit, m);
      case Remove(v) => RemoveKeeps(AfterOps(front, limit), limit, v);
      case Clear =>
    }
  }

  // ---------- The cache against its history ----------

  /** top holds the n largest members of all (all of them if there are fewer). */
  ghost predicate IsTop(top: set<int>, n: nat, all: set<int>) {
    && top <= all
    && |top| == Min(n, |all|)
    && forall t <- top, x <- all - top :: x < t
  }

  lemma TopOrders(top: set<int>, n: nat, all: set<int>, t: int, x: int)
    requires IsTop(top, n, all) && t in top && x in all && x !in top
    ensures x < t
  {
    assert x in all - top;
  }

  lemma TopIsUnique(a: set<int>, b: set<int>, n: nat, all: set<int>)
    requires IsTop(a, n, all) && IsTop(b, n, all)
    ensures a == b
  {
    if a != b {
      SameSizeDifferent(a, b);
      HasMember(a - b);
      HasMember(b - a);
      var x :| x in a - b;
      var y :| y in b - a;
      TopOrders(b, n, all, y, x);
      TopOrders(a, n, all, x, y);
    }
  }

  lemma {:induction false} SameSizeDifferent(a: set<int>, b: set<int>)
    requires |a| == |b| && a != b
    ensures a - b != {} && b - a != {}
  {
    assert a == (a * b) + (a - b) && b == (a * b) + (b - a);
    assert |a| == |a * b| + |a - b| && |b| == |a * b| + |b - a|;
  }

  /** The last manifest published under every version. */
  ghost function LastPublished(history: seq<Manifest>): Cache {
    if history == [] then map[]
    else
      var last := history[|history| - 1];
      LastPublished(history[..|history| - 1])[last.version := last]
  }

  function Publishes(history: seq<Manifest>): (ops: seq<Op>)
    ensures |ops| == |history| && forall i :: 0 <= i < |ops| ==> ops[i] == Publish(history[i])
  {
    seq(|history|, i requires 0 <= i < |history| => Publish(history[i]))
  }

  /** Adding v to a full top and dropping the smallest gives the top of the larger set. */
  lemma TopAfterInsert(top: set<int>, n: nat, all: set<int>, v: int)
    requires n > 0 && IsTop(top, n, all)
    ensures |top + {v}| <= n ==> IsTop(top + {v}, n, all + {v})
    ensures |top + {v}| > n ==> IsTop(top + {v} - {Oldest(top + {v})}, n, all + {v})
  {
    InsertSize(top, v);
    InsertSize(all, v);
    if |top| < n {
      assert top == all by {
        SubsetSameSize(top, all);
      }
    } else if v in top {
      assert top + {v} == top && all + {v} == all;
    } else {
      var oldest := Oldest(top + {v});
      var next := top + {v} - {oldest};
      assert |next| == n;
      LargerThanPart(top, all);
      if v in all {
        assert v in all - top;
        assert oldest == v;
        assert next == top && all + {v} == all;
      } else {
        forall t, x | t in next && x in all + {v} - next ensures x < t {
          if x != oldest {
            assert x in all - top;
          }
        }
      }
    }
  }

  lemma SubsetSameSize(a: set<int>, b: set<int>)
    requires a <= b && |a| == |b|
    ensures a == b
  {
    assert b == a + (b - a);
    assert |b| == |a| + |b - a|;
  }

  lemma LargerThanPart(a: set<int>, b: set<int>)
    requires a <= b
    ensures |a| <= |b|
  {
    assert b == a + (b - a);
    assert |b| == |a| + |b - a|;
  }

  /** After any publishes of non-negative versions, in any order and with repeats, the cache
      holds exactly the limit-many largest versions, each with its last-published manifest. */
  lemma {:induction false} CacheIsTopOfHistory(history: seq<Manifest>, limit: nat)
    requires limit > 0 && forall i :: 0 <= i < |history| ==> history[i].version >= 0
    ensures var cache, last := AfterOps(Publishes(history), limit).manifests, LastPublished(history);
      && IsTop(cache.Keys, limit, last.Keys)
      && forall v <- cache.Keys :: cache[v] == last[v]
  {
    if history != [] {
      var front, m := history[..|history| - 1], history[|history| - 1];
      CacheIsTopOfHistory(front, limit);
      var ops := Publishes(history);
      assert ops[..|ops| - 1] == Publishes(front);
      LatestTracksCache(Publishes(front), limit);
      var before := AfterOps(Publishes(front), limit);
      PublishEvictsOldest(before, limit, m);
      var all := before.manifests[m.version := m];
      assert all.Keys == before.manifests.Keys + {m.version};
      assert |all.Keys| == |all|;
      TopAfterInsert(before.manifests.Keys, limit, LastPublished(front).Keys, m.version);
      assert LastPublished(history).Keys == LastPublished(front).Keys + {m.version};
      assert (all - {Oldest(all.Keys)}).Keys == all.Keys - {Oldest(all.Keys)};
    }
  }

  // ---------- Publishes, removals and clearing ----------

  /** The manifest last published under a version, unless it was removed or all cleared since. */
  function LastWord(ops: seq<Op>, v: int): Option<Manifest> {
    if ops == [] then None
    else
      match ops[|ops| - 1]
      case Publish(m) => if m.version == v then Some(m) else LastWord(ops[..|ops| - 1], v)
      case Remove(w) => if w == v then None else LastWord(ops[..|ops| - 1], v)
      case Clear => None
  }

  lemma {:induction false} EvictedIsPart(manifests: Cache, latest: int, limit: int)
    ensures forall v <- Evicted(manifests, latest, limit).Keys ::
      v in manifests && Evicted(manifests, latest, limit)[v] == manifests[v]
    ensures limit <= 0 || |manifests| <= limit ==> Evicted(manifests, latest, limit) == manifests
    decreases |manifests|
  {
    if !(limit <= 0 || |manifests| <= limit || Oldest(manifests.Keys) == latest) {
      RemoveSmaller(manifests, Oldest(manifests.Keys));
      EvictedIsPart(manifests - {Oldest(manifests.Keys)}, latest, limit);
    }
  }

  /** After any mix of operations the cache holds nothing but the last word on a version; a cache
      without a limit holds all of them. */
  lemma {:induction false} CacheHoldsLastWord(ops: seq<Op>, limit: int, v: int)
    ensures v in AfterOps(ops, limit).manifests ==> LastWord(ops, v) == Some(AfterOps(ops, limit).manifests[v])
    ensures limit <= 0 ==> (v in AfterOps(ops, limit).manifests <==> LastWord(ops, v).Some?)
  {
    if ops != [] {
      var front := ops[..|ops| - 1];
      CacheHoldsLastWord(front, limit, v);
      var before := AfterOps(front, limit);
      match ops[|ops| - 1]
      case Publish(m) => EvictedIsPart(before.manifests[m.version := m], Max(before.latest, m.version), limit);
      case Remove(w) =>
      case Clear =>
    }
  }

  // ---------- The cache ----------

  class VersionManager {
    var manifests: Cache
    var latestVersion: int
    const maxVersions: int

    ghost function View(): Snapshot
      reads this
    {
      Snapshot(manifests, latestVersion)
    }

    constructor (maxVersions: int)
      ensures View() == Snapshot(map[], -1) && this.maxVersions == maxVersions
    {
      manifests, latestVersion := map[], -1;
      this.maxVersions := maxVersions;
    }

    method Publish(manifest: Manifest)
      modifies this
      ensures View() == AfterPublish(old(View()), maxVersions, manifest)
    {
      manifests := manifests[manifest.version := manifest];
      if manifest.version > latestVersion {
        latestVersion := manifest.version;
      }
      Evict();
    }

    method Evict()
      modifies this
      ensures manifests == Evicted(old(manifests), latestVersion, maxVersions)
      ensures latestVersion == old(latestVersion)
    {
      if maxVersions <= 0 {
        return;
      }
      while |manifests| > maxVersions
        invariant latestVersion == old(latestVersion)
        invariant Evicted(manifests, latestVersion, maxVersions) == Evicted(old(manifests), latestVersion, maxVersions)
        decreases |manifests|
      {
        var oldest := OldestVersion();
        if oldest == latestVersion {
          return;
        }
        RemoveSmaller(manifests, oldest);
        manifests := manifests - {oldest};
      }
    }

    method Versions() returns (versions: seq<int>)
      ensures Lists(versions, manifests.Keys)
    {
      versions := SortedVersions(manifests.Keys);
    }

    method OldestVersion() returns (v: int)
      ensures v == if manifests == map[] then -1 else Oldest(manifests.Keys)
    {
      if |manifests| == 0 {
        return -1;
      }
      var versions := SortedVersions(manifests.Keys);
      ListsExtremes(versions, manifests.Keys);
      return versions[0];
    }

    method RecomputeLatest() returns (v: int)
      ensures v == if manifests == map[] then -1 else Newest(manifests.Keys)
    {
      if |manifests| == 0 {
        return -1;
      }
      var versions := SortedVersions(manifests.Keys);
      ListsExtremes(versions, manifests.Keys);
      return versions[|versions| - 1];
    }

    function Get(version: int): (r: Option<Manifest>)
      reads this
      ensures r.Some? <==> version in manifests
      ensures r.Some? ==> r.value == manifests[version]
    {
      if version in manifests then Some(manifests[version]) else None
    }

    /** The manifest of the newest cached version, if the cache tracks one. */
    function Latest(): (r: Option<Manifest>)
      reads this
      ensures Tracks(View()) ==> (r.None? <==> manifests == map[])
      ensures Tracks(View()) && r.Some? ==> r.value == manifests[Newest(manifests.Keys)]
    {
      if latestVersion < 0 then None else Get(latestVersion)
    }

    method Remove(version: int)
      modifies this
      ensures View() == AfterRemove(old(View()), version)
    {
      manifests := manifests - {version};
      if version == latestVersion {
        latestVersion := RecomputeLatest();
      }
    }

    method Clear()
      modifies this
      ensures View() == Snapshot(map[], -1)
    {
      manifests, latestVersion := map[], -1;
    }
  }
}
