/** Mapping, filtering and flattening of sequences, and what they do to multisets. */
module Sequences {
  function Map<A, B>(f: A -> B, s: seq<A>): (r: seq<B>)
    ensures |r| == |s| && forall i :: 0 <= i < |s| ==> r[i] == f(s[i])
  {
    seq(|s|, i requires 0 <= i < |s| => f(s[i]))
  }

  function Filter<A>(keep: A -> bool, s: seq<A>): (r: seq<A>)
    ensures forall x <- r :: keep(x) && x in s
  {
    if s == [] then []
    else Filter(keep, s[..|s| - 1]) + if keep(s[|s| - 1]) then [s[|s| - 1]] else []
  }

  function Without<A>(s: seq<A>, j: nat): seq<A>
    requires j < |s|
  {
    s[..j] + s[j + 1..]
  }

  lemma WithoutElement<A>(s: seq<A>, j: nat)
    requires j < |s|
    ensures multiset(s) == multiset(Without(s, j)) + multiset{s[j]}
  {
    assert s == s[..j] + [s[j]] + s[j + 1..];
  }

  lemma MapWithout<A, B>(f: A -> B, s: seq<A>, j: nat)
    requires j < |s|
    ensures Map(f, Without(s, j)) == Without(Map(f, s), j)
  {
  }

  lemma PartWithoutLast<A>(front: seq<A>, last: A, whole: multiset<A>, rest: multiset<A>)
    requires multiset(front + [last]) <= whole && whole == rest + multiset{last}
    ensures multiset(front) <= rest
  {
    forall e ensures multiset(front)[e] <= rest[e] {
      assert multiset(front + [last])[e] <= whole[e];
    }
  }

  /** Mapping respects inclusion of multisets, whatever the order of the sequences. */
  lemma {:induction false} MapPart<A, B>(f: A -> B, part: seq<A>, whole: seq<A>)
    requires multiset(part) <= multiset(whole)
    ensures multiset(Map(f, part)) <= multiset(Map(f, whole))
  {
    if part != [] {
      var front, last := part[..|part| - 1], part[|part| - 1];
      assert part == front + [last];
      assert last in multiset(part);
      var j :| 0 <= j < |whole| && whole[j] == last;
      var rest := Without(whole, j);
      WithoutElement(whole, j);
      PartWithoutLast(front, last, multiset(whole), multiset(rest));
      MapPart(f, front, rest);
      MapWithout(f, whole, j);
      WithoutElement(Map(f, whole), j);
      assert Map(f, part) == Map(f, front) + [f(last)];
    }
  }

  function Flatten<A>(ss: seq<seq<A>>): seq<A> {
    if ss == [] then [] else Flatten(ss[..|ss| - 1]) + ss[|ss| - 1]
  }

  lemma {:induction false} FlattenConcat<A>(a: seq<seq<A>>, b: seq<seq<A>>)
    ensures Flatten(a + b) == Flatten(a) + Flatten(b)
  {
    if b == [] {
      assert a + b == a;
    } else {
      FlattenConcat(a, b[..|b| - 1]);
      assert (a + b)[..|a + b| - 1] == a + b[..|b| - 1];
    }
  }

  lemma FlattenFront<A>(ss: seq<seq<A>>)
    requires ss != []
    ensures Flatten(ss) == ss[0] + Flatten(ss[1..])
  {
    assert ss == [ss[0]] + ss[1..];
    FlattenConcat([ss[0]], ss[1..]);
    assert Flatten([ss[0]]) == Flatten<A>([]) + ss[0];
  }

  lemma {:induction false} FilterConcat<A>(keep: A -> bool, a: seq<A>, b: seq<A>)
    ensures Filter(keep, a + b) == Filter(keep, a) + Filter(keep, b)
  {
    if b == [] {
      assert a + b == a;
    } else {
      FilterConcat(keep, a, b[..|b| - 1]);
      assert (a + b)[..|a + b| - 1] == a + b[..|b| - 1];
    }
  }

  lemma FilterOneMore<A>(keep: A -> bool, s: seq<A>, x: A)
    ensures Filter(keep, s + [x]) == Filter(keep, s) + if keep(x) then [x] else []
  {
    assert (s + [x])[..|s|] == s;
  }

  lemma FilterNone<A>(keep: A -> bool)
    ensures Filter(keep, []) == []
  {
  }

  lemma {:induction false} NothingPasses<A>(keep: A -> bool, s: seq<A>)
    requires forall x <- s :: !keep(x)
    ensures Filter(keep, s) == []
  {
    if s != [] {
      NothingPasses(keep, s[..|s| - 1]);
    }
  }

  lemma FilterWithout<A>(keep: A -> bool, s: seq<A>, j: nat)
    requires j < |s|
    ensures multiset(Filter(keep, s)) ==
            multiset(Filter(keep, Without(s, j))) + if keep(s[j]) then multiset{s[j]} else multiset{}
  {
    hide Filter;
    assert s == (s[..j] + [s[j]]) + s[j + 1..];
    FilterConcat(keep, s[..j] + [s[j]], s[j + 1..]);
    FilterOneMore(keep, s[..j], s[j]);
    FilterConcat(keep, s[..j], s[j + 1..]);
  }

  /** Filtering keeps permutations. */
  lemma {:induction false} FilterPermutation<A>(keep: A -> bool, a: seq<A>, b: seq<A>)
    requires multiset(a) == multiset(b)
    ensures multiset(Filter(keep, a)) == multiset(Filter(keep, b))
  {
    hide Filter;
    if a == [] {
      assert |multiset(b)| == 0 && b == [];
    } else {
      var n := |a| - 1;
      assert a[n] in multiset(b);
      var j :| 0 <= j < |b| && b[j] == a[n];
      WithoutElement(a, n);
      WithoutElement(b, j);
      assert multiset(Without(a, n)) == multiset(a) - multiset{a[n]};
      assert multiset(Without(b, j)) == multiset(b) - multiset{b[j]};
      FilterPermutation(keep, Without(a, n), Without(b, j));
      FilterWithout(keep, a, n);
      FilterWithout(keep, b, j);
    }
  }
}
