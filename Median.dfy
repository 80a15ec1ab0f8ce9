/**
 The median of the vertex degrees. The graph builds a priority queue from the
 degree values and polls it up to the middle; here the queue is a sorted
 sequence, the degree values of a vertex map form a multiset, and the median is
 read off the one sorted arrangement of that multiset. The median is kept as an
 exact rational (`real`).
 */
module Median {

  /** Non-decreasing order: the order in which a min-priority queue is polled. */
  predicate Sorted(s: seq<int>)
  {
    forall i, j :: 0 <= i < j < |s| ==> s[i] <= s[j]
  }

  /** Adding one value to the queue (`PriorityQueue.offer`): the queue stays sorted and gains exactly `x`. */
  function Insert(s: seq<int>, x: int): (r: seq<int>)
    requires Sorted(s)
    ensures Sorted(r)
    ensures multiset(r) == multiset(s) + multiset{x}
    ensures |r| == |s| + 1
    ensures r[0] == if s == [] || x <= s[0] then x else s[0]
  {
    if s == [] || x <= s[0] then
      [x] + s
    else
      var rest := Insert(s[1..], x);
      assert s == [s[0]] + s[1..];
      assert s[0] <= rest[0];
      [s[0]] + rest
  }

  /** The head of a sorted sequence is its least value, and the rest stays sorted. */
  lemma SortedHead(s: seq<int>)
    requires Sorted(s) && s != []
    ensures forall x | x in multiset(s) :: s[0] <= x
    ensures Sorted(s[1..])
    ensures multiset(s[1..]) == multiset(s) - multiset{s[0]}
  {
    forall x | x in multiset(s) ensures s[0] <= x {
      var i :| 0 <= i < |s| && s[i] == x;
    }
    assert s == [s[0]] + s[1..];
  }

  /** Two non-empty sorted sequences holding the same values agree on their heads,
      and their tails are again sorted and hold the same values. */
  lemma SortedSameHead(s: seq<int>, t: seq<int>)
    requires Sorted(s) && Sorted(t) && s != []
    requires multiset(s) == multiset(t)
    ensures t != [] && s[0] == t[0]
    ensures Sorted(s[1..]) && Sorted(t[1..])
    ensures multiset(s[1..]) == multiset(t[1..])
  {
    assert |t| == |multiset(t)| == |multiset(s)| == |s|;
    SortedHead(s);
    SortedHead(t);
    assert s[0] in multiset(t) && t[0] in multiset(s);
  }

  /** Two sorted sequences holding the same values are the same sequence. */
  lemma {:induction false} SortedUnique(s: seq<int>, t: seq<int>)
    requires Sorted(s) && Sorted(t)
    requires multiset(s) == multiset(t)
    ensures s == t
  {
    if s == [] {
      assert |t| == |multiset(t)| == 0;
    } else {
      SortedSameHead(s, t);
      SortedUnique(s[1..], t[1..]);
      assert s == [s[0]] + s[1..] && t == [t[0]] + t[1..];
    }
  }

  /** Some vertex of a non-empty map: the next one an iteration over `vertices` visits. */
  ghost function Pick(vs: map<string, int>): (u: string)
    requires vs != map[]
    ensures u in vs
  {
    var u :| u in vs; u
  }

  /** The multiset of degree values held by `vs` (`vertices.values()`), collected
      by taking the vertices out one at a time. */
  ghost function DegreeBag(vs: map<string, int>): multiset<int>
    decreases |vs|
  {
    if vs == map[] then
      multiset{}
    else
      var u := Pick(vs);
      assert (vs - {u}).Keys == vs.Keys - {u};
      DegreeBag(vs - {u}) + multiset{vs[u]}
  }

  /** Removing two keys in either order leaves the same map. */
  lemma RemoveBoth(vs: map<string, int>, u: string, w: string)
    ensures vs - {w} - {u} == vs - {u} - {w}
  {
  }

  /** Taking any one vertex out of the map takes exactly its degree out of the bag,
      so the bag does not depend on the order in which vertices are visited. */
  lemma {:induction false} DegreeBagRemove(vs: map<string, int>, u: string)
    requires u in vs
    ensures DegreeBag(vs) == DegreeBag(vs - {u}) + multiset{vs[u]}
    decreases |vs|
  {
    var w := Pick(vs);
    if w != u {
      var vw, vu := vs - {w}, vs - {u};
      assert vw.Keys == vs.Keys - {w} && vu.Keys == vs.Keys - {u};
      RemoveBoth(vs, u, w);
      DegreeBagRemove(vw, u);
      DegreeBagRemove(vu, w);
    }
  }

  /** One step of collecting the bag: a vertex taken out of the rest moves its
      degree from the rest's bag to the collected part. */
  lemma DegreeBagStep(vs: map<string, int>, rest: map<string, int>, collected: multiset<int>, u: string)
    requires u in rest
    requires collected + DegreeBag(rest) == DegreeBag(vs)
    ensures collected + multiset{rest[u]} + DegreeBag(rest - {u}) == DegreeBag(vs)
    ensures |rest - {u}| < |rest|
  {
    DegreeBagRemove(rest, u);
    assert (rest - {u}).Keys == rest.Keys - {u};
  }

  /** The bag holds exactly the degrees present in the map, one per vertex. */
  lemma {:induction false} DegreeBagValues(vs: map<string, int>)
    ensures |DegreeBag(vs)| == |vs|
    ensures forall d :: d in DegreeBag(vs) <==> d in vs.Values
    decreases |vs|
  {
    if vs != map[] {
      var u :| u in vs;
      assert (vs - {u}).Keys == vs.Keys - {u};
      DegreeBagRemove(vs, u);
      DegreeBagValues(vs - {u});
      assert vs.Values == (vs - {u}).Values + {vs[u]} by {
        forall d | d in vs.Values ensures d in (vs - {u}).Values + {vs[u]} {
          var w :| w in vs && vs[w] == d;
          if w != u {
            assert w in vs - {u};
          }
        }
      }
    }
  }

  /** The degree values of `vs`, sorted: the order in which the priority queue
      built from `vertices.values()` is polled. */
  ghost function SortedDegrees(vs: map<string, int>): (s: seq<int>)
    ensures Sorted(s)
    ensures multiset(s) == DegreeBag(vs)
    decreases |vs|
  {
    if vs == map[] then
      []
    else
      var u := Pick(vs);
      assert (vs - {u}).Keys == vs.Keys - {u};
      Insert(SortedDegrees(vs - {u}), vs[u])
  }

  /** The textbook median of a sorted, non-empty sequence: the middle element for
      an odd count, the mean of the two middle elements for an even count. */
  function MedianOfSorted(s: seq<int>): real
    requires |s| > 0
  {
    var half := |s| / 2;
    if |s| % 2 == 1 then s[half] as real else (s[half - 1] + s[half]) as real / 2.0
  }

  /** The median of the degrees of a non-empty vertex map. */
  ghost function MedianDegree(vs: map<string, int>): real
    requires vs != map[]
  {
    MedianOfSorted(SortedDegrees(vs))
  }

  /** Any sorted arrangement of the degree bag yields the same median: the result
      is independent of the order in which the map is iterated. */
  lemma MedianOfAnyArrangement(vs: map<string, int>, s: seq<int>)
    requires Sorted(s) && multiset(s) == DegreeBag(vs)
    requires vs != map[]
    ensures |s| == |vs|
    ensures MedianOfSorted(s) == MedianDegree(vs)
  {
    DegreeBagValues(vs);
    SortedUnique(s, SortedDegrees(vs));
  }

  /** The median lies between the smallest and the largest degree. */
  lemma MedianBounds(s: seq<int>)
    requires Sorted(s) && |s| > 0
    ensures s[0] as real <= MedianOfSorted(s) <= s[|s| - 1] as real
  {
    var half := |s| / 2;
    assert s[0] <= s[half] <= s[|s| - 1];
    if |s| % 2 == 0 {
      assert s[0] <= s[half - 1] <= s[|s| - 1];
    }
  }

  /** The degrees of two vertices of degree 1. */
  lemma DegreeBagOfTwo(a: string, b: string)
    requires a != b
    ensures DegreeBag(map[a := 1, b := 1]) == multiset{1, 1}
  {
    var vs := map[a := 1, b := 1];
    var vb := map[b := 1];
    assert vs - {a} == vb;
    assert vb - {b} == map[];
    DegreeBagRemove(vs, a);
    DegreeBagRemove(vb, b);
  }

  /** Two vertices of degree 1, the state after a reset, have median 1. */
  lemma MedianOfSinglePayment(a: string, b: string)
    requires a != b
    ensures var vs := map[a := 1, b := 1]; a in vs && MedianDegree(vs) == 1.0
  {
    DegreeBagOfTwo(a, b);
    assert multiset([1, 1]) == multiset{1, 1};
    MedianOfAnyArrangement(map[a := 1, b := 1], [1, 1]);
  }

  /** `truncateMedianDegree`: multiply by 100, drop the fractional part (toward zero), divide by 100. */
  function Truncated(m: real): real
  {
    var scaled := m * 100.0;
    var whole := if scaled >= 0.0 then scaled.Floor as real else -((-scaled).Floor as real);
    whole / 100.0
  }

  /** Truncation keeps exactly two decimals: the result is a whole number of hundredths,
      moved toward zero from `m` by less than one hundredth (1.999 becomes 1.99). */
  lemma TruncatedBounds(m: real)
    ensures (Truncated(m) * 100.0).Floor as real == Truncated(m) * 100.0
    ensures m >= 0.0 ==> Truncated(m) <= m < Truncated(m) + 0.01
    ensures m < 0.0 ==> Truncated(m) - 0.01 < m <= Truncated(m)
  {
    var scaled := m * 100.0;
    var w := if scaled >= 0.0 then scaled.Floor else -((-scaled).Floor);
    assert Truncated(m) == w as real / 100.0;
    assert Truncated(m) * 100.0 == w as real;
  }

  /** A whole number of hundredths is left unchanged by truncation. */
  lemma TruncatedHundredths(n: int)
    ensures Truncated(n as real / 100.0) == n as real / 100.0
  {
    var scaled := n as real / 100.0 * 100.0;
    assert scaled == n as real;
    if n < 0 {
      assert (-scaled).Floor == -n;
    } else {
      assert scaled.Floor == n;
    }
  }

  /** A median of integer degrees is a multiple of one half, so truncation leaves it unchanged. */
  lemma TruncatedMedian(s: seq<int>)
    requires |s| > 0
    ensures Truncated(MedianOfSorted(s)) == MedianOfSorted(s)
  {
    var half := |s| / 2;
    var twice := if |s| % 2 == 1 then 2 * s[half] else s[half - 1] + s[half];
    assert MedianOfSorted(s) == (50 * twice) as real / 100.0;
    TruncatedHundredths(50 * twice);
  }

}
