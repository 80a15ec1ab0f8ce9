/**
 The time-windowed payment graph as a value: the watermark `maxTime` (the
 highest admitted event time, in seconds), the edges with the time each was
 last seen, the degree of every user, and the last computed median degree.
 `Step` is the processing of one payment event; `Inv` is what holds between
 events. The degrees here are a reference definition (the number of stored
 edges incident to a user), against which the graph's incremental degree
 updates are proved.
 */
module GraphSpec {

  import opened Wrappers
  import opened Payments
  import opened Median

  /** Width of the trailing window, in seconds. */
  const Window := 60

  datatype Graph = Graph(maxTime: int, edges: map<Payment, int>, vertices: map<string, int>, medianDegree: real)

  /** The graph before the first event: no edges, no vertices, median 0. */
  const Empty := Graph(0, map[], map[], 0.0)

  // ---------------------------------------------------------------- edge keys

  /** Every stored edge connects two different users. */
  predicate NoSelfLoops(edges: map<Payment, int>)
  {
    forall k | k in edges :: k.user1 != k.user2
  }

  /** At most one stored edge per unordered pair of users. */
  predicate UniquePairs(edges: map<Payment, int>)
  {
    forall k, k' | k in edges && k' in edges && Equals(k, k') :: k == k'
  }

  /** `edges.containsKey(p)` under the symmetric `Payment.equals`: the stored key equal to `p`, if any. */
  function Find(edges: map<Payment, int>, p: Payment): (r: Option<Payment>)
    ensures r.Some? ==> r.value in edges && Equals(r.value, p)
    ensures r.None? <==> forall k | k in edges :: !Equals(k, p)
  {
    if p in edges then Some(p) else if Flip(p) in edges then Some(Flip(p)) else None
  }

  /** The key under which `edges.put(p, _)` stores the pair: the existing equal key
      (a HashMap keeps the key it already holds), or `p` itself. */
  function KeyFor(edges: map<Payment, int>, p: Payment): (k: Payment)
    ensures Equals(k, p)
    ensures k in edges <==> Find(edges, p).Some?
  {
    match Find(edges, p)
    case Some(k) => k
    case None => p
  }

  // ---------------------------------------------------------------- degrees

  /** The stored edges incident to user `u`. */
  ghost function Incident(edges: map<Payment, int>, u: string): set<Payment>
  {
    set k | k in edges && u in Users(k)
  }

  /** The users that some stored edge touches. */
  ghost function Endpoints(edges: map<Payment, int>): set<string>
  {
    set k, u | k in edges && u in Users(k) :: u
  }

  /** The reference degree map: every user touched by an edge, with its number of incident edges. */
  ghost function Degrees(edges: map<Payment, int>): map<string, int>
  {
    map u | u in Endpoints(edges) :: |Incident(edges, u)|
  }

  /** A user is a vertex exactly when some edge touches it, and its degree is then at least 1. */
  lemma DegreeAt(edges: map<Payment, int>, u: string)
    ensures u in Degrees(edges) <==> Incident(edges, u) != {}
    ensures u in Degrees(edges) ==> Degrees(edges)[u] == |Incident(edges, u)| >= 1
  {
    if Incident(edges, u) != {} {
      var k :| k in Incident(edges, u);
      assert u in Endpoints(edges);
    }
    if u in Endpoints(edges) {
      var k :| k in edges && u in Users(k);
      assert k in Incident(edges, u);
    }
  }

  /** The graph has a vertex as soon as it has an edge. */
  lemma DegreesNonEmpty(edges: map<Payment, int>, k: Payment)
    requires k in edges
    ensures k.user1 in Degrees(edges) && k.user2 in Degrees(edges)
  {
    assert k in Incident(edges, k.user1) && k in Incident(edges, k.user2);
    DegreeAt(edges, k.user1);
    DegreeAt(edges, k.user2);
  }

  /** `increaseUserDegree`: the user's degree goes up by one, or the user enters with degree 1. */
  function Incremented(vs: map<string, int>, u: string): (r: map<string, int>)
    ensures r.Keys == vs.Keys + {u}
    ensures forall v | v in vs && v != u :: r[v] == vs[v]
  {
    if u in vs then vs[u := vs[u] + 1] else vs[u := 1]
  }

  /** `decreaseUserDegree`: a user of degree 1 leaves, any other loses one from its degree. */
  function Decremented(vs: map<string, int>, u: string): (r: map<string, int>)
    requires u in vs
    ensures r.Keys == if vs[u] == 1 then vs.Keys - {u} else vs.Keys
    ensures forall v | v in vs && v != u :: r[v] == vs[v]
  {
    if vs[u] == 1 then vs - {u} else vs[u := vs[u] - 1]
  }

  /** Decrementing undoes incrementing, when degrees are positive. */
  lemma DecrementedIncremented(vs: map<string, int>, u: string)
    requires forall v | v in vs :: vs[v] >= 1
    ensures Decremented(Incremented(vs, u), u) == vs
  {
    var r := Decremented(Incremented(vs, u), u);
    assert r.Keys == vs.Keys;
  }

  /** Incrementing undoes decrementing, for a present user of positive degree. */
  lemma IncrementedDecremented(vs: map<string, int>, u: string)
    requires u in vs && vs[u] >= 1
    ensures Incremented(Decremented(vs, u), u) == vs
  {
    var r := Incremented(Decremented(vs, u), u);
    assert r.Keys == vs.Keys;
  }

  /** `addNewEdge` keeps the degrees right: inserting an absent edge between two
      different users and incrementing both users gives the degrees of the new edge set. */
  lemma AddEdgeDegrees(edges: map<Payment, int>, p: Payment, t: int)
    requires p !in edges && p.user1 != p.user2
    ensures Degrees(edges[p := t]) == Incremented(Incremented(Degrees(edges), p.user1), p.user2)
  {
    var lhs, rhs := Degrees(edges[p := t]), Incremented(Incremented(Degrees(edges), p.user1), p.user2);
    forall u ensures (u in lhs <==> u in rhs) && (u in lhs ==> lhs[u] == rhs[u]) {
      AddEdgeDegreeAt(edges, p, t, u);
    }
    assert lhs.Keys == rhs.Keys;
  }

  /** `AddEdgeDegrees` at one user. */
  lemma AddEdgeDegreeAt(edges: map<Payment, int>, p: Payment, t: int, u: string)
    requires p !in edges && p.user1 != p.user2
    ensures var lhs, rhs := Degrees(edges[p := t]), Incremented(Incremented(Degrees(edges), p.user1), p.user2);
            (u in lhs <==> u in rhs) && (u in lhs ==> lhs[u] == rhs[u])
  {
    var after := edges[p := t];
    DegreeAt(edges, u);
    DegreeAt(after, u);
    if u in Users(p) {
      assert Incident(after, u) == Incident(edges, u) + {p};
      assert p !in Incident(edges, u);
    } else {
      assert Incident(after, u) == Incident(edges, u);
    }
  }

  /** Evicting one edge keeps the degrees right: both of its users are vertices, and
      decrementing both gives the degrees of the remaining edge set. */
  lemma RemoveEdgeDegrees(edges: map<Payment, int>, k: Payment)
    requires k in edges && k.user1 != k.user2
    ensures k.user1 in Degrees(edges)
    ensures k.user2 in Decremented(Degrees(edges), k.user1)
    ensures Degrees(edges - {k}) == Decremented(Decremented(Degrees(edges), k.user1), k.user2)
  {
    DegreesNonEmpty(edges, k);
    var lhs, rhs := Degrees(edges - {k}), Decremented(Decremented(Degrees(edges), k.user1), k.user2);
    forall u ensures (u in lhs <==> u in rhs) && (u in lhs ==> lhs[u] == rhs[u]) {
      RemoveEdgeDegreeAt(edges, k, u);
    }
    assert lhs.Keys == rhs.Keys;
  }

  /** `RemoveEdgeDegrees` at one user. */
  lemma RemoveEdgeDegreeAt(edges: map<Payment, int>, k: Payment, u: string)
    requires k in edges && k.user1 != k.user2
    requires k.user1 in Degrees(edges) && k.user2 in Degrees(edges)
    ensures var lhs, rhs := Degrees(edges - {k}), Decremented(Decremented(Degrees(edges), k.user1), k.user2);
            (u in lhs <==> u in rhs) && (u in lhs ==> lhs[u] == rhs[u])
  {
    var after := edges - {k};
    DegreeAt(edges, u);
    DegreeAt(after, u);
    if u in Users(k) {
      assert Incident(after, u) == Incident(edges, u) - {k};
      assert k in Incident(edges, u);
    } else {
      assert Incident(after, u) == Incident(edges, u);
    }
  }

  /** Changing the time of a stored edge leaves every degree as it was. */
  lemma RetimeDegrees(edges: map<Payment, int>, k: Payment, t: int)
    requires k in edges
    ensures Degrees(edges[k := t]) == Degrees(edges)
  {
    forall u ensures Incident(edges[k := t], u) == Incident(edges, u) {
    }
    assert Endpoints(edges[k := t]) == Endpoints(edges);
  }

  // ---------------------------------------------------------------- one event

  /** `resetGraph`: one edge between the event's users, both of degree 1, the watermark at its time, median 1. */
  function Reset(p: Payment, t: int): Graph
  {
    Graph(t, map[p := t], map[p.user1 := 1, p.user2 := 1], 1.0)
  }

  /** The eviction pass: keep exactly the edges less than a window older than `now`. */
  function Evicted(edges: map<Payment, int>, now: int): map<Payment, int>
  {
    map k | k in edges && now - edges[k] < Window :: edges[k]
  }

  /** Evicting is removing the set of expired edges, whatever order they are found in. */
  lemma EvictedIsRemoval(edges: map<Payment, int>, now: int, expired: set<Payment>)
    requires forall k :: k in expired <==> k in edges && now - edges[k] >= Window
    ensures Evicted(edges, now) == edges - expired
  {
  }

  /** Removing edges one at a time: with `pending` still to go, taking out one more
      pending edge leaves the map with that edge no longer pending. */
  lemma RemoveOneMore(before: map<Payment, int>, expired: set<Payment>, pending: set<Payment>,
                      edges: map<Payment, int>, k: Payment)
    requires k in pending && pending <= expired <= before.Keys
    requires edges == before - (expired - pending)
    requires NoSelfLoops(edges)
    ensures k in edges && NoSelfLoops(edges - {k})
    ensures edges - {k} == before - (expired - (pending - {k}))
  {
    assert expired - pending + {k} == expired - (pending - {k});
  }

  /** The late-but-valid update: a new pair is inserted; a stored pair takes the new
      time only when it is strictly newer. */
  function LateUpsert(edges: map<Payment, int>, p: Payment, t: int): map<Payment, int>
  {
    var k := KeyFor(edges, p);
    if k !in edges then edges[k := t]
    else if t - edges[k] > 0 then edges[k := t]
    else edges
  }

  /** A graph whose degrees and median are recomputed from its edges. */
  ghost function Settled(maxTime: int, edges: map<Payment, int>): (g: Graph)
    requires edges != map[]
    ensures g.vertices != map[]
  {
    var k :| k in edges;
    DegreesNonEmpty(edges, k);
    Graph(maxTime, edges, Degrees(edges), MedianDegree(Degrees(edges)))
  }

  /** One payment event between `actor` and `target` at time `t` (seconds), classified
      by its distance `t - maxTime` from the watermark. */
  ghost function Step(g: Graph, actor: string, target: string, t: int): Graph
  {
    var p := Payment(actor, target);
    if g.edges == map[] then
      Reset(p, t)
    else if t - g.maxTime >= Window then
      Reset(p, t)
    else if t - g.maxTime > 0 then
      var k := KeyFor(g.edges, p);
      assert k in Evicted(g.edges[k := t], t);
      Settled(t, Evicted(g.edges[k := t], t))
    else if t - g.maxTime > -Window then
      assert KeyFor(g.edges, p) in LateUpsert(g.edges, p, t);
      Settled(g.maxTime, LateUpsert(g.edges, p, t))
    else
      g
  }

  /** The in-order branch of `Step`, spelled out. */
  lemma InOrderStep(g: Graph, actor: string, target: string, t: int)
    requires g.edges != map[] && 0 < t - g.maxTime < Window
    ensures var kept := Evicted(g.edges[KeyFor(g.edges, Payment(actor, target)) := t], t);
            kept != map[] && Step(g, actor, target, t) == Graph(t, kept, Degrees(kept), MedianDegree(Degrees(kept)))
  {
    var k := KeyFor(g.edges, Payment(actor, target));
    assert k in Evicted(g.edges[k := t], t);
  }

  /** The late branch of `Step`, spelled out. */
  lemma LateStep(g: Graph, actor: string, target: string, t: int)
    requires g.edges != map[] && -Window < t - g.maxTime <= 0
    ensures var updated := LateUpsert(g.edges, Payment(actor, target), t);
            updated != map[] && Step(g, actor, target, t) == Graph(g.maxTime, updated, Degrees(updated), MedianDegree(Degrees(updated)))
  {
    assert KeyFor(g.edges, Payment(actor, target)) in LateUpsert(g.edges, Payment(actor, target), t);
  }

  /** Every stored time lies in the window (maxTime - 60, maxTime]. */
  predicate InWindow(edges: map<Payment, int>, maxTime: int)
  {
    forall k | k in edges :: maxTime - Window < edges[k] <= maxTime
  }

  /** What holds between events: one edge per pair, no self-loops, degrees equal to
      the number of incident edges, every edge time in the window, and the median of
      the current degrees once there is an edge. */
  ghost predicate Inv(g: Graph)
  {
    && NoSelfLoops(g.edges)
    && UniquePairs(g.edges)
    && g.vertices == Degrees(g.edges)
    && InWindow(g.edges, g.maxTime)
    && (g.edges != map[] ==> g.vertices != map[] && g.medianDegree == MedianDegree(g.vertices))
  }

  // ---------------------------------------------------------------- lemmas about Step

  /** The empty graph satisfies the invariant. */
  lemma EmptyInv()
    ensures Inv(Empty)
  {
    assert Endpoints(map[]) == {};
  }

  /** A reset graph satisfies the invariant: its one edge gives both users degree 1, and median 1. */
  lemma ResetInv(p: Payment, t: int)
    requires p.user1 != p.user2
    ensures Inv(Reset(p, t))
  {
    assert Endpoints(map[]) == {};
    AddEdgeDegrees(map[], p, t);
    assert map[p.user1 := 1, p.user2 := 1] == Incremented(Incremented(map[], p.user1), p.user2);
    MedianOfSinglePayment(p.user1, p.user2);
  }

  /** Recomputing degrees and median from well-formed edges in the window gives a graph satisfying the invariant. */
  lemma SettledInv(maxTime: int, edges: map<Payment, int>)
    requires edges != map[]
    requires NoSelfLoops(edges) && UniquePairs(edges) && InWindow(edges, maxTime)
    ensures Inv(Settled(maxTime, edges))
  {
  }

  /** Putting the pair of `p` (two different users) under its key keeps one edge per pair and no self-loops. */
  lemma PutKeepsKeys(edges: map<Payment, int>, p: Payment, t: int)
    requires NoSelfLoops(edges) && UniquePairs(edges) && p.user1 != p.user2
    ensures var after := edges[KeyFor(edges, p) := t]; NoSelfLoops(after) && UniquePairs(after)
  {
    var k := KeyFor(edges, p);
    var after := edges[k := t];
    assert forall k1 | k1 in edges && Equals(k1, p) :: k1 == k;
  }

  /** Dropping edges keeps one edge per pair and no self-loops. */
  lemma SubmapKeepsKeys(edges: map<Payment, int>, kept: map<Payment, int>)
    requires NoSelfLoops(edges) && UniquePairs(edges)
    requires forall k | k in kept :: k in edges
    ensures NoSelfLoops(kept) && UniquePairs(kept)
  {
  }

  /** After an in-order event the evicted edge set is well formed and lies in the window of `t`. */
  lemma InOrderEdges(g: Graph, p: Payment, t: int)
    requires Inv(g) && p.user1 != p.user2
    requires g.maxTime < t
    ensures var kept := Evicted(g.edges[KeyFor(g.edges, p) := t], t);
            NoSelfLoops(kept) && UniquePairs(kept) && InWindow(kept, t)
  {
    var put := g.edges[KeyFor(g.edges, p) := t];
    PutKeepsKeys(g.edges, p, t);
    SubmapKeepsKeys(put, Evicted(put, t));
  }

  /** After a late event the updated edge set is well formed and lies in the unchanged window. */
  lemma LateEdges(g: Graph, p: Payment, t: int)
    requires Inv(g) && p.user1 != p.user2
    requires -Window < t - g.maxTime <= 0
    ensures var updated := LateUpsert(g.edges, p, t);
            NoSelfLoops(updated) && UniquePairs(updated) && InWindow(updated, g.maxTime)
  {
    PutKeepsKeys(g.edges, p, t);
  }

  /** An in-order event (0 < t - maxTime < 60) moves the watermark to `t`, gives the
      event's pair the time `t` (newer than any stored time), and removes exactly the
      other edges with t - time >= 60; the invariant is kept. */
  lemma InOrderEvent(g: Graph, actor: string, target: string, t: int)
    requires Inv(g) && actor != target
    requires g.edges != map[] && 0 < t - g.maxTime < Window
    ensures var g' := Step(g, actor, target, t);
            && Inv(g')
            && g'.maxTime == t
            && (forall k | k in g'.edges :: k in g.edges || k == Payment(actor, target))
            && (forall k | k in g.edges && !Equals(k, Payment(actor, target)) ::
                  (k in g'.edges <==> t - g.edges[k] < Window) && (k in g'.edges ==> g'.edges[k] == g.edges[k]))
            && var k := KeyFor(g.edges, Payment(actor, target));
               k in g'.edges && g'.edges[k] == t && (k in g.edges ==> g.edges[k] < t)
  {
    var p := Payment(actor, target);
    var kept := Evicted(g.edges[KeyFor(g.edges, p) := t], t);
    assert Step(g, actor, target, t) == Settled(t, kept);
    InOrderEdges(g, p, t);
    SettledInv(t, kept);
  }

  /** A late event (-60 < t - maxTime <= 0, including t == maxTime) keeps the watermark
      and every stored edge; the event's pair ends with the newer of its stored time and `t`,
      every other edge keeps its time, and the invariant is kept. */
  lemma LateEvent(g: Graph, actor: string, target: string, t: int)
    requires Inv(g) && actor != target
    requires g.edges != map[] && -Window < t - g.maxTime <= 0
    ensures var g' := Step(g, actor, target, t);
            && Inv(g')
            && g'.maxTime == g.maxTime
            && g.edges.Keys <= g'.edges.Keys
            && (forall k | k in g'.edges :: k in g.edges || k == Payment(actor, target))
            && (forall k | k in g.edges && !Equals(k, Payment(actor, target)) :: g'.edges[k] == g.edges[k])
            && var k := KeyFor(g.edges, Payment(actor, target));
               k in g'.edges && g'.edges[k] == (if k in g.edges && g.edges[k] >= t then g.edges[k] else t)
  {
    var p := Payment(actor, target);
    var updated := LateUpsert(g.edges, p, t);
    assert Step(g, actor, target, t) == Settled(g.maxTime, updated);
    LateEdges(g, p, t);
    SettledInv(g.maxTime, updated);
    LateUpsertChanges(g.edges, p, t);
  }

  /** What the late update changes: nothing is removed, only the event's pair can be
      new, and only its time can change, to the newer of the stored time and `t`. */
  lemma LateUpsertChanges(edges: map<Payment, int>, p: Payment, t: int)
    ensures var updated, k := LateUpsert(edges, p, t), KeyFor(edges, p);
            && edges.Keys <= updated.Keys
            && (forall k' | k' in updated :: k' in edges || k' == p)
            && (forall k' | k' in edges && !Equals(k', p) :: updated[k'] == edges[k'])
            && k in updated && updated[k] == (if k in edges && edges[k] >= t then edges[k] else t)
  {
  }

  /** The first event, or one 60 or more seconds past the watermark, leaves exactly the
      event's edge, its two users at degree 1, the watermark at `t` and median 1. */
  lemma ResetEvent(g: Graph, actor: string, target: string, t: int)
    requires actor != target
    requires g.edges == map[] || t - g.maxTime >= Window
    ensures var g' := Step(g, actor, target, t);
            && Inv(g')
            && g'.edges == map[Payment(actor, target) := t]
            && g'.vertices == map[actor := 1, target := 1]
            && g'.maxTime == t
            && g'.medianDegree == 1.0
  {
    ResetInv(Payment(actor, target), t);
  }

  /** An event 60 or more seconds behind the watermark changes nothing. */
  lemma StaleEvent(g: Graph, actor: string, target: string, t: int)
    requires g.edges != map[] && t - g.maxTime <= -Window
    ensures Step(g, actor, target, t) == g
  {
  }

  /** Every event keeps the invariant. */
  lemma StepPreservesInv(g: Graph, actor: string, target: string, t: int)
    requires Inv(g) && actor != target
    ensures Inv(Step(g, actor, target, t))
  {
    if g.edges == map[] || t - g.maxTime >= Window {
      ResetEvent(g, actor, target, t);
    } else if t - g.maxTime > 0 {
      InOrderEvent(g, actor, target, t);
    } else if t - g.maxTime > -Window {
      LateEvent(g, actor, target, t);
    }
  }

  /** After any event the graph has an edge, and once it has one the watermark never goes back. */
  lemma StepWatermark(g: Graph, actor: string, target: string, t: int)
    requires Inv(g) && actor != target
    ensures Step(g, actor, target, t).edges != map[]
    ensures g.edges != map[] ==> Step(g, actor, target, t).maxTime >= g.maxTime
  {
    if g.edges == map[] || t - g.maxTime >= Window {
      ResetEvent(g, actor, target, t);
      assert Payment(actor, target) in Step(g, actor, target, t).edges;
    } else if t - g.maxTime > 0 {
      InOrderEvent(g, actor, target, t);
    } else if t - g.maxTime > -Window {
      LateEvent(g, actor, target, t);
    }
  }

}
