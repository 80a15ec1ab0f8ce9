/**
 The payment graph object: one long-lived instance whose fields are updated in
 place by every payment record read. Each method mirrors a method of the graph
 class and is proved against the value-level specification in `GraphSpec`:
 `ProcessEvent` performs exactly `Step` on the fields, and keeps `Inv`.
 */
module VenmoGraphs {

  import opened Wrappers
  import opened Payments
  import opened Time
  import opened Median
  import opened GraphSpec

  class VenmoGraph {

    /** The watermark: the highest admitted event time, in seconds. */
    var maxTime: int
    /** The last computed median degree, exact. */
    var medianDegree: real
    /** Each stored edge with the time it was last seen. */
    var edges: map<Payment, int>
    /** Each user with its degree. */
    var vertices: map<string, int>

    /** The fields as a specification value. */
    ghost function State(): Graph
      reads this
    {
      Graph(maxTime, edges, vertices, medianDegree)
    }

    ghost predicate Valid()
      reads this
    {
      Inv(State())
    }

    /** A graph with no edges and no vertices, median 0. */
    constructor ()
      ensures Valid()
      ensures State() == Empty
    {
      maxTime := 0;
      medianDegree := 0.0;
      vertices := map[];
      edges := map[];
      new;
      EmptyInv();
    }

    /** Processes one payment record and returns the median it writes out, truncated to two decimals. */
    method ProcessRecord(actor: string, target: string, timestamp: int) returns (output: real)
      requires Valid() && actor != target
      modifies this
      ensures Valid()
      ensures State() == Step(old(State()), actor, target, timestamp)
      ensures vertices != map[] && output == medianDegree == MedianDegree(vertices)
    {
      ProcessEvent(actor, target, timestamp);
      StepWatermark(old(State()), actor, target, timestamp);
      TruncatedMedian(SortedDegrees(vertices));
      output := TruncateMedianDegree();
    }

    /** One event: classify it by its distance from the watermark, then reset, advance
        and evict, fold in a late edge, or ignore it. */
    method ProcessEvent(actor: string, target: string, timestamp: int)
      requires Valid() && actor != target
      modifies this
      ensures Valid()
      ensures State() == Step(old(State()), actor, target, timestamp)
    {
      StepPreservesInv(State(), actor, target, timestamp);
      if |edges| == 0 {
        assert Endpoints(map[]) == {};
        ResetGraph(actor, target, timestamp);
      } else {
        var timeDiff := TimeDifference(GetTime(timestamp), GetTime(maxTime));
        DifferenceOfWholeSeconds(timestamp, maxTime);
        if timeDiff >= Window {
          edges := map[];
          vertices := map[];
          ResetGraph(actor, target, timestamp);
        } else if timeDiff > 0 {
          InOrderPayment(actor, target, timestamp);
        } else if timeDiff > -Window {
          LatePayment(actor, target, timestamp);
        }
      }
    }

    /** An in-order payment: advance the watermark, store the edge with the new time
        (overwriting a stored time), evict expired edges and recompute the median. */
    method InOrderPayment(actor: string, target: string, timestamp: int)
      requires NoSelfLoops(edges) && UniquePairs(edges) && vertices == Degrees(edges)
      requires actor != target
      requires edges != map[] && 0 < timestamp - maxTime < Window
      modifies this
      ensures State() == Step(old(State()), actor, target, timestamp)
    {
      InOrderStep(State(), actor, target, timestamp);
      var payment := Payment(actor, target);
      PutKeepsKeys(edges, payment, timestamp);
      maxTime := timestamp;
      PutEdge(payment, timestamp);
      EvictExpired();
      medianDegree := GetUpdatedMedian();
    }

    /** Stores an in-order payment: a stored edge between the same users takes the new
        time, otherwise the edge is added and both users' degrees rise. */
    method PutEdge(payment: Payment, timestamp: int)
      requires vertices == Degrees(edges) && payment.user1 != payment.user2
      modifies this`edges, this`vertices
      ensures edges == old(edges)[KeyFor(old(edges), payment) := timestamp]
      ensures vertices == Degrees(edges)
    {
      var stored := Find(edges, payment);
      if stored.Some? {
        RetimeDegrees(edges, stored.value, timestamp);
        edges := edges[stored.value := timestamp];
      } else {
        AddEdgeDegrees(edges, payment, timestamp);
        AddNewEdge(payment, timestamp);
      }
    }

    /** A late but valid payment: store a new edge, or move a stored edge's time forward
        if the payment is newer; the watermark stays, nothing is evicted, and the median
        is recomputed. */
    method LatePayment(actor: string, target: string, timestamp: int)
      requires vertices == Degrees(edges)
      requires actor != target
      requires edges != map[] && -Window < timestamp - maxTime <= 0
      modifies this
      ensures State() == Step(old(State()), actor, target, timestamp)
    {
      LateStep(State(), actor, target, timestamp);
      LateUpsertEdge(Payment(actor, target), timestamp);
      medianDegree := GetUpdatedMedian();
    }

    /** Stores a late payment: a new edge is added and both users' degrees rise; a
        stored edge between the same users takes the new time only if it is newer. */
    method LateUpsertEdge(payment: Payment, timestamp: int)
      requires vertices == Degrees(edges) && payment.user1 != payment.user2
      modifies this`edges, this`vertices
      ensures edges == LateUpsert(old(edges), payment, timestamp)
      ensures vertices == Degrees(edges)
    {
      var stored := Find(edges, payment);
      if stored.Some? {
        var timeDiffToStored := TimeDifference(GetTime(timestamp), GetTime(edges[stored.value]));
        DifferenceOfWholeSeconds(timestamp, edges[stored.value]);
        if timeDiffToStored > 0 {
          RetimeDegrees(edges, stored.value, timestamp);
          edges := edges[stored.value := timestamp];
        }
      } else {
        AddEdgeDegrees(edges, payment, timestamp);
        AddNewEdge(payment, timestamp);
      }
    }

    /** `truncateMedianDegree`: truncate the stored median to two decimals, in place, and return it. */
    method TruncateMedianDegree() returns (truncated: real)
      modifies this`medianDegree
      ensures medianDegree == Truncated(old(medianDegree))
      ensures truncated == medianDegree
    {
      var scaled := medianDegree * 100.0;
      var whole := if scaled >= 0.0 then scaled.Floor as real else -((-scaled).Floor as real);
      medianDegree := whole / 100.0;
      truncated := medianDegree;
    }

    /** `resetGraph`: store the event's edge, move the watermark to its time, and give both users degree 1. */
    method ResetGraph(actor: string, target: string, timestamp: int)
      modifies this
      ensures edges == old(edges)[Payment(actor, target) := timestamp]
      ensures maxTime == timestamp
      ensures vertices == old(vertices)[actor := 1][target := 1]
      ensures medianDegree == 1.0
    {
      var edge := Payment(actor, target);
      edges := edges[edge := timestamp];
      maxTime := timestamp;
      vertices := vertices[actor := 1];
      vertices := vertices[target := 1];
      medianDegree := 1.0;
    }

    /** `addNewEdge`: store an edge that is not yet in the graph and raise both users' degrees. */
    method AddNewEdge(edge: Payment, timestamp: int)
      requires Find(edges, edge).None?
      modifies this`edges, this`vertices
      ensures edges == old(edges)[edge := timestamp]
      ensures vertices == Incremented(Incremented(old(vertices), edge.user1), edge.user2)
    {
      edges := edges[edge := timestamp];
      IncreaseUserDegree(edge.user1);
      IncreaseUserDegree(edge.user2);
    }

    /** `increaseUserDegree`. */
    method IncreaseUserDegree(user: string)
      modifies this`vertices
      ensures vertices == Incremented(old(vertices), user)
    {
      if user in vertices {
        vertices := vertices[user := vertices[user] + 1];
      } else {
        vertices := vertices[user := 1];
      }
    }

    /** `decreaseUserDegree`; the user must be present (the source unboxes its degree). */
    method DecreaseUserDegree(user: string)
      requires user in vertices
      modifies this`vertices
      ensures vertices == Decremented(old(vertices), user)
    {
      if vertices[user] == 1 {
        vertices := vertices - {user};
      } else {
        vertices := vertices[user := vertices[user] - 1];
      }
    }

    /** The eviction pass: first collect every edge a window or more older than the
        watermark, then remove each, lowering its users' degrees. */
    method EvictExpired()
      requires NoSelfLoops(edges) && vertices == Degrees(edges)
      modifies this`edges, this`vertices
      ensures edges == Evicted(old(edges), maxTime)
      ensures vertices == Degrees(edges)
    {
      var edgesToEvict := CollectExpired();
      EvictedIsRemoval(edges, maxTime, edgesToEvict);
      RemoveEdges(edgesToEvict);
    }

    /** The first pass of the eviction: the keys of every edge whose time is a window
        or more behind the watermark. */
    method CollectExpired() returns (edgesToEvict: set<Payment>)
      ensures forall k :: k in edgesToEvict <==> k in edges && maxTime - edges[k] >= Window
    {
      edgesToEvict := {};
      var unvisited := edges.Keys;
      while unvisited != {}
        invariant unvisited <= edges.Keys
        invariant forall k :: k in edgesToEvict <==> k in edges && k !in unvisited && maxTime - edges[k] >= Window
        decreases |unvisited|
      {
        var key :| key in unvisited;
        DifferenceOfWholeSeconds(maxTime, edges[key]);
        if TimeDifference(GetTime(maxTime), GetTime(edges[key])) >= Window {
          edgesToEvict := edgesToEvict + {key};
        }
        unvisited := unvisited - {key};
      }
    }

    /** The second pass of the eviction: remove each given edge and lower the degrees
        of its two users, dropping a user whose degree reaches zero. */
    method RemoveEdges(edgesToEvict: set<Payment>)
      requires edgesToEvict <= edges.Keys
      requires NoSelfLoops(edges) && vertices == Degrees(edges)
      modifies this`edges, this`vertices
      ensures edges == old(edges) - edgesToEvict
      ensures vertices == Degrees(edges)
    {
      ghost var before := edges;
      var pending := edgesToEvict;
      while pending != {}
        invariant pending <= edgesToEvict
        invariant edges == before - (edgesToEvict - pending)
        invariant NoSelfLoops(edges) && vertices == Degrees(edges)
        decreases |pending|
      {
        var edge :| edge in pending;
        RemoveOneMore(before, edgesToEvict, pending, edges, edge);
        RemoveEdgeDegrees(edges, edge);
        RemoveEdge(edge);
        pending := pending - {edge};
      }
    }

    /** Removes one stored edge and lowers the degrees of its two users. */
    method RemoveEdge(edge: Payment)
      requires edge.user1 in vertices && edge.user2 in Decremented(vertices, edge.user1)
      modifies this`edges, this`vertices
      ensures edges == old(edges) - {edge}
      ensures vertices == Decremented(Decremented(old(vertices), edge.user1), edge.user2)
    {
      edges := edges - {edge};
      DecreaseUserDegree(edge.user1);
      DecreaseUserDegree(edge.user2);
    }

    /** `getUpdatedMedian`: build a min-queue of all degrees, poll it up to the middle,
        and return the middle degree or the mean of the two middle degrees. */
    method GetUpdatedMedian() returns (median: real)
      requires vertices != map[]
      ensures median == MedianDegree(vertices)
    {
      var queue := NewQueue(vertices);
      MedianOfAnyArrangement(vertices, queue);
      median := PollToMiddle(queue);
    }

  }

  /** The polling half of `getUpdatedMedian`: poll the queue up to its middle and
      return the middle value, or the mean of the two middle values for an even count. */
  method PollToMiddle(queue: seq<int>) returns (median: real)
    requires |queue| > 0
    ensures median == MedianOfSorted(queue)
  {
    var rest := queue;
    var halfSize := |rest| / 2;
    if |rest| % 2 == 1 {
      for i := 0 to halfSize
        invariant rest == queue[i..]
      {
        rest := rest[1..];
      }
      median := rest[0] as real;
    } else {
      var degree := 0;
      for i := 0 to halfSize
        invariant rest == queue[i..]
        invariant 0 < i ==> degree == queue[i - 1]
      {
        degree := rest[0];
        rest := rest[1..];
      }
      median := (degree + rest[0]) as real / 2.0;
    }
  }

  /** `new PriorityQueue<>(vertices.values())`: every degree of `vs` offered to the queue in turn. */
  method NewQueue(vs: map<string, int>) returns (queue: seq<int>)
    ensures Sorted(queue)
    ensures multiset(queue) == DegreeBag(vs)
  {
    queue := [];
    var rest := vs;
    while rest != map[]
      invariant Sorted(queue)
      invariant multiset(queue) + DegreeBag(rest) == DegreeBag(vs)
      decreases |rest|
    {
      var user :| user in rest;
      DegreeBagStep(vs, rest, multiset(queue), user);
      queue := Insert(queue, rest[user]);
      rest := rest - {user};
    }
  }

}
