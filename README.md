# Venmo payment graph: a verified model

This project models the rolling payment graph of `VenmoGraph.java`. The program
reads payment records, each with an actor, a target and a creation time. It keeps
an undirected graph of the payments made in the last 60 seconds, measured back
from the newest time seen (the *watermark*). After each record it writes the
median degree of the graph's users, truncated to two decimals.

The model has five modules:

- `Payments`: the edge key `Payment`. Its `equals` is symmetric in the two users
  and its `hashCode` is the xor of the users' Java string hashes.
- `Time`: `timeDifference`, a millisecond difference converted to whole seconds
  with truncation toward zero. It is exact on timestamps parsed at one-second
  resolution.
- `Median`: the polling order of the priority queue (a sorted sequence), the
  multiset of degrees of a vertex map, the textbook median, and the two-decimal
  truncation.
- `GraphSpec`: the graph as a value.
  - `Step` is one event, classified by its distance from the watermark:
    - empty graph: reset;
    - 60 seconds or more ahead: clear, then reset;
    - ahead by less than 60: advance, upsert and evict;
    - behind by less than 60, or equal: late upsert;
    - otherwise: ignore.
  - `Inv` is what holds between events:
    - no self-loops and one edge per unordered pair;
    - every user's degree is the number of stored edges touching it;
    - every edge time lies in the window `(maxTime - 60, maxTime]`;
    - the stored median is the median of the degrees.
  - `Degrees` is the reference definition of the degree map. The incremental
    updates are proved against it.
- `VenmoGraphs`: the class `VenmoGraph`, whose fields `maxTime`, `medianDegree`,
  `edges` and `vertices` its methods update in place. `ProcessEvent` performs
  exactly `Step` on the fields and keeps `Inv`. The eviction collects the expired
  keys in one loop and removes them, lowering degrees, in a second loop.
  `GetUpdatedMedian` builds the queue and polls it to the middle.

Times are whole seconds (`int`). The median is an exact rational (`real`). The
HashMap of edges is a Dafny `map` keyed by the `Payment` it first stored. A
lookup under the symmetric `equals` finds either orientation, and a `put` of an
equal pair keeps the stored key.

## Model

| member | source | states |
|---|---|---|
| Payments.Equals | src/VenmoGraph.java:293-305 | `Payment.equals` on two payments: the users match in the same order or crosswise. |
| Payments.EqualsIffSameUsers | src/VenmoGraph.java:293-305 | Two payments are equal exactly when they connect the same set of two users. |
| Payments.EqualsIsEquivalence | src/VenmoGraph.java:293-305 | Payment equality is reflexive, symmetric and transitive, so it is a valid key equality. |
| Payments.EqualsIsFlipOrSelf | src/VenmoGraph.java:293-305 | `(a, b)` equals `(b, a)`. The only payments equal to `p` are `p` and its flip. |
| Payments.StringHash | src/VenmoGraph.java:309 | Java's `String.hashCode`: each character is added to 31 times the hash of the preceding prefix, wrapping at 32 bits. |
| Payments.HashCode | src/VenmoGraph.java:307-310 | `Payment.hashCode`: the exclusive or of the two users' string hashes, so it ignores their order. |
| Payments.EqualsImpliesSameHash | src/VenmoGraph.java:307-310 | Equal payments have the same xor hash code; in particular `(a, b)` and `(b, a)` do. |
| Time.TimeDifference | src/VenmoGraph.java:250-253 | The result is the millisecond difference in whole seconds, truncated toward zero. It is bounded from both sides for either sign of the difference. |
| Time.DifferenceOfWholeSeconds | src/VenmoGraph.java:250-253 | On times of whole seconds, `timeDifference` is exactly the difference in seconds. |
| GraphSpec.Find | src/VenmoGraph.java:92 | `containsKey` under symmetric equality: a found key is stored and equal to the payment. Nothing is found exactly when no stored key equals it. |
| GraphSpec.KeyFor | src/VenmoGraph.java:93 | `put` stores under a key equal to the payment. That key is already stored exactly when `containsKey` holds. |
| GraphSpec.DegreeAt | src/VenmoGraph.java:197-217 | A user is a vertex exactly when some edge touches it, and its degree is then the number of such edges, at least 1. |
| GraphSpec.Incremented | src/VenmoGraph.java:197-203 | After `increaseUserDegree`, the user is present (added if absent) and every other user's degree is unchanged. |
| GraphSpec.Decremented | src/VenmoGraph.java:211-217 | After `decreaseUserDegree`, a user of degree 1 leaves, others keep their place, and every other user's degree is unchanged. |
| GraphSpec.DecrementedIncremented | src/VenmoGraph.java:197-217 | With positive degrees, decreasing a user after increasing it restores the vertex map. |
| GraphSpec.IncrementedDecremented | src/VenmoGraph.java:197-217 | Increasing a present user after decreasing it restores the vertex map. |
| GraphSpec.AddEdgeDegrees | src/VenmoGraph.java:185-189 | Adding an absent edge between two different users, then increasing both, gives exactly the degrees of the enlarged edge set. |
| GraphSpec.RemoveEdgeDegrees | src/VenmoGraph.java:105-109 | Both users of a stored edge are vertices. Removing the edge, then decreasing both, gives exactly the degrees of the smaller edge set. |
| GraphSpec.RetimeDegrees | src/VenmoGraph.java:93 | Giving a stored edge a new time leaves the degrees unchanged. |
| GraphSpec.Reset | src/VenmoGraph.java:161-176 | The graph `resetGraph` leaves: one edge at `t`, its two users at degree 1, the watermark at `t`, median 1. |
| GraphSpec.Evicted | src/VenmoGraph.java:97-109 | The edges that survive eviction: exactly those whose time is less than 60 seconds behind the watermark, with their times. |
| GraphSpec.EvictedIsRemoval | src/VenmoGraph.java:97-109 | Removing the collected set of expired keys leaves exactly the edges less than 60 seconds behind the watermark. |
| GraphSpec.LateUpsert | src/VenmoGraph.java:115-122 | The late update: an absent pair is added at `t`; a stored pair takes `t` only when `t` is strictly later than its stored time. |
| GraphSpec.Step | src/VenmoGraph.java:77-127 | One event by its distance from the watermark: the first event or one 60 or more seconds ahead resets; 1 to 59 ahead stores the pair at `t`, moves the watermark and evicts; 0 to 59 behind does the late update; further behind changes nothing. Degrees and median are recomputed from the edges. |
| GraphSpec.InOrderEvent | src/VenmoGraph.java:88-112 | An event 1 to 59 seconds ahead: see the in-order details below the table. |
| GraphSpec.LateEvent | src/VenmoGraph.java:113-124 | An event 0 to 59 seconds behind: see the late details below the table. |
| GraphSpec.LateUpsertChanges | src/VenmoGraph.java:115-122 | The late upsert removes no edge. Only the event's pair can be new, and only its time changes, to the newer of its stored time and `t`. |
| GraphSpec.ResetEvent | src/VenmoGraph.java:78-87 | The first event, or one 60 or more seconds ahead, leaves exactly its edge, both users at degree 1, the watermark at `t`, median 1, and the invariant. |
| GraphSpec.StaleEvent | src/VenmoGraph.java:125-127 | An event 60 or more seconds behind changes nothing. |
| GraphSpec.StepPreservesInv | src/VenmoGraph.java:77-127 | Every event keeps the graph invariant. |
| GraphSpec.StepWatermark | src/VenmoGraph.java:77-127 | After any event the graph has an edge. Once it has one, the watermark never decreases. |
| Median.Insert | src/VenmoGraph.java:227 | Offering a degree to the queue keeps it in polling order and adds exactly that degree. |
| Median.SortedUnique | src/VenmoGraph.java:227-241 | Two polling orders of the same multiset of degrees are the same sequence. |
| Median.MedianOfSorted | src/VenmoGraph.java:228-240 | The median of a non-empty polling order: the element at index n/2 for an odd count n, the mean of the elements at n/2-1 and n/2 for an even count. |
| Median.MedianOfAnyArrangement | src/VenmoGraph.java:226-241 | Any sorted arrangement of a vertex map's degrees has one entry per vertex and gives the same median. The result does not depend on iteration order. |
| Median.MedianBounds | src/VenmoGraph.java:226-241 | The median lies between the least and the greatest degree. |
| Median.MedianOfSinglePayment | src/VenmoGraph.java:170-172 | Two vertices of degree 1 have median 1, the value `resetGraph` stores. |
| Median.Truncated | src/VenmoGraph.java:260-265 | `truncateMedianDegree` on a value: times 100, the fractional part dropped toward zero as Java's `% 1` does, divided by 100. |
| Median.TruncatedBounds | src/VenmoGraph.java:260-265 | The truncated value is a whole number of hundredths, and lies less than 0.01 from the input on the side toward zero (1.999 gives 1.99). |
| Median.TruncatedMedian | src/VenmoGraph.java:260-265 | A median of integer degrees is a multiple of one half, so truncation leaves it unchanged. |
| VenmoGraphs.VenmoGraph.constructor | src/VenmoGraph.java:41-46 | A new graph has no edges, no vertices and median 0, and satisfies the invariant. |
| VenmoGraphs.VenmoGraph.ProcessRecord | src/VenmoGraph.java:77-130 | One record performs `Step` on the fields and keeps the invariant. The value written is the exact median of the current degrees, which equals the truncated stored median. |
| VenmoGraphs.VenmoGraph.ProcessEvent | src/VenmoGraph.java:77-127 | The event body updates the fields to exactly `Step` of the old state and keeps the invariant. |
| VenmoGraphs.VenmoGraph.InOrderPayment | src/VenmoGraph.java:88-112 | The in-order branch yields exactly the in-order case of `Step`: watermark `t`, pair stored at `t`, expired edges evicted, degrees and median recomputed. |
| VenmoGraphs.VenmoGraph.PutEdge | src/VenmoGraph.java:92-96 | The stored pair's time is overwritten, or a new edge is added. The edge map becomes `put(payment, t)` and the degrees stay correct. |
| VenmoGraphs.VenmoGraph.LatePayment | src/VenmoGraph.java:113-124 | The late branch yields exactly the late case of `Step`: the watermark is kept, the pair is upserted if newer, and the median is recomputed. |
| VenmoGraphs.VenmoGraph.LateUpsertEdge | src/VenmoGraph.java:115-122 | The edge map becomes the late upsert and the degrees stay correct. |
| VenmoGraphs.VenmoGraph.TruncateMedianDegree | src/VenmoGraph.java:260-265 | The stored median is replaced by its truncation to two decimals, toward zero, and returned. |
| VenmoGraphs.VenmoGraph.ResetGraph | src/VenmoGraph.java:161-176 | Stores the edge at `t`, sets the watermark to `t`, puts both users at degree 1, and sets the median to 1. |
| VenmoGraphs.VenmoGraph.AddNewEdge | src/VenmoGraph.java:185-189 | For a pair not yet stored in either order, stores the edge at `t` and increases both users' degrees. |
| VenmoGraphs.VenmoGraph.IncreaseUserDegree | src/VenmoGraph.java:197-203 | The vertex map becomes `Incremented` of the old one. |
| VenmoGraphs.VenmoGraph.DecreaseUserDegree | src/VenmoGraph.java:211-217 | For a present user, the vertex map becomes `Decremented` of the old one. |
| VenmoGraphs.VenmoGraph.EvictExpired | src/VenmoGraph.java:97-109 | Leaves exactly the edges less than 60 seconds behind the watermark, with degrees equal to the remaining edges' degrees. |
| VenmoGraphs.VenmoGraph.CollectExpired | src/VenmoGraph.java:98-103 | Returns exactly the stored keys 60 or more seconds behind the watermark. |
| VenmoGraphs.VenmoGraph.RemoveEdges | src/VenmoGraph.java:105-109 | Removes exactly the given edges and keeps the degrees equal to the remaining edges' degrees. |
| VenmoGraphs.VenmoGraph.RemoveEdge | src/VenmoGraph.java:106-108 | Removes one edge and decreases both of its users' degrees. |
| VenmoGraphs.VenmoGraph.GetUpdatedMedian | src/VenmoGraph.java:226-241 | Returns the median of the current degrees. |
| VenmoGraphs.PollToMiddle | src/VenmoGraph.java:228-240 | Polling to the middle returns the middle element for an odd count, or the mean of the two middle elements for an even count. |
| VenmoGraphs.NewQueue | src/VenmoGraph.java:227 | The queue built from `vertices.values()` is in polling order and holds exactly the multiset of degrees. |

`GraphSpec.InOrderEvent` — an event 1 to 59 seconds ahead of the watermark:

- the watermark moves to `t`;
- the event's pair is stored at `t`, which is newer than its old time;
- every other edge survives, with its time unchanged, exactly when it is less than 60 seconds behind `t`;
- no other edge appears;
- the invariant is kept.

`GraphSpec.LateEvent` — an event 0 to 59 seconds behind the watermark:

- the watermark is kept;
- no edge is removed;
- only the event's pair can be new;
- other edges keep their times;
- the pair ends with the newer of its stored time and `t`;
- the invariant is kept.

## Left out

- File input and output are not modelled: the file paths, line reading, blank-line skipping, `newLine` framing and exception printing. The model processes one record given as parameters.
- JSON parsing is not modelled. The actor and target are string parameters.
- Date parsing is not modelled. A creation time is an `int` number of seconds; `GetTime` is its millisecond value.
- The output formatting with `DecimalFormat("0.00")` is not modelled.
- Double arithmetic is not modelled: the median and its truncation are exact rationals.
- The internals of HashMap, HashSet and PriorityQueue are left out. Maps, sets and a sorted sequence stand for them. The iteration order of a map or set is an arbitrary choice, and the results are proved not to depend on it.
- VenmoGraphs.VenmoGraph.ProcessRecord: requires `actor != target`. For a self-payment `(a, a)`, `resetGraph` gives `a` degree 1 (src/VenmoGraph.java:170-171) while `addNewEdge` would raise it twice. When an in-order event later evicts a reset self-loop, the first `decreaseUserDegree(a)` removes `a` and the second unboxes a missing degree at line 212; the resulting NullPointerException is not caught by the handlers at lines 133-139. Self-payments are outside the model.
- Time.TimeDifference: Java `long` overflow of the millisecond difference is not modelled, because integers are unbounded.
- GraphSpec.Incremented: degrees are unbounded integers; the 32-bit `int` width of `vertices.get(user) + 1` (line 199) and of `degree + queue.poll()` (line 239) is not modelled, since a degree never exceeds the number of stored edges.
- Payments.StringHash: models `String.hashCode` over `char` values taken as code units. Strings are sequences of Dafny `char`, and characters outside 16 bits are not split into surrogate pairs.
- VenmoGraphs.VenmoGraph.constructor: the initial `null` watermark is 0. It is never read while the graph has no edges.
- VenmoGraphs.VenmoGraph.GetUpdatedMedian: requires a non-empty vertex map. On an empty map the source's final `poll` returns null and unboxing it throws; the graph always has a vertex when it calls this.
- VenmoGraphs.VenmoGraph.InOrderPayment: the in-order branch is split into helper methods (`PutEdge`, `EvictExpired` with `CollectExpired` and `RemoveEdges`) with the same steps in the same order.
- VenmoGraphs.VenmoGraph.LatePayment: the late branch is split the same way, with its upsert in `LateUpsertEdge`.
