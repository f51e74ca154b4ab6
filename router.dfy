/**
 * PointToPointRouterImpl::generatePointToPointRoute: greedy best-first search
 * over the street map.  A min-queue keyed by the straight-line distance to the
 * goal, a closed set of coordinates already discovered, and two hash maps
 * recording each discovered coordinate's predecessor and the street name of
 * the edge it was reached by; on popping the goal, the route is rebuilt by
 * walking predecessors back to the start.
 *
 * The queue is a multiset from which an entry of minimum key is taken; the
 * distance function (distanceEarthMiles) is a parameter.
 */
module Router {
  import opened Geo
  import opened BucketTables
  import opened ExpandableHashMaps
  import opened StreetMaps

  /** A queue entry: (distance to the goal, coordinate). */
  type Node = (real, GeoCoord)

  /** x has the least key of q, as the top of a min-priority-queue does. */
  predicate IsMin(q: multiset<Node>, x: Node)
  {
    forall y :: y in q ==> x.0 <= y.0
  }

  /** A non-empty queue has a least entry. */
  lemma MinExists(q: multiset<Node>)
    requires |q| > 0
    ensures exists x :: x in q && IsMin(q, x)
    decreases |q|
  {
    var y :| y in q;
    var rest := q - multiset{y};
    if |rest| == 0 {
      assert q == rest + multiset{y};
      assert IsMin(q, y);
    } else {
      MinExists(rest);
      var x :| x in rest && IsMin(rest, x);
      if x.0 <= y.0 {
        assert IsMin(q, x);
      } else {
        assert IsMin(q, y);
      }
    }
  }

  /**
   * route walks from a to b along segments the street map returns: empty
   * exactly when a == b, otherwise a first segment stored under a, then a
   * route from its end.
   */
  ghost predicate IsRoute(S: SegmentIndex, a: GeoCoord, b: GeoCoord, route: seq<StreetSegment>)
    decreases |route|
  {
    if |route| == 0 then a == b
    else route[0].start == a && route[0] in SegmentsAt(S, a) && IsRoute(S, route[0].end, b, route[1..])
  }

  /** The summed length of the segments of a route. */
  function PathLength(dist: (GeoCoord, GeoCoord) -> real, route: seq<StreetSegment>): real
    decreases |route|
  {
    if |route| == 0 then 0.0 else dist(route[0].start, route[0].end) + PathLength(dist, route[1..])
  }

  /** A route is a connected chain: it starts at a, ends at b, and each segment ends where the next starts. */
  lemma {:induction false} RouteIsChain(S: SegmentIndex, a: GeoCoord, b: GeoCoord, route: seq<StreetSegment>)
    requires IsRoute(S, a, b, route)
    ensures |route| > 0 ==> route[0].start == a && route[|route| - 1].end == b
    ensures forall k :: 0 <= k < |route| ==> route[k] in SegmentsAt(S, route[k].start)
    ensures forall k :: 0 <= k < |route| - 1 ==> route[k].end == route[k + 1].start
    decreases |route|
  {
    if |route| > 0 {
      RouteIsChain(S, route[0].end, b, route[1..]);
      forall k | 0 < k < |route|
        ensures route[k] == route[1..][k - 1]
      {
      }
    }
  }

  /** Every coordinate that ends a stored segment. */
  ghost function AllEnds(S: SegmentIndex): set<GeoCoord>
  {
    set g, k | g in S && 0 <= k < |S[g]| :: S[g][k].end
  }

  lemma EndInAllEnds(S: SegmentIndex, g: GeoCoord, k: int)
    requires 0 <= k < |SegmentsAt(S, g)|
    ensures SegmentsAt(S, g)[k].end in AllEnds(S)
  {
    assert g in S && S[g][k] == SegmentsAt(S, g)[k];
  }

  /** Every successor of a coordinate of R lies in R. */
  ghost predicate ClosedUnder(S: SegmentIndex, R: set<GeoCoord>)
  {
    forall x, k :: x in R && 0 <= k < |SegmentsAt(S, x)| ==> SegmentsAt(S, x)[k].end in R
  }

  /** No route leaves a set closed under successors. */
  lemma {:induction false} NoEscape(S: SegmentIndex, R: set<GeoCoord>, a: GeoCoord, b: GeoCoord, route: seq<StreetSegment>)
    requires ClosedUnder(S, R) && a in R
    requires IsRoute(S, a, b, route)
    ensures b in R
    decreases |route|
  {
    if |route| > 0 {
      var k :| 0 <= k < |SegmentsAt(S, a)| && SegmentsAt(S, a)[k] == route[0];
      NoEscape(S, R, route[0].end, b, route[1..]);
    }
  }

  /**
   * The search tree kept by m_path and m_pathNames: exactly the closed
   * coordinates have a predecessor; each predecessor is the start or a
   * coordinate closed earlier; and the recorded edge, with its recorded
   * name, is a segment the street map stores under the predecessor.
   */
  ghost predicate Tree(S: SegmentIndex, start: GeoCoord, closed: set<GeoCoord>, order: map<GeoCoord, nat>,
                       pred: map<GeoCoord, GeoCoord>, names: map<(GeoCoord, GeoCoord), string>)
  {
    && pred.Keys == closed
    && (forall c :: c in closed ==> c in order && order[c] < |closed|)
    && (forall c :: c in closed ==> pred[c] == start || (pred[c] in closed && order[pred[c]] < order[c]))
    && (forall c :: c in closed ==> (pred[c], c) in names)
    && (forall c :: c in closed ==> StreetSegment(pred[c], c, names[(pred[c], c)]) in SegmentsAt(S, pred[c]))
  }

  /**
   * What the queue and the set of expanded coordinates guarantee between
   * iterations: only the start and closed coordinates are queued; the start
   * is expanded first; every closed coordinate not yet expanded waits in the
   * queue; the goal has not been expanded; and every successor of an
   * expanded coordinate is closed.
   */
  ghost predicate Frontier(S: SegmentIndex, start: GeoCoord, end: GeoCoord, dist: (GeoCoord, GeoCoord) -> real,
                           closed: set<GeoCoord>, queue: multiset<Node>, expanded: set<GeoCoord>)
  {
    && (forall q :: q in queue ==> q.1 == start || q.1 in closed)
    && (start !in expanded ==> queue == multiset{(0.0, start)} && closed == {})
    && (forall c :: c in closed && c !in expanded ==> (dist(c, end), c) in queue)
    && end !in expanded
    && (forall x, k :: x in expanded && 0 <= k < |SegmentsAt(S, x)| ==> SegmentsAt(S, x)[k].end in closed)
  }

  /** The state of the search loop between iterations. */
  ghost predicate Searching(S: SegmentIndex, start: GeoCoord, end: GeoCoord, dist: (GeoCoord, GeoCoord) -> real,
                            ends: set<GeoCoord>, closed: set<GeoCoord>, queue: multiset<Node>, order: map<GeoCoord, nat>,
                            expanded: set<GeoCoord>, pred: map<GeoCoord, GeoCoord>, names: map<(GeoCoord, GeoCoord), string>)
  {
    && Tree(S, start, closed, order, pred, names)
    && Frontier(S, start, end, dist, closed, queue, expanded)
    && closed <= ends
  }

  /** The search starts with only the start queued, nothing closed and nothing expanded. */
  lemma SearchStarts(S: SegmentIndex, start: GeoCoord, end: GeoCoord, dist: (GeoCoord, GeoCoord) -> real, ends: set<GeoCoord>)
    ensures Searching(S, start, end, dist, ends, {}, multiset{(0.0, start)}, map[], {}, map[], map[])
  {
  }

  /** When the queue runs dry, every discovered coordinate was expanded, so the goal is unreachable. */
  lemma ExhaustedMeansNoRoute(S: SegmentIndex, start: GeoCoord, end: GeoCoord, dist: (GeoCoord, GeoCoord) -> real,
                              closed: set<GeoCoord>, expanded: set<GeoCoord>)
    requires Frontier(S, start, end, dist, closed, multiset{}, expanded)
    ensures forall route :: !IsRoute(S, start, end, route)
  {
    assert start in expanded;
    assert closed <= expanded;
    forall route | IsRoute(S, start, end, route)
      ensures false
    {
      NoEscape(S, expanded, start, end, route);
    }
  }

  /**
   * What the neighbour loop has done to the closed set and the queue after
   * its first i neighbours: the closed set only grew, by the coordinates in
   * added, each of which ends a stored segment and was queued; and the ends
   * of the first i neighbours are closed.
   */
  ghost predicate Grown(S: SegmentIndex, end: GeoCoord, dist: (GeoCoord, GeoCoord) -> real,
                        neighbours: seq<StreetSegment>, i: int, closed0: set<GeoCoord>, queue0: multiset<Node>,
                        closed: set<GeoCoord>, queue: multiset<Node>, added: seq<GeoCoord>)
  {
    && 0 <= i <= |neighbours|
    && closed0 <= closed
    && (forall c :: c in closed && c !in closed0 ==> c in added)
    && queue == queue0 + Pushed(dist, end, added)
    && (forall c :: c in added ==> c in closed && c !in closed0 && c in AllEnds(S))
    && (forall k :: 0 <= k < i ==> neighbours[k].end in closed)
  }

  /** The state of the neighbour loop: the popped coordinate is the start or closed, the tree is intact, and Grown. */
  ghost predicate Expanding(S: SegmentIndex, start: GeoCoord, end: GeoCoord, dist: (GeoCoord, GeoCoord) -> real,
                            current: GeoCoord, neighbours: seq<StreetSegment>, i: int,
                            closed0: set<GeoCoord>, queue0: multiset<Node>,
                            closed: set<GeoCoord>, queue: multiset<Node>, order: map<GeoCoord, nat>, added: seq<GeoCoord>,
                            pred: map<GeoCoord, GeoCoord>, names: map<(GeoCoord, GeoCoord), string>)
  {
    && (current == start || current in closed)
    && Tree(S, start, closed, order, pred, names)
    && Grown(S, end, dist, neighbours, i, closed0, queue0, closed, queue, added)
  }

  /** The coordinates the segments of ns end at. */
  ghost function Ends(ns: seq<StreetSegment>): (e: set<GeoCoord>)
    ensures forall k :: 0 <= k < |ns| ==> ns[k].end in e
  {
    if ns == [] then {} else Ends(ns[..|ns| - 1]) + {ns[|ns| - 1].end}
  }

  /** The name of the first segment of ns that ends at c ("" when none does). */
  ghost function FirstName(ns: seq<StreetSegment>, c: GeoCoord): string
  {
    if ns == [] then "" else if ns[0].end == c then ns[0].name else FirstName(ns[1..], c)
  }

  /** FirstName is the name of the segment at the first index whose end is c. */
  lemma {:induction false} FirstNameIsFirst(ns: seq<StreetSegment>, c: GeoCoord)
    requires c in Ends(ns)
    ensures exists k :: 0 <= k < |ns| && ns[k].end == c && ns[k].name == FirstName(ns, c)
                        && forall k' :: 0 <= k' < k ==> ns[k'].end != c
  {
    EndsHasIndex(ns, c);
    var k :| 0 <= k < |ns| && ns[k].end == c;
    FirstNameAt(ns, c, FirstIndex(ns, c, k));
  }

  /** The first index at or below k whose segment ends where ns[k] ends. */
  ghost function FirstIndex(ns: seq<StreetSegment>, c: GeoCoord, k: nat): (j: nat)
    requires k < |ns| && ns[k].end == c
    ensures j <= k && ns[j].end == c && forall k' :: 0 <= k' < j ==> ns[k'].end != c
  {
    if exists k' :: 0 <= k' < k && ns[k'].end == c then
      var k' :| 0 <= k' < k && ns[k'].end == c; FirstIndex(ns, c, k')
    else k
  }

  lemma {:induction false} EndsHasIndex(ns: seq<StreetSegment>, c: GeoCoord)
    requires c in Ends(ns)
    ensures exists k :: 0 <= k < |ns| && ns[k].end == c
  {
    if ns[|ns| - 1].end != c {
      EndsHasIndex(ns[..|ns| - 1], c);
      var k :| 0 <= k < |ns| - 1 && ns[..|ns| - 1][k].end == c;
      assert ns[k].end == c;
    }
  }

  /** When segment k is the first to end at c, FirstName is its name. */
  lemma {:induction false} FirstNameAt(ns: seq<StreetSegment>, c: GeoCoord, k: nat)
    requires k < |ns| && ns[k].end == c
    requires forall k' :: 0 <= k' < k ==> ns[k'].end != c
    ensures FirstName(ns, c) == ns[k].name
    decreases k
  {
    if k > 0 {
      FirstNameAt(ns[1..], c, k - 1);
    }
  }

  /** The m_path entries the neighbour loop adds: each coordinate in added has current as predecessor. */
  ghost function PredsAdded(current: GeoCoord, added: seq<GeoCoord>): map<GeoCoord, GeoCoord>
  {
    map c | c in added :: current
  }

  /** The m_pathNames entries the neighbour loop adds: the edge from current to c is named after the first neighbour ending at c. */
  ghost function NamesAdded(current: GeoCoord, neighbours: seq<StreetSegment>, added: seq<GeoCoord>): map<(GeoCoord, GeoCoord), string>
  {
    map c | c in added :: (current, c) := FirstName(neighbours, c)
  }

  /**
   * What the neighbour loop has written into m_path and m_pathNames after its
   * first i neighbours: every coordinate it closed is an end of one of them;
   * m_path is the map on entry plus, for each of these, current as its
   * predecessor; and m_pathNames is the map on entry plus, for each of these,
   * the edge from current named after the first neighbour that ends there.
   * Nothing else changes.
   */
  ghost predicate Recorded(current: GeoCoord, neighbours: seq<StreetSegment>, i: int,
                           pred0: map<GeoCoord, GeoCoord>, names0: map<(GeoCoord, GeoCoord), string>,
                           added: seq<GeoCoord>, pred: map<GeoCoord, GeoCoord>, names: map<(GeoCoord, GeoCoord), string>)
  {
    && 0 <= i <= |neighbours|
    && (set c | c in added) <= Ends(neighbours[..i])
    && pred == pred0 + PredsAdded(current, added)
    && names == names0 + NamesAdded(current, neighbours, added)
  }

  /**
   * Recorded for a coordinate the loop closed: it has current as
   * predecessor, and the edge into it carries the name of the first of the
   * first i neighbours that ends there.
   */
  lemma RecordedNewEntry(current: GeoCoord, neighbours: seq<StreetSegment>, i: int,
                         pred0: map<GeoCoord, GeoCoord>, names0: map<(GeoCoord, GeoCoord), string>,
                         added: seq<GeoCoord>, pred: map<GeoCoord, GeoCoord>, names: map<(GeoCoord, GeoCoord), string>,
                         c: GeoCoord)
    requires Recorded(current, neighbours, i, pred0, names0, added, pred, names)
    requires c in added
    ensures c in pred && pred[c] == current && (current, c) in names
    ensures exists k :: 0 <= k < i && neighbours[k].end == c && neighbours[k].name == names[(current, c)]
                        && forall k' :: 0 <= k' < k ==> neighbours[k'].end != c
  {
    var prefix := neighbours[..i];
    assert c in (set x | x in added);
    FirstNameIsFirst(prefix, c);
    var k :| 0 <= k < |prefix| && prefix[k].end == c && prefix[k].name == FirstName(prefix, c)
             && forall k' :: 0 <= k' < k ==> prefix[k'].end != c;
    assert forall k' :: 0 <= k' <= k ==> neighbours[k'] == prefix[k'];
    FirstNameAt(neighbours, c, k);
  }

  /**
   * Recorded for everything else: a predecessor of a coordinate the loop did
   * not close, and the name of an edge into such a coordinate, are as on entry.
   */
  lemma RecordedKeptEntries(current: GeoCoord, neighbours: seq<StreetSegment>, i: int,
                            pred0: map<GeoCoord, GeoCoord>, names0: map<(GeoCoord, GeoCoord), string>,
                            added: seq<GeoCoord>, pred: map<GeoCoord, GeoCoord>, names: map<(GeoCoord, GeoCoord), string>,
                            c: GeoCoord, e: (GeoCoord, GeoCoord))
    requires Recorded(current, neighbours, i, pred0, names0, added, pred, names)
    ensures c !in added && c in pred0 ==> c in pred && pred[c] == pred0[c]
    ensures e.1 !in added && e in names0 ==> e in names && names[e] == names0[e]
  {
  }

  /** Before the first neighbour nothing is recorded. */
  lemma RecordedStart(current: GeoCoord, neighbours: seq<StreetSegment>,
                      pred: map<GeoCoord, GeoCoord>, names: map<(GeoCoord, GeoCoord), string>)
    ensures Recorded(current, neighbours, 0, pred, names, [], pred, names)
  {
    assert PredsAdded(current, []) == map[];
    assert NamesAdded(current, neighbours, []) == map[];
  }

  lemma EndsSnoc(ns: seq<StreetSegment>, i: nat)
    requires i < |ns|
    ensures Ends(ns[..i + 1]) == Ends(ns[..i]) + {ns[i].end}
  {
    assert ns[..i + 1][..i] == ns[..i];
  }

  lemma UpdateAfterMerge<K, V>(m0: map<K, V>, m1: map<K, V>, k: K, v: V)
    ensures (m0 + m1)[k := v] == m0 + m1[k := v]
  {
  }

  lemma PredsAddedSnoc(current: GeoCoord, added: seq<GeoCoord>, c: GeoCoord)
    ensures PredsAdded(current, added + [c]) == PredsAdded(current, added)[c := current]
  {
  }

  lemma NamesAddedSnoc(current: GeoCoord, neighbours: seq<StreetSegment>, added: seq<GeoCoord>, c: GeoCoord)
    ensures NamesAdded(current, neighbours, added + [c])
         == NamesAdded(current, neighbours, added)[(current, c) := FirstName(neighbours, c)]
  {
  }

  /** A neighbour whose end is already closed records nothing. */
  lemma RecordedSkip(current: GeoCoord, neighbours: seq<StreetSegment>, i: int,
                     pred0: map<GeoCoord, GeoCoord>, names0: map<(GeoCoord, GeoCoord), string>,
                     added: seq<GeoCoord>, pred: map<GeoCoord, GeoCoord>, names: map<(GeoCoord, GeoCoord), string>)
    requires i < |neighbours|
    requires Recorded(current, neighbours, i, pred0, names0, added, pred, names)
    ensures Recorded(current, neighbours, i + 1, pred0, names0, added, pred, names)
  {
    EndsSnoc(neighbours, i);
  }

  /**
   * A neighbour whose end no earlier neighbour reached: recording current as
   * that end's predecessor and the neighbour's name for the edge is the
   * recording of the longer added sequence.
   */
  lemma RecordedGrows(current: GeoCoord, neighbours: seq<StreetSegment>, i: int,
                      pred0: map<GeoCoord, GeoCoord>, names0: map<(GeoCoord, GeoCoord), string>,
                      added: seq<GeoCoord>, pred: map<GeoCoord, GeoCoord>, names: map<(GeoCoord, GeoCoord), string>)
    requires 0 <= i < |neighbours| && neighbours[i].start == current
    requires forall k :: 0 <= k < i ==> neighbours[k].end != neighbours[i].end
    requires Recorded(current, neighbours, i, pred0, names0, added, pred, names)
    ensures var seg := neighbours[i];
      Recorded(current, neighbours, i + 1, pred0, names0, added + [seg.end],
               pred[seg.end := seg.start], names[(seg.start, seg.end) := seg.name])
  {
    var seg := neighbours[i];
    EndsSnoc(neighbours, i);
    FirstNameAt(neighbours, seg.end, i);
    PredsAddedSnoc(current, added, seg.end);
    UpdateAfterMerge(pred0, PredsAdded(current, added), seg.end, current);
    NamesAddedSnoc(current, neighbours, added, seg.end);
    UpdateAfterMerge(names0, NamesAdded(current, neighbours, added), (current, seg.end), seg.name);
  }

  /**
   * The loop over the neighbours of the popped coordinate: each neighbour
   * not yet closed gets the popped coordinate as predecessor and the
   * segment's name, is closed, and is queued with its distance to the goal.
   */
  method ExpandNeighbours(path: ExpandableHashMap<GeoCoord, GeoCoord>, pathNames: ExpandableHashMap<(GeoCoord, GeoCoord), string>,
                          ghost S: SegmentIndex, start: GeoCoord, end: GeoCoord, dist: (GeoCoord, GeoCoord) -> real,
                          current: GeoCoord, neighbours: seq<StreetSegment>,
                          closed0: set<GeoCoord>, queue0: multiset<Node>, ghost order0: map<GeoCoord, nat>)
    returns (closed: set<GeoCoord>, queue: multiset<Node>, ghost order: map<GeoCoord, nat>, ghost added: seq<GeoCoord>)
    requires path.Valid() && pathNames.Valid()
    requires neighbours == SegmentsAt(S, current) && StartsAtKey(S)
    requires current == start || current in closed0
    requires Tree(S, start, closed0, order0, path.Contents, pathNames.Contents)
    modifies path, pathNames
    ensures path.Valid() && pathNames.Valid()
    ensures Expanding(S, start, end, dist, current, neighbours, |neighbours|, closed0, queue0,
                      closed, queue, order, added, path.Contents, pathNames.Contents)
    ensures Recorded(current, neighbours, |neighbours|, old(path.Contents), old(pathNames.Contents),
                     added, path.Contents, pathNames.Contents)
  {
    closed, queue, order, added := closed0, queue0, order0, [];
    ghost var pred0, names0 := path.Contents, pathNames.Contents;
    RecordedStart(current, neighbours, pred0, names0);
    var i := 0;
    while i < |neighbours|
      invariant path.Valid() && pathNames.Valid()
      invariant Expanding(S, start, end, dist, current, neighbours, i, closed0, queue0,
                          closed, queue, order, added, path.Contents, pathNames.Contents)
      invariant Recorded(current, neighbours, i, pred0, names0, added, path.Contents, pathNames.Contents)
      decreases |neighbours| - i
    {
      closed, queue, order, added := NeighbourStep(path, pathNames, S, start, end, dist, current, neighbours, i,
                                                   closed0, queue0, pred0, names0, closed, queue, order, added);
      i := i + 1;
    }
  }

  /** One pass of the neighbour loop: skip a closed end, otherwise discover it. */
  method NeighbourStep(path: ExpandableHashMap<GeoCoord, GeoCoord>, pathNames: ExpandableHashMap<(GeoCoord, GeoCoord), string>,
                       ghost S: SegmentIndex, start: GeoCoord, end: GeoCoord, dist: (GeoCoord, GeoCoord) -> real,
                       current: GeoCoord, neighbours: seq<StreetSegment>, i: int,
                       ghost closed0: set<GeoCoord>, ghost queue0: multiset<Node>,
                       ghost pred0: map<GeoCoord, GeoCoord>, ghost names0: map<(GeoCoord, GeoCoord), string>,
                       closedIn: set<GeoCoord>, queueIn: multiset<Node>, ghost orderIn: map<GeoCoord, nat>, ghost addedIn: seq<GeoCoord>)
    returns (closed: set<GeoCoord>, queue: multiset<Node>, ghost order: map<GeoCoord, nat>, ghost added: seq<GeoCoord>)
    requires path.Valid() && pathNames.Valid()
    requires neighbours == SegmentsAt(S, current) && StartsAtKey(S)
    requires i < |neighbours|
    requires Expanding(S, start, end, dist, current, neighbours, i, closed0, queue0,
                       closedIn, queueIn, orderIn, addedIn, path.Contents, pathNames.Contents)
    requires Recorded(current, neighbours, i, pred0, names0, addedIn, path.Contents, pathNames.Contents)
    modifies path, pathNames
    ensures path.Valid() && pathNames.Valid()
    ensures Expanding(S, start, end, dist, current, neighbours, i + 1, closed0, queue0,
                      closed, queue, order, added, path.Contents, pathNames.Contents)
    ensures Recorded(current, neighbours, i + 1, pred0, names0, added, path.Contents, pathNames.Contents)
  {
    closed, queue, order, added := closedIn, queueIn, orderIn, addedIn;
    var seg := neighbours[i];
    if seg.end in closed {
      ExpandingSkip(S, start, end, dist, current, neighbours, i, closed0, queue0,
                    closed, queue, order, added, path.Contents, pathNames.Contents);
      RecordedSkip(current, neighbours, i, pred0, names0, added, path.Contents, pathNames.Contents);
    } else {
      ghost var pred, names := path.Contents, pathNames.Contents;
      RecordedGrows(current, neighbours, i, pred0, names0, added, pred, names);
      RecordEdge(path, pathNames, seg);
      order := order[seg.end := |closed|];
      closed := closed + {seg.end};
      var d := dist(seg.end, end);
      queue := queue + multiset{(d, seg.end)};
      added := added + [seg.end];
      ExpandingGrows(S, start, end, dist, current, neighbours, i, closed0, queue0,
                     closedIn, queueIn, orderIn, addedIn, pred, names);
    }
  }

  /** A neighbour whose end is already closed changes nothing. */
  lemma ExpandingSkip(S: SegmentIndex, start: GeoCoord, end: GeoCoord, dist: (GeoCoord, GeoCoord) -> real,
                      current: GeoCoord, neighbours: seq<StreetSegment>, i: int,
                      closed0: set<GeoCoord>, queue0: multiset<Node>,
                      closed: set<GeoCoord>, queue: multiset<Node>, order: map<GeoCoord, nat>, added: seq<GeoCoord>,
                      pred: map<GeoCoord, GeoCoord>, names: map<(GeoCoord, GeoCoord), string>)
    requires Expanding(S, start, end, dist, current, neighbours, i, closed0, queue0, closed, queue, order, added, pred, names)
    requires i < |neighbours| && neighbours[i].end in closed
    ensures Expanding(S, start, end, dist, current, neighbours, i + 1, closed0, queue0, closed, queue, order, added, pred, names)
  {
  }

  /**
   * A neighbour whose end is not closed: recording its predecessor and name,
   * closing it and queueing it keeps the loop state, one neighbour further.
   */
  lemma ExpandingGrows(S: SegmentIndex, start: GeoCoord, end: GeoCoord, dist: (GeoCoord, GeoCoord) -> real,
                       current: GeoCoord, neighbours: seq<StreetSegment>, i: int,
                       closed0: set<GeoCoord>, queue0: multiset<Node>,
                       closed: set<GeoCoord>, queue: multiset<Node>, order: map<GeoCoord, nat>, added: seq<GeoCoord>,
                       pred: map<GeoCoord, GeoCoord>, names: map<(GeoCoord, GeoCoord), string>)
    requires neighbours == SegmentsAt(S, current) && StartsAtKey(S)
    requires Expanding(S, start, end, dist, current, neighbours, i, closed0, queue0, closed, queue, order, added, pred, names)
    requires i < |neighbours| && neighbours[i].end !in closed
    ensures var seg := neighbours[i];
      Expanding(S, start, end, dist, current, neighbours, i + 1, closed0, queue0,
                closed + {seg.end}, queue + multiset{(dist(seg.end, end), seg.end)}, order[seg.end := |closed|],
                added + [seg.end], pred[seg.end := seg.start], names[(seg.start, seg.end) := seg.name])
  {
    var seg := neighbours[i];
    assert seg.start == current && seg in SegmentsAt(S, current);
    EndInAllEnds(S, current, i);
    TreeGrows(S, start, closed, order, pred, names, seg);
    GrownStep(S, end, dist, neighbours, i, closed0, queue0, closed, queue, added);
  }

  /** Closing and queueing the end of neighbour i, which was open and ends a stored segment, keeps Grown. */
  lemma GrownStep(S: SegmentIndex, end: GeoCoord, dist: (GeoCoord, GeoCoord) -> real,
                  neighbours: seq<StreetSegment>, i: int, closed0: set<GeoCoord>, queue0: multiset<Node>,
                  closed: set<GeoCoord>, queue: multiset<Node>, added: seq<GeoCoord>)
    requires Grown(S, end, dist, neighbours, i, closed0, queue0, closed, queue, added)
    requires i < |neighbours| && neighbours[i].end !in closed && neighbours[i].end in AllEnds(S)
    ensures var c := neighbours[i].end;
      Grown(S, end, dist, neighbours, i + 1, closed0, queue0,
            closed + {c}, queue + multiset{(dist(c, end), c)}, added + [c])
  {
    var e := neighbours[i].end;
    var closed', added' := closed + {e}, added + [e];
    var entry := (dist(e, end), e);
    assert added'[..|added'| - 1] == added;
    assert Pushed(dist, end, added') == Pushed(dist, end, added) + multiset{entry};
    assert queue + multiset{entry} == queue0 + Pushed(dist, end, added');
    forall c | c in closed' && c !in closed0
      ensures c in added'
    {
      if c != e {
        assert c in added;
      }
    }
    forall c | c in added'
      ensures c in closed' && c !in closed0 && c in AllEnds(S)
    {
      if c != e {
        assert c in added;
      }
    }
  }

  /** The queue entries pushed for the coordinates closed, in order, during one expansion. */
  ghost function Pushed(dist: (GeoCoord, GeoCoord) -> real, end: GeoCoord, added: seq<GeoCoord>): multiset<Node>
    decreases |added|
  {
    if |added| == 0 then multiset{}
    else Pushed(dist, end, added[..|added| - 1]) + multiset{(dist(added[|added| - 1], end), added[|added| - 1])}
  }

  /** Each pushed entry is a closed coordinate with its distance to the goal, and each one is pushed. */
  lemma {:induction false} PushedEntries(dist: (GeoCoord, GeoCoord) -> real, end: GeoCoord, added: seq<GeoCoord>)
    ensures forall q :: q in Pushed(dist, end, added) ==> q.1 in added && q.0 == dist(q.1, end)
    ensures forall c :: c in added ==> (dist(c, end), c) in Pushed(dist, end, added)
    decreases |added|
  {
    if |added| > 0 {
      var front := added[..|added| - 1];
      PushedEntries(dist, end, front);
      assert forall c :: c in added ==> c in front || c == added[|added| - 1];
      assert forall c :: c in front ==> c in added;
    }
  }

  /** The two associations made for a newly reached coordinate: its predecessor and the edge's name. */
  method RecordEdge(path: ExpandableHashMap<GeoCoord, GeoCoord>, pathNames: ExpandableHashMap<(GeoCoord, GeoCoord), string>,
                    seg: StreetSegment)
    requires path.Valid() && pathNames.Valid()
    modifies path, pathNames
    ensures path.Valid() && pathNames.Valid()
    ensures path.Contents == old(path.Contents)[seg.end := seg.start]
    ensures pathNames.Contents == old(pathNames.Contents)[(seg.start, seg.end) := seg.name]
  {
    path.Associate(seg.end, seg.start);
    pathNames.Associate((seg.start, seg.end), seg.name);
  }

  /** Closing a new coordinate reached by a stored segment from the start or a closed coordinate keeps the tree. */
  lemma TreeGrows(S: SegmentIndex, start: GeoCoord, closed: set<GeoCoord>, order: map<GeoCoord, nat>,
                  pred: map<GeoCoord, GeoCoord>, names: map<(GeoCoord, GeoCoord), string>, seg: StreetSegment)
    requires Tree(S, start, closed, order, pred, names)
    requires seg.start == start || seg.start in closed
    requires seg.end !in closed && seg in SegmentsAt(S, seg.start)
    ensures Tree(S, start, closed + {seg.end}, order[seg.end := |closed|], pred[seg.end := seg.start],
                 names[(seg.start, seg.end) := seg.name])
  {
    TreeGrowsOrder(start, closed, order, pred, seg);
    TreeGrowsEdges(S, start, closed, order, pred, names, seg);
  }

  /** The ordering half of TreeGrows: the new coordinate comes last, after its predecessor. */
  lemma TreeGrowsOrder(start: GeoCoord, closed: set<GeoCoord>, order: map<GeoCoord, nat>,
                       pred: map<GeoCoord, GeoCoord>, seg: StreetSegment)
    requires pred.Keys == closed
    requires forall c :: c in closed ==> c in order && order[c] < |closed|
    requires forall c :: c in closed ==> pred[c] == start || (pred[c] in closed && order[pred[c]] < order[c])
    requires seg.start == start || seg.start in closed
    requires seg.end !in closed
    ensures var c', o', p' := closed + {seg.end}, order[seg.end := |closed|], pred[seg.end := seg.start];
      && p'.Keys == c'
      && (forall c :: c in c' ==> c in o' && o'[c] < |c'|)
      && (forall c :: c in c' ==> p'[c] == start || (p'[c] in c' && o'[p'[c]] < o'[c]))
  {
    OrderBound(closed, order, seg.end);
    var c' := closed + {seg.end};
    var o' := order[seg.end := |closed|];
    var p' := pred[seg.end := seg.start];
    forall c | c in c'
      ensures p'[c] == start || (p'[c] in c' && o'[p'[c]] < o'[c])
    {
      if c == seg.end {
        if seg.start != start {
          assert o'[seg.start] == order[seg.start] < |closed|;
        }
      } else {
        assert p'[c] == pred[c];
        if pred[c] != start {
          assert o'[pred[c]] == order[pred[c]];
          assert o'[c] == order[c];
        }
      }
    }
  }

  /** Numbering a new coordinate |closed| keeps every number below the size of the grown set. */
  lemma OrderBound(closed: set<GeoCoord>, order: map<GeoCoord, nat>, x: GeoCoord)
    requires forall c :: c in closed ==> c in order && order[c] < |closed|
    requires x !in closed
    ensures forall c :: c in closed + {x} ==> c in order[x := |closed|] && order[x := |closed|][c] < |closed + {x}|
  {
    assert |closed + {x}| == |closed| + 1;
  }

  /** The edge half of TreeGrows: every recorded edge, the new one included, is a stored segment. */
  lemma TreeGrowsEdges(S: SegmentIndex, start: GeoCoord, closed: set<GeoCoord>, order: map<GeoCoord, nat>,
                       pred: map<GeoCoord, GeoCoord>, names: map<(GeoCoord, GeoCoord), string>, seg: StreetSegment)
    requires Tree(S, start, closed, order, pred, names)
    requires seg.end !in closed && seg in SegmentsAt(S, seg.start)
    ensures var c', p', n' := closed + {seg.end}, pred[seg.end := seg.start], names[(seg.start, seg.end) := seg.name];
      forall c :: c in c' ==> (p'[c], c) in n' && StreetSegment(p'[c], c, n'[(p'[c], c)]) in SegmentsAt(S, p'[c])
  {
    var c' := closed + {seg.end};
    var p' := pred[seg.end := seg.start];
    var n' := names[(seg.start, seg.end) := seg.name];
    forall c | c in c'
      ensures (p'[c], c) in n' && StreetSegment(p'[c], c, n'[(p'[c], c)]) in SegmentsAt(S, p'[c])
    {
      if c == seg.end {
        assert StreetSegment(p'[c], c, n'[(p'[c], c)]) == seg;
      } else {
        assert (pred[c], c) != (seg.start, seg.end);
        assert n'[(pred[c], c)] == names[(pred[c], c)];
      }
    }
  }

  /**
   * The retrace loop: walk predecessors from the goal back to the start,
   * pushing each recorded edge to the front of the route and adding its
   * length to the total.
   */
  method Retrace(path: ExpandableHashMap<GeoCoord, GeoCoord>, pathNames: ExpandableHashMap<(GeoCoord, GeoCoord), string>,
                 ghost S: SegmentIndex, start: GeoCoord, end: GeoCoord, dist: (GeoCoord, GeoCoord) -> real,
                 ghost closed: set<GeoCoord>, ghost order: map<GeoCoord, nat>)
    returns (route: seq<StreetSegment>, total: real)
    requires path.WellFormed() && pathNames.WellFormed()
    requires Tree(S, start, closed, order, path.Contents, pathNames.Contents)
    requires end == start || end in closed
    ensures IsRoute(S, start, end, route)
    ensures total == PathLength(dist, route)
    ensures start == end ==> route == []
  {
    route := [];
    total := 0.0;
    var retracer := end;
    RetraceStarts(S, start, end, dist, closed, order, path.Contents, pathNames.Contents);
    while retracer != start
      invariant Retracing(S, start, end, dist, closed, order, path.Contents, pathNames.Contents, retracer, route, total)
      decreases Rank(order, start, retracer)
    {
      RetraceHasEdge(S, start, end, dist, closed, order, path.Contents, pathNames.Contents, retracer, route, total);
      var seg := RecordedEdge(path, pathNames, retracer);
      RetraceStep(S, start, end, dist, closed, order, path.Contents, pathNames.Contents, retracer, route, total, seg);
      route := [seg] + route;
      total := total + dist(seg.start, seg.end);
      retracer := seg.start;
    }
  }

  /**
   * The state of the retrace loop: the tree is intact, retracer is the start
   * or closed, the route built so far leads from retracer to the goal, the
   * total is its length, and nothing is walked when the start is the goal.
   */
  ghost predicate Retracing(S: SegmentIndex, start: GeoCoord, end: GeoCoord, dist: (GeoCoord, GeoCoord) -> real,
                            closed: set<GeoCoord>, order: map<GeoCoord, nat>,
                            pred: map<GeoCoord, GeoCoord>, names: map<(GeoCoord, GeoCoord), string>,
                            retracer: GeoCoord, route: seq<StreetSegment>, total: real)
  {
    && Tree(S, start, closed, order, pred, names)
    && (retracer == start || retracer in closed)
    && IsRoute(S, retracer, end, route)
    && total == PathLength(dist, route)
    && (start == end ==> retracer == start && route == [])
  }

  /** How far retracer is from the start along the tree: 0 at the start, one more than its number otherwise. */
  ghost function Rank(order: map<GeoCoord, nat>, start: GeoCoord, retracer: GeoCoord): nat
  {
    if retracer == start || retracer !in order then 0 else order[retracer] + 1
  }

  lemma RetraceStarts(S: SegmentIndex, start: GeoCoord, end: GeoCoord, dist: (GeoCoord, GeoCoord) -> real,
                      closed: set<GeoCoord>, order: map<GeoCoord, nat>,
                      pred: map<GeoCoord, GeoCoord>, names: map<(GeoCoord, GeoCoord), string>)
    requires Tree(S, start, closed, order, pred, names)
    requires end == start || end in closed
    ensures Retracing(S, start, end, dist, closed, order, pred, names, end, [], 0.0)
  {
  }

  /** The two lookups of one retrace step: retracer's predecessor, then the name of the edge between them. */
  method RecordedEdge(path: ExpandableHashMap<GeoCoord, GeoCoord>, pathNames: ExpandableHashMap<(GeoCoord, GeoCoord), string>,
                      retracer: GeoCoord)
    returns (seg: StreetSegment)
    requires path.WellFormed() && pathNames.WellFormed()
    requires retracer in path.Contents && (path.Contents[retracer], retracer) in pathNames.Contents
    ensures seg.start == path.Contents[retracer] && seg.end == retracer
    ensures seg.name == pathNames.Contents[(seg.start, retracer)]
  {
    var s := path.Find(retracer);
    var streetName := pathNames.Find((s.value, retracer));
    seg := StreetSegment(s.value, retracer, streetName.value);
  }

  /** Every coordinate met while retracing, other than the start, has a recorded predecessor and edge name. */
  lemma RetraceHasEdge(S: SegmentIndex, start: GeoCoord, end: GeoCoord, dist: (GeoCoord, GeoCoord) -> real,
                       closed: set<GeoCoord>, order: map<GeoCoord, nat>,
                       pred: map<GeoCoord, GeoCoord>, names: map<(GeoCoord, GeoCoord), string>,
                       retracer: GeoCoord, route: seq<StreetSegment>, total: real)
    requires Retracing(S, start, end, dist, closed, order, pred, names, retracer, route, total)
    requires retracer != start
    ensures retracer in pred && (pred[retracer], retracer) in names
  {
  }

  /**
   * One step back along the tree: prefixing the recorded edge into retracer
   * keeps the retrace state while moving strictly closer to the start.
   */
  lemma RetraceStep(S: SegmentIndex, start: GeoCoord, end: GeoCoord, dist: (GeoCoord, GeoCoord) -> real,
                    closed: set<GeoCoord>, order: map<GeoCoord, nat>,
                    pred: map<GeoCoord, GeoCoord>, names: map<(GeoCoord, GeoCoord), string>,
                    retracer: GeoCoord, route: seq<StreetSegment>, total: real, seg: StreetSegment)
    requires Retracing(S, start, end, dist, closed, order, pred, names, retracer, route, total)
    requires retracer != start && retracer in pred
    requires seg.start == pred[retracer] && seg.end == retracer && (seg.start, retracer) in names
    requires seg.name == names[(seg.start, retracer)]
    ensures Retracing(S, start, end, dist, closed, order, pred, names, seg.start, [seg] + route, total + dist(seg.start, seg.end))
    ensures Rank(order, start, seg.start) < Rank(order, start, retracer)
  {
    assert ([seg] + route)[1..] == route;
  }

  /**
   * generatePointToPointRoute.  route is cleared first; BAD_COORD when the
   * start or the goal has no stored segments; DELIVERY_SUCCESS with a route
   * of stored segments from start to end and its length as the total; or
   * NO_ROUTE, which happens only when no such route exists.  The total is
   * written on success only.
   */
  method GeneratePointToPointRoute(sm: StreetMap, strHash: string -> nat, dist: (GeoCoord, GeoCoord) -> real,
                                   start: GeoCoord, end: GeoCoord, totalIn: real)
    returns (result: DeliveryResult, route: seq<StreetSegment>, total: real)
    requires sm.Valid()
    ensures sm.Valid()
    ensures result == BadCoord <==> SegmentsAt(sm.Segs(), start) == [] || SegmentsAt(sm.Segs(), end) == []
    ensures result != DeliverySuccess ==> route == [] && total == totalIn
    ensures result == DeliverySuccess ==> IsRoute(sm.Segs(), start, end, route) && total == PathLength(dist, route)
    ensures result == NoRoute ==> forall r :: !IsRoute(sm.Segs(), start, end, r)
    ensures start == end && result != BadCoord ==> result == DeliverySuccess && route == [] && total == 0.0
  {
    route := [];
    total := totalIn;
    ghost var S := sm.Segs();
    var _, temp := sm.GetSegmentsThatStartWith(start, []);
    var _, temp2 := sm.GetSegmentsThatStartWith(end, []);
    if |temp| == 0 || |temp2| == 0 {
      return BadCoord, route, total;
    }
    var path := new ExpandableHashMap<GeoCoord, GeoCoord>(0.5, (g: GeoCoord) => CoordHash(strHash, g));
    var pathNames := new ExpandableHashMap<(GeoCoord, GeoCoord), string>(0.5, (p: (GeoCoord, GeoCoord)) => CoordPairHash(strHash, p));
    var found, r, t := BestFirst(sm, path, pathNames, dist, start, end, S);
    assert unchanged(sm, sm.segMap);
    if found {
      return DeliverySuccess, r, t;
    }
    return NoRoute, route, total;
  }

  /** The street map and the two search maps are distinct objects. */
  predicate Apart(sm: StreetMap, path: ExpandableHashMap<GeoCoord, GeoCoord>, pathNames: ExpandableHashMap<(GeoCoord, GeoCoord), string>)
  {
    && sm as object != path && sm as object != pathNames
    && sm.segMap as object != path && sm.segMap as object != pathNames
  }

  /** The street map stands for S, and all three hash maps are valid. */
  ghost predicate Maps(sm: StreetMap, path: ExpandableHashMap<GeoCoord, GeoCoord>,
                       pathNames: ExpandableHashMap<(GeoCoord, GeoCoord), string>, S: SegmentIndex)
    reads sm, sm.segMap, path, pathNames
  {
    sm.Valid() && S == sm.Segs() && path.Valid() && pathNames.Valid()
  }

  /**
   * The search proper, from a start and a goal that both have segments:
   * the queue starts with the start at key 0; the loop runs until the goal
   * is popped or the queue is empty.
   */
  method BestFirst(sm: StreetMap, path: ExpandableHashMap<GeoCoord, GeoCoord>,
                   pathNames: ExpandableHashMap<(GeoCoord, GeoCoord), string>, dist: (GeoCoord, GeoCoord) -> real,
                   start: GeoCoord, end: GeoCoord, ghost S: SegmentIndex)
    returns (found: bool, route: seq<StreetSegment>, total: real)
    requires Apart(sm, path, pathNames) && Maps(sm, path, pathNames, S)
    requires path.Contents == map[] && pathNames.Contents == map[]
    modifies path, pathNames
    ensures found ==> IsRoute(S, start, end, route) && total == PathLength(dist, route)
    ensures !found ==> forall r :: !IsRoute(S, start, end, r)
    ensures start == end ==> found && route == [] && total == 0.0
  {
    var closed: set<GeoCoord> := {};
    var queue: multiset<Node> := multiset{(0.0, start)};
    ghost var expanded: set<GeoCoord> := {};
    ghost var order: map<GeoCoord, nat> := map[];
    ghost var ends := AllEnds(S);
    SearchStarts(S, start, end, dist, ends);
    while |queue| > 0
      invariant Maps(sm, path, pathNames, S)
      invariant Searching(S, start, end, dist, ends, closed, queue, order, expanded, path.Contents, pathNames.Contents)
      decreases |ends - closed|, |queue|
    {
      found, route, total, closed, queue, order, expanded := Search(sm, path, pathNames, S, start, end, dist, ends,
                                                                    closed, queue, order, expanded);
      if found {
        return;
      }
    }
    ExhaustedMeansNoRoute(S, start, end, dist, closed, expanded);
    return false, [], 0.0;
  }

  /**
   * One iteration of the search loop: pop an entry of least distance to the
   * goal; if it is the goal, rebuild the route; otherwise expand it.
   */
  method Search(sm: StreetMap, path: ExpandableHashMap<GeoCoord, GeoCoord>, pathNames: ExpandableHashMap<(GeoCoord, GeoCoord), string>,
                ghost S: SegmentIndex, start: GeoCoord, end: GeoCoord, dist: (GeoCoord, GeoCoord) -> real,
                ghost ends: set<GeoCoord>,
                closedIn: set<GeoCoord>, queueIn: multiset<Node>, ghost orderIn: map<GeoCoord, nat>, ghost expandedIn: set<GeoCoord>)
    returns (found: bool, route: seq<StreetSegment>, total: real,
             closed: set<GeoCoord>, queue: multiset<Node>, ghost order: map<GeoCoord, nat>, ghost expanded: set<GeoCoord>)
    requires Maps(sm, path, pathNames, S) && ends == AllEnds(S)
    requires Searching(S, start, end, dist, ends, closedIn, queueIn, orderIn, expandedIn, path.Contents, pathNames.Contents)
    requires |queueIn| > 0
    requires Apart(sm, path, pathNames)
    modifies path, pathNames
    ensures Maps(sm, path, pathNames, S)
    ensures found ==> IsRoute(S, start, end, route) && total == PathLength(dist, route)
    ensures found && start == end ==> route == [] && total == 0.0
    ensures !found ==> Searching(S, start, end, dist, ends, closed, queue, order, expanded, path.Contents, pathNames.Contents)
    ensures !found ==> |ends - closed| < |ends - closedIn| || (|ends - closed| == |ends - closedIn| && |queue| < |queueIn|)
  {
    MinExists(queueIn);
    var top :| top in queueIn && IsMin(queueIn, top);
    var current := top.1;
    queue := queueIn - multiset{top};
    if current == end {
      route, total := Retrace(path, pathNames, S, start, end, dist, closedIn, orderIn);
      return true, route, total, closedIn, queue, orderIn, expandedIn;
    }
    found, route, total := false, [], 0.0;
    closed, queue, order, expanded := Expand(sm, path, pathNames, S, start, end, dist, ends, top, queueIn,
                                             closedIn, queue, orderIn, expandedIn);
  }

  /**
   * One iteration of the search loop after popping top (not the goal): look
   * up the segments leaving the popped coordinate and discover their ends.
   * Either the set of coordinates left open shrinks, or nothing is closed and
   * the queue is the popped one.
   */
  method Expand(sm: StreetMap, path: ExpandableHashMap<GeoCoord, GeoCoord>, pathNames: ExpandableHashMap<(GeoCoord, GeoCoord), string>,
                ghost S: SegmentIndex, start: GeoCoord, end: GeoCoord, dist: (GeoCoord, GeoCoord) -> real,
                ghost ends: set<GeoCoord>, top: Node, ghost popped: multiset<Node>,
                closedIn: set<GeoCoord>, queueIn: multiset<Node>, ghost orderIn: map<GeoCoord, nat>, ghost expandedIn: set<GeoCoord>)
    returns (closed: set<GeoCoord>, queue: multiset<Node>, ghost order: map<GeoCoord, nat>, ghost expanded: set<GeoCoord>)
    requires Maps(sm, path, pathNames, S) && ends == AllEnds(S)
    requires top in popped && queueIn == popped - multiset{top} && top.1 != end
    requires Tree(S, start, closedIn, orderIn, path.Contents, pathNames.Contents)
    requires Frontier(S, start, end, dist, closedIn, popped, expandedIn)
    requires closedIn <= ends
    requires Apart(sm, path, pathNames)
    modifies path, pathNames
    ensures Maps(sm, path, pathNames, S)
    ensures Tree(S, start, closed, order, path.Contents, pathNames.Contents)
    ensures Frontier(S, start, end, dist, closed, queue, expanded)
    ensures closed <= ends
    ensures |ends - closed| < |ends - closedIn| || (closed == closedIn && queue == queueIn)
  {
    var current := top.1;
    var _, neighbours := sm.GetSegmentsThatStartWith(current, []);
    assert neighbours == SegmentsAt(S, current);
    ghost var added;
    closed, queue, order, added := Discover(sm, path, pathNames, S, start, end, dist, current, neighbours,
                                            closedIn, queueIn, orderIn);
    expanded := expandedIn + {current};
    Expanded(S, start, end, dist, ends, current, closedIn, queueIn, top, popped, expandedIn, added, closed, queue,
             order, path.Contents, pathNames.Contents);
  }

  /** The value-level effect of one expansion: the loop state holds again, and the search made progress. */
  lemma Expanded(S: SegmentIndex, start: GeoCoord, end: GeoCoord, dist: (GeoCoord, GeoCoord) -> real, ends: set<GeoCoord>,
                 current: GeoCoord, closedIn: set<GeoCoord>, queueIn: multiset<Node>, top: Node, popped: multiset<Node>,
                 expandedIn: set<GeoCoord>, added: seq<GeoCoord>, closed: set<GeoCoord>, queue: multiset<Node>,
                 order: map<GeoCoord, nat>, pred: map<GeoCoord, GeoCoord>, names: map<(GeoCoord, GeoCoord), string>)
    requires ends == AllEnds(S) && closedIn <= ends
    requires Frontier(S, start, end, dist, closedIn, popped, expandedIn)
    requires top in popped && queueIn == popped - multiset{top} && top.1 == current && current != end
    requires Expanding(S, start, end, dist, current, SegmentsAt(S, current), |SegmentsAt(S, current)|, closedIn, queueIn,
                       closed, queue, order, added, pred, names)
    ensures Tree(S, start, closed, order, pred, names)
    ensures Frontier(S, start, end, dist, closed, queue, expandedIn + {current})
    ensures closed <= ends
    ensures |ends - closed| < |ends - closedIn| || (closed == closedIn && queue == queueIn)
  {
    ExpandKeepsFrontier(S, start, end, dist, current, closedIn, queueIn, top, popped, expandedIn, added, closed, queue);
    OpenShrinks(ends, closedIn, closed);
    if |added| > 0 {
      assert added[0] in closed && added[0] !in closedIn;
    }
  }

  /** The neighbour loop, seen from the search: the street map is left as it was. */
  method Discover(sm: StreetMap, path: ExpandableHashMap<GeoCoord, GeoCoord>, pathNames: ExpandableHashMap<(GeoCoord, GeoCoord), string>,
                  ghost S: SegmentIndex, start: GeoCoord, end: GeoCoord, dist: (GeoCoord, GeoCoord) -> real,
                  current: GeoCoord, neighbours: seq<StreetSegment>,
                  closed0: set<GeoCoord>, queue0: multiset<Node>, ghost order0: map<GeoCoord, nat>)
    returns (closed: set<GeoCoord>, queue: multiset<Node>, ghost order: map<GeoCoord, nat>, ghost added: seq<GeoCoord>)
    requires Maps(sm, path, pathNames, S) && Apart(sm, path, pathNames)
    requires neighbours == SegmentsAt(S, current)
    requires current == start || current in closed0
    requires Tree(S, start, closed0, order0, path.Contents, pathNames.Contents)
    modifies path, pathNames
    ensures Maps(sm, path, pathNames, S)
    ensures Expanding(S, start, end, dist, current, neighbours, |neighbours|, closed0, queue0,
                      closed, queue, order, added, path.Contents, pathNames.Contents)
  {
    closed, queue, order, added := ExpandNeighbours(path, pathNames, S, start, end, dist, current, neighbours,
                                                    closed0, queue0, order0);
    assert unchanged(sm, sm.segMap);
  }

  /**
   * The frontier after one pop and one expansion: the coordinates closed by
   * the expansion are queued, and the popped coordinate counts as expanded.
   */
  lemma ExpandKeepsFrontier(S: SegmentIndex, start: GeoCoord, end: GeoCoord, dist: (GeoCoord, GeoCoord) -> real,
                            current: GeoCoord, closed0: set<GeoCoord>, queue0: multiset<Node>, top: Node, q1: multiset<Node>,
                            expanded: set<GeoCoord>, added: seq<GeoCoord>, closed: set<GeoCoord>, queue: multiset<Node>)
    requires Frontier(S, start, end, dist, closed0, q1, expanded)
    requires top in q1 && queue0 == q1 - multiset{top}
    requires top.1 == current && current != end
    requires Grown(S, end, dist, SegmentsAt(S, current), |SegmentsAt(S, current)|, closed0, queue0, closed, queue, added)
    ensures Frontier(S, start, end, dist, closed, queue, expanded + {current})
  {
    WaitingQueued(end, dist, top, q1, closed0, queue0, expanded, added, closed, queue);
    QueuedClosed(start, end, dist, q1, closed0, queue0, added, closed, queue);
    forall x, k | x in expanded + {current} && 0 <= k < |SegmentsAt(S, x)|
      ensures SegmentsAt(S, x)[k].end in closed
    {
      if x != current {
        assert SegmentsAt(S, x)[k].end in closed0;
      }
    }
  }

  /** After an expansion, every closed coordinate not yet expanded is still, or newly, queued. */
  lemma WaitingQueued(end: GeoCoord, dist: (GeoCoord, GeoCoord) -> real, top: Node, q1: multiset<Node>,
                      closed0: set<GeoCoord>, queue0: multiset<Node>, expanded: set<GeoCoord>,
                      added: seq<GeoCoord>, closed: set<GeoCoord>, queue: multiset<Node>)
    requires forall c :: c in closed0 && c !in expanded ==> (dist(c, end), c) in q1
    requires queue0 == q1 - multiset{top}
    requires queue == queue0 + Pushed(dist, end, added)
    requires forall c :: c in closed && c !in closed0 ==> c in added
    ensures forall c :: c in closed && c !in expanded + {top.1} ==> (dist(c, end), c) in queue
  {
    PushedEntries(dist, end, added);
    forall c | c in closed && c !in expanded + {top.1}
      ensures (dist(c, end), c) in queue
    {
      if c in closed0 {
        assert (dist(c, end), c) in q1;
        assert (dist(c, end), c) != top;
      } else {
        assert c in added;
      }
    }
  }

  /** After an expansion, only the start and closed coordinates are queued. */
  lemma QueuedClosed(start: GeoCoord, end: GeoCoord, dist: (GeoCoord, GeoCoord) -> real, q1: multiset<Node>,
                     closed0: set<GeoCoord>, queue0: multiset<Node>, added: seq<GeoCoord>,
                     closed: set<GeoCoord>, queue: multiset<Node>)
    requires forall q :: q in q1 ==> q.1 == start || q.1 in closed0
    requires queue0 <= q1 && closed0 <= closed
    requires queue == queue0 + Pushed(dist, end, added)
    requires forall c :: c in added ==> c in closed
    ensures forall q :: q in queue ==> q.1 == start || q.1 in closed
  {
    PushedEntries(dist, end, added);
    forall q | q in queue
      ensures q.1 == start || q.1 in closed
    {
      if q in queue0 {
        assert q in q1;
      } else {
        assert q in Pushed(dist, end, added);
      }
    }
  }

  /** A subset is no larger, and a proper subset is smaller. */
  lemma {:induction false} SubsetCard(a: set<GeoCoord>, b: set<GeoCoord>)
    requires a <= b
    ensures |a| <= |b|
    ensures a != b ==> |a| < |b|
    decreases |b|
  {
    if b != {} {
      var x :| x in b;
      SubsetCard(a - {x}, b - {x});
      if x in a {
        assert a == (a - {x}) + {x};
      } else {
        assert a - {x} == a;
      }
      assert b == (b - {x}) + {x};
    }
  }

  /** Closing more of a finite set leaves less of it open. */
  lemma OpenShrinks(E: set<GeoCoord>, a: set<GeoCoord>, b: set<GeoCoord>)
    requires a <= b
    ensures |E - b| <= |E - a|
    ensures b <= E && a != b ==> |E - b| < |E - a|
  {
    SubsetCard(E - b, E - a);
    if b <= E && a != b {
      var x :| x in b && x !in a;
      assert x in E - a && x !in E - b;
    }
  }
}
