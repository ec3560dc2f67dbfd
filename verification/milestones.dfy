/** The check of the milestone graph: declared dependencies, their edges, the
    absence of cycles, receipts for terminal milestones, and the chain of status
    events of every milestone. */
module Milestones {
  import opened Wrappers

  type Id = string

  datatype Milestone = Milestone(id: Id, status: string, dependencies: seq<Id>)

  datatype Edge = Edge(source: Id, target: Id)

  datatype Receipt = Receipt(milestone: Id, statusAfter: string)

  datatype Event = Event(id: string, milestone: Id, before: string, after: string)

  datatype Graph = Graph(
    schema: string,
    milestones: seq<Milestone>,
    edges: seq<Edge>,
    receipts: seq<Receipt>,
    events: seq<Event>)

  predicate ValidStatus(status: string) {
    status in {"proposed", "approved", "in_progress", "shadow", "authoritative", "blocked", "completed", "rejected",
               "superseded"}
  }

  predicate Terminal(status: string) {
    status in {"completed", "authoritative", "rejected", "superseded"}
  }

  // ----- what a valid graph is -----

  predicate Distinct<T(==)>(s: seq<T>) {
    forall i, j :: 0 <= i < j < |s| ==> s[i] != s[j]
  }

  function Ids(milestones: seq<Milestone>): set<Id> {
    set m | m in milestones :: m.id
  }

  /** Pairs of a milestone and one it depends on. */
  function Declared(milestones: seq<Milestone>): set<(Id, Id)> {
    set m, d | m in milestones && d in m.dependencies :: (m.id, d)
  }

  predicate ValidMilestones(milestones: seq<Milestone>) {
    && (forall m :: m in milestones ==> m.id != [] && ValidStatus(m.status))
    && (forall i, j :: 0 <= i < j < |milestones| ==> milestones[i].id != milestones[j].id)
  }

  predicate ValidDependencies(m: Milestone, nodes: set<Id>) {
    (forall d :: d in m.dependencies ==> d in nodes && d != m.id) && Distinct(m.dependencies)
  }

  predicate HasReceipt(m: Milestone, receipts: seq<Receipt>) {
    Terminal(m.status) ==> exists r :: r in receipts && r.milestone == m.id && r.statusAfter == m.status
  }

  predicate ValidEdges(edges: seq<Edge>, declared: set<(Id, Id)>) {
    && (forall e :: e in edges ==> e.source != [] && e.target != [])
    && Distinct(edges)
    && (set e | e in edges :: (e.source, e.target)) == declared
  }

  predicate Walk(path: seq<Id>, dependencies: set<(Id, Id)>) {
    forall k :: 0 <= k < |path| - 1 ==> (path[k], path[k + 1]) in dependencies
  }

  /** A walk along dependencies that comes back to where it started. */
  predicate Cycle(path: seq<Id>, dependencies: set<(Id, Id)>) {
    |path| >= 2 && path[0] == path[|path| - 1] && Walk(path, dependencies)
  }

  ghost predicate Acyclic(dependencies: set<(Id, Id)>) {
    forall path :: !Cycle(path, dependencies)
  }

  /** The status after the last event of a milestone, if it has one. */
  function Latest(events: seq<Event>, id: Id): Option<string> {
    if events == [] then None
    else if events[|events| - 1].milestone == id then Some(events[|events| - 1].after)
    else Latest(events[..|events| - 1], id)
  }

  function EventIds(events: seq<Event>): set<string> {
    set e | e in events :: e.id
  }

  predicate ValidEvent(e: Event, earlier: seq<Event>, nodes: set<Id>) {
    && e.id != [] && e.id !in EventIds(earlier)
    && e.milestone in nodes
    && ValidStatus(e.before) && ValidStatus(e.after)
    && (Latest(earlier, e.milestone).Some? ==> Latest(earlier, e.milestone).value == e.before)
  }

  predicate ValidEvents(events: seq<Event>, nodes: set<Id>) {
    forall k :: 0 <= k < |events| ==> ValidEvent(events[k], events[..k], nodes)
  }

  ghost predicate ValidGraph(g: Graph) {
    && g.schema == "1.0.0"
    && ValidMilestones(g.milestones)
    && (forall m :: m in g.milestones ==>
          ValidDependencies(m, Ids(g.milestones)) && HasReceipt(m, g.receipts)
          && Latest(g.events, m.id) == Some(m.status))
    && ValidEdges(g.edges, Declared(g.milestones))
    && Acyclic(Declared(g.milestones))
    && ValidEvents(g.events, Ids(g.milestones))
  }

  // ----- the visit loop -----

  /** Every node comes after all it depends on. */
  predicate Ranked(order: seq<Id>, dependencies: set<(Id, Id)>) {
    forall i, d :: 0 <= i < |order| && d in dependencies && d.0 == order[i] ==> d.1 in order[..i]
  }

  predicate Ready(id: Id, visited: set<Id>, dependencies: set<(Id, Id)>) {
    forall d :: d in dependencies && d.0 == id ==> d.1 in visited
  }

  lemma {:induction false} RankFalls(order: seq<Id>, dependencies: set<(Id, Id)>, path: seq<Id>, i: nat) returns (k: nat)
    requires Ranked(order, dependencies) && i < |order| && |path| >= 2 && order[i] == path[0]
    requires Walk(path, dependencies)
    ensures k < i && order[k] == path[|path| - 1]
    decreases |path|
  {
    var d := (path[0], path[1]);
    assert d in dependencies && d.1 in order[..i];
    k :| 0 <= k < i && order[k] == path[1];
    if |path| > 2 {
      k := RankFalls(order, dependencies, path[1..], k);
    }
  }

  /** The first place of a node that a ranking holds. */
  lemma FirstPlace(order: seq<Id>, id: Id) returns (i: nat)
    requires id in order
    ensures i < |order| && order[i] == id && id !in order[..i]
  {
    i := 0;
    while order[i] != id
      invariant i < |order| && id !in order[..i]
      decreases |order| - i
    {
      assert order[..i + 1] == order[..i] + [order[i]];
      i := i + 1;
    }
  }

  /** A ranking of all nodes leaves no room for a cycle. */
  lemma RankedIsAcyclic(order: seq<Id>, nodes: set<Id>, dependencies: set<(Id, Id)>)
    requires Ranked(order, dependencies) && (forall id :: id in nodes ==> id in order)
    requires forall d :: d in dependencies ==> d.0 in nodes
    ensures Acyclic(dependencies)
  {
    forall path ensures !Cycle(path, dependencies) {
      if Cycle(path, dependencies) {
        assert (path[0], path[1]) in dependencies;
        var i := FirstPlace(order, path[0]);
        var k := RankFalls(order, dependencies, path, i);
      }
    }
  }

  predicate LeadsInto(id: Id, inside: set<Id>, dependencies: set<(Id, Id)>) {
    exists next :: next in inside && (id, next) in dependencies
  }

  /** A walk of any length inside a set that every member leads back into. */
  lemma {:induction false} LongWalk(stuck: set<Id>, dependencies: set<(Id, Id)>, n: nat) returns (path: seq<Id>)
    requires stuck != {} && forall id :: id in stuck ==> LeadsInto(id, stuck, dependencies)
    ensures |path| == n + 1 && Walk(path, dependencies) && forall k :: 0 <= k < |path| ==> path[k] in stuck
  {
    if n == 0 {
      var id :| id in stuck;
      path := [id];
    } else {
      var front := LongWalk(stuck, dependencies, n - 1);
      assert LeadsInto(front[n - 1], stuck, dependencies);
      var next :| next in stuck && (front[n - 1], next) in dependencies;
      path := front + [next];
    }
  }

  lemma {:induction false} Pigeonhole(s: seq<Id>, holes: set<Id>) returns (i: nat, j: nat)
    requires |s| > |holes| && forall k :: 0 <= k < |s| ==> s[k] in holes
    ensures i < j < |s| && s[i] == s[j]
  {
    var last := |s| - 1;
    if k :| 0 <= k < last && s[k] == s[last] {
      i, j := k, last;
    } else {
      i, j := Pigeonhole(s[..last], holes - {s[last]});
    }
  }

  /** A set that every member leads back into holds a cycle. */
  lemma StuckHasCycle(stuck: set<Id>, dependencies: set<(Id, Id)>)
    requires stuck != {} && forall id :: id in stuck ==> LeadsInto(id, stuck, dependencies)
    ensures !Acyclic(dependencies)
  {
    hide LeadsInto;
    var path := LongWalk(stuck, dependencies, |stuck|);
    var i, j := Pigeonhole(path, stuck);
    var loop := path[i..j + 1];
    forall k | 0 <= k < |loop| - 1 ensures (loop[k], loop[k + 1]) in dependencies {
      assert loop[k] == path[i + k] && loop[k + 1] == path[i + k + 1];
    }
    assert Cycle(loop, dependencies);
  }

  lemma UnreadyLeads(id: Id, nodes: set<Id>, visited: set<Id>, dependencies: set<(Id, Id)>)
    requires forall d :: d in dependencies ==> d.0 in nodes && d.1 in nodes
    requires !Ready(id, visited, dependencies)
    ensures LeadsInto(id, nodes - visited, dependencies)
  {
    var d :| d in dependencies && d.0 == id && d.1 !in visited;
    assert (id, d.1) == d;
  }

  /** When no node outside the visited ones is ready, those nodes hold a cycle. */
  lemma UnreadyHasCycle(nodes: set<Id>, visited: set<Id>, dependencies: set<(Id, Id)>)
    requires visited <= nodes && visited != nodes
    requires forall d :: d in dependencies ==> d.0 in nodes && d.1 in nodes
    requires forall id :: id in nodes && Ready(id, visited, dependencies) ==> id in visited
    ensures !Acyclic(dependencies)
  {
    hide Acyclic, Ready, LeadsInto;
    var stuck := nodes - visited;
    assert nodes == visited + stuck;
    forall id | id in stuck ensures LeadsInto(id, stuck, dependencies) {
      UnreadyLeads(id, nodes, visited, dependencies);
    }
    StuckHasCycle(stuck, dependencies);
  }

  /** One pass over the nodes, in any order: visit each that is ready. */
  method Pass(nodes: set<Id>, dependencies: set<(Id, Id)>, seen: set<Id>, ghost before: seq<Id>)
    returns (visited: set<Id>, ghost order: seq<Id>)
    requires seen <= nodes && Ranked(before, dependencies) && (forall id :: id in seen <==> id in before)
    ensures seen <= visited <= nodes
    ensures Ranked(order, dependencies) && (forall id :: id in visited <==> id in order)
    ensures visited == seen ==> forall id :: id in nodes && Ready(id, visited, dependencies) ==> id in visited
  {
    visited, order := seen, before;
    var rest := nodes;
    while rest != {}
      invariant rest <= nodes && seen <= visited <= nodes
      invariant Ranked(order, dependencies) && (forall id :: id in visited <==> id in order)
      invariant visited == seen ==>
                  forall id :: id in nodes && id !in rest && Ready(id, visited, dependencies) ==> id in visited
      decreases rest
    {
      var id :| id in rest;
      rest := rest - {id};
      if forall d | d in dependencies :: d.0 == id ==> d.1 in visited {
        order := order + [id];
        assert forall i :: 0 <= i < |order| - 1 ==> order[..i] == order[..|order| - 1][..i];
        assert order[..|order| - 1] + [id] == order;
        visited := visited + {id};
      }
    }
  }

  /** Passes until nothing is added visit every node exactly when the dependencies
      have no cycle. */
  method VisitAll(nodes: set<Id>, dependencies: set<(Id, Id)>) returns (visited: set<Id>)
    requires forall d :: d in dependencies ==> d.0 in nodes && d.1 in nodes
    ensures visited <= nodes
    ensures visited == nodes <==> Acyclic(dependencies)
  {
    visited := {};
    ghost var order: seq<Id> := [];
    var growing := true;
    while growing
      invariant visited <= nodes
      invariant Ranked(order, dependencies) && (forall id :: id in visited <==> id in order)
      invariant !growing ==> forall id :: id in nodes && Ready(id, visited, dependencies) ==> id in visited
      decreases nodes - visited, growing
    {
      var before := visited;
      visited, order := Pass(nodes, dependencies, visited, order);
      growing := visited != before;
    }
    if visited == nodes {
      RankedIsAcyclic(order, nodes, dependencies);
    } else {
      UnreadyHasCycle(nodes, visited, dependencies);
    }
  }

  // ----- the whole check -----

  lemma MilestonesStep(front: seq<Milestone>, m: Milestone)
    ensures Ids(front + [m]) == Ids(front) + {m.id}
    ensures ValidMilestones(front + [m]) <==>
              ValidMilestones(front) && m.id != [] && ValidStatus(m.status) && m.id !in Ids(front)
  {
    hide ValidStatus;
    var all := front + [m];
    assert all[|front|] == m && forall k :: 0 <= k < |front| ==> all[k] == front[k];
    if m.id in Ids(front) {
      var earlier :| earlier in front && earlier.id == m.id;
      var k :| 0 <= k < |front| && front[k] == earlier;
      assert all[k].id == all[|front|].id;
    }
    assert forall x :: x in all <==> x in front || x == m;
  }

  lemma NoMilestones()
    ensures ValidMilestones([]) && Ids([]) == {}
  {
  }

  lemma PrefixIsValid(milestones: seq<Milestone>, i: nat)
    requires i <= |milestones| && ValidMilestones(milestones)
    ensures ValidMilestones(milestones[..i])
  {
    assert forall m :: m in milestones[..i] ==> m in milestones;
  }

  method CheckMilestones(milestones: seq<Milestone>) returns (ok: bool, nodes: set<Id>)
    ensures ok <==> ValidMilestones(milestones)
    ensures ok ==> nodes == Ids(milestones) && |nodes| == |milestones|
  {
    hide ValidMilestones, Ids, ValidStatus;
    nodes := {};
    NoMilestones();
    for i := 0 to |milestones|
      invariant ValidMilestones(milestones[..i]) && nodes == Ids(milestones[..i]) && |nodes| == i
    {
      var m := milestones[i];
      MilestonesStep(milestones[..i], m);
      assert milestones[..i + 1] == milestones[..i] + [m];
      if m.id == [] || !ValidStatus(m.status) || m.id in nodes {
        if ValidMilestones(milestones) {
          PrefixIsValid(milestones, i + 1);
        }
        return false, {};
      }
      nodes := nodes + {m.id};
    }
    assert milestones[..|milestones|] == milestones;
    return true, nodes;
  }

  method CheckDependencies(m: Milestone, nodes: set<Id>) returns (ok: bool)
    ensures ok <==> ValidDependencies(m, nodes)
  {
    var seen: set<Id> := {};
    for i := 0 to |m.dependencies|
      invariant forall k :: 0 <= k < i ==> m.dependencies[k] in nodes && m.dependencies[k] != m.id
      invariant Distinct(m.dependencies[..i])
      invariant forall d :: d in seen <==> d in m.dependencies[..i]
    {
      var d := m.dependencies[i];
      assert m.dependencies[..i + 1] == m.dependencies[..i] + [d];
      if d !in nodes || d == m.id {
        assert d in m.dependencies;
        return false;
      }
      if d in seen {
        var k :| 0 <= k < i && m.dependencies[..i][k] == d;
        assert m.dependencies[k] == m.dependencies[i];
        return false;
      }
      seen := seen + {d};
    }
    assert m.dependencies[..|m.dependencies|] == m.dependencies;
    return true;
  }

  function At(latest: map<Id, string>, id: Id): Option<string> {
    if id in latest then Some(latest[id]) else None
  }

  ghost predicate Tracks(latest: map<Id, string>, events: seq<Event>) {
    forall id :: At(latest, id) == Latest(events, id)
  }

  lemma TracksNext(latest: map<Id, string>, events: seq<Event>, e: Event)
    requires Tracks(latest, events)
    ensures Tracks(latest[e.milestone := e.after], events + [e])
  {
    assert (events + [e])[..|events|] == events;
    forall id ensures At(latest[e.milestone := e.after], id) == Latest(events + [e], id) {
      assert At(latest, id) == Latest(events, id);
    }
  }

  method CheckEvents(events: seq<Event>, nodes: set<Id>) returns (ok: bool, latest: map<Id, string>)
    ensures ok <==> ValidEvents(events, nodes)
    ensures ok ==> Tracks(latest, events)
  {
    hide ValidStatus, Latest;
    var seen: set<string> := {};
    latest := map[];
    EmptyTracks();
    for i := 0 to |events|
      invariant forall k :: 0 <= k < i ==> ValidEvent(events[k], events[..k], nodes)
      invariant seen == EventIds(events[..i])
      invariant Tracks(latest, events[..i])
    {
      var e := events[i];
      assert events[..i + 1] == events[..i] + [e];
      assert At(latest, e.milestone) == Latest(events[..i], e.milestone);
      if e.id == [] || e.id in seen || e.milestone !in nodes || !ValidStatus(e.before) || !ValidStatus(e.after)
         || (e.milestone in latest && latest[e.milestone] != e.before) {
        assert !ValidEvent(events[i], events[..i], nodes);
        return false, map[];
      }
      assert EventIds(events[..i + 1]) == seen + {e.id};
      seen := seen + {e.id};
      TracksNext(latest, events[..i], e);
      latest := latest[e.milestone := e.after];
    }
    assert events[..|events|] == events;
    return true, latest;
  }

  lemma EmptyTracks()
    ensures Tracks(map[], [])
  {
  }

  method CheckEdges(edges: seq<Edge>, declared: set<(Id, Id)>) returns (ok: bool)
    ensures ok <==> ValidEdges(edges, declared)
  {
    var pairs: set<(Id, Id)> := {};
    for i := 0 to |edges|
      invariant forall k :: 0 <= k < i ==> edges[k].source != [] && edges[k].target != []
      invariant Distinct(edges[..i])
      invariant pairs == set e | e in edges[..i] :: (e.source, e.target)
    {
      var e := edges[i];
      assert edges[..i + 1] == edges[..i] + [e];
      if e.source == [] || e.target == [] {
        assert e in edges;
        return false;
      }
      if (e.source, e.target) in pairs {
        assert e in edges[..i];
        var k :| 0 <= k < i && edges[..i][k] == e;
        assert edges[k] == edges[i];
        return false;
      }
      pairs := pairs + {(e.source, e.target)};
    }
    assert edges[..|edges|] == edges;
    return pairs == declared;
  }

  predicate Receipted(m: Milestone, receipts: seq<Receipt>) {
    exists r :: r in receipts && r.milestone == m.id && r.statusAfter == m.status
  }

  /** A valid graph knows nine statuses, and a milestone in one of four that end it has
      a receipt. Other receipts do not matter: with any other receipts the graph is
      valid exactly when those milestones have theirs. */
  lemma ReceiptsDecide(g: Graph, receipts: seq<Receipt>)
    requires ValidGraph(g)
    ensures forall m :: m in g.milestones ==>
              m.status in {"proposed", "approved", "in_progress", "shadow", "blocked"}
              || (m.status in {"completed", "authoritative", "rejected", "superseded"} && Receipted(m, g.receipts))
    ensures ValidGraph(g.(receipts := receipts)) <==>
              forall m :: m in g.milestones && m.status in {"completed", "authoritative", "rejected", "superseded"} ==>
                Receipted(m, receipts)
  {
    hide Acyclic, ValidDependencies, ValidEdges, ValidEvents, Latest, Declared;
  }

  /** The number of milestones, exactly when the graph is valid. */
  method ValidateGraph(g: Graph) returns (visited: Option<nat>)
    ensures visited == if ValidGraph(g) then Some(|g.milestones|) else None
    ensures visited.Some? ==>
              forall m :: m in g.milestones && m.status in {"completed", "authoritative", "rejected", "superseded"} ==>
                Receipted(m, g.receipts)
  {
    hide Acyclic, ValidMilestones, ValidDependencies, ValidEdges, ValidEvents, HasReceipt;
    if g.schema != "1.0.0" {
      return None;
    }
    var ok, nodes := CheckMilestones(g.milestones);
    if !ok {
      return None;
    }
    for i := 0 to |g.milestones|
      invariant forall k :: 0 <= k < i ==>
                  ValidDependencies(g.milestones[k], nodes) && HasReceipt(g.milestones[k], g.receipts)
    {
      ok := CheckDependencies(g.milestones[i], nodes);
      if !ok || !HasReceipt(g.milestones[i], g.receipts) {
        assert g.milestones[i] in g.milestones;
        return None;
      }
    }
    var declared := Declared(g.milestones);
    ok := CheckEdges(g.edges, declared);
    if !ok {
      return None;
    }
    DeclaredAreNodes(g.milestones, nodes);
    var seen := VisitAll(nodes, declared);
    if seen != nodes {
      return None;
    }
    var latest;
    ok, latest := CheckEvents(g.events, nodes);
    if !ok {
      return None;
    }
    for i := 0 to |g.milestones|
      invariant forall k :: 0 <= k < i ==> Latest(g.events, g.milestones[k].id) == Some(g.milestones[k].status)
    {
      var m := g.milestones[i];
      assert At(latest, m.id) == Latest(g.events, m.id);
      if m.id !in latest || latest[m.id] != m.status {
        assert m in g.milestones;
        return None;
      }
    }
    ReceiptsDecide(g, g.receipts);
    return Some(|seen|);
  }

  lemma DeclaredAreNodes(milestones: seq<Milestone>, nodes: set<Id>)
    requires nodes == Ids(milestones) && forall k :: 0 <= k < |milestones| ==> ValidDependencies(milestones[k], nodes)
    ensures forall d :: d in Declared(milestones) ==> d.0 in nodes && d.1 in nodes
  {
  }

  // ----- what the checks mean -----

  predicate KnownEvent(milestones: seq<Milestone>, e: Event) {
    && (exists m :: m in milestones && m.id == e.milestone)
    && {e.before, e.after}
       <= {"proposed", "approved", "in_progress", "shadow", "authoritative", "blocked", "completed", "rejected",
           "superseded"}
  }

  /** In a valid graph an edge leads from a milestone to exactly those it depends on,
      which are other milestones, and every event has its own identifier and speaks
      of a known milestone and known statuses. */
  lemma ValidGraphMeans(g: Graph)
    requires ValidGraph(g)
    ensures forall source, target ::
              Edge(source, target) in g.edges <==>
              exists m :: m in g.milestones && m.id == source && target in m.dependencies
    ensures forall e :: e in g.edges ==> e.source != e.target && exists m :: m in g.milestones && m.id == e.target
    ensures forall i, j :: 0 <= i < j < |g.events| ==> g.events[i].id != g.events[j].id
    ensures forall i :: 0 <= i < |g.events| ==> KnownEvent(g.milestones, g.events[i])
  {
    hide Latest, Acyclic, HasReceipt, ValidMilestones, ValidDependencies, ValidEdges, ValidEvents, Declared, ValidStatus, Ids;
    forall source, target
      ensures Edge(source, target) in g.edges <==>
              exists m :: m in g.milestones && m.id == source && target in m.dependencies
    {
      EdgeMeans(g.milestones, g.edges, source, target);
    }
    forall e | e in g.edges
      ensures e.source != e.target && exists m :: m in g.milestones && m.id == e.target
    {
      assert Edge(e.source, e.target) == e;
      var m :| m in g.milestones && m.id == e.source && e.target in m.dependencies;
      DependencyMeans(g.milestones, m, e.target);
    }
    forall i | 0 <= i < |g.events|
      ensures KnownEvent(g.milestones, g.events[i])
    {
      EventMeans(g.events, g.milestones, i);
    }
    forall i, j | 0 <= i < j < |g.events| ensures g.events[i].id != g.events[j].id {
      EventsDiffer(g.events, Ids(g.milestones), i, j);
    }
  }

  lemma EdgeMeans(milestones: seq<Milestone>, edges: seq<Edge>, source: Id, target: Id)
    requires ValidEdges(edges, Declared(milestones))
    ensures Edge(source, target) in edges <==>
              exists m :: m in milestones && m.id == source && target in m.dependencies
  {
    var pairs := set e | e in edges :: (e.source, e.target);
    if Edge(source, target) in edges {
      var e := Edge(source, target);
      assert e in edges && (e.source, e.target) in pairs;
      assert (source, target) in Declared(milestones);
    }
    if m :| m in milestones && m.id == source && target in m.dependencies {
      assert (m.id, target) in Declared(milestones);
      assert (source, target) in pairs;
    }
  }

  lemma DependencyMeans(milestones: seq<Milestone>, m: Milestone, d: Id)
    requires ValidDependencies(m, Ids(milestones)) && d in m.dependencies
    ensures d != m.id && exists other :: other in milestones && other.id == d
  {
  }

  lemma EventMeans(events: seq<Event>, milestones: seq<Milestone>, i: nat)
    requires ValidEvents(events, Ids(milestones)) && i < |events|
    ensures KnownEvent(milestones, events[i])
  {
    hide Latest;
    assert ValidEvent(events[i], events[..i], Ids(milestones));
  }

  lemma EventsDiffer(events: seq<Event>, nodes: set<Id>, i: nat, j: nat)
    requires ValidEvents(events, nodes) && i < j < |events|
    ensures events[i].id != events[j].id
  {
    hide Latest, ValidStatus;
    assert ValidEvent(events[j], events[..j], nodes);
    assert events[..j][i] == events[i];
  }

  // ----- what the event check means -----

  /** Events `i` and `j` are consecutive ones of the same milestone. */
  predicate Consecutive(events: seq<Event>, i: nat, j: nat)
    requires i < j < |events|
  {
    && events[i].milestone == events[j].milestone
    && forall k :: i < k < j ==> events[k].milestone != events[j].milestone
  }

  lemma {:induction false} LatestIsPrevious(events: seq<Event>, i: nat, j: nat)
    requires i < j <= |events|
    requires forall k :: i < k < j ==> events[k].milestone != events[i].milestone
    ensures Latest(events[..j], events[i].milestone) == Some(events[i].after)
    decreases j
  {
    assert events[..j][..j - 1] == events[..j - 1];
    if i < j - 1 {
      LatestIsPrevious(events, i, j - 1);
    }
  }

  /** In a valid graph each milestone's events form one chain: every event starts
      from the status its predecessor left, and the last leaves the current one. */
  lemma EventsFormChains(g: Graph, i: nat)
    requires ValidGraph(g) && i < |g.events|
    ensures forall j :: i < j < |g.events| && Consecutive(g.events, i, j) ==> g.events[i].after == g.events[j].before
    ensures (forall j :: i < j < |g.events| ==> g.events[j].milestone != g.events[i].milestone) ==>
              forall m :: m in g.milestones && m.id == g.events[i].milestone ==> m.status == g.events[i].after
  {
    hide Latest, ValidMilestones, ValidEdges, Acyclic, ValidDependencies, HasReceipt;
    forall j | i < j < |g.events| && Consecutive(g.events, i, j) ensures g.events[i].after == g.events[j].before {
      LatestIsPrevious(g.events, i, j);
      assert ValidEvent(g.events[j], g.events[..j], Ids(g.milestones));
    }
    if forall j :: i < j < |g.events| ==> g.events[j].milestone != g.events[i].milestone {
      LatestIsPrevious(g.events, i, |g.events|);
      assert g.events[..|g.events|] == g.events;
    }
  }
}
