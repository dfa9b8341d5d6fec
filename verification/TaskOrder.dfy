/** The dependency order in which tasks are drawn: a depth-first walk that stays safe on
    cyclic graphs. */
module TaskOrder {
  import opened Ordering

  datatype Task = Task(id: string, createdAt: string, dependsOn: seq<string>)

  function KeyOf(t: Task): Key {
    Key(t.createdAt, t.id)
  }

  type Graph = map<string, Task>

  ghost predicate WellKeyed(g: Graph) {
    forall id | id in g :: g[id].id == id
  }

  predicate UniqueIds(tasks: seq<Task>) {
    forall i, j | 0 <= i < j < |tasks| :: tasks[i].id != tasks[j].id
  }

  function ById(tasks: seq<Task>): (g: Graph)
    ensures WellKeyed(g)
    ensures forall t | t in tasks :: t.id in g
    ensures forall id | id in g :: g[id] in tasks
  {
    if tasks == [] then map[]
    else
      var n := |tasks| - 1;
      assert tasks == tasks[..n] + [tasks[n]];
      ById(tasks[..n])[tasks[n].id := tasks[n]]
  }

  // ------------------------------------------------------------------ the walk

  /** `done` and `out` as the walk leaves them; the stack is restored by every visit. */
  datatype Walk = Walk(done: set<string>, out: seq<Task>)

  function Visit(g: Graph, id: string, onStack: set<string>, w: Walk): Walk
    requires id in g
    decreases g.Keys - onStack, 0
  {
    if id in w.done || id in onStack then w
    else
      assert id in g.Keys - onStack && id !in g.Keys - (onStack + {id});
      var w' := VisitAll(g, g[id].dependsOn, onStack + {id}, w);
      Walk(w'.done + {id}, w'.out + [g[id]])
  }

  function VisitAll(g: Graph, ids: seq<string>, onStack: set<string>, w: Walk): Walk
    decreases g.Keys - onStack, |ids|
  {
    if ids == [] then w
    else VisitAll(g, ids[1..], onStack, if ids[0] in g then Visit(g, ids[0], onStack, w) else w)
  }

  function IdsOf(tasks: seq<Task>): seq<string> {
    seq(|tasks|, i requires 0 <= i < |tasks| => tasks[i].id)
  }

  function TopoOrder(tasks: seq<Task>): seq<Task> {
    VisitAll(ById(tasks), IdsOf(Sort(KeyOf, tasks)), {}, Walk({}, [])).out
  }

  // ------------------------------------------------------------- reachability

  /** Each element but the first is a dependency of the one before it. */
  ghost predicate IsPath(g: Graph, p: seq<string>) {
    |p| >= 2 && forall i | 0 <= i < |p| - 1 :: p[i] in g && p[i + 1] in g[p[i]].dependsOn
  }

  /** `a` depends on `b`, directly or transitively. */
  ghost predicate Reaches(g: Graph, a: string, b: string) {
    exists p :: IsPath(g, p) && p[0] == a && p[|p| - 1] == b
  }

  lemma EdgeReaches(g: Graph, a: string, b: string)
    requires a in g && b in g[a].dependsOn
    ensures Reaches(g, a, b)
  {
    var p := [a, b];
    assert IsPath(g, p) && p[0] == a && p[|p| - 1] == b;
  }

  lemma ReachesIsTransitive(g: Graph, a: string, b: string, d: string)
    requires Reaches(g, a, b) && Reaches(g, b, d)
    ensures Reaches(g, a, d)
  {
    var p :| IsPath(g, p) && p[0] == a && p[|p| - 1] == b;
    var q :| IsPath(g, q) && q[0] == b && q[|q| - 1] == d;
    var r := p + q[1..];
    forall i | 0 <= i < |r| - 1 ensures r[i] in g && r[i + 1] in g[r[i]].dependsOn {
      if i >= |p| - 1 {
        assert r[i] == q[i - (|p| - 1)] && r[i + 1] == q[i - (|p| - 1) + 1];
      }
    }
    assert IsPath(g, r) && r[0] == a && r[|r| - 1] == d;
  }

  // ---------------------------------------------------------- what the walk keeps

  ghost predicate PlacedBefore(out: seq<Task>, i: int, id: string)
    requires 0 <= i <= |out|
  {
    exists j | 0 <= j < i :: out[j].id == id
  }

  /** Every dependency of a placed task is placed before it, or depends on it in turn. */
  ghost predicate EdgesRespected(g: Graph, out: seq<Task>) {
    forall i, dep | 0 <= i < |out| && dep in out[i].dependsOn && dep in g ::
      PlacedBefore(out, i, dep) || Reaches(g, dep, out[i].id)
  }

  ghost predicate Good(g: Graph, onStack: set<string>, w: Walk) {
    && WellKeyed(g)
    && (forall i | 0 <= i < |w.out| :: w.out[i].id in g && w.out[i] == g[w.out[i].id])
    && UniqueIds(w.out)
    && (forall id :: id in w.done <==> PlacedBefore(w.out, |w.out|, id))
    && w.done !! onStack
    && EdgesRespected(g, w.out)
  }

  /** Everything on the stack depends on what is being visited. */
  ghost predicate StackReaches(g: Graph, onStack: set<string>, id: string) {
    forall y | y in onStack :: Reaches(g, y, id)
  }

  /** A visit only adds to the walk, and only what `id` depends on, or `id`. */
  ghost predicate Extends(g: Graph, w: Walk, w': Walk) {
    w.done <= w'.done && w.out <= w'.out
  }

  lemma {:induction false} VisitIsGood(g: Graph, id: string, onStack: set<string>, w: Walk)
    requires id in g && Good(g, onStack, w) && StackReaches(g, onStack, id)
    ensures var w' := Visit(g, id, onStack, w);
            && Good(g, onStack, w') && Extends(g, w, w')
            && (id in w'.done || id in onStack)
            && forall i | |w.out| <= i < |w'.out| ::
                 w'.out[i].id == id || Reaches(g, id, w'.out[i].id)
    decreases g.Keys - onStack, 0
  {
    if id !in w.done && id !in onStack {
      assert id in g.Keys - onStack && id !in g.Keys - (onStack + {id});
      var deps := g[id].dependsOn;
      var mid := VisitAll(g, deps, onStack + {id}, w);
      VisitAllIsGood(g, id, deps, onStack + {id}, w);
      PlaceIsGood(g, id, onStack, mid);
    }
  }

  /** Placing `id` once all its dependencies are placed or wait on the stack. */
  lemma PlaceIsGood(g: Graph, id: string, onStack: set<string>, w: Walk)
    requires id in g && id !in onStack && Good(g, onStack + {id}, w)
    requires StackReaches(g, onStack, id)
    requires forall dep | dep in g[id].dependsOn && dep in g :: dep in w.done || dep in onStack + {id}
    ensures Good(g, onStack, Walk(w.done + {id}, w.out + [g[id]]))
  {
    var out := w.out + [g[id]];
    assert id !in w.done;
    forall i, dep | 0 <= i < |out| && dep in out[i].dependsOn && dep in g
      ensures PlacedBefore(out, i, dep) || Reaches(g, dep, out[i].id)
    {
      if i < |w.out| {
        if PlacedBefore(w.out, i, dep) {
          var j :| 0 <= j < i && w.out[j].id == dep;
          assert out[j].id == dep;
        }
      } else if dep in w.done {
        var j :| 0 <= j < |w.out| && w.out[j].id == dep;
        assert out[j].id == dep;
      } else if dep == id {
        EdgeReaches(g, id, dep);
      }
    }
    forall x ensures x in w.done + {id} <==> PlacedBefore(out, |out|, x) {
      if x in w.done {
        var j :| 0 <= j < |w.out| && w.out[j].id == x;
        assert out[j].id == x;
      }
      assert out[|w.out|].id == id;
    }
  }

  lemma {:induction false} VisitAllIsGood(g: Graph, id: string, deps: seq<string>,
                                          onStack: set<string>, w: Walk)
    requires id in g && id in onStack && Good(g, onStack, w)
    requires StackReaches(g, onStack - {id}, id)
    requires forall dep | dep in deps :: dep in g[id].dependsOn
    ensures var w' := VisitAll(g, deps, onStack, w);
            && Good(g, onStack, w') && Extends(g, w, w')
            && (forall dep | dep in deps && dep in g :: dep in w'.done || dep in onStack)
            && forall i | |w.out| <= i < |w'.out| :: Reaches(g, id, w'.out[i].id)
    decreases g.Keys - onStack, |deps|
  {
    if deps != [] {
      var dep := deps[0];
      if dep in g {
        forall y | y in onStack ensures Reaches(g, y, dep) {
          EdgeReaches(g, id, dep);
          if y != id { ReachesIsTransitive(g, y, id, dep); }
        }
        VisitIsGood(g, dep, onStack, w);
        var mid := Visit(g, dep, onStack, w);
        forall i | |w.out| <= i < |mid.out| ensures Reaches(g, id, mid.out[i].id) {
          EdgeReaches(g, id, dep);
          if mid.out[i].id != dep { ReachesIsTransitive(g, id, dep, mid.out[i].id); }
        }
        VisitAllIsGood(g, id, deps[1..], onStack, mid);
      } else {
        VisitAllIsGood(g, id, deps[1..], onStack, w);
      }
      assert forall d | d in deps :: d == dep || d in deps[1..];
    }
  }

  /** The outer loop over the sorted tasks. */
  ghost predicate NeededBy(g: Graph, roots: seq<string>, id: string) {
    exists r | r in roots :: r == id || Reaches(g, r, id)
  }

  lemma {:induction false} RootsAreGood(g: Graph, roots: seq<string>)
    requires WellKeyed(g) && forall r | r in roots :: r in g
    ensures var w := VisitAll(g, roots, {}, Walk({}, []));
            && Good(g, {}, w)
            && (forall r | r in roots :: r in w.done)
            && (forall x | x in w.done :: NeededBy(g, roots, x))
    decreases |roots|
  {
    if roots != [] {
      var n := |roots| - 1;
      var before, last := roots[..n], roots[n];
      RootsAreGood(g, before);
      var w := VisitAll(g, before, {}, Walk({}, []));
      assert roots == before + [last];
      VisitAllSnoc(g, before, last, {}, Walk({}, []));
      VisitIsGood(g, last, {}, w);
      var w' := Visit(g, last, {}, w);
      forall x | x in w'.done ensures NeededBy(g, roots, x) {
        var i :| 0 <= i < |w'.out| && w'.out[i].id == x;
        if i < |w.out| {
          assert PlacedBefore(w.out, |w.out|, x) by { assert w.out[i].id == x; }
          assert NeededBy(g, before, x);
          var r :| r in before && (r == x || Reaches(g, r, x));
          assert r in roots;
        } else {
          assert last in roots;
        }
      }
    }
  }

  lemma {:induction false} VisitAllSnoc(g: Graph, ids: seq<string>, last: string,
                                        onStack: set<string>, w: Walk)
    requires last in g
    ensures VisitAll(g, ids + [last], onStack, w)
         == Visit(g, last, onStack, VisitAll(g, ids, onStack, w))
    decreases |ids|
  {
    if ids == [] {
      assert ids + [last] == [last] && [last][1..] == [];
    } else {
      assert (ids + [last])[1..] == ids[1..] + [last];
      VisitAllSnoc(g, ids[1..], last, onStack, if ids[0] in g then Visit(g, ids[0], onStack, w) else w);
    }
  }

  lemma {:induction false} VisitAllExtends(g: Graph, a: seq<string>, b: seq<string>)
    requires WellKeyed(g) && forall r | r in a + b :: r in g
    ensures VisitAll(g, a, {}, Walk({}, [])).out <= VisitAll(g, a + b, {}, Walk({}, [])).out
    decreases |b|
  {
    if b == [] {
      assert a + b == a;
    } else {
      var n := |b| - 1;
      assert a + b == (a + b[..n]) + [b[n]];
      assert forall r | r in a + b[..n] :: r in a + b;
      VisitAllExtends(g, a, b[..n]);
      VisitAllSnoc(g, a + b[..n], b[n], {}, Walk({}, []));
      RootsAreGood(g, a + b[..n]);
      VisitIsGood(g, b[n], {}, VisitAll(g, a + b[..n], {}, Walk({}, [])));
    }
  }

  // ------------------------------------------------------------- main results

  lemma LookupFindsTask(tasks: seq<Task>, t: Task)
    requires UniqueIds(tasks) && t in tasks
    ensures t.id in ById(tasks) && ById(tasks)[t.id] == t
  {
    var found := ById(tasks)[t.id];
    var i :| 0 <= i < |tasks| && tasks[i] == t;
    var j :| 0 <= j < |tasks| && tasks[j] == found;
  }

  lemma MultisetOfUnique(a: seq<Task>, b: seq<Task>)
    requires UniqueIds(a) && UniqueIds(b)
    requires forall t :: t in a <==> t in b
    ensures multiset(a) == multiset(b)
  {
    forall t ensures multiset(a)[t] == multiset(b)[t] {
      CountDistinct(a, t);
      CountDistinct(b, t);
    }
  }

  /** The roots of the outer loop: the sorted tasks' ids. */
  lemma SortedRoots(tasks: seq<Task>)
    requires UniqueIds(tasks)
    ensures var sorted := Sort(KeyOf, tasks);
            && Sorted(KeyOf, sorted)
            && (forall t :: t in sorted <==> t in tasks)
            && (forall r | r in IdsOf(sorted) :: r in ById(tasks))
            && (forall t | t in tasks :: t.id in IdsOf(sorted))
  {
    var sorted := Sort(KeyOf, tasks);
    SortSorts(KeyOf, tasks);
    forall t ensures t in sorted <==> t in tasks {
      assert t in multiset(sorted) <==> t in multiset(tasks);
    }
    forall r | r in IdsOf(sorted) ensures r in ById(tasks) {
      var i :| 0 <= i < |sorted| && IdsOf(sorted)[i] == r;
      assert sorted[i] in tasks;
    }
    forall t | t in tasks ensures t.id in IdsOf(sorted) {
      var i :| 0 <= i < |sorted| && sorted[i] == t;
      assert IdsOf(sorted)[i] == t.id;
    }
  }

  /** What the walk over all tasks leaves behind. */
  lemma WholeWalk(tasks: seq<Task>) returns (w: Walk)
    requires UniqueIds(tasks)
    ensures w.out == TopoOrder(tasks)
    ensures Good(ById(tasks), {}, w)
    ensures forall t | t in tasks :: t.id in w.done
  {
    var roots := IdsOf(Sort(KeyOf, tasks));
    SortedRoots(tasks);
    RootsAreGood(ById(tasks), roots);
    w := VisitAll(ById(tasks), roots, {}, Walk({}, []));
  }

  /** On any graph, cycles included, the result is a permutation of the input. */
  lemma TopoOrderPermutes(tasks: seq<Task>)
    requires UniqueIds(tasks)
    ensures multiset(TopoOrder(tasks)) == multiset(tasks)
    ensures UniqueIds(TopoOrder(tasks))
  {
    var w := WholeWalk(tasks);
    forall t ensures t in w.out <==> t in tasks {
      if t in tasks {
        LookupFindsTask(tasks, t);
        assert PlacedBefore(w.out, |w.out|, t.id);
      }
    }
    MultisetOfUnique(w.out, tasks);
  }

  ghost predicate ComesBefore(order: seq<Task>, u: Task, t: Task) {
    exists i, j | 0 <= i < j < |order| :: order[i] == u && order[j] == t
  }

  lemma DependencyPlaced(tasks: seq<Task>, i: nat, dep: string)
    requires UniqueIds(tasks) && i < |TopoOrder(tasks)|
    requires dep in TopoOrder(tasks)[i].dependsOn && dep in ById(tasks)
    ensures PlacedBefore(TopoOrder(tasks), i, dep)
         || Reaches(ById(tasks), dep, TopoOrder(tasks)[i].id)
  {
    var w := WholeWalk(tasks);
  }

  lemma InOrder(tasks: seq<Task>, t: Task)
    requires UniqueIds(tasks)
    ensures t in TopoOrder(tasks) <==> t in tasks
  {
    TopoOrderPermutes(tasks);
    SameMembers(TopoOrder(tasks), tasks);
  }

  lemma SameIdSameTask(tasks: seq<Task>, u: Task, v: Task)
    requires UniqueIds(tasks) && u in tasks && v in tasks && u.id == v.id
    ensures u == v
  {
    var i :| 0 <= i < |tasks| && tasks[i] == u;
    var j :| 0 <= j < |tasks| && tasks[j] == v;
    assert i == j;
  }

  /** Predecessors come first, unless the predecessor itself depends, directly or
      transitively, on its successor. */
  lemma PredecessorsFirst(tasks: seq<Task>, u: Task, t: Task)
    requires UniqueIds(tasks) && u in tasks && t in tasks && u.id in t.dependsOn
    ensures ComesBefore(TopoOrder(tasks), u, t) || Reaches(ById(tasks), u.id, t.id)
  {
    var order := TopoOrder(tasks);
    InOrder(tasks, t);
    var i :| 0 <= i < |order| && order[i] == t;
    DependencyPlaced(tasks, i, u.id);
    if j :| 0 <= j < i && order[j].id == u.id {
      assert order[j] in order;
      InOrder(tasks, order[j]);
      SameIdSameTask(tasks, order[j], u);
    }
  }

  /** Without cycles, every predecessor comes first. */
  lemma AcyclicPredecessorsFirst(tasks: seq<Task>, u: Task, t: Task)
    requires UniqueIds(tasks) && u in tasks && t in tasks && u.id in t.dependsOn
    requires forall id :: !Reaches(ById(tasks), id, id)
    ensures ComesBefore(TopoOrder(tasks), u, t)
  {
    var g := ById(tasks);
    PredecessorsFirst(tasks, u, t);
    LookupFindsTask(tasks, t);
    if Reaches(g, u.id, t.id) {
      EdgeReaches(g, t.id, u.id);
      ReachesIsTransitive(g, t.id, u.id, t.id);
      assert false;
    }
  }

  /** Every predecessor comes first if and only if no task depends, directly or transitively, on
      itself. */
  lemma AllPredecessorsFirstIff(tasks: seq<Task>)
    requires UniqueIds(tasks)
    ensures AllPredecessorsFirst(tasks) <==> forall t | t in tasks :: !Reaches(ById(tasks), t.id, t.id)
  {
    var g := ById(tasks);
    if forall t | t in tasks :: !Reaches(g, t.id, t.id) {
      forall id ensures !Reaches(g, id, id) {
        if Reaches(g, id, id) {
          ReachingIsATask(tasks, id, id);
        }
      }
      forall u, t | u in tasks && t in tasks && u.id in t.dependsOn ensures ComesBefore(TopoOrder(tasks), u, t) {
        AcyclicPredecessorsFirst(tasks, u, t);
      }
    }
    if AllPredecessorsFirst(tasks) {
      forall t | t in tasks ensures !Reaches(g, t.id, t.id) {
        if Reaches(g, t.id, t.id) {
          var p :| IsPath(g, p) && p[0] == t.id && p[|p| - 1] == t.id;
          NoPathBack(tasks, p);
        }
      }
    }
  }

  lemma ReachingIsATask(tasks: seq<Task>, a: string, b: string)
    requires Reaches(ById(tasks), a, b)
    ensures exists t :: t in tasks && t.id == a
  {
    var g := ById(tasks);
    assert g[a] in tasks && g[a].id == a;
  }

  ghost predicate AllPredecessorsFirst(tasks: seq<Task>) {
    forall u, t | u in tasks && t in tasks && u.id in t.dependsOn :: ComesBefore(TopoOrder(tasks), u, t)
  }

  lemma NoPathBack(tasks: seq<Task>, p: seq<string>)
    requires UniqueIds(tasks) && AllPredecessorsFirst(tasks)
    requires IsPath(ById(tasks), p) && p[|p| - 1] in ById(tasks)
    ensures p[0] != p[|p| - 1]
  {
    var g, order := ById(tasks), TopoOrder(tasks);
    PathDescends(tasks, p);
    TopoOrderPermutes(tasks);
    var i, j :| 0 <= i < j < |order| && order[i] == g[p[|p| - 1]] && order[j] == g[p[0]];
    assert order[i].id != order[j].id;
  }

  /** Along a path the places in the order go down. */
  lemma {:induction false} PathDescends(tasks: seq<Task>, p: seq<string>)
    requires UniqueIds(tasks) && AllPredecessorsFirst(tasks)
    requires IsPath(ById(tasks), p) && p[|p| - 1] in ById(tasks)
    ensures ComesBefore(TopoOrder(tasks), ById(tasks)[p[|p| - 1]], ById(tasks)[p[0]])
    decreases |p|
  {
    var g, n := ById(tasks), |p|;
    if n == 2 {
      assert p[1] in g[p[0]].dependsOn;
    } else {
      var front := p[..n - 1];
      assert front[|front| - 1] == p[n - 2] && p[n - 1] in g[p[n - 2]].dependsOn;
      PathDescends(tasks, front);
      TopoOrderPermutes(tasks);
      BeforeTransitive(TopoOrder(tasks), g[p[n - 1]], g[p[n - 2]], g[p[0]]);
    }
  }

  lemma BeforeTransitive(order: seq<Task>, a: Task, b: Task, d: Task)
    requires UniqueIds(order) && ComesBefore(order, a, b) && ComesBefore(order, b, d)
    ensures ComesBefore(order, a, d)
  {
    var i, j :| 0 <= i < j < |order| && order[i] == a && order[j] == b;
    var k, l :| 0 <= k < l < |order| && order[k] == b && order[l] == d;
    assert j == k;
  }

  /** The order of the input does not matter. */
  lemma TopoOrderIgnoresInputOrder(a: seq<Task>, b: seq<Task>)
    requires UniqueIds(a) && UniqueIds(b) && multiset(a) == multiset(b)
    ensures TopoOrder(a) == TopoOrder(b)
  {
    SortSorts(KeyOf, a);
    SortSorts(KeyOf, b);
    SortedIsUnique(KeyOf, Sort(KeyOf, a), Sort(KeyOf, b));
    ByIdIgnoresInputOrder(a, b);
  }

  lemma SameMembers(a: seq<Task>, b: seq<Task>)
    requires multiset(a) == multiset(b)
    ensures forall t :: t in a <==> t in b
  {
    assert forall t :: t in a <==> t in multiset(a);
    assert forall t :: t in b <==> t in multiset(b);
  }

  lemma ByIdIgnoresInputOrder(a: seq<Task>, b: seq<Task>)
    requires UniqueIds(a) && UniqueIds(b) && multiset(a) == multiset(b)
    ensures ById(a) == ById(b)
  {
    SameMembers(a, b);
    var ga, gb := ById(a), ById(b);
    forall id | id in ga ensures id in gb && ga[id] == gb[id] {
      LookupFindsTask(b, ga[id]);
    }
    forall id | id in gb ensures id in ga {
      LookupFindsTask(a, gb[id]);
    }
  }

  /** By the time the first `k + 1` roots are visited, the root `k` is placed and everything
      placed is needed by one of them. */
  lemma PlacedByEarlyRoots(g: Graph, roots: seq<string>, k: nat, out: seq<Task>, i: nat, j: nat)
    requires WellKeyed(g) && (forall r | r in roots :: r in g) && k < |roots|
    requires out == VisitAll(g, roots, {}, Walk({}, [])).out
    requires i < j < |out| && out[j].id == roots[k]
    ensures NeededBy(g, roots[..k + 1], out[i].id)
  {
    var first := roots[..k + 1];
    assert roots == first + roots[k + 1..];
    VisitAllExtends(g, first, roots[k + 1..]);
    var w := VisitAll(g, first, {}, Walk({}, []));
    RootsAreGood(g, first);
    assert Good(g, {}, VisitAll(g, roots, {}, Walk({}, []))) by {
      RootsAreGood(g, roots);
    }
    assert first[k] in first;
    var p :| 0 <= p < |w.out| && w.out[p].id == roots[k];
    assert w.out <= out && out[p].id == out[j].id;
    assert p == j;
    assert w.out[i].id in w.done;
  }

  /** By creation time, ties by id. */
  ghost predicate CreatedBefore(u: Task, t: Task) {
    Earlier(u.createdAt, t.createdAt) || (u.createdAt == t.createdAt && Earlier(u.id, t.id))
  }

  /** Ties go by creation time and id: a task comes before an earlier-created one only if
      that one, or a task created before it, depends on it. */
  lemma JumpsAheadOnlyWhenNeeded(tasks: seq<Task>, u: Task, t: Task)
    requires UniqueIds(tasks) && CreatedBefore(u, t)
    requires ComesBefore(TopoOrder(tasks), t, u)
    ensures exists r | r in tasks ::
              (r == u || CreatedBefore(r, u)) && Reaches(ById(tasks), r.id, t.id)
  {
    BeforeIff(KeyOf(u), KeyOf(t));
    var r := JumpedFor(tasks, u, t);
    BeforeIff(KeyOf(r), KeyOf(u));
  }

  lemma JumpedFor(tasks: seq<Task>, u: Task, t: Task) returns (earliest: Task)
    requires UniqueIds(tasks) && Before(KeyOf(u), KeyOf(t))
    requires ComesBefore(TopoOrder(tasks), t, u)
    ensures earliest in tasks && (earliest == u || Before(KeyOf(earliest), KeyOf(u)))
    ensures Reaches(ById(tasks), earliest.id, t.id)
  {
    var order, sorted := TopoOrder(tasks), Sort(KeyOf, tasks);
    SortedRoots(tasks);
    InOrder(tasks, u);
    InOrder(tasks, t);
    var k :| 0 <= k < |sorted| && sorted[k] == u;
    var m :| 0 <= m < |sorted| && sorted[m] == t;
    SortedPositions(sorted, k, m);
    var i, j :| 0 <= i < j < |order| && order[i] == t && order[j] == u;
    PlacedByEarlyRoots(ById(tasks), IdsOf(sorted), k, order, i, j);
    forall x | x in sorted ensures x.id in ById(tasks) && ById(tasks)[x.id] == x {
      LookupFindsTask(tasks, x);
    }
    EarlyRootIsAnother(ById(tasks), sorted, k, m);
    var r :| 0 <= r <= k && Reaches(ById(tasks), sorted[r].id, t.id);
    earliest := sorted[r];
    assert earliest in tasks && (r < k ==> Before(KeyOf(earliest), KeyOf(u)));
  }

  lemma SortedPositions(sorted: seq<Task>, k: nat, m: nat)
    requires Sorted(KeyOf, sorted) && k < |sorted| && m < |sorted|
    requires Before(KeyOf(sorted[k]), KeyOf(sorted[m]))
    ensures k < m
  {
    BeforeIsTotal(KeyOf(sorted[k]), KeyOf(sorted[m]));
  }

  lemma EarlyRootIsAnother(g: Graph, sorted: seq<Task>, k: nat, m: nat)
    requires Sorted(KeyOf, sorted) && k < m < |sorted|
    requires forall t | t in sorted :: t.id in g && g[t.id] == t
    requires NeededBy(g, IdsOf(sorted)[..k + 1], sorted[m].id)
    ensures exists r | 0 <= r <= k :: Reaches(g, sorted[r].id, sorted[m].id)
  {
    var x, roots := sorted[m].id, IdsOf(sorted)[..k + 1];
    assert NeededBy(g, roots, x);
    var r :| r in roots && (r == x || Reaches(g, r, x));
    var q :| 0 <= q <= k && roots[q] == r;
    assert r == sorted[q].id;
    BeforeIsTotal(KeyOf(sorted[q]), KeyOf(sorted[m]));
    assert Before(KeyOf(sorted[q]), KeyOf(sorted[m]));
    assert sorted[q] in sorted && sorted[m] in sorted;
  }

  // ------------------------------------------ the order of one task's dependencies

  lemma {:induction false} VisitAllConcat(g: Graph, a: seq<string>, b: seq<string>, onStack: set<string>, w: Walk)
    ensures VisitAll(g, a + b, onStack, w) == VisitAll(g, b, onStack, VisitAll(g, a, onStack, w))
    decreases |a|
  {
    if a == [] {
      assert a + b == b;
    } else {
      assert (a + b)[1..] == a[1..] + b;
      VisitAllConcat(g, a[1..], b, onStack, if a[0] in g then Visit(g, a[0], onStack, w) else w);
    }
  }

  /** Visiting dependencies places nothing that none of them needs. */
  lemma {:induction false} OnlyNeededPlaced(g: Graph, id: string, deps: seq<string>, onStack: set<string>, w: Walk)
    requires id in g && id in onStack && Good(g, onStack, w)
    requires StackReaches(g, onStack - {id}, id)
    requires forall dep | dep in deps :: dep in g[id].dependsOn
    ensures var w' := VisitAll(g, deps, onStack, w);
            forall i | |w.out| <= i < |w'.out| :: NeededBy(g, deps, w'.out[i].id)
    decreases |deps|
  {
    if deps != [] {
      var n := |deps| - 1;
      var before, last := deps[..n], deps[n];
      OnlyNeededPlaced(g, id, before, onStack, w);
      VisitAllIsGood(g, id, before, onStack, w);
      VisitAllConcat(g, before, [last], onStack, w);
      assert deps == before + [last] && [last][1..] == [];
      var mid := VisitAll(g, before, onStack, w);
      if last in g {
        DependencyStack(g, id, last, onStack);
        VisitIsGood(g, last, onStack, mid);
      }
      LastNeeded(g, before, last, w, mid, VisitAll(g, deps, onStack, w));
    }
  }

  lemma DependencyStack(g: Graph, id: string, dep: string, onStack: set<string>)
    requires id in g && dep in g[id].dependsOn && StackReaches(g, onStack - {id}, id)
    ensures StackReaches(g, onStack, dep)
  {
    forall y | y in onStack ensures Reaches(g, y, dep) {
      EdgeReaches(g, id, dep);
      if y != id { ReachesIsTransitive(g, y, id, dep); }
    }
  }

  lemma LastNeeded(g: Graph, before: seq<string>, last: string, w: Walk, mid: Walk, w': Walk)
    requires |w.out| <= |mid.out| && mid.out <= w'.out
    requires forall i | |w.out| <= i < |mid.out| :: NeededBy(g, before, mid.out[i].id)
    requires forall i | |mid.out| <= i < |w'.out| :: w'.out[i].id == last || Reaches(g, last, w'.out[i].id)
    ensures forall i | |w.out| <= i < |w'.out| :: NeededBy(g, before + [last], w'.out[i].id)
  {
    forall i | |w.out| <= i < |w'.out| ensures NeededBy(g, before + [last], w'.out[i].id) {
      if i < |mid.out| {
        var r :| r in before && (r == mid.out[i].id || Reaches(g, r, mid.out[i].id));
        assert r in before + [last] && w'.out[i] == mid.out[i];
      } else {
        assert last in before + [last];
      }
    }
  }

  ghost predicate InPlaces(out: seq<Task>, a: string, b: string) {
    exists p, q | 0 <= p < q < |out| :: out[p].id == a && out[q].id == b
  }

  /** When a task is placed, those of its dependencies that are still to be placed come in the
      order in which the task lists them, unless an earlier-listed one needs the later. */
  lemma DependenciesInListedOrder(g: Graph, id: string, onStack: set<string>, w: Walk, i: nat, j: nat)
    requires id in g && id !in w.done && id !in onStack && Good(g, onStack, w) && StackReaches(g, onStack, id)
    requires i < j < |g[id].dependsOn|
    requires forall k | k in {i, j} ::
               var dep := g[id].dependsOn[k]; dep in g && dep !in w.done && dep !in onStack && dep != id
    requires !NeededBy(g, g[id].dependsOn[..i + 1], g[id].dependsOn[j])
    ensures InPlaces(Visit(g, id, onStack, w).out, g[id].dependsOn[i], g[id].dependsOn[j])
  {
    var deps, stack := g[id].dependsOn, onStack + {id};
    var a, b := deps[..i + 1], deps[i + 1..];
    assert deps == a + b && a[i] == deps[i] && b[j - i - 1] == deps[j];
    assert deps[i] in a && deps[j] in b && forall d | d in a || d in b :: d in deps;
    assert stack - {id} == onStack && g.Keys - stack < g.Keys - onStack;
    var mid := VisitAll(g, a, stack, w);
    VisitAllIsGood(g, id, a, stack, w);
    OnlyNeededPlaced(g, id, a, stack, w);
    VisitAllConcat(g, a, b, stack, w);
    VisitAllIsGood(g, id, b, stack, mid);
    var full := VisitAll(g, deps, stack, w);
    LaterPlacedLater(w, mid, full, g, stack, deps[i], deps[j], a);
    InPlacesExtends(full.out, full.out + [g[id]], deps[i], deps[j]);
  }

  lemma LaterPlacedLater(w: Walk, mid: Walk, full: Walk, g: Graph, stack: set<string>,
                         a: string, b: string, listed: seq<string>)
    requires Good(g, stack, mid) && Good(g, stack, full) && w.out <= mid.out && mid.out <= full.out
    requires forall x :: x in w.done <==> PlacedBefore(w.out, |w.out|, x)
    requires a in mid.done && b in full.done && b !in w.done
    requires forall k | |w.out| <= k < |mid.out| :: NeededBy(g, listed, mid.out[k].id)
    requires !NeededBy(g, listed, b)
    ensures InPlaces(full.out, a, b)
  {
    var p :| 0 <= p < |mid.out| && mid.out[p].id == a;
    var q :| 0 <= q < |full.out| && full.out[q].id == b;
    assert q >= |w.out| by {
      assert forall k | 0 <= k < |w.out| :: w.out[k] == full.out[k];
      assert !PlacedBefore(w.out, |w.out|, b);
    }
    assert q >= |mid.out|;
    assert full.out[p].id == a;
  }

  /** In the whole order: the dependencies of the task created first. */
  lemma OldestTasksDependencies(tasks: seq<Task>, t: Task, i: nat, j: nat)
    requires UniqueIds(tasks) && t in tasks && forall u | u in tasks && u != t :: CreatedBefore(t, u)
    requires i < j < |t.dependsOn|
    requires t.dependsOn[i] in ById(tasks) && t.dependsOn[j] in ById(tasks)
    requires t.id != t.dependsOn[i] && t.id != t.dependsOn[j]
    requires !NeededBy(ById(tasks), t.dependsOn[..i + 1], t.dependsOn[j])
    ensures InPlaces(TopoOrder(tasks), t.dependsOn[i], t.dependsOn[j])
  {
    LookupFindsTask(tasks, t);
    DependenciesInListedOrder(ById(tasks), t.id, {}, Walk({}, []), i, j);
    OldestIsFirst(tasks, t);
    FirstRootPlaced(tasks, t);
    InPlacesExtends(Visit(ById(tasks), t.id, {}, Walk({}, [])).out, TopoOrder(tasks), t.dependsOn[i], t.dependsOn[j]);
  }

  lemma InPlacesExtends(out: seq<Task>, longer: seq<Task>, a: string, b: string)
    requires InPlaces(out, a, b) && out <= longer
    ensures InPlaces(longer, a, b)
  {
    var p, q :| 0 <= p < q < |out| && out[p].id == a && out[q].id == b;
    assert longer[p] == out[p] && longer[q] == out[q];
  }

  lemma FirstRootPlaced(tasks: seq<Task>, t: Task)
    requires UniqueIds(tasks) && t in tasks && t.id in ById(tasks)
    requires Sort(KeyOf, tasks) != [] && Sort(KeyOf, tasks)[0] == t
    ensures Visit(ById(tasks), t.id, {}, Walk({}, [])).out <= TopoOrder(tasks)
  {
    SortedRoots(tasks);
    FirstRootOf(ById(tasks), IdsOf(Sort(KeyOf, tasks)));
  }

  lemma FirstRootOf(g: Graph, roots: seq<string>)
    requires WellKeyed(g) && roots != [] && forall r | r in roots :: r in g
    ensures Visit(g, roots[0], {}, Walk({}, [])).out <= VisitAll(g, roots, {}, Walk({}, [])).out
  {
    var id := roots[0];
    assert roots == [id] + roots[1..];
    VisitAllExtends(g, [id], roots[1..]);
    OneRoot(g, id, Walk({}, []));
  }

  lemma OneRoot(g: Graph, id: string, w: Walk)
    requires id in g
    ensures VisitAll(g, [id], {}, w) == Visit(g, id, {}, w)
  {
    VisitAllSnoc(g, [], id, {}, w);
    assert [] + [id] == [id];
  }

  lemma OldestIsFirst(tasks: seq<Task>, t: Task)
    requires UniqueIds(tasks) && t in tasks && forall u | u in tasks && u != t :: CreatedBefore(t, u)
    ensures Sort(KeyOf, tasks) != [] && Sort(KeyOf, tasks)[0] == t
  {
    var sorted := Sort(KeyOf, tasks);
    SortedRoots(tasks);
    var k :| 0 <= k < |sorted| && sorted[k] == t;
    BeforeIff(KeyOf(t), KeyOf(sorted[0]));
    BeforeIsTotal(KeyOf(t), KeyOf(sorted[0]));
    assert sorted[0] in tasks;
  }

  // -------------------------------------------------------- the mutating walk

  class Sorter {
    const byId: Graph
    var done: set<string>
    var onStack: set<string>
    var out: seq<Task>

    constructor (tasks: seq<Task>)
      ensures byId == ById(tasks) && done == {} && onStack == {} && out == []
    {
      byId := ById(tasks);
      done, onStack, out := {}, {}, [];
    }

    /** The recursive visit: it grows `done` and `out`, and leaves the stack as it
        found it. */
    method VisitTask(t: Task)
      requires WellKeyed(byId) && t.id in byId && byId[t.id] == t && done !! onStack
      modifies `done, `onStack, `out
      ensures onStack == old(onStack) && done !! onStack
      ensures Walk(done, out) == Visit(byId, t.id, onStack, Walk(old(done), old(out)))
      decreases byId.Keys - onStack
    {
      if t.id in done || t.id in onStack {
        return;
      }
      ghost var outer, start := onStack, Walk(done, out);
      onStack := onStack + {t.id};
      assert t.id in byId.Keys - outer && t.id !in byId.Keys - onStack;
      for i := 0 to |t.dependsOn|
        invariant onStack == outer + {t.id} && done !! onStack
        invariant VisitAll(byId, t.dependsOn, onStack, start)
               == VisitAll(byId, t.dependsOn[i..], onStack, Walk(done, out))
      {
        var depId := t.dependsOn[i];
        assert t.dependsOn[i..][0] == depId && t.dependsOn[i..][1..] == t.dependsOn[i + 1..];
        if depId in byId {
          VisitTask(byId[depId]);
        }
      }
      onStack := onStack - {t.id};
      assert onStack == outer;
      done := done + {t.id};
      out := out + [t];
    }
  }

  /** The whole computation: sort, then visit each task with an empty stack. */
  method ComputeTopoOrder(tasks: seq<Task>) returns (order: seq<Task>)
    requires UniqueIds(tasks)
    ensures order == TopoOrder(tasks)
  {
    var sorter := new Sorter(tasks);
    var sorted := Sort(KeyOf, tasks);
    SortedRoots(tasks);
    ghost var roots := IdsOf(sorted);
    for i := 0 to |sorted|
      invariant sorter.onStack == {}
      invariant VisitAll(sorter.byId, roots, {}, Walk({}, []))
             == VisitAll(sorter.byId, roots[i..], {}, Walk(sorter.done, sorter.out))
    {
      assert roots[i..][0] == sorted[i].id && roots[i..][1..] == roots[i + 1..];
      LookupFindsTask(tasks, sorted[i]);
      sorter.VisitTask(sorted[i]);
    }
    return sorter.out;
  }
}
