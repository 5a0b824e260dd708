/** The object graph around a database object (sidecar/src/oracle.ts). */
module VisionGraph {
  import opened Common

  /* A breadth-first walk over dependencies and foreign keys, two hops deep and at most 150 nodes wide. */

  datatype Obj = Obj(owner: string, name: string)

  datatype Key = Key(src: Obj, tgt: Obj)

  /** What the three queries return for an object, and the type each object has. */
  datatype Catalog = Catalog(up: Obj -> seq<Obj>, down: Obj -> seq<Obj>, fk: Obj -> seq<Key>, kind: Obj -> string)

  datatype EdgeKind = Fk | Dep

  datatype Edge = Edge(source: Obj, target: Obj, kind: EdgeKind)

  /** An object and the number of hops after which the walk met it. */
  datatype Item = Item(obj: Obj, depth: nat)

  /** The walk in progress; nodes and edges are in the order they were added. */
  datatype Graph = Graph(nodes: seq<Item>, queue: seq<Item>, edges: seq<Edge>, truncated: bool)

  datatype Node = Node(obj: Obj, degree: nat, isOrigin: bool)

  const MAX_VISION_NODES := 150
  const MAX_VISION_DEPTH := 2

  const SYSTEM_SCHEMAS: set<string> := {
    "SYS", "SYSTEM", "SYSMXMF", "MDSYS", "CTXSYS", "WMSYS", "XDB", "ORDDATA",
    "ORDSYS", "OLAPSYS", "FLOWS_FILES", "DBMSMADMIN", "DVSYS", "LBACSYS",
    "APPQOSSYS", "AUDSYS", "DBSFWUSER", "REMOTE_SCHEDULER_AGENT", "SYS$UMF",
    "OUTLN", "GSMADMIN_INTERNAL", "GSMCATUSER", "GSMUSER", "OJVMSYS",
    "PDBADMIN", "VECSYS", "BAASSYS", "ORDS_METADATA", "ORDS_PUBLIC_USER"
  }

  predicate IsSystem(o: Obj) {
    o.owner in SYSTEM_SCHEMAS
  }

  // ---- What the graph should hold -------------------------------------------------

  function Shown(rows: seq<Obj>, current: Obj): set<Obj> {
    set o | o in rows && !IsSystem(o) && o != current
  }

  function ShownKeys(cat: Catalog, o: Obj): set<Key> {
    if cat.kind(o) != "TABLE" then {} else set k | k in cat.fk(o) && !IsSystem(k.src) && !IsSystem(k.tgt)
  }

  /** One hop: dependencies both ways, and the tables at either end of a foreign key. */
  function Neighbours(cat: Catalog, o: Obj): set<Obj> {
    Shown(cat.up(o), o) + Shown(cat.down(o), o)
    + (set k | k in ShownKeys(cat, o) :: k.src) + (set k | k in ShownKeys(cat, o) :: k.tgt)
  }

  function Within(cat: Catalog, origin: Obj, hops: nat): set<Obj> {
    if hops == 0 then {origin}
    else
      var near := Within(cat, origin, hops - 1);
      near + (set a, o | a in near && o in Neighbours(cat, a) :: o)
  }

  function DepEdge(current: Obj, o: Obj, upward: bool): Edge {
    if upward then Edge(current, o, Dep) else Edge(o, current, Dep)
  }

  /** The edges drawn when an object is expanded. */
  function EdgesAt(cat: Catalog, a: Obj): set<Edge> {
    (set o | o in Shown(cat.up(a), a) :: DepEdge(a, o, true))
    + (set o | o in Shown(cat.down(a), a) :: DepEdge(a, o, false))
    + (set k | k in ShownKeys(cat, a) :: Edge(k.src, k.tgt, Fk))
  }

  predicate Has(nodes: seq<Item>, o: Obj) {
    exists i :: 0 <= i < |nodes| && nodes[i].obj == o
  }

  predicate HasBy(nodes: seq<Item>, o: Obj, depth: nat) {
    exists i :: 0 <= i < |nodes| && nodes[i].obj == o && nodes[i].depth <= depth
  }

  predicate Joined(nodes: seq<Item>, e: Edge) {
    Has(nodes, e.source) && Has(nodes, e.target)
  }

  // ---- One expansion --------------------------------------------------------------

  /** What holds of the graph throughout, however full it is. */
  ghost predicate Sane(g: Graph) {
    && (forall i, j :: 0 <= i < j < |g.nodes| ==> g.nodes[i].obj != g.nodes[j].obj)
    && (forall i, j :: 0 <= i < j < |g.edges| ==> g.edges[i] != g.edges[j])
    && |g.nodes| <= MAX_VISION_NODES
    && (g.truncated ==> |g.nodes| == MAX_VISION_NODES)
    && (forall e :: e in g.edges && (e.kind == Dep || !g.truncated) ==> Joined(g.nodes, e))
  }

  /** New nodes come last, at the given depth, and are queued. */
  ghost predicate Grew(g: Graph, h: Graph, depth: nat) {
    && g.nodes <= h.nodes
    && h.queue == g.queue + h.nodes[|g.nodes|..]
    && (forall i :: |g.nodes| <= i < |h.nodes| ==> h.nodes[i].depth == depth)
    && (g.truncated ==> h.truncated)
  }

  /** The graph grew by some of the given objects and edges, and by all of them unless it is full. */
  ghost predicate Took(g: Graph, h: Graph, depth: nat, objs: set<Obj>, es: set<Edge>) {
    && Sane(h) && Grew(g, h, depth)
    && (forall i :: |g.nodes| <= i < |h.nodes| ==> h.nodes[i].obj in objs)
    && (forall e :: e in h.edges ==> e in g.edges || e in es)
    && (forall e :: e in g.edges ==> e in h.edges)
    && (!h.truncated ==> forall o :: o in objs ==> Has(h.nodes, o))
    && (!h.truncated ==> forall e :: e in es ==> e in h.edges)
  }

  lemma TookNothing(g: Graph, depth: nat)
    requires Sane(g)
    ensures Took(g, g, depth, {}, {})
  {
  }

  lemma TookBoth(
      f: Graph, g: Graph, h: Graph, depth: nat,
      objs: set<Obj>, objs': set<Obj>, es: set<Edge>, es': set<Edge>)
    requires Took(f, g, depth, objs, es) && Took(g, h, depth, objs', es')
    ensures Took(f, h, depth, objs + objs', es + es')
  {
    assert h.nodes[|f.nodes|..] == g.nodes[|f.nodes|..] + h.nodes[|g.nodes|..];
    assert forall i :: |f.nodes| <= i < |g.nodes| ==> h.nodes[i] == g.nodes[i];
    forall o | Has(g.nodes, o)
      ensures Has(h.nodes, o)
    {
      var i :| 0 <= i < |g.nodes| && g.nodes[i].obj == o;
      assert h.nodes[i].obj == o;
    }
  }

  /** Adds a node unless it is there or the graph is full. */
  method Reach(g: Graph, o: Obj, depth: nat) returns (h: Graph)
    requires Sane(g)
    ensures Took(g, h, depth, {o}, {})
    ensures Has(h.nodes, o) || h.truncated
    ensures h.edges == g.edges
  {
    h := g;
    if !Has(g.nodes, o) {
      if |g.nodes| >= MAX_VISION_NODES {
        h := g.(truncated := true);
      } else {
        h := g.(nodes := g.nodes + [Item(o, depth)], queue := g.queue + [Item(o, depth)]);
        assert h.nodes[|g.nodes|].obj == o;
        forall p | Has(g.nodes, p)
          ensures Has(h.nodes, p)
        {
          var i :| 0 <= i < |g.nodes| && g.nodes[i].obj == p;
          assert h.nodes[i].obj == p;
        }
      }
    }
  }

  method Draw(g: Graph, e: Edge, depth: nat) returns (h: Graph)
    requires Sane(g) && ((e.kind == Dep || !g.truncated) ==> Joined(g.nodes, e))
    ensures Took(g, h, depth, {}, {e}) && h.nodes == g.nodes && h.truncated == g.truncated
  {
    h := g;
    if e !in g.edges {
      h := g.(edges := g.edges + [e]);
    }
  }

  /** The dependency rows of an object in one direction, up to the first that finds the graph full. */
  method ExpandDeps(g: Graph, current: Obj, depth: nat, rows: seq<Obj>, upward: bool) returns (h: Graph)
    requires Sane(g) && Has(g.nodes, current)
    ensures Took(g, h, depth, Shown(rows, current), set o | o in Shown(rows, current) :: DepEdge(current, o, upward))
    ensures Has(h.nodes, current)
  {
    hide Took, Sane;
    h := g;
    TookNothing(g, depth);
    ghost var done: set<Obj>, drawn: set<Edge> := {}, {};
    var i := 0;
    while i < |rows|
      invariant 0 <= i <= |rows|
      invariant done == Shown(rows[..i], current)
      invariant drawn == set o | o in done :: DepEdge(current, o, upward)
      invariant Took(g, h, depth, done, drawn) && Sane(h) && Has(h.nodes, current)
    {
      var o := rows[i];
      i := i + 1;
      assert rows[..i] == rows[..i - 1] + [o];
      if IsSystem(o) || o == current {
        continue;
      }
      ghost var before := h;
      h := Reach(h, o, depth);
      TookKeeps(before, h, depth, {o}, {}, current);
      TookBoth(g, before, h, depth, done, {o}, drawn, {});
      done := done + {o};
      if !Has(h.nodes, o) {
        assert rows == rows[..i] + rows[i..];
        TookEnough(g, h, depth, done, drawn, Shown(rows, current),
                   set o | o in Shown(rows, current) :: DepEdge(current, o, upward));
        return;
      }
      assert drawn + {} == drawn;
      ghost var reached := h;
      var e := DepEdge(current, o, upward);
      h := Draw(h, e, depth);
      TookKeeps(reached, h, depth, {}, {e}, current);
      TookBoth(g, reached, h, depth, done, {}, drawn, {e});
      drawn := drawn + {e};
      assert done + {} == done;
    }
    assert rows[..i] == rows;
  }

  lemma TookKeeps(g: Graph, h: Graph, depth: nat, objs: set<Obj>, es: set<Edge>, o: Obj)
    requires Took(g, h, depth, objs, es)
    ensures Sane(h) && (Has(g.nodes, o) ==> Has(h.nodes, o))
  {
    if Has(g.nodes, o) {
      var i :| 0 <= i < |g.nodes| && g.nodes[i].obj == o;
      assert h.nodes[i].obj == o;
    }
  }

  /** A full graph need not take the rest. */
  lemma TookEnough(g: Graph, h: Graph, depth: nat, objs: set<Obj>, es: set<Edge>, objs': set<Obj>, es': set<Edge>)
    requires Took(g, h, depth, objs, es) && h.truncated && objs <= objs' && es <= es'
    ensures Took(g, h, depth, objs', es')
  {
  }

  /** The foreign keys of a table; a full graph still draws their edges. */
  method ExpandKeys(g: Graph, depth: nat, rows: seq<Key>, ghost shown: set<Key>) returns (h: Graph)
    requires Sane(g)
    requires shown == set k | k in rows && !IsSystem(k.src) && !IsSystem(k.tgt)
    ensures Took(g, h, depth,
                 (set k | k in shown :: k.src) + (set k | k in shown :: k.tgt),
                 set k | k in shown :: Edge(k.src, k.tgt, Fk))
  {
    hide Took, Sane;
    h := g;
    TookNothing(g, depth);
    ghost var done: set<Key> := {};
    assert (set k | k in done :: k.src) + (set k | k in done :: k.tgt) == {};
    assert (set k | k in done :: Edge(k.src, k.tgt, Fk)) == {};
    var i := 0;
    while i < |rows|
      invariant 0 <= i <= |rows|
      invariant done == set k | k in rows[..i] && !IsSystem(k.src) && !IsSystem(k.tgt)
      invariant Took(g, h, depth,
                     (set k | k in done :: k.src) + (set k | k in done :: k.tgt),
                     set k | k in done :: Edge(k.src, k.tgt, Fk))
      invariant Sane(h)
    {
      var k := rows[i];
      i := i + 1;
      assert rows[..i] == rows[..i - 1] + [k];
      if IsSystem(k.src) || IsSystem(k.tgt) {
        continue;
      }
      ghost var before := h;
      h := ExpandKey(h, depth, k);
      TookKeeps(before, h, depth, {k.src, k.tgt}, {Edge(k.src, k.tgt, Fk)}, k.src);
      ghost var was := done;
      done := done + {k};
      TookBoth(g, before, h, depth,
               (set k | k in was :: k.src) + (set k | k in was :: k.tgt), {k.src, k.tgt},
               set k | k in was :: Edge(k.src, k.tgt, Fk), {Edge(k.src, k.tgt, Fk)});
      OneMoreKey(was, k);
    }
    assert rows[..i] == rows;
  }

  lemma OneMoreKey(ks: set<Key>, k: Key)
    ensures (set x | x in ks + {k} :: x.src) + (set x | x in ks + {k} :: x.tgt)
         == (set x | x in ks :: x.src) + (set x | x in ks :: x.tgt) + {k.src, k.tgt}
    ensures (set x | x in ks + {k} :: Edge(x.src, x.tgt, Fk))
         == (set x | x in ks :: Edge(x.src, x.tgt, Fk)) + {Edge(k.src, k.tgt, Fk)}
  {
  }

  method ExpandKey(g: Graph, depth: nat, k: Key) returns (h: Graph)
    requires Sane(g)
    ensures Took(g, h, depth, {k.src, k.tgt}, {Edge(k.src, k.tgt, Fk)})
  {
    hide Took, Sane;
    h := Reach(g, k.src, depth);
    TookKeeps(g, h, depth, {k.src}, {}, k.src);
    ghost var reached: set<Obj>, none: set<Edge> := {k.src}, {};
    if Has(h.nodes, k.src) {
      ghost var before := h;
      h := Reach(h, k.tgt, depth);
      TookKeeps(before, h, depth, {k.tgt}, {}, k.src);
      TookBoth(g, before, h, depth, {k.src}, {k.tgt}, {}, {});
      reached := {k.src, k.tgt};
      assert {k.src} + {k.tgt} == reached && none + none == none;
    }
    ghost var before := h;
    h := Draw(h, Edge(k.src, k.tgt, Fk), depth);
    TookBoth(g, before, h, depth, reached, {}, {}, {Edge(k.src, k.tgt, Fk)});
    assert reached + {} == reached;
    assert none + {Edge(k.src, k.tgt, Fk)} == {Edge(k.src, k.tgt, Fk)};
    if h.truncated {
      TookEnough(g, h, depth, reached, {Edge(k.src, k.tgt, Fk)}, {k.src, k.tgt}, {Edge(k.src, k.tgt, Fk)});
    }
  }

  /** Expands one object: dependencies up, dependencies down, then the foreign keys of a table. */
  method Expand(cat: Catalog, g: Graph, current: Obj, depth: nat) returns (h: Graph)
    requires Sane(g) && Has(g.nodes, current)
    ensures Took(g, h, depth, Neighbours(cat, current), EdgesAt(cat, current))
  {
    hide Took, Sane;
    var a := ExpandDeps(g, current, depth, cat.up(current), true);
    TookKeeps(g, a, depth, Shown(cat.up(current), current),
              set o | o in Shown(cat.up(current), current) :: DepEdge(current, o, true), current);
    var b := ExpandDeps(a, current, depth, cat.down(current), false);
    TookKeeps(a, b, depth, Shown(cat.down(current), current),
              set o | o in Shown(cat.down(current), current) :: DepEdge(current, o, false), current);
    TookBoth(g, a, b, depth, Shown(cat.up(current), current), Shown(cat.down(current), current),
             set o | o in Shown(cat.up(current), current) :: DepEdge(current, o, true),
             set o | o in Shown(cat.down(current), current) :: DepEdge(current, o, false));
    ghost var ks := ShownKeys(cat, current);
    h := b;
    if cat.kind(current) == "TABLE" {
      h := ExpandKeys(b, depth, cat.fk(current), ks);
    } else {
      TookNothing(b, depth);
      assert (set k | k in ks :: k.src) + (set k | k in ks :: k.tgt) == {};
      assert (set k | k in ks :: Edge(k.src, k.tgt, Fk)) == {};
    }
    TookBoth(g, b, h, depth,
             Shown(cat.up(current), current) + Shown(cat.down(current), current),
             (set k | k in ks :: k.src) + (set k | k in ks :: k.tgt),
             (set o | o in Shown(cat.up(current), current) :: DepEdge(current, o, true))
             + (set o | o in Shown(cat.down(current), current) :: DepEdge(current, o, false)),
             set k | k in ks :: Edge(k.src, k.tgt, Fk));
    assert Neighbours(cat, current) == Shown(cat.up(current), current) + Shown(cat.down(current), current)
                                       + ((set k | k in ks :: k.src) + (set k | k in ks :: k.tgt));
  }

  // ---- The walk -------------------------------------------------------------------

  /** The first n nodes have left the queue; what is known of them and of the rest. */
  ghost predicate Walking(cat: Catalog, origin: Obj, g: Graph, n: nat) {
    && Sane(g)
    && n <= |g.nodes| && g.queue == g.nodes[n..]
    && g.nodes != [] && g.nodes[0] == Item(origin, 0)
    && (|g.nodes| == MAX_VISION_NODES ==> g.truncated || g.queue != [])
    && InDepthOrder(g, n)
    && (forall i :: 0 <= i < |g.nodes| ==> g.nodes[i].obj in Within(cat, origin, g.nodes[i].depth))
    && (forall e :: e in g.edges ==> DrawnBy(cat, g, n, e))
    && (!g.truncated ==> Complete(cat, g, n))
    && NearComeFirst(cat, origin, g)
  }

  /** Nodes two hops away are there only when all those within one hop are. */
  ghost predicate NearComeFirst(cat: Catalog, origin: Obj, g: Graph) {
    || (forall i :: 0 <= i < |g.nodes| ==> g.nodes[i].depth <= 1)
    || (forall o :: o in Within(cat, origin, 1) ==> Has(g.nodes, o))
  }

  /** Breadth first: depths never fall, stop at 2, and run at most one ahead of the nodes that have left the queue. */
  ghost predicate InDepthOrder(g: Graph, n: nat)
    requires n <= |g.nodes| && g.nodes != []
  {
    && (forall i, j :: 0 <= i < j < |g.nodes| ==> g.nodes[i].depth <= g.nodes[j].depth)
    && (forall i :: 0 <= i < |g.nodes| ==> g.nodes[i].depth <= MAX_VISION_DEPTH)
    && (if n == 0 then |g.nodes| == 1
        else forall i :: 0 <= i < |g.nodes| ==> g.nodes[i].depth <= g.nodes[n - 1].depth + 1)
  }

  ghost predicate DrawnBy(cat: Catalog, g: Graph, n: nat, e: Edge)
    requires n <= |g.nodes|
  {
    exists i :: 0 <= i < n && g.nodes[i].depth < MAX_VISION_DEPTH && e in EdgesAt(cat, g.nodes[i].obj)
  }

  /** The nodes that left the queue were expanded in full. */
  ghost predicate Complete(cat: Catalog, g: Graph, n: nat)
    requires n <= |g.nodes|
  {
    forall i :: 0 <= i < n && g.nodes[i].depth < MAX_VISION_DEPTH ==> Expanded(cat, g, g.nodes[i])
  }

  ghost predicate Expanded(cat: Catalog, g: Graph, a: Item) {
    && (forall o :: o in Neighbours(cat, a.obj) ==> HasBy(g.nodes, o, a.depth + 1))
    && (forall e :: e in EdgesAt(cat, a.obj) ==> e in g.edges)
  }

  lemma WalkStarts(cat: Catalog, origin: Obj)
    ensures var start := [Item(origin, 0)]; Walking(cat, origin, Graph(start, start, [], false), 0)
  {
  }

  /** A node already two hops away leaves the queue and is not expanded. */
  lemma LeafLeaves(cat: Catalog, origin: Obj, g: Graph, n: nat)
    requires Walking(cat, origin, g, n) && g.queue != [] && |g.nodes| < MAX_VISION_NODES
    requires g.nodes[n].depth == MAX_VISION_DEPTH
    ensures Walking(cat, origin, g.(queue := g.queue[1..]), n + 1)
  {
    hide Sane, Within, EdgesAt, Expanded;
    var h := g.(queue := g.queue[1..]);
    SaneQueue(g, g.queue[1..]);
    forall e | e in h.edges
      ensures DrawnBy(cat, h, n + 1, e)
    {
      DrawnStays(cat, g, h, n, e);
    }
    forall i | 0 <= i < n + 1 && h.nodes[i].depth < MAX_VISION_DEPTH
      ensures Expanded(cat, h, h.nodes[i])
    {
      NotFull(g);
      SameExpanded(cat, g, g.queue[1..], g.nodes[i]);
    }
  }

  lemma SaneQueue(g: Graph, queue: seq<Item>)
    ensures Sane(g) <==> Sane(g.(queue := queue))
  {
  }

  lemma SameExpanded(cat: Catalog, g: Graph, queue: seq<Item>, a: Item)
    ensures Expanded(cat, g, a) <==> Expanded(cat, g.(queue := queue), a)
  {
  }

  lemma DrawnStays(cat: Catalog, g: Graph, h: Graph, n: nat, e: Edge)
    requires n < |g.nodes| && g.nodes <= h.nodes && DrawnBy(cat, g, n, e)
    ensures DrawnBy(cat, h, n + 1, e)
  {
    hide EdgesAt;
    var i :| 0 <= i < n && g.nodes[i].depth < MAX_VISION_DEPTH && e in EdgesAt(cat, g.nodes[i].obj);
    assert h.nodes[i] == g.nodes[i];
  }

  /** Expanding the node at the front of the queue keeps the walk's invariant. */
  lemma ExpansionKeeps(cat: Catalog, origin: Obj, g: Graph, h: Graph, n: nat)
    requires Walking(cat, origin, g, n) && g.queue != [] && |g.nodes| < MAX_VISION_NODES
    requires g.nodes[n].depth < MAX_VISION_DEPTH
    requires Took(g.(queue := g.queue[1..]), h, g.nodes[n].depth + 1,
                  Neighbours(cat, g.nodes[n].obj), EdgesAt(cat, g.nodes[n].obj))
    ensures Walking(cat, origin, h, n + 1)
  {
    hide Sane, Within, EdgesAt, Expanded, Neighbours, Has, InDepthOrder, NearComeFirst;
    var a := g.nodes[n];
    assert h.queue == h.nodes[n + 1..];
    assert !g.truncated by {
      NotFull(g);
    }
    DepthsKeep(g, h, n);
    WalkFacts(cat, origin, g, n);
    NearStayFirst(cat, origin, g, h, n);
    forall i | 0 <= i < |h.nodes|
      ensures h.nodes[i].obj in Within(cat, origin, h.nodes[i].depth)
    {
      if i >= |g.nodes| {
        OneHopMore(cat, origin, a, h.nodes[i].obj);
      } else {
        assert h.nodes[i] == g.nodes[i];
      }
    }
    forall e | e in h.edges
      ensures DrawnBy(cat, h, n + 1, e)
    {
      if e in g.edges {
        DrawnStays(cat, g, h, n, e);
      } else {
        assert h.nodes[n] == a;
      }
    }
    if !h.truncated {
      forall i | 0 <= i < n + 1 && h.nodes[i].depth < MAX_VISION_DEPTH
        ensures Expanded(cat, h, h.nodes[i])
      {
        assert h.nodes[i] == g.nodes[i];
        if i < n {
          ExpandedStays(cat, g, h, g.nodes[i]);
        } else {
          ExpandedNow(cat, h, a);
        }
      }
    }
  }

  lemma NearStayFirst(cat: Catalog, origin: Obj, g: Graph, h: Graph, n: nat)
    requires n < |g.nodes| && g.nodes <= h.nodes && g.nodes[0] == Item(origin, 0)
    requires Complete(cat, g, n) && (n == 0 ==> |g.nodes| == 1)
    requires forall i :: |g.nodes| <= i < |h.nodes| ==> h.nodes[i].depth == g.nodes[n].depth + 1
    ensures NearComeFirst(cat, origin, h)
  {
    hide EdgesAt, Neighbours;
    if n > 0 {
      assert Expanded(cat, g, g.nodes[0]);
      forall o | o in Within(cat, origin, 1)
        ensures Has(h.nodes, o)
      {
        assert Within(cat, origin, 0) == {origin};
        if o == origin {
          assert h.nodes[0].obj == o;
        } else {
          assert HasBy(g.nodes, o, 1);
          var i :| 0 <= i < |g.nodes| && g.nodes[i].obj == o && g.nodes[i].depth <= 1;
          assert h.nodes[i].obj == o;
        }
      }
    }
  }

  lemma DepthsKeep(g: Graph, h: Graph, n: nat)
    requires n < |g.nodes| && InDepthOrder(g, n) && g.nodes <= h.nodes
    requires g.nodes[n].depth < MAX_VISION_DEPTH
    requires forall i :: |g.nodes| <= i < |h.nodes| ==> h.nodes[i].depth == g.nodes[n].depth + 1
    ensures InDepthOrder(h, n + 1)
    ensures forall i :: 0 <= i < |h.nodes| ==> h.nodes[i].depth <= g.nodes[n].depth + 1
  {
    assert forall i :: 0 <= i < |g.nodes| ==> g.nodes[i].depth <= g.nodes[n].depth + 1;
    assert forall i :: 0 <= i < |g.nodes| ==> h.nodes[i] == g.nodes[i];
  }

  lemma NotFull(g: Graph)
    requires Sane(g) && |g.nodes| < MAX_VISION_NODES
    ensures !g.truncated
  {
  }

  lemma OneHopMore(cat: Catalog, origin: Obj, a: Item, o: Obj)
    requires a.obj in Within(cat, origin, a.depth) && o in Neighbours(cat, a.obj)
    ensures o in Within(cat, origin, a.depth + 1)
  {
    hide Neighbours;
  }

  lemma ExpandedStays(cat: Catalog, g: Graph, h: Graph, a: Item)
    requires Expanded(cat, g, a) && g.nodes <= h.nodes
    requires forall e :: e in g.edges ==> e in h.edges
    ensures Expanded(cat, h, a)
  {
    hide Neighbours, EdgesAt;
    forall o | o in Neighbours(cat, a.obj)
      ensures HasBy(h.nodes, o, a.depth + 1)
    {
      var i :| 0 <= i < |g.nodes| && g.nodes[i].obj == o && g.nodes[i].depth <= a.depth + 1;
      assert h.nodes[i] == g.nodes[i];
    }
  }

  lemma ExpandedNow(cat: Catalog, h: Graph, a: Item)
    requires forall o :: o in Neighbours(cat, a.obj) ==> Has(h.nodes, o)
    requires forall e :: e in EdgesAt(cat, a.obj) ==> e in h.edges
    requires forall i :: 0 <= i < |h.nodes| ==> h.nodes[i].depth <= a.depth + 1
    ensures Expanded(cat, h, a)
  {
    hide Neighbours, EdgesAt;
    forall o | o in Neighbours(cat, a.obj)
      ensures HasBy(h.nodes, o, a.depth + 1)
    {
      var i :| 0 <= i < |h.nodes| && h.nodes[i].obj == o;
      assert h.nodes[i].depth <= a.depth + 1;
    }
  }

  // ---- The finished graph ---------------------------------------------------------

  function Objs(nodes: seq<Item>): set<Obj> {
    set i | 0 <= i < |nodes| :: nodes[i].obj
  }

  lemma {:induction false} ObjsCount(nodes: seq<Item>)
    requires forall i, j :: 0 <= i < j < |nodes| ==> nodes[i].obj != nodes[j].obj
    ensures |Objs(nodes)| == |nodes|
  {
    if nodes != [] {
      var n := |nodes| - 1;
      ObjsCount(nodes[..n]);
      assert Objs(nodes) == Objs(nodes[..n]) + {nodes[n].obj};
    }
  }

  lemma {:induction false} WithinGrows(cat: Catalog, origin: Obj, i: nat, j: nat)
    requires i <= j
    ensures Within(cat, origin, i) <= Within(cat, origin, j)
    decreases j
  {
    hide Neighbours;
    if i < j {
      WithinGrows(cat, origin, i, j - 1);
    }
  }

  /** Breadth first, an object h hops away was met after at most h hops. */
  lemma {:induction false} MetByHops(cat: Catalog, origin: Obj, g: Graph, hops: nat, o: Obj)
    requires Walking(cat, origin, g, |g.nodes|) && !g.truncated
    requires hops <= MAX_VISION_DEPTH && o in Within(cat, origin, hops)
    ensures HasBy(g.nodes, o, hops)
  {
    hide Neighbours, EdgesAt, InDepthOrder, Sane;
    if hops == 0 {
      assert g.nodes[0].obj == o;
    } else if o in Within(cat, origin, hops - 1) {
      MetByHops(cat, origin, g, hops - 1, o);
    } else {
      var a :| a in Within(cat, origin, hops - 1) && o in Neighbours(cat, a);
      MetByHops(cat, origin, g, hops - 1, a);
      var i :| 0 <= i < |g.nodes| && g.nodes[i].obj == a && g.nodes[i].depth <= hops - 1;
      assert Expanded(cat, g, g.nodes[i]);
    }
  }

  /** All nodes are within two hops, whether or not the walk was cut short. */
  lemma NodesAreNear(cat: Catalog, origin: Obj, g: Graph, n: nat)
    requires Walking(cat, origin, g, n)
    ensures Objs(g.nodes) <= Within(cat, origin, MAX_VISION_DEPTH)
    ensures |g.nodes| <= |Within(cat, origin, MAX_VISION_DEPTH)|
  {
    hide Within, Complete, DrawnBy;
    forall i | 0 <= i < |g.nodes|
      ensures g.nodes[i].obj in Within(cat, origin, MAX_VISION_DEPTH)
    {
      WithinGrows(cat, origin, g.nodes[i].depth, MAX_VISION_DEPTH);
    }
    ObjsCount(g.nodes);
    SubsetCount(Objs(g.nodes), Within(cat, origin, MAX_VISION_DEPTH));
  }

  lemma NearAreNodes(cat: Catalog, origin: Obj, g: Graph)
    requires Walking(cat, origin, g, |g.nodes|) && !g.truncated
    ensures Objs(g.nodes) == Within(cat, origin, MAX_VISION_DEPTH)
    ensures |g.nodes| == |Within(cat, origin, MAX_VISION_DEPTH)| < MAX_VISION_NODES
  {
    hide Within, Complete, DrawnBy;
    NodesAreNear(cat, origin, g, |g.nodes|);
    forall o | o in Within(cat, origin, MAX_VISION_DEPTH)
      ensures o in Objs(g.nodes)
    {
      MetByHops(cat, origin, g, MAX_VISION_DEPTH, o);
      var i :| 0 <= i < |g.nodes| && g.nodes[i].obj == o && g.nodes[i].depth <= MAX_VISION_DEPTH;
    }
    ObjsCount(g.nodes);
  }

  /** The edges drawn for the objects within one hop. */
  ghost predicate EdgeNear(cat: Catalog, origin: Obj, e: Edge) {
    exists a :: a in Within(cat, origin, MAX_VISION_DEPTH - 1) && e in EdgesAt(cat, a)
  }

  lemma EdgesAreNear(cat: Catalog, origin: Obj, g: Graph, n: nat, e: Edge)
    requires Walking(cat, origin, g, n) && e in g.edges
    ensures EdgeNear(cat, origin, e)
  {
    hide Within, EdgesAt, Complete, Sane, InDepthOrder;
    assert DrawnBy(cat, g, n, e);
    var i :| 0 <= i < n && g.nodes[i].depth < MAX_VISION_DEPTH && e in EdgesAt(cat, g.nodes[i].obj);
    WithinGrows(cat, origin, g.nodes[i].depth, MAX_VISION_DEPTH - 1);
  }

  lemma NearAreEdges(cat: Catalog, origin: Obj, g: Graph, e: Edge)
    requires Walking(cat, origin, g, |g.nodes|) && !g.truncated && EdgeNear(cat, origin, e)
    ensures e in g.edges
  {
    hide Within, EdgesAt, Sane, InDepthOrder;
    var a :| a in Within(cat, origin, MAX_VISION_DEPTH - 1) && e in EdgesAt(cat, a);
    MetByHops(cat, origin, g, MAX_VISION_DEPTH - 1, a);
    var i :| 0 <= i < |g.nodes| && g.nodes[i].obj == a && g.nodes[i].depth <= MAX_VISION_DEPTH - 1;
    assert Expanded(cat, g, g.nodes[i]);
  }

  // ---- Degrees --------------------------------------------------------------------

  function EndsAt(e: Edge, o: Obj): nat {
    (if e.source == o then 1 else 0) + (if e.target == o then 1 else 0)
  }

  function DegreeOf(edges: seq<Edge>, o: Obj): nat {
    if edges == [] then 0 else DegreeOf(edges[..|edges| - 1], o) + EndsAt(edges[|edges| - 1], o)
  }

  function Lookup(m: map<Obj, nat>, o: Obj): nat {
    if o in m then m[o] else 0
  }

  method Degrees(edges: seq<Edge>) returns (degreeMap: map<Obj, nat>)
    ensures forall o :: Lookup(degreeMap, o) == DegreeOf(edges, o)
  {
    degreeMap := map[];
    var i := 0;
    while i < |edges|
      invariant 0 <= i <= |edges|
      invariant forall o :: Lookup(degreeMap, o) == DegreeOf(edges[..i], o)
    {
      var e := edges[i];
      degreeMap := degreeMap[e.source := Lookup(degreeMap, e.source) + 1];
      degreeMap := degreeMap[e.target := Lookup(degreeMap, e.target) + 1];
      assert edges[..i + 1][..i] == edges[..i];
      i := i + 1;
    }
    assert edges[..i] == edges;
  }

  function SumOfDegrees(objs: seq<Obj>, edges: seq<Edge>): nat {
    if objs == [] then 0 else DegreeOf(edges, objs[0]) + SumOfDegrees(objs[1..], edges)
  }

  function EndsIn(edges: seq<Edge>, objs: seq<Obj>): nat {
    if edges == [] then 0
    else
      var e := edges[|edges| - 1];
      EndsIn(edges[..|edges| - 1], objs) + (if e.source in objs then 1 else 0) + (if e.target in objs then 1 else 0)
  }

  /** Over distinct objects the degrees count each edge once for each of its ends. */
  lemma {:induction false} DegreesCountEnds(objs: seq<Obj>, edges: seq<Edge>)
    requires forall i, j :: 0 <= i < j < |objs| ==> objs[i] != objs[j]
    ensures SumOfDegrees(objs, edges) == EndsIn(edges, objs)
  {
    if objs == [] {
      NoEnds(edges);
    } else {
      DegreesCountEnds(objs[1..], edges);
      OneObjMore(edges, objs);
    }
  }

  lemma {:induction false} NoEnds(edges: seq<Edge>)
    ensures EndsIn(edges, []) == 0
  {
    if edges != [] {
      NoEnds(edges[..|edges| - 1]);
    }
  }

  lemma {:induction false} OneObjMore(edges: seq<Edge>, objs: seq<Obj>)
    requires objs != [] && objs[0] !in objs[1..]
    ensures EndsIn(edges, objs) == DegreeOf(edges, objs[0]) + EndsIn(edges, objs[1..])
  {
    assert objs == [objs[0]] + objs[1..];
    if edges != [] {
      OneObjMore(edges[..|edges| - 1], objs);
    }
  }

  lemma {:induction false} AllEndsIn(edges: seq<Edge>, objs: seq<Obj>)
    ensures EndsIn(edges, objs) <= 2 * |edges|
    ensures EndsIn(edges, objs) == 2 * |edges| <==> forall e :: e in edges ==> e.source in objs && e.target in objs
  {
    if edges != [] {
      var init := edges[..|edges| - 1];
      AllEndsIn(init, objs);
      assert edges == init + [edges[|edges| - 1]];
    }
  }

  // ---- The whole operation --------------------------------------------------------

  /** The breadth-first loop: stops when the queue is empty or the graph is full. */
  method Explore(cat: Catalog, origin: Obj) returns (g: Graph)
    ensures exists n: nat :: Walking(cat, origin, g, n) && (g.truncated || n == |g.nodes|)
  {
    hide Walking, Took, Neighbours, EdgesAt;
    WalkStarts(cat, origin);
    g := Graph([Item(origin, 0)], [Item(origin, 0)], [], false);
    ghost var n: nat := 0;
    while g.queue != []
      invariant Walking(cat, origin, g, n)
      invariant g.truncated ==> |g.nodes| == MAX_VISION_NODES
      decreases MAX_VISION_NODES - n
    {
      WalkFacts(cat, origin, g, n);
      if |g.nodes| >= MAX_VISION_NODES {
        WalkFull(cat, origin, g, n);
        g := g.(truncated := true);
        return;
      }
      var current := g.queue[0];
      ghost var before := g;
      g := g.(queue := g.queue[1..]);
      if current.depth >= MAX_VISION_DEPTH {
        LeafLeaves(cat, origin, before, n);
        n := n + 1;
        continue;
      }
      SaneQueue(before, g.queue);
      assert g.nodes[n].obj == current.obj;
      g := Expand(cat, g, current.obj, current.depth + 1);
      ExpansionKeeps(cat, origin, before, g, n);
      n := n + 1;
      WalkFacts(cat, origin, g, n);
    }
    WalkFacts(cat, origin, g, n);
  }

  lemma WalkFacts(cat: Catalog, origin: Obj, g: Graph, n: nat)
    requires Walking(cat, origin, g, n)
    ensures Sane(g) && n <= |g.nodes| <= MAX_VISION_NODES && g.queue == g.nodes[n..]
    ensures g.nodes != [] && g.nodes[0] == Item(origin, 0) && (n == 0 ==> |g.nodes| == 1)
    ensures g.queue != [] ==> g.queue[0] == g.nodes[n] && g.queue[0].depth <= MAX_VISION_DEPTH
    ensures g.queue == [] ==> n == |g.nodes|
    ensures g.truncated ==> |g.nodes| == MAX_VISION_NODES
  {
  }

  lemma WalkFull(cat: Catalog, origin: Obj, g: Graph, n: nat)
    requires Walking(cat, origin, g, n) && |g.nodes| == MAX_VISION_NODES
    ensures Walking(cat, origin, g.(truncated := true), n)
  {
    hide EdgesAt, Within, Expanded;
  }

  method VisionGraph(cat: Catalog, origin: Obj) returns (nodes: seq<Node>, edges: seq<Edge>, truncated: bool)
    ensures |nodes| <= MAX_VISION_NODES
    ensures forall i, j :: 0 <= i < j < |nodes| ==> nodes[i].obj != nodes[j].obj
    ensures forall i, j :: 0 <= i < j < |edges| ==> edges[i] != edges[j]
    ensures forall i :: 0 <= i < |nodes| ==> nodes[i].obj in Within(cat, origin, MAX_VISION_DEPTH)
    ensures forall i :: 0 <= i < |nodes| ==>
      nodes[i] == Node(nodes[i].obj, DegreeOf(edges, nodes[i].obj), nodes[i].obj == origin)
    ensures nodes != [] && nodes[0].obj == origin
    ensures truncated <==> |Within(cat, origin, MAX_VISION_DEPTH)| >= MAX_VISION_NODES
    ensures truncated ==> |nodes| == MAX_VISION_NODES
    ensures |Within(cat, origin, MAX_VISION_DEPTH)| <= MAX_VISION_NODES ==>
      (set i | 0 <= i < |nodes| :: nodes[i].obj) == Within(cat, origin, MAX_VISION_DEPTH)
    ensures || (forall i :: 0 <= i < |nodes| ==> nodes[i].obj in Within(cat, origin, 1))
            || Within(cat, origin, 1) <= (set i | 0 <= i < |nodes| :: nodes[i].obj)
    ensures forall e :: e in edges ==> EdgeNear(cat, origin, e)
    ensures !truncated ==> forall e :: EdgeNear(cat, origin, e) ==> e in edges
    ensures forall e :: e in edges && (e.kind == Dep || !truncated) ==>
      && (exists i :: 0 <= i < |nodes| && nodes[i].obj == e.source)
      && (exists i :: 0 <= i < |nodes| && nodes[i].obj == e.target)
    ensures TotalDegree(nodes) <= 2 * |edges| && (!truncated ==> TotalDegree(nodes) == 2 * |edges|)
  {
    hide Walking, Within, EdgeNear, DegreeOf, Objs, Has;
    var g := Explore(cat, origin);
    ghost var n: nat :| Walking(cat, origin, g, n) && (g.truncated || n == |g.nodes|);
    Finished(cat, origin, g, n);
    edges, truncated := g.edges, g.truncated;
    nodes := Label(g.nodes, edges, origin);
    SameObjects(g.nodes, nodes);
    DegreesAddUp(nodes, edges);
  }

  method Label(items: seq<Item>, edges: seq<Edge>, origin: Obj) returns (nodes: seq<Node>)
    ensures |nodes| == |items|
    ensures forall i :: 0 <= i < |nodes| ==>
      nodes[i] == Node(items[i].obj, DegreeOf(edges, items[i].obj), items[i].obj == origin)
  {
    hide DegreeOf;
    var degreeMap := Degrees(edges);
    nodes := [];
    while |nodes| < |items|
      invariant |nodes| <= |items|
      invariant forall i :: 0 <= i < |nodes| ==>
        nodes[i] == Node(items[i].obj, DegreeOf(edges, items[i].obj), items[i].obj == origin)
    {
      var o := items[|nodes|].obj;
      nodes := nodes + [Node(o, Lookup(degreeMap, o), o == origin)];
    }
  }

  lemma SameObjects(items: seq<Item>, nodes: seq<Node>)
    requires |nodes| == |items| && forall i :: 0 <= i < |nodes| ==> nodes[i].obj == items[i].obj
    ensures (set i | 0 <= i < |nodes| :: nodes[i].obj) == Objs(items)
    ensures forall o :: Has(items, o) ==> exists i :: 0 <= i < |nodes| && nodes[i].obj == o
  {
    forall o | Has(items, o)
      ensures exists i :: 0 <= i < |nodes| && nodes[i].obj == o
    {
      var i :| 0 <= i < |items| && items[i].obj == o;
      assert nodes[i].obj == o;
    }
  }

  lemma Finished(cat: Catalog, origin: Obj, g: Graph, n: nat)
    requires Walking(cat, origin, g, n) && (g.truncated || n == |g.nodes|)
    ensures Sane(g)
    ensures forall i :: 0 <= i < |g.nodes| ==> g.nodes[i].obj in Within(cat, origin, MAX_VISION_DEPTH)
    ensures g.nodes != [] && g.nodes[0].obj == origin
    ensures g.truncated <==> |Within(cat, origin, MAX_VISION_DEPTH)| >= MAX_VISION_NODES
    ensures |Within(cat, origin, MAX_VISION_DEPTH)| <= MAX_VISION_NODES ==>
      Objs(g.nodes) == Within(cat, origin, MAX_VISION_DEPTH)
    ensures (forall i :: 0 <= i < |g.nodes| ==> g.nodes[i].obj in Within(cat, origin, 1))
      || Within(cat, origin, 1) <= Objs(g.nodes)
    ensures forall e :: e in g.edges ==> EdgeNear(cat, origin, e)
    ensures !g.truncated ==> forall e :: EdgeNear(cat, origin, e) ==> e in g.edges
  {
    hide Walking, Within, EdgeNear;
    WalkFacts(cat, origin, g, n);
    NodesAreNear(cat, origin, g, n);
    NearAreFirst(cat, origin, g, n);
    ObjsCount(g.nodes);
    SameSizeSameSet(Objs(g.nodes), Within(cat, origin, MAX_VISION_DEPTH));
    forall i | 0 <= i < |g.nodes|
      ensures g.nodes[i].obj in Within(cat, origin, MAX_VISION_DEPTH)
    {
      assert g.nodes[i].obj in Objs(g.nodes);
    }
    forall e | e in g.edges
      ensures EdgeNear(cat, origin, e)
    {
      EdgesAreNear(cat, origin, g, n, e);
    }
    if !g.truncated {
      NearAreNodes(cat, origin, g);
      forall e | EdgeNear(cat, origin, e)
        ensures e in g.edges
      {
        NearAreEdges(cat, origin, g, e);
      }
    }
  }

  lemma SameSizeSameSet<T>(a: set<T>, b: set<T>)
    requires a <= b
    ensures |a| >= |b| ==> a == b
  {
    SubsetCount(b - a, b);
    assert b == a + (b - a);
  }

  /** With a node two hops away, all objects within one hop are nodes. */
  lemma NearAreFirst(cat: Catalog, origin: Obj, g: Graph, n: nat)
    requires Walking(cat, origin, g, n)
    ensures (forall i :: 0 <= i < |g.nodes| ==> g.nodes[i].obj in Within(cat, origin, 1))
      || Within(cat, origin, 1) <= Objs(g.nodes)
  {
    hide Within, Complete, DrawnBy, Sane, InDepthOrder;
    if forall i :: 0 <= i < |g.nodes| ==> g.nodes[i].depth <= 1 {
      forall i | 0 <= i < |g.nodes|
        ensures g.nodes[i].obj in Within(cat, origin, 1)
      {
        WithinGrows(cat, origin, g.nodes[i].depth, 1);
      }
    } else {
      forall o | o in Within(cat, origin, 1)
        ensures o in Objs(g.nodes)
      {
        assert Has(g.nodes, o);
        var i :| 0 <= i < |g.nodes| && g.nodes[i].obj == o;
      }
    }
  }

  function TotalDegree(nodes: seq<Node>): nat {
    if nodes == [] then 0 else nodes[0].degree + TotalDegree(nodes[1..])
  }

  function ObjsOf(nodes: seq<Node>): (objs: seq<Obj>)
    ensures |objs| == |nodes| && forall i :: 0 <= i < |nodes| ==> objs[i] == nodes[i].obj
  {
    seq(|nodes|, i requires 0 <= i < |nodes| => nodes[i].obj)
  }

  lemma {:induction false} TotalIsSum(nodes: seq<Node>, edges: seq<Edge>)
    requires forall i :: 0 <= i < |nodes| ==> nodes[i].degree == DegreeOf(edges, nodes[i].obj)
    ensures TotalDegree(nodes) == SumOfDegrees(ObjsOf(nodes), edges)
  {
    hide DegreeOf;
    if nodes != [] {
      TotalIsSum(nodes[1..], edges);
      assert ObjsOf(nodes)[1..] == ObjsOf(nodes[1..]);
    }
  }

  /** The degrees of the nodes add up to twice the edges exactly when no edge dangles. */
  lemma DegreesAddUp(nodes: seq<Node>, edges: seq<Edge>)
    requires forall i, j :: 0 <= i < j < |nodes| ==> nodes[i].obj != nodes[j].obj
    requires forall i :: 0 <= i < |nodes| ==> nodes[i].degree == DegreeOf(edges, nodes[i].obj)
    ensures TotalDegree(nodes) <= 2 * |edges|
    ensures TotalDegree(nodes) == 2 * |edges| <==> forall e :: e in edges ==>
      && (exists i :: 0 <= i < |nodes| && nodes[i].obj == e.source)
      && (exists i :: 0 <= i < |nodes| && nodes[i].obj == e.target)
  {
    hide DegreeOf;
    var objs := ObjsOf(nodes);
    TotalIsSum(nodes, edges);
    DegreesCountEnds(objs, edges);
    AllEndsIn(edges, objs);
    forall o
      ensures o in objs <==> exists i :: 0 <= i < |nodes| && nodes[i].obj == o
    {
      if exists i :: 0 <= i < |nodes| && nodes[i].obj == o {
        var i :| 0 <= i < |nodes| && nodes[i].obj == o;
        assert objs[i] == o;
      }
    }
  }

  // ---- Full, and nothing left out -------------------------------------------------

  const CENTRE := Obj("HR", "")

  function Ray(i: nat): Obj {
    Obj("HR", seq(i + 1, _ => 'x'))
  }

  function Rays(n: nat): (os: seq<Obj>)
    ensures |os| == n && forall i :: 0 <= i < n ==> os[i] == Ray(i)
  {
    seq(n, i requires 0 <= i < n => Ray(i))
  }

  /** A view over n others. */
  function Star(n: nat): Catalog {
    Catalog(o => if o == CENTRE then Rays(n) else [], _ => [], _ => [], _ => "VIEW")
  }

  lemma {:induction false} RaysCount(n: nat)
    ensures |set i | 0 <= i < n :: Ray(i)| == n
  {
    if n > 0 {
      RaysCount(n - 1);
      forall i | 0 <= i < n - 1
        ensures Ray(i) != Ray(n - 1)
      {
        assert |Ray(i).name| != |Ray(n - 1).name|;
      }
      assert (set i | 0 <= i < n :: Ray(i)) == (set i | 0 <= i < n - 1 :: Ray(i)) + {Ray(n - 1)};
    }
  }

  lemma RayIsNotCentre(i: nat)
    ensures Ray(i) != CENTRE && !IsSystem(Ray(i))
  {
    assert |Ray(i).name| != |CENTRE.name|;
  }

  lemma NearStar(n: nat, hops: nat)
    requires hops == 1 || hops == 2
    ensures Within(Star(n), CENTRE, hops) == {CENTRE} + set i | 0 <= i < n :: Ray(i)
  {
    hide Ray;
    var cat, rays := Star(n), set i | 0 <= i < n :: Ray(i);
    forall i: nat | i < n
      ensures Ray(i) != CENTRE && !IsSystem(Ray(i)) && Neighbours(cat, Ray(i)) == {}
    {
      RayIsNotCentre(i);
    }
    assert Shown(cat.up(CENTRE), CENTRE) == rays;
    assert Neighbours(cat, CENTRE) == rays;
    assert Within(cat, CENTRE, 0) == {CENTRE};
    assert Within(cat, CENTRE, 1) == {CENTRE} + rays;
  }

  /** A graph of just the size of the cap: with this catalog all 150 objects are nodes, and truncation is reported. */
  lemma FullStar()
    ensures |Within(Star(MAX_VISION_NODES - 1), CENTRE, MAX_VISION_DEPTH)| == MAX_VISION_NODES
  {
    var n := MAX_VISION_NODES - 1;
    NearStar(n, 2);
    RaysCount(n);
    forall i: nat | i < n
      ensures Ray(i) != CENTRE
    {
      RayIsNotCentre(i);
    }
  }
}
