/** The order of execution plan steps (sidecar/src/flow.ts). */
module PlanOrder {
  import opened Common

  /* A post-order walk of the plan forest, and the numbered events made from it. Only unique ids are asked of it. */

  datatype Node = Node(id: int, parent: Option<int>)

  datatype Event = Event(stepIndex: nat, planId: int, childIds: seq<int>)

  predicate UniqueIds(nodes: seq<Node>) {
    forall i, j :: 0 <= i < j < |nodes| ==> nodes[i].id != nodes[j].id
  }

  // ---- Children -------------------------------------------------------------------

  /** The nodes below a key, in plan order; the key of the roots is None. */
  function KidsIn(nodes: seq<Node>, key: Option<int>): seq<Node> {
    if nodes == [] then []
    else
      var rest := KidsIn(nodes[..|nodes| - 1], key);
      var last := nodes[|nodes| - 1];
      if last.parent == key then rest + [last] else rest
  }

  function InsertById(n: Node, ns: seq<Node>): seq<Node> {
    if ns == [] || n.id < ns[0].id then [n] + ns else [ns[0]] + InsertById(n, ns[1..])
  }

  function SortById(ns: seq<Node>): seq<Node> {
    if ns == [] then [] else InsertById(ns[|ns| - 1], SortById(ns[..|ns| - 1]))
  }

  function Children(nodes: seq<Node>, key: Option<int>): seq<Node> {
    SortById(KidsIn(nodes, key))
  }

  predicate Ascending(ns: seq<Node>) {
    forall i, j :: 0 <= i < j < |ns| ==> ns[i].id < ns[j].id
  }

  lemma {:induction false} KidsAre(nodes: seq<Node>, key: Option<int>)
    ensures forall n :: n in KidsIn(nodes, key) <==> n in nodes && n.parent == key
    ensures UniqueIds(nodes) ==> UniqueIds(KidsIn(nodes, key))
  {
    if nodes != [] {
      var init := nodes[..|nodes| - 1];
      assert nodes == init + [nodes[|nodes| - 1]];
      KidsAre(init, key);
      var kids := KidsIn(init, key);
      if UniqueIds(nodes) {
        assert forall n :: n in kids ==> n in init && n.id != nodes[|nodes| - 1].id;
      }
    }
  }

  lemma {:induction false} InsertedById(n: Node, ns: seq<Node>)
    requires Ascending(ns) && forall m :: m in ns ==> m.id != n.id
    ensures Ascending(InsertById(n, ns))
    ensures forall m :: m in InsertById(n, ns) <==> m == n || m in ns
  {
    if ns != [] && !(n.id < ns[0].id) {
      InsertedById(n, ns[1..]);
      assert ns == [ns[0]] + ns[1..];
      assert forall m :: m in InsertById(n, ns[1..]) ==> ns[0].id < m.id;
    }
  }

  lemma {:induction false} SortedById(ns: seq<Node>)
    requires UniqueIds(ns)
    ensures Ascending(SortById(ns))
    ensures forall m :: m in SortById(ns) <==> m in ns
  {
    if ns != [] {
      var init := ns[..|ns| - 1];
      assert ns == init + [ns[|ns| - 1]];
      SortedById(init);
      InsertedById(ns[|ns| - 1], SortById(init));
    }
  }

  lemma ChildrenAre(nodes: seq<Node>, key: Option<int>)
    requires UniqueIds(nodes)
    ensures Ascending(Children(nodes, key))
    ensures forall n :: n in Children(nodes, key) <==> n in nodes && n.parent == key
  {
    KidsAre(nodes, key);
    SortedById(KidsIn(nodes, key));
  }

  // ---- Paths from a root ----------------------------------------------------------

  /** A node with the chain of its parents; None stands above the roots. */
  datatype Path = Path(up: Option<Path>, node: Node)

  function KeyBelow(up: Option<Path>): Option<int> {
    if up.None? then None else Some(up.value.node.id)
  }

  function Depth(up: Option<Path>): nat {
    if up.None? then 0 else 1 + Depth(up.value.up)
  }

  /** A chain of plan nodes, each the child of the one above, hanging from a root. */
  predicate IsPath(nodes: seq<Node>, p: Path) {
    p.node in nodes && p.node.parent == KeyBelow(p.up) && Hangs(nodes, p.up)
  }

  predicate Hangs(nodes: seq<Node>, up: Option<Path>) {
    up.Some? ==> IsPath(nodes, up.value)
  }

  /** Path p is q or runs on below it. */
  predicate Under(p: Path, q: Path) {
    p == q || (p.up.Some? && Under(p.up.value, q))
  }

  function NodesOn(up: Option<Path>): set<Node> {
    if up.None? then {} else NodesOn(up.value.up) + {up.value.node}
  }

  lemma {:induction false} PathsAreUnique(nodes: seq<Node>, p: Path, q: Path)
    requires UniqueIds(nodes) && IsPath(nodes, p) && IsPath(nodes, q) && p.node.id == q.node.id
    ensures p == q
  {
    if p.up.Some? {
      PathsAreUnique(nodes, p.up.value, q.up.value);
    }
  }

  lemma {:induction false} UnderIsPath(nodes: seq<Node>, p: Path, q: Path)
    requires IsPath(nodes, p) && Under(p, q)
    ensures IsPath(nodes, q) && Depth(Some(q)) <= Depth(Some(p)) && (p != q ==> Depth(Some(q)) < Depth(Some(p)))
  {
    if p != q {
      UnderIsPath(nodes, p.up.value, q);
    }
  }

  lemma {:induction false} OnPath(up: Option<Path>, n: Node) returns (q: Path)
    requires n in NodesOn(up)
    ensures Under(up.value, q) && q.node == n
  {
    if up.value.node == n {
      q := up.value;
    } else {
      q := OnPath(up.value.up, n);
    }
  }

  /** A path never meets a node twice, so it is no longer than the plan. */
  lemma {:induction false} PathIsShort(nodes: seq<Node>, up: Option<Path>)
    requires UniqueIds(nodes) && Hangs(nodes, up)
    ensures NodesOn(up) <= (set n | n in nodes) && |NodesOn(up)| == Depth(up) <= |nodes|
  {
    if up.Some? {
      var p := up.value;
      PathIsShort(nodes, p.up);
      if p.node in NodesOn(p.up) {
        var q := OnPath(p.up, p.node);
        UnderIsPath(nodes, p.up.value, q);
        PathsAreUnique(nodes, p, q);
        assert false;
      }
    }
    SetOfSeq(nodes);
    SubsetCount(NodesOn(up), set n | n in nodes);
  }

  lemma {:induction false} SetOfSeq(nodes: seq<Node>)
    ensures |set n | n in nodes| <= |nodes|
  {
    if nodes != [] {
      var rest := nodes[1..];
      SetOfSeq(rest);
      assert (set n | n in nodes) == (set n | n in rest) + {nodes[0]};
    }
  }

  lemma {:induction false} UnderBoth(p: Path, a: Path, b: Path)
    requires Under(p, a) && Under(p, b) && Depth(Some(a)) <= Depth(Some(b))
    ensures Under(b, a) && (Depth(Some(a)) == Depth(Some(b)) ==> a == b)
  {
    if p != b {
      if p == a {
        UnderIsDeep(p.up.value, b);
      } else {
        UnderBoth(p.up.value, a, b);
      }
    } else {
      UnderIsDeep(b, a);
    }
  }

  lemma {:induction false} UnderIsDeep(p: Path, q: Path)
    requires Under(p, q)
    ensures Depth(Some(q)) <= Depth(Some(p)) && (p != q ==> Depth(Some(q)) < Depth(Some(p)))
  {
    if p != q {
      UnderIsDeep(p.up.value, q);
    }
  }

  lemma {:induction false} UnderTransitive(p: Path, q: Path, r: Path)
    requires Under(p, q) && Under(q, r)
    ensures Under(p, r)
  {
    if p != q {
      UnderTransitive(p.up.value, q, r);
    }
  }

  // ---- The walk -------------------------------------------------------------------

  /** The path of each node visited at and below a path, in visiting order. */
  function Walk(nodes: seq<Node>, p: Path): seq<Path>
    requires UniqueIds(nodes) && IsPath(nodes, p)
    decreases |nodes| - Depth(Some(p)), 1, 0
  {
    PathIsShort(nodes, Some(p));
    ChildrenAre(nodes, Some(p.node.id));
    WalkAll(nodes, Some(p), Children(nodes, Some(p.node.id))) + [p]
  }

  function WalkAll(nodes: seq<Node>, up: Option<Path>, kids: seq<Node>): seq<Path>
    requires UniqueIds(nodes) && Hangs(nodes, up)
    requires forall k :: k in kids ==> k in nodes && k.parent == KeyBelow(up)
    decreases |nodes| - Depth(up), 0, |kids|
  {
    if kids == [] then []
    else
      var last := Path(up, kids[|kids| - 1]);
      PathIsShort(nodes, Some(last));
      WalkAll(nodes, up, kids[..|kids| - 1]) + Walk(nodes, last)
  }

  function Ends(paths: seq<Path>): seq<Node> {
    seq(|paths|, i requires 0 <= i < |paths| => paths[i].node)
  }

  /** Post-order: a path precedes another if it runs on below it, or turns to a smaller id. */
  ghost predicate Precedes(p: Path, q: Path) {
    (p != q && Under(p, q)) || exists a, b :: TurnsBefore(p, a, q, b)
  }

  ghost predicate TurnsBefore(p: Path, a: Path, q: Path, b: Path) {
    Under(p, a) && Under(q, b) && a.up == b.up && a.node.id < b.node.id
  }

  lemma NeverBoth(p: Path, q: Path)
    ensures !(Precedes(p, q) && Precedes(q, p))
  {
    if Precedes(p, q) && Precedes(q, p) {
      if p != q && Under(p, q) {
        UnderIsDeep(p, q);
        if Under(q, p) {
          UnderIsDeep(q, p);
        } else {
          var a, b :| TurnsBefore(q, a, p, b);
          NoTurnBelow(p, q, b, a);
        }
      } else {
        var a, b :| TurnsBefore(p, a, q, b);
        if p != q && Under(q, p) {
          NoTurnBelow(q, p, b, a);
        } else {
          var c, d :| TurnsBefore(q, c, p, d);
          if Depth(Some(a)) == Depth(Some(d)) {
            UnderBoth(p, a, d);
            UnderBoth(q, b, c);
          } else if Depth(Some(a)) < Depth(Some(d)) {
            NoTurnTwice(p, a, b, d, q, c);
          } else {
            NoTurnTwice(p, d, c, a, q, b);
          }
        }
      }
    }
  }

  /** If p runs on below q, the two do not part. */
  lemma NoTurnBelow(p: Path, q: Path, a: Path, b: Path)
    requires Under(p, q) && Under(p, a) && Under(q, b) && a.up == b.up
    ensures a == b
  {
    UnderTransitive(p, q, b);
    UnderBoth(p, a, b);
  }

  /** Two paths part only once. */
  lemma NoTurnTwice(p: Path, a: Path, b: Path, d: Path, q: Path, c: Path)
    requires Under(p, a) && Under(q, b) && a.up == b.up
    requires Under(p, d) && Under(q, c) && d.up == c.up
    requires Depth(Some(a)) < Depth(Some(d))
    ensures a == b
  {
    hide Under, Depth;
    SameDepth(a, b);
    SameDepth(d, c);
    UnderBoth(p, a, d);
    UnderBoth(q, b, c);
    JustAbove(d, a);
    JustAbove(c, b);
    UnderBoth(d.up.value, a, b);
  }

  lemma SameDepth(a: Path, b: Path)
    requires a.up == b.up
    ensures Depth(Some(a)) == Depth(Some(b))
  {
  }

  lemma JustAbove(d: Path, a: Path)
    requires Under(d, a) && Depth(Some(a)) < Depth(Some(d))
    ensures d.up.Some? && Under(d.up.value, a)
  {
  }

  ghost predicate InPostOrder(paths: seq<Path>) {
    forall i, j :: 0 <= i < j < |paths| ==> Precedes(paths[i], paths[j])
  }

  /** Path p runs through one of the children below a path. */
  ghost predicate Through(up: Option<Path>, kids: seq<Node>, p: Path) {
    exists k :: k in kids && Under(p, Path(up, k))
  }

  lemma {:induction false} WalkVisits(nodes: seq<Node>, path: Path)
    requires UniqueIds(nodes) && IsPath(nodes, path)
    ensures forall p :: p in Walk(nodes, path) <==> IsPath(nodes, p) && Under(p, path)
    ensures InPostOrder(Walk(nodes, path))
    decreases |nodes| - Depth(Some(path)), 1, 0
  {
    hide Precedes, Through;
    PathIsShort(nodes, Some(path));
    var kids := Children(nodes, Some(path.node.id));
    ChildrenAre(nodes, Some(path.node.id));
    WalkAllVisits(nodes, Some(path), kids);
    forall p | IsPath(nodes, p)
      ensures Through(Some(path), kids, p) <==> p != path && Under(p, path)
      ensures Through(Some(path), kids, p) ==> Precedes(p, path)
    {
      BelowIsThrough(nodes, path, kids, p);
    }
  }

  lemma {:induction false} BelowIsThrough(nodes: seq<Node>, path: Path, kids: seq<Node>, p: Path)
    requires IsPath(nodes, path) && IsPath(nodes, p)
    requires forall n :: n in kids <==> n in nodes && n.parent == Some(path.node.id)
    ensures Through(Some(path), kids, p) <==> p != path && Under(p, path)
    ensures Through(Some(path), kids, p) ==> Precedes(p, path)
  {
    if Through(Some(path), kids, p) {
      var k :| k in kids && Under(p, Path(Some(path), k));
      UnderTransitive(p, Path(Some(path), k), path);
      UnderIsDeep(p, Path(Some(path), k));
    }
    if p != path && Under(p, path) {
      if p.up.value == path {
        assert Under(p, Path(Some(path), p.node));
      } else {
        BelowIsThrough(nodes, path, kids, p.up.value);
        var k :| k in kids && Under(p.up.value, Path(Some(path), k));
        assert Under(p, Path(Some(path), k));
      }
    }
  }

  lemma {:induction false} WalkAllVisits(nodes: seq<Node>, up: Option<Path>, kids: seq<Node>)
    requires UniqueIds(nodes) && Hangs(nodes, up) && Ascending(kids)
    requires forall k :: k in kids ==> k in nodes && k.parent == KeyBelow(up)
    ensures forall p :: p in WalkAll(nodes, up, kids) <==> IsPath(nodes, p) && Through(up, kids, p)
    ensures InPostOrder(WalkAll(nodes, up, kids))
    decreases |nodes| - Depth(up), 0, |kids|
  {
    hide Precedes, Through, Under, InPostOrder;
    EmptyIsInPostOrder();
    if kids != [] {
      var init, last := kids[..|kids| - 1], kids[|kids| - 1];
      PathIsShort(nodes, Some(Path(up, last)));
      WalkAllVisits(nodes, up, init);
      WalkVisits(nodes, Path(up, last));
      assert kids == init + [last];
      forall p
        ensures Through(up, kids, p) <==> Through(up, init, p) || Under(p, Path(up, last))
      {
        ThroughLast(up, init, last, p);
      }
      forall p, q | Through(up, init, p) && Under(q, Path(up, last))
        ensures Precedes(p, q)
      {
        SiblingsPrecede(up, init, last, p, q);
      }
      PostOrderConcat(WalkAll(nodes, up, init), Walk(nodes, Path(up, last)));
    } else {
      NotThrough(up);
    }
  }

  lemma EmptyIsInPostOrder()
    ensures InPostOrder([])
  {
  }

  lemma PostOrderConcat(a: seq<Path>, b: seq<Path>)
    requires InPostOrder(a) && InPostOrder(b)
    requires forall p, q :: p in a && q in b ==> Precedes(p, q)
    ensures InPostOrder(a + b)
  {
  }

  lemma NotThrough(up: Option<Path>)
    ensures forall p :: !Through(up, [], p)
  {
  }

  lemma ThroughLast(up: Option<Path>, init: seq<Node>, last: Node, p: Path)
    ensures Through(up, init + [last], p) <==> Through(up, init, p) || Under(p, Path(up, last))
  {
    assert last in init + [last];
  }

  lemma SiblingsPrecede(up: Option<Path>, init: seq<Node>, last: Node, p: Path, q: Path)
    requires Ascending(init + [last]) && Through(up, init, p) && Under(q, Path(up, last))
    ensures Precedes(p, q)
  {
    var k :| k in init && Under(p, Path(up, k));
    var i :| 0 <= i < |init| && init[i] == k;
    assert (init + [last])[i].id < (init + [last])[|init|].id;
    assert TurnsBefore(p, Path(up, k), q, Path(up, last));
  }

  // ---- Planning -------------------------------------------------------------------

  ghost predicate IsPathTo(nodes: seq<Node>, p: Path, n: Node) {
    IsPath(nodes, p) && p.node == n
  }

  /**
   * A node whose chain of parents reaches a root. Others, with a parent missing or in a
   * cycle, are not visited, and that is part of what is proved.
   */
  ghost predicate Rooted(nodes: seq<Node>, n: Node) {
    exists p :: IsPathTo(nodes, p, n)
  }

  function Paths(nodes: seq<Node>): seq<Path>
    requires UniqueIds(nodes)
  {
    ChildrenAre(nodes, None);
    WalkAll(nodes, None, Children(nodes, None))
  }

  function Order(nodes: seq<Node>): seq<Node>
    requires UniqueIds(nodes)
  {
    Ends(Paths(nodes))
  }

  lemma PathsAreAll(nodes: seq<Node>)
    requires UniqueIds(nodes)
    ensures forall p :: p in Paths(nodes) <==> IsPath(nodes, p)
    ensures InPostOrder(Paths(nodes))
  {
    hide Precedes, Through;
    ChildrenAre(nodes, None);
    WalkAllVisits(nodes, None, Children(nodes, None));
    forall p | IsPath(nodes, p)
      ensures Through(None, Children(nodes, None), p)
    {
      FromRoot(nodes, Children(nodes, None), p);
    }
  }

  lemma {:induction false} FromRoot(nodes: seq<Node>, roots: seq<Node>, p: Path)
    requires IsPath(nodes, p)
    requires forall n :: n in roots <==> n in nodes && n.parent == None
    ensures Through(None, roots, p)
  {
    if p.up.None? {
      assert Under(p, Path(None, p.node));
    } else {
      FromRoot(nodes, roots, p.up.value);
      var k :| k in roots && Under(p.up.value, Path(None, k));
      assert Under(p, Path(None, k));
    }
  }

  /**
   * The order is the post-order of the rooted nodes: each of them once, and of two nodes
   * the first is the one below the other or on the branch that turns to the smaller id.
   */
  lemma OrderIsPostOrder(nodes: seq<Node>)
    requires UniqueIds(nodes)
    ensures forall n :: n in Order(nodes) <==> Rooted(nodes, n)
    ensures forall i, j, p, q | 0 <= i < |Order(nodes)| && 0 <= j < |Order(nodes)| ::
      IsPathTo(nodes, p, Order(nodes)[i]) && IsPathTo(nodes, q, Order(nodes)[j]) ==> (i < j <==> Precedes(p, q))
  {
    hide Precedes;
    var paths := Paths(nodes);
    PathsAreAll(nodes);
    forall n
      ensures n in Order(nodes) <==> Rooted(nodes, n)
    {
      if n in Order(nodes) {
        var i :| 0 <= i < |paths| && Order(nodes)[i] == n;
        assert paths[i] in paths;
        assert IsPathTo(nodes, paths[i], n);
      }
      if Rooted(nodes, n) {
        var p :| IsPathTo(nodes, p, n);
        var i :| 0 <= i < |paths| && paths[i] == p;
        assert Order(nodes)[i] == n;
      }
    }
    forall i, j, p, q |
      && 0 <= i < |Order(nodes)| && 0 <= j < |Order(nodes)|
      && IsPathTo(nodes, p, Order(nodes)[i]) && IsPathTo(nodes, q, Order(nodes)[j])
      ensures i < j <==> Precedes(p, q)
    {
      OrderAt(nodes, i, p);
      OrderAt(nodes, j, q);
      NeverBoth(p, q);
    }
  }

  lemma OrderAt(nodes: seq<Node>, i: nat, p: Path)
    requires UniqueIds(nodes) && i < |Order(nodes)| && IsPathTo(nodes, p, Order(nodes)[i])
    ensures Paths(nodes)[i] == p
  {
    PathsAreAll(nodes);
    assert Paths(nodes)[i] in Paths(nodes);
    PathsAreUnique(nodes, p, Paths(nodes)[i]);
  }

  /** No node is listed twice. */
  lemma OrderIsDistinct(nodes: seq<Node>)
    requires UniqueIds(nodes)
    ensures forall i, j :: 0 <= i < j < |Order(nodes)| ==> Order(nodes)[i] != Order(nodes)[j]
  {
    PathsAreAll(nodes);
    var paths := Paths(nodes);
    forall i, j | 0 <= i < j < |paths|
      ensures paths[i].node != paths[j].node
    {
      assert paths[i] in paths && paths[j] in paths;
      assert Precedes(paths[i], paths[j]);
      NeverBoth(paths[i], paths[j]);
      if paths[i].node == paths[j].node {
        PathsAreUnique(nodes, paths[i], paths[j]);
        assert false;
      }
    }
  }

  /** Nothing is lost exactly when every node hangs from a root. */
  lemma OrderIsPermutation(nodes: seq<Node>)
    requires UniqueIds(nodes)
    ensures multiset(Order(nodes)) == multiset(nodes) <==> forall n :: n in nodes ==> Rooted(nodes, n)
  {
    OrderIsPostOrder(nodes);
    OrderIsDistinct(nodes);
    var out := Order(nodes);
    if multiset(out) == multiset(nodes) {
      forall n | n in nodes
        ensures Rooted(nodes, n)
      {
        assert n in multiset(nodes);
        assert n in out;
      }
    }
    if forall n :: n in nodes ==> Rooted(nodes, n) {
      forall n
        ensures multiset(out)[n] == multiset(nodes)[n]
      {
        if n in out {
          var p :| IsPathTo(nodes, p, n);
        }
        CountOf(out, n);
        CountOf(nodes, n);
      }
    }
  }

  lemma {:induction false} CountOf(s: seq<Node>, n: Node)
    requires forall i, j :: 0 <= i < j < |s| ==> s[i] != s[j]
    ensures multiset(s)[n] == if n in s then 1 else 0
  {
    if s != [] {
      CountOf(s[1..], n);
      assert s == [s[0]] + s[1..];
    }
  }

  /** In a plan as the database writes it, every parent is there with a smaller id, so every node hangs from a root. */
  lemma PlansAreRooted(nodes: seq<Node>)
    requires forall n :: n in nodes && n.parent.Some? ==>
      exists m :: m in nodes && m.id == n.parent.value && m.id < n.id
    ensures forall n :: n in nodes ==> Rooted(nodes, n)
  {
    forall n | n in nodes
      ensures Rooted(nodes, n)
    {
      var p := PathTo(nodes, n);
      assert IsPathTo(nodes, p, n);
    }
  }

  lemma {:induction false} PathTo(nodes: seq<Node>, n: Node) returns (p: Path)
    requires n in nodes
    requires forall n :: n in nodes && n.parent.Some? ==>
      exists m :: m in nodes && m.id == n.parent.value && m.id < n.id
    ensures IsPathTo(nodes, p, n)
    decreases n.id - LeastId(nodes)
  {
    LeastIdIs(nodes);
    if n.parent.None? {
      p := Path(None, n);
    } else {
      var m :| m in nodes && m.id == n.parent.value && m.id < n.id;
      var q := PathTo(nodes, m);
      p := Path(Some(q), n);
    }
  }

  function LeastId(nodes: seq<Node>): int {
    if nodes == [] then 0
    else
      var least := LeastId(nodes[1..]);
      if |nodes| == 1 || nodes[0].id < least then nodes[0].id else least
  }

  lemma {:induction false} LeastIdIs(nodes: seq<Node>)
    ensures forall n :: n in nodes ==> LeastId(nodes) <= n.id
  {
    if nodes != [] {
      LeastIdIs(nodes[1..]);
      assert nodes == [nodes[0]] + nodes[1..];
    }
  }

  // ---- The program ----------------------------------------------------------------

  /** Looks up a key the way the map of child lists is read, with [] for a missing one. */
  function ListAt<T>(m: map<Option<int>, seq<T>>, key: Option<int>): seq<T> {
    if key in m then m[key] else []
  }

  lemma EndsConcat(a: seq<Path>, b: seq<Path>)
    ensures Ends(a + b) == Ends(a) + Ends(b)
  {
  }

  lemma WalkNone(nodes: seq<Node>, up: Option<Path>)
    requires UniqueIds(nodes) && Hangs(nodes, up)
    ensures Ends(WalkAll(nodes, up, [])) == []
  {
  }

  lemma WalkOneMore(nodes: seq<Node>, up: Option<Path>, kids: seq<Node>, i: nat)
    requires UniqueIds(nodes) && Hangs(nodes, up)
    requires forall k :: k in kids ==> k in nodes && k.parent == KeyBelow(up)
    requires i < |kids|
    ensures Ends(WalkAll(nodes, up, kids[..i + 1]))
         == Ends(WalkAll(nodes, up, kids[..i])) + Ends(Walk(nodes, Path(up, kids[i])))
  {
    hide Ends;
    assert kids[..i + 1][..i] == kids[..i];
    EndsConcat(WalkAll(nodes, up, kids[..i]), Walk(nodes, Path(up, kids[i])));
  }

  class PlanWalk {
    var childrenOf: map<Option<int>, seq<Node>>
    var out: seq<Node>

    constructor () {
      childrenOf, out := map[], [];
    }

    /** Groups the plan by parent and sorts each group. */
    method Group(nodes: seq<Node>)
      modifies this
      ensures forall key :: ListAt(childrenOf, key) == Children(nodes, key)
      ensures out == old(out)
    {
      childrenOf := map[];
      var i := 0;
      while i < |nodes|
        invariant 0 <= i <= |nodes|
        invariant forall key :: ListAt(childrenOf, key) == KidsIn(nodes[..i], key)
        invariant out == old(out)
      {
        var n := nodes[i];
        childrenOf := childrenOf[n.parent := ListAt(childrenOf, n.parent) + [n]];
        assert nodes[..i + 1][..i] == nodes[..i];
        i := i + 1;
      }
      assert nodes[..i] == nodes;
      childrenOf := map key | key in childrenOf :: SortById(childrenOf[key]);
    }

    /** Visits a node, which the ghost path leads to: its children first, then the node itself. */
    method Visit(node: Node, ghost nodes: seq<Node>, ghost p: Path)
      requires UniqueIds(nodes) && IsPath(nodes, p) && p.node == node
      requires forall key :: ListAt(childrenOf, key) == Children(nodes, key)
      modifies this
      ensures out == old(out) + Ends(Walk(nodes, p))
      ensures childrenOf == old(childrenOf)
      decreases |nodes| - Depth(Some(p)), 1, 0
    {
      PathIsShort(nodes, Some(p));
      ChildrenAre(nodes, Some(node.id));
      VisitAll(ListAt(childrenOf, Some(node.id)), nodes, Some(p));
      out := out + [node];
    }

    method VisitAll(kids: seq<Node>, ghost nodes: seq<Node>, ghost up: Option<Path>)
      requires UniqueIds(nodes) && Hangs(nodes, up)
      requires forall k :: k in kids ==> k in nodes && k.parent == KeyBelow(up)
      requires forall key :: ListAt(childrenOf, key) == Children(nodes, key)
      modifies this
      ensures out == old(out) + Ends(WalkAll(nodes, up, kids))
      ensures childrenOf == old(childrenOf)
      decreases |nodes| - Depth(up), 0, 0
    {
      hide Walk, WalkAll, Children, UniqueIds, Ends;
      WalkNone(nodes, up);
      assert kids[..0] == [];
      var i := 0;
      while i < |kids|
        invariant 0 <= i <= |kids|
        invariant childrenOf == old(childrenOf)
        invariant out == old(out) + Ends(WalkAll(nodes, up, kids[..i]))
      {
        PathIsShort(nodes, Some(Path(up, kids[i])));
        WalkOneMore(nodes, up, kids, i);
        Visit(kids[i], nodes, Path(up, kids[i]));
        i := i + 1;
      }
      assert kids[..i] == kids;
    }
  }

  /** The nodes in the order they execute. */
  method PlanExecutionOrder(nodes: seq<Node>) returns (out: seq<Node>)
    requires UniqueIds(nodes)
    ensures out == Order(nodes)
  {
    var walk := new PlanWalk();
    walk.Group(nodes);
    walk.out := [];
    ChildrenAre(nodes, None);
    walk.VisitAll(ListAt(walk.childrenOf, None), nodes, None);
    return walk.out;
  }

  /** The ids below a key, in plan order. */
  function IdsOf(ns: seq<Node>): seq<int> {
    seq(|ns|, i requires 0 <= i < |ns| => ns[i].id)
  }

  method GroupIds(nodes: seq<Node>) returns (childrenOf: map<Option<int>, seq<int>>)
    ensures forall key :: ListAt(childrenOf, key) == IdsOf(KidsIn(nodes, key))
  {
    childrenOf := map[];
    var i := 0;
    while i < |nodes|
      invariant 0 <= i <= |nodes|
      invariant forall key :: ListAt(childrenOf, key) == IdsOf(KidsIn(nodes[..i], key))
    {
      var n := nodes[i];
      childrenOf := childrenOf[n.parent := ListAt(childrenOf, n.parent) + [n.id]];
      assert nodes[..i + 1][..i] == nodes[..i];
      i := i + 1;
    }
    assert nodes[..i] == nodes;
  }

  /** Numbers the ordered steps and lists the children of each. */
  method ExplainPlanFlow(nodes: seq<Node>) returns (events: seq<Event>)
    requires UniqueIds(nodes)
    ensures |events| == |Order(nodes)|
    ensures forall i :: 0 <= i < |events| ==>
      events[i] == Event(i, Order(nodes)[i].id, IdsOf(KidsIn(nodes, Some(Order(nodes)[i].id))))
  {
    hide IdsOf, KidsIn, Order;
    var ordered := PlanExecutionOrder(nodes);
    var childrenOf := GroupIds(nodes);
    events := [];
    while |events| < |ordered|
      invariant |events| <= |ordered|
      invariant forall k :: 0 <= k < |events| ==>
        events[k] == Event(k, ordered[k].id, IdsOf(KidsIn(nodes, Some(ordered[k].id))))
    {
      var n := ordered[|events|];
      events := events + [Event(|events|, n.id, ListAt(childrenOf, Some(n.id)))];
    }
  }

  /** Every id an event lists as a child is the id of an event with a smaller step index, and no child is missing. */
  lemma ChildStepsComeFirst(nodes: seq<Node>, i: nat, id: int) returns (j: nat)
    requires UniqueIds(nodes) && i < |Order(nodes)|
    ensures id in IdsOf(KidsIn(nodes, Some(Order(nodes)[i].id))) ==>
      j < i && Order(nodes)[j].id == id && Order(nodes)[j].parent == Some(Order(nodes)[i].id)
    ensures forall k :: 0 <= k < |Order(nodes)| && Order(nodes)[k].parent == Some(Order(nodes)[i].id) ==>
      Order(nodes)[k].id in IdsOf(KidsIn(nodes, Some(Order(nodes)[i].id)))
  {
    OrderIsPostOrder(nodes);
    var out := Order(nodes);
    var n := out[i];
    var kids := KidsIn(nodes, Some(n.id));
    KidsAre(nodes, Some(n.id));
    assert n in out;
    var p :| IsPathTo(nodes, p, n);
    j := 0;
    if id in IdsOf(kids) {
      var k :| 0 <= k < |kids| && kids[k].id == id;
      var q := Path(Some(p), kids[k]);
      assert IsPathTo(nodes, q, kids[k]);
      assert kids[k] in out;
      j :| 0 <= j < |out| && out[j] == kids[k];
      BelowPrecedes(p, kids[k]);
    }
    forall k | 0 <= k < |out| && out[k].parent == Some(n.id)
      ensures out[k].id in IdsOf(kids)
    {
      assert out[k] in out;
      var q :| IsPathTo(nodes, q, out[k]);
      var l :| 0 <= l < |kids| && kids[l] == out[k];
      assert IdsOf(kids)[l] == out[k].id;
    }
  }

  lemma BelowPrecedes(p: Path, n: Node)
    ensures Precedes(Path(Some(p), n), p)
  {
    UnderIsDeep(Path(Some(p), n), p);
  }
}
