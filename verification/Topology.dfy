/** The topology's transactions over string-encoded edges, and the abstract directed graph they stand for. */
module TopologyModel {
  import opened Bytes
  import opened Strings

  datatype PeerNode = PeerNode(
    nodeId: string, hostname: string, bindAddress: string, bindPort: u16, capabilities: seq<string>)
  datatype PeerEdge = PeerEdge(fromNode: string, toNode: string, protocol: string)

  datatype TxOp = AddNode | RemoveNode | AddEdge | RemoveEdge
  datatype TxItem = TxItem(op: TxOp, a: string, b: string, tag: string)

  /** Nodes by id and edges as "from|to" keys. */
  datatype Store = Store(nodes: map<string, PeerNode>, edges: set<string>)

  /** The graph a store stands for. */
  datatype Graph = Graph(nodes: set<string>, edges: set<(string, string)>)

  function EdgeKey(a: string, b: string): string {
    a + "|" + b
  }

  /** The pair a key is split into at its first bar. */
  function Split(key: string): Option<(string, string)> {
    match FindChar(key, '|')
    case None => None
    case Some(p) => Some((key[..p], key[p + 1..]))
  }

  /** A key splits into the pair it was made of exactly when the source id has no bar; the target id may have some. */
  lemma SplitOfKey(a: string, b: string)
    ensures Split(EdgeKey(a, b)) == Some((a, b)) <==> NoBar(a)
    ensures Split(EdgeKey(a, b)).Some?
  {
    var k := EdgeKey(a, b);
    assert k[|a|] == '|';
    assert k[..|a|] == a && k[|a| + 1..] == b;
    if NoBar(a) {
      assert forall i | 0 <= i < |a| :: k[i] == a[i] && a[i] in a;
      FindCharAt(k, '|', 0, |a|);
    }
  }

  /** A key with a bar is the key of the pair it splits into, and that pair's source id has no bar. */
  lemma KeyOfSplit(key: string)
    requires Split(key).Some?
    ensures var (a, b) := Split(key).value; NoBar(a) && EdgeKey(a, b) == key
  {
    var p := FindChar(key, '|').value;
    assert key == key[..p] + "|" + key[p + 1..];
  }

  /** The source id has no bar exactly when no other edge with a bar-free source id has the same key. */
  lemma KeyDecodesIff(a: string, b: string)
    ensures NoBar(a) <==> forall c, d :: NoBar(c) && EdgeKey(c, d) == EdgeKey(a, b) ==> (c, d) == (a, b)
  {
    if NoBar(a) {
      forall c, d | NoBar(c) && EdgeKey(c, d) == EdgeKey(a, b)
        ensures (c, d) == (a, b)
      {
        BarSplits(c, a, d, b);
      }
    } else {
      SplitOfKey(a, b);
      KeyOfSplit(EdgeKey(a, b));
      var (c, d) := Split(EdgeKey(a, b)).value;
      assert NoBar(c) && EdgeKey(c, d) == EdgeKey(a, b) && (c, d) != (a, b);
    }
  }

  /** No other edge at all has the same key exactly when neither id has a bar. */
  lemma KeyIsUniqueIff(a: string, b: string)
    ensures NoBar(a) && NoBar(b) <==> forall c, d :: EdgeKey(c, d) == EdgeKey(a, b) ==> (c, d) == (a, b)
  {
    var k := EdgeKey(a, b);
    if NoBar(a) && NoBar(b) {
      forall c, d | EdgeKey(c, d) == k
        ensures (c, d) == (a, b)
      {
        OneBar(a, b, |c|);
        assert EdgeKey(c, d)[|c|] == '|';
        assert c == EdgeKey(c, d)[..|c|] && d == EdgeKey(c, d)[|c| + 1..];
        assert a == k[..|a|] && b == k[|a| + 1..];
      }
    } else if !NoBar(a) {
      KeyDecodesIff(a, b);
    } else {
      var i :| 0 <= i < |b| && b[i] == '|';
      var c, d := a + "|" + b[..i], b[i + 1..];
      assert b == b[..i] + "|" + d;
      assert EdgeKey(c, d) == k && |c| != |a|;
    }
  }

  /** The key of two bar-free ids has its only bar between them. */
  lemma OneBar(a: string, b: string, i: nat)
    requires NoBar(a) && NoBar(b) && i < |EdgeKey(a, b)| && EdgeKey(a, b)[i] == '|'
    ensures i == |a|
  {
    var k := EdgeKey(a, b);
    assert forall n | 0 <= n < |a| :: k[n] == a[n] && a[n] in a;
    assert forall n | |a| < n < |k| :: k[n] == b[n - |a| - 1] && b[n - |a| - 1] in b;
  }

  /** For example, the edges from "a|b" to "c" and from "a" to "b|c" share a key. */
  lemma BarMakesKeysCollide()
    ensures EdgeKey("a|b", "c") == EdgeKey("a", "b|c") && Split(EdgeKey("a|b", "c")) == Some(("a", "b|c"))
  {
    assert EdgeKey("a|b", "c") == "a|b|c" == EdgeKey("a", "b|c");
    SplitOfKey("a", "b|c");
  }

  /** A removal of node x takes the keys that split into a pair with x in it. */
  predicate Touches(key: string, x: string) {
    match Split(key)
    case None => false
    case Some(e) => e.0 == x || e.1 == x
  }

  function ItemStep(s: Store, it: TxItem): Store {
    match it.op
    case AddNode => s.(nodes := s.nodes[it.a := PeerNode(it.a, "", "", 0, [])])
    case RemoveNode => Store(s.nodes - {it.a}, set k | k in s.edges && !Touches(k, it.a))
    case AddEdge => s.(edges := s.edges + {EdgeKey(it.a, it.b)})
    case RemoveEdge => s.(edges := s.edges - {EdgeKey(it.a, it.b)})
  }

  function Commit(s: Store, items: seq<TxItem>): Store {
    if items == [] then s
    else ItemStep(Commit(s, items[..|items| - 1]), items[|items| - 1])
  }

  function GraphStep(g: Graph, it: TxItem): Graph {
    match it.op
    case AddNode => g.(nodes := g.nodes + {it.a})
    case RemoveNode => Graph(g.nodes - {it.a}, set e | e in g.edges && e.0 != it.a && e.1 != it.a)
    case AddEdge => g.(edges := g.edges + {(it.a, it.b)})
    case RemoveEdge => g.(edges := g.edges - {(it.a, it.b)})
  }

  function GraphCommit(g: Graph, items: seq<TxItem>): Graph {
    if items == [] then g
    else GraphStep(GraphCommit(g, items[..|items| - 1]), items[|items| - 1])
  }

  /** The nodes are the graph's, with nothing known but their ids, and the keys split into exactly the graph's edges. */
  ghost predicate Represents(s: Store, g: Graph) {
    && GraphOf(s) == g
    && (forall n | n in s.nodes :: s.nodes[n] == PeerNode(n, "", "", 0, []))
    && (forall k | k in s.edges :: Split(k).Some?)
  }

  function GraphOf(s: Store): Graph {
    Graph(s.nodes.Keys, Pairs(s.edges))
  }

  /** The pairs the keys split into; a key without a bar stands for no edge. */
  function Pairs(keys: set<string>): set<(string, string)> {
    set k | k in keys && Split(k).Some? :: Split(k).value
  }

  /** An edge of the represented graph is one whose source id has no bar and whose key is stored. */
  lemma InPairs(keys: set<string>, a: string, b: string)
    ensures (a, b) in Pairs(keys) <==> NoBar(a) && EdgeKey(a, b) in keys
  {
    SplitOfKey(a, b);
    if (a, b) in Pairs(keys) {
      var k :| k in keys && Split(k) == Some((a, b));
      KeyOfSplit(k);
    }
  }

  /** The item's key means the item's edge: its source id has no bar, or a key to erase is not there. */
  predicate Encodable(s: Store, it: TxItem) {
    && (it.op.AddEdge? ==> NoBar(it.a))
    && (it.op.RemoveEdge? ==> NoBar(it.a) || EdgeKey(it.a, it.b) !in s.edges)
  }

  /** One item on keys is the graph operation exactly when its key means its edge. */
  lemma ItemRefinesIff(s: Store, g: Graph, it: TxItem)
    requires Represents(s, g)
    ensures Represents(ItemStep(s, it), GraphStep(g, it)) <==> Encodable(s, it)
  {
    var s', g' := ItemStep(s, it), GraphStep(g, it);
    SplitOfKey(it.a, it.b);
    forall k | k in s'.edges
      ensures Split(k).Some?
    {
    }
    if Encodable(s, it) {
      forall a, b
        ensures (a, b) in Pairs(s'.edges) <==> (a, b) in g'.edges
      {
        InPairs(s.edges, a, b);
        InPairs(s'.edges, a, b);
        ItemOnPair(s, g, it, a, b);
      }
      assert Pairs(s'.edges) == g'.edges;
    } else {
      KeyOfSplit(EdgeKey(it.a, it.b));
      var (c, d) := Split(EdgeKey(it.a, it.b)).value;
      InPairs(s.edges, it.a, it.b);
      InPairs(s'.edges, it.a, it.b);
      InPairs(s.edges, c, d);
      InPairs(s'.edges, c, d);
    }
  }

  /** What an item whose key means its edge does to one pair. */
  lemma ItemOnPair(s: Store, g: Graph, it: TxItem, a: string, b: string)
    requires Represents(s, g) && Encodable(s, it)
    ensures (a, b) in GraphStep(g, it).edges <==> NoBar(a) && EdgeKey(a, b) in ItemStep(s, it).edges
  {
    InPairs(s.edges, a, b);
    SplitOfKey(a, b);
    hide Split, Pairs;
    if (it.op.AddEdge? || it.op.RemoveEdge?) && NoBar(it.a) && NoBar(a) && EdgeKey(a, b) == EdgeKey(it.a, it.b) {
      BarSplits(a, it.a, b, it.b);
    }
    hide EdgeKey;
  }

  /** Item i of the commit is encodable when it is applied. */
  predicate EncodableAt(s: Store, items: seq<TxItem>, i: nat)
    requires i < |items|
  {
    Encodable(Commit(s, items[..i]), items[i])
  }

  ghost predicate AllEncodable(s: Store, items: seq<TxItem>) {
    forall i | 0 <= i < |items| :: EncodableAt(s, items, i)
  }

  /** The first n items have done on keys what they do on the graph. */
  ghost predicate RefinesAt(s: Store, g: Graph, items: seq<TxItem>, n: nat)
    requires n <= |items|
  {
    Represents(Commit(s, items[..n]), GraphCommit(g, items[..n]))
  }

  ghost predicate RefinesThroughout(s: Store, g: Graph, items: seq<TxItem>) {
    forall n | 0 <= n <= |items| :: RefinesAt(s, g, items, n)
  }

  lemma RefinesThroughoutInit(s: Store, g: Graph, items: seq<TxItem>)
    requires items != []
    ensures RefinesThroughout(s, g, items) <==>
              RefinesThroughout(s, g, items[..|items| - 1]) && Represents(Commit(s, items), GraphCommit(g, items))
  {
    var init := items[..|items| - 1];
    assert RefinesAt(s, g, items, |items|) <==> Represents(Commit(s, items), GraphCommit(g, items)) by {
      assert items[..|items|] == items;
    }
    forall n | 0 <= n <= |init|
      ensures RefinesAt(s, g, items, n) <==> RefinesAt(s, g, init, n)
    {
      assert init[..n] == items[..n];
    }
    hide RefinesAt;
  }

  lemma AllEncodableInit(s: Store, items: seq<TxItem>)
    requires items != []
    ensures var init, last := items[..|items| - 1], items[|items| - 1];
            AllEncodable(s, items) <==> AllEncodable(s, init) && Encodable(Commit(s, init), last)
  {
    var init := items[..|items| - 1];
    forall i | 0 <= i < |init|
      ensures EncodableAt(s, items, i) <==> EncodableAt(s, init, i)
    {
      assert init[..i] == items[..i] && init[i] == items[i];
    }
    assert EncodableAt(s, items, |init|) <==> Encodable(Commit(s, init), items[|init|]);
    hide EncodableAt;
  }

  /** A commit on keys is, item by item, the fold of the graph operations exactly when every item is encodable. */
  lemma {:induction false} CommitRefinesIff(s: Store, g: Graph, items: seq<TxItem>)
    requires Represents(s, g)
    ensures RefinesThroughout(s, g, items) <==> AllEncodable(s, items)
    ensures RefinesThroughout(s, g, items) ==> Represents(Commit(s, items), GraphCommit(g, items))
  {
    if items == [] {
      assert items[..0] == [];
      assert RefinesAt(s, g, items, 0);
    } else {
      var init, last := items[..|items| - 1], items[|items| - 1];
      CommitRefinesIff(s, g, init);
      RefinesThroughoutInit(s, g, items);
      AllEncodableInit(s, items);
      hide Represents, Encodable, ItemStep, GraphStep, RefinesThroughout, AllEncodable;
      if Represents(Commit(s, init), GraphCommit(g, init)) {
        ItemRefinesIff(Commit(s, init), GraphCommit(g, init), last);
      }
    }
  }

  /** With bar-free source ids every commit is the fold of the graph operations. */
  lemma CommitRefines(s: Store, g: Graph, items: seq<TxItem>)
    requires Represents(s, g)
    requires forall it | it in items && (it.op.AddEdge? || it.op.RemoveEdge?) :: NoBar(it.a)
    ensures Represents(Commit(s, items), GraphCommit(g, items))
  {
    CommitRefinesIff(s, g, items);
  }

  // ---------- what commits keep ----------

  ghost predicate Isolated(g: Graph, x: string) {
    forall e | e in g.edges :: e.0 != x && e.1 != x
  }

  /** After its removal no edge touches a node until an added edge names it again. */
  lemma {:induction false} RemovedStaysIsolated(g: Graph, items: seq<TxItem>, r: nat)
    requires r < |items| && items[r].op.RemoveNode?
    requires forall i | r < i < |items| && items[i].op.AddEdge? :: items[i].a != items[r].a && items[i].b != items[r].a
    ensures Isolated(GraphCommit(g, items), items[r].a)
    decreases |items|
  {
    if r < |items| - 1 {
      RemovedStaysIsolated(g, items[..|items| - 1], r);
    }
  }

  predicate Registers(it: TxItem, n: string) {
    it.op.AddNode? && it.a == n
  }

  predicate Unregisters(it: TxItem, n: string) {
    it.op.RemoveNode? && it.a == n
  }

  predicate Adds(it: TxItem, e: (string, string)) {
    it.op.AddEdge? && it.a == e.0 && it.b == e.1
  }

  predicate Erases(it: TxItem, e: (string, string)) {
    || (it.op.RemoveEdge? && it.a == e.0 && it.b == e.1)
    || (it.op.RemoveNode? && (it.a == e.0 || it.a == e.1))
  }

  /** The last item that decides about a node is the one that counts. */
  lemma {:induction false} NodeByHistory(g: Graph, items: seq<TxItem>, n: string)
    ensures n in GraphCommit(g, items).nodes <==>
            || (exists i | 0 <= i < |items| ::
                  Registers(items[i], n) && forall j | i < j < |items| :: !Unregisters(items[j], n))
            || (n in g.nodes && forall j | 0 <= j < |items| :: !Unregisters(items[j], n))
  {
    if items != [] {
      var init, last := items[..|items| - 1], items[|items| - 1];
      NodeByHistory(g, init, n);
      assert forall i | 0 <= i < |init| :: init[i] == items[i];
      hide GraphCommit;
      NodeAfterItem(g, items, n);
    }
  }

  lemma NodeAfterItem(g: Graph, items: seq<TxItem>, n: string)
    requires items != []
    ensures var init, last := items[..|items| - 1], items[|items| - 1];
            n in GraphCommit(g, items).nodes <==>
            Registers(last, n) || (n in GraphCommit(g, init).nodes && !Unregisters(last, n))
  {
  }

  /** The last item that decides about an edge is the one that counts; removing either end erases it. */
  lemma {:induction false} EdgeByHistory(g: Graph, items: seq<TxItem>, e: (string, string))
    ensures e in GraphCommit(g, items).edges <==>
            || (exists i | 0 <= i < |items| ::
                  Adds(items[i], e) && forall j | i < j < |items| :: !Erases(items[j], e))
            || (e in g.edges && forall j | 0 <= j < |items| :: !Erases(items[j], e))
  {
    if items != [] {
      var init, last := items[..|items| - 1], items[|items| - 1];
      EdgeByHistory(g, init, e);
      assert forall i | 0 <= i < |init| :: init[i] == items[i];
      hide GraphCommit;
      EdgeAfterItem(g, items, e);
    }
  }

  lemma EdgeAfterItem(g: Graph, items: seq<TxItem>, e: (string, string))
    requires items != []
    ensures var init, last := items[..|items| - 1], items[|items| - 1];
            e in GraphCommit(g, items).edges <==>
            Adds(last, e) || (e in GraphCommit(g, init).edges && !Erases(last, e))
  {
  }

  ghost predicate EndpointsRegistered(g: Graph) {
    forall e | e in g.edges :: e.0 in g.nodes && e.1 in g.nodes
  }

  /** Item i, if it adds an edge, names two nodes that are registered when it is applied. */
  predicate AddsBetweenNodes(g: Graph, items: seq<TxItem>, i: nat)
    requires i < |items|
  {
    var before := GraphCommit(g, items[..i]).nodes;
    items[i].op.AddEdge? ==> items[i].a in before && items[i].b in before
  }

  ghost predicate EdgesAddedBetweenNodes(g: Graph, items: seq<TxItem>) {
    forall i | 0 <= i < |items| :: AddsBetweenNodes(g, items, i)
  }

  ghost predicate RegisteredAt(g: Graph, items: seq<TxItem>, n: nat)
    requires n <= |items|
  {
    EndpointsRegistered(GraphCommit(g, items[..n]))
  }

  ghost predicate RegisteredThroughout(g: Graph, items: seq<TxItem>) {
    forall n | 0 <= n <= |items| :: RegisteredAt(g, items, n)
  }

  lemma RegisteredThroughoutInit(g: Graph, items: seq<TxItem>)
    requires items != []
    ensures RegisteredThroughout(g, items) <==>
              RegisteredThroughout(g, items[..|items| - 1]) && EndpointsRegistered(GraphCommit(g, items))
  {
    var init := items[..|items| - 1];
    assert RegisteredAt(g, items, |items|) <==> EndpointsRegistered(GraphCommit(g, items)) by {
      assert items[..|items|] == items;
    }
    forall n | 0 <= n <= |init|
      ensures RegisteredAt(g, items, n) <==> RegisteredAt(g, init, n)
    {
      assert init[..n] == items[..n];
    }
    hide RegisteredAt;
  }

  lemma EdgesAddedInit(g: Graph, items: seq<TxItem>)
    requires items != []
    ensures EdgesAddedBetweenNodes(g, items) <==>
              EdgesAddedBetweenNodes(g, items[..|items| - 1]) && AddsBetweenNodes(g, items, |items| - 1)
  {
    var init := items[..|items| - 1];
    forall i | 0 <= i < |init|
      ensures AddsBetweenNodes(g, items, i) <==> AddsBetweenNodes(g, init, i)
    {
      assert init[..i] == items[..i] && init[i] == items[i];
    }
    hide AddsBetweenNodes;
  }

  lemma ItemKeepsEndpointsIff(g: Graph, it: TxItem)
    requires EndpointsRegistered(g)
    ensures EndpointsRegistered(GraphStep(g, it)) <==> (it.op.AddEdge? ==> it.a in g.nodes && it.b in g.nodes)
  {
    if it.op.AddEdge? {
      assert (it.a, it.b) in GraphStep(g, it).edges;
    }
  }

  /**
   The commit itself does not check the ends of an added edge: all endpoints are registered throughout exactly
   when they are at first and every added edge names two nodes that are registered when it is added.
   */
  lemma {:induction false} EndpointsRegisteredIff(g: Graph, items: seq<TxItem>)
    ensures RegisteredThroughout(g, items) <==> EndpointsRegistered(g) && EdgesAddedBetweenNodes(g, items)
    ensures RegisteredThroughout(g, items) ==> EndpointsRegistered(GraphCommit(g, items))
  {
    if items == [] {
      assert items[..0] == [];
      assert RegisteredAt(g, items, 0) <==> EndpointsRegistered(g);
    } else {
      var init := items[..|items| - 1];
      EndpointsRegisteredIff(g, init);
      RegisteredThroughoutInit(g, items);
      EdgesAddedInit(g, items);
      hide EndpointsRegistered, GraphStep, RegisteredThroughout, EdgesAddedBetweenNodes;
      if EndpointsRegistered(GraphCommit(g, init)) {
        ItemKeepsEndpointsIff(GraphCommit(g, init), items[|items| - 1]);
      }
    }
  }

  // ---------- cycles ----------

  ghost predicate IsPath(edges: set<(string, string)>, p: seq<string>) {
    |p| >= 1 && forall i {:trigger p[i]} | 0 <= i < |p| - 1 :: (p[i], p[i + 1]) in edges
  }

  ghost predicate Leads(edges: set<(string, string)>, p: seq<string>, a: string, b: string) {
    IsPath(edges, p) && p[0] == a && p[|p| - 1] == b
  }

  ghost predicate Reaches(edges: set<(string, string)>, a: string, b: string) {
    exists p :: Leads(edges, p, a, b)
  }

  /** There is a path of at least one edge. */
  ghost predicate Precedes(edges: set<(string, string)>, a: string, b: string) {
    exists p :: Leads(edges, p, a, b) && |p| >= 2
  }

  ghost predicate OnCycle(edges: set<(string, string)>, v: string) {
    Precedes(edges, v, v)
  }

  /** Some directed cycle is reachable from a. */
  ghost predicate ReachesCycle(edges: set<(string, string)>, a: string) {
    exists v :: Reaches(edges, a, v) && OnCycle(edges, v)
  }

  /** What a cycle check answers: two nodes at least, and a directed cycle reachable from one of them. */
  ghost predicate Cyclic(g: Graph) {
    |g.nodes| >= 2 && exists n :: n in g.nodes && ReachesCycle(g.edges, n)
  }

  lemma EdgePrecedes(edges: set<(string, string)>, a: string, b: string)
    requires (a, b) in edges
    ensures Precedes(edges, a, b)
  {
    assert Leads(edges, [a, b], a, b);
  }

  lemma PrecedesExtends(edges: set<(string, string)>, a: string, b: string, c: string)
    requires Precedes(edges, a, b) && (b, c) in edges
    ensures Precedes(edges, a, c)
  {
    var p :| Leads(edges, p, a, b) && |p| >= 2;
    var q := p + [c];
    forall i | 0 <= i < |q| - 1
      ensures (q[i], q[i + 1]) in edges
    {
      if i < |p| - 1 {
        assert (p[i], p[i + 1]) in edges;
      }
    }
    assert Leads(edges, q, a, c);
  }

  lemma CycleAt(edges: set<(string, string)>, u: string)
    requires Precedes(edges, u, u)
    ensures ReachesCycle(edges, u)
  {
    assert Leads(edges, [u], u, u);
    assert Reaches(edges, u, u) && OnCycle(edges, u);
  }

  lemma ReachesCycleThrough(edges: set<(string, string)>, a: string, b: string)
    requires (a, b) in edges && ReachesCycle(edges, b)
    ensures ReachesCycle(edges, a)
  {
    var v :| Reaches(edges, b, v) && OnCycle(edges, v);
    var p :| Leads(edges, p, b, v);
    var q := [a] + p;
    forall i | 0 <= i < |q| - 1
      ensures (q[i], q[i + 1]) in edges
    {
      if i > 0 {
        assert (p[i - 1], p[i]) in edges;
      }
    }
    assert Leads(edges, q, a, v);
  }

  /** The cycle check on the keys after a commit is the cycle check on the graph after the graph operations. */
  lemma CyclicAfterCommit(s: Store, g: Graph, items: seq<TxItem>)
    requires Represents(s, g) && AllEncodable(s, items)
    ensures Cyclic(GraphOf(Commit(s, items))) <==> Cyclic(GraphCommit(g, items))
  {
    CommitRefinesIff(s, g, items);
  }

  /** A set that edges do not leave and that contains no node on a cycle. */
  ghost predicate Explored(edges: set<(string, string)>, done: set<string>) {
    && (forall e | e in edges && e.0 in done :: e.1 in done)
    && (forall v | v in done :: !OnCycle(edges, v))
  }

  lemma NothingExplored(edges: set<(string, string)>)
    ensures Explored(edges, {})
  {
  }

  lemma {:induction false} PathStaysInside(edges: set<(string, string)>, done: set<string>, p: seq<string>, i: nat)
    requires Explored(edges, done) && IsPath(edges, p) && i < |p| && p[i] in done
    ensures p[|p| - 1] in done
    decreases |p| - i
  {
    if i < |p| - 1 {
      assert (p[i], p[i + 1]) in edges;
      PathStaysInside(edges, done, p, i + 1);
    }
  }

  lemma ExploredReachesNoCycle(edges: set<(string, string)>, done: set<string>, a: string)
    requires Explored(edges, done) && a in done
    ensures !ReachesCycle(edges, a)
  {
    if ReachesCycle(edges, a) {
      var v :| Reaches(edges, a, v) && OnCycle(edges, v);
      var p :| Leads(edges, p, a, v);
      PathStaysInside(edges, done, p, 0);
    }
  }

  /** A node whose successors are all explored can be added to the explored nodes. */
  lemma ExploreNode(edges: set<(string, string)>, done: set<string>, u: string)
    requires Explored(edges, done) && u !in done
    requires forall e | e in edges && e.0 == u :: e.1 in done
    ensures Explored(edges, done + {u})
  {
    if OnCycle(edges, u) {
      var p :| Leads(edges, p, u, u) && |p| >= 2;
      assert (p[0], p[1]) in edges;
      PathStaysInside(edges, done, p, 1);
    }
  }

  // ---------- the objects ----------

  /** Adjacency lists for the edges of a key set. */
  ghost predicate Lists(adj: map<string, seq<string>>, edges: set<(string, string)>) {
    && (forall e | e in edges :: e.0 in adj && e.1 in adj[e.0])
    && (forall u, i | u in adj && 0 <= i < |adj[u]| :: (u, adj[u][i]) in edges)
  }

  /** The state shared by the recursive calls of the depth-first search. */
  class CycleSearch {
    const adj: map<string, seq<string>>
    var visited: set<string>
    var stack: set<string>
    var has: bool

    constructor (adj: map<string, seq<string>>)
      ensures this.adj == adj && visited == {} && stack == {} && !has
    {
      this.adj := adj;
      visited, stack, has := {}, {}, false;
    }

    /** Every node on the stack precedes the node to visit, and what was finished is explored. */
    ghost predicate Ready(edges: set<(string, string)>, u: string)
      reads this
    {
      && Lists(adj, edges) && stack <= visited && !has
      && Explored(edges, visited - stack)
      && (forall v | v in stack :: Precedes(edges, v, u))
    }

    /**
     Visits u: answers true exactly when it meets a node on the stack, which closes a cycle reachable from u;
     otherwise u and everything visited below it are finished.
     */
    method Dfs(u: string, ghost edges: set<(string, string)>, ghost all: set<string>) returns (found: bool)
      requires Ready(edges, u)
      requires u in all && visited <= all && forall e | e in edges :: e.1 in all
      modifies this
      ensures has == found
      ensures found ==> ReachesCycle(edges, u)
      ensures !found ==> stack == old(stack) && old(visited) <= visited <= all
      ensures !found ==> u in visited - stack && Explored(edges, visited - stack)
      decreases all - visited
    {
      hide Precedes, Explored, ReachesCycle;
      if u in stack {
        has := true;
        CycleAt(edges, u);
        return true;
      }
      if u in visited {
        return false;
      }
      assert (visited + {u}) - (stack + {u}) == visited - stack;
      visited := visited + {u};
      stack := stack + {u};
      if u in adj {
        var i := 0;
        while i < |adj[u]|
          invariant i <= |adj[u]|
          invariant !has && stack == old(stack) + {u} && old(visited) + {u} <= visited <= all
          invariant Explored(edges, visited - stack)
          invariant forall j | 0 <= j < i :: adj[u][j] in visited - stack
        {
          var v := adj[u][i];
          forall w | w in stack
            ensures Precedes(edges, w, v)
          {
            if w == u {
              EdgePrecedes(edges, u, v);
            } else {
              PrecedesExtends(edges, w, u, v);
            }
          }
          var hit := Dfs(v, edges, all);
          if hit {
            ReachesCycleThrough(edges, u, v);
            return true;
          }
          i := i + 1;
        }
      }
      ghost var done := visited - stack;
      ExploreNode(edges, done, u);
      stack := stack - {u};
      assert visited - stack == done + {u};
      return false;
    }
  }

  class Topology {
    var nodes: map<string, PeerNode>
    var edges: set<string>

    ghost function View(): Store
      reads this
    {
      Store(nodes, edges)
    }

    constructor ()
      ensures View() == Store(map[], {}) && Represents(View(), Graph({}, {}))
    {
      nodes, edges := map[], {};
    }

    /** Applies the items in order; an empty transaction is refused. */
    method CommitTransaction(items: seq<TxItem>) returns (ok: bool)
      modifies this
      ensures ok <==> items != []
      ensures View() == Commit(old(View()), items)
    {
      if items == [] {
        return false;
      }
      for i := 0 to |items|
        invariant View() == Commit(old(View()), items[..i])
      {
        assert items[..i + 1][..i] == items[..i];
        Apply(items[i]);
      }
      assert items[..|items|] == items;
      return true;
    }

    method Apply(it: TxItem)
      modifies this
      ensures View() == ItemStep(old(View()), it)
    {
      match it.op {
        case AddNode => nodes := nodes[it.a := PeerNode(it.a, "", "", 0, [])];
        case RemoveNode =>
          nodes := nodes - {it.a};
          RemoveTouching(it.a);
        case AddEdge => edges := edges + {EdgeKey(it.a, it.b)};
        case RemoveEdge => edges := edges - {EdgeKey(it.a, it.b)};
      }
    }

    /** Erases the keys of all edges at x while walking over the keys. */
    method RemoveTouching(x: string)
      modifies this`edges
      ensures edges == set k | k in old(edges) && !Touches(k, x)
    {
      var todo := edges;
      while todo != {}
        invariant todo <= old(edges)
        invariant edges == set k | k in old(edges) && (k in todo || !Touches(k, x))
        decreases todo
      {
        var k :| k in todo;
        todo := todo - {k};
        var p := FindChar(k, '|');
        if p.Some? {
          if k[..p.value] == x || k[p.value + 1..] == x {
            edges := edges - {k};
          }
        }
      }
    }

    /** The edge list: each key with a bar, split. */
    method Edges() returns (out: seq<PeerEdge>)
      ensures |out| <= |edges|
      ensures forall e | e in Pairs(edges) :: PeerEdge(e.0, e.1, "") in out
      ensures forall i | 0 <= i < |out| :: out[i].protocol == "" && (out[i].fromNode, out[i].toNode) in Pairs(edges)
    {
      out := [];
      var todo := edges;
      while todo != {}
        invariant todo <= edges && |out| + |todo| <= |edges|
        invariant forall e | e in Pairs(edges - todo) :: PeerEdge(e.0, e.1, "") in out
        invariant forall i | 0 <= i < |out| :: out[i].protocol == "" && (out[i].fromNode, out[i].toNode) in Pairs(edges)
        decreases todo
      {
        var k :| k in todo;
        ghost var before := out;
        assert edges - (todo - {k}) == (edges - todo) + {k};
        todo := todo - {k};
        var p := FindChar(k, '|');
        if p.Some? {
          out := out + [PeerEdge(k[..p.value], k[p.value + 1..], "")];
          assert Split(k) == Some((k[..p.value], k[p.value + 1..]));
        }
      }
      assert edges - todo == edges;
    }

    method BuildAdjacency() returns (adj: map<string, seq<string>>)
      ensures Lists(adj, Pairs(edges))
    {
      adj := map[];
      var todo := edges;
      while todo != {}
        invariant todo <= edges && Lists(adj, Pairs(edges - todo))
        decreases todo
      {
        var k :| k in todo;
        assert edges - (todo - {k}) == (edges - todo) + {k};
        ghost var before := Pairs(edges - todo);
        todo := todo - {k};
        var p := FindChar(k, '|');
        if p.Some? {
          var a, b := k[..p.value], k[p.value + 1..];
          assert Pairs(edges - todo) == before + {(a, b)} by {
            assert Split(k) == Some((a, b));
          }
          adj := adj[a := (if a in adj then adj[a] else []) + [b]];
        } else {
          assert Pairs(edges - todo) == before;
        }
      }
      assert edges - todo == edges;
    }

    /** True exactly when two or more nodes are registered and a directed cycle is reachable from one of them. */
    method HasCycle() returns (r: bool)
      ensures r <==> Cyclic(GraphOf(View()))
    {
      hide Pairs, Lists, Explored, ReachesCycle;
      if |nodes| < 2 {
        return false;
      }
      ghost var pairs := Pairs(edges);
      var adj := BuildAdjacency();
      var search := new CycleSearch(adj);
      ghost var all := nodes.Keys + (set e | e in pairs :: e.1);
      assert Explored(pairs, search.visited - search.stack) by {
        NothingExplored(pairs);
        assert search.visited - search.stack == {};
      }
      var todo := nodes.Keys;
      while todo != {}
        invariant todo <= nodes.Keys
        invariant search.adj == adj && search.stack == {} && !search.has && search.visited <= all
        invariant Explored(pairs, search.visited - search.stack)
        invariant nodes.Keys - todo <= search.visited
        decreases todo
      {
        var n :| n in todo;
        todo := todo - {n};
        var hit := search.Dfs(n, pairs, all);
        if hit {
          return search.has;
        }
      }
      forall n | n in nodes
        ensures !ReachesCycle(pairs, n)
      {
        ExploredReachesNoCycle(pairs, search.visited - search.stack, n);
      }
      return search.has;
    }

    method Clear()
      modifies this
      ensures View() == Store(map[], {})
    {
      nodes, edges := map[], {};
    }
  }
}
