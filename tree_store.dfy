/** The lazy move tree (main.js:155-310, 381-465): a map from node id to a
    node record, filled one level at a time as the user expands nodes.
    This module holds the store as a value and the effect of each operation
    on it as a function; the explorer class applies them in place. */
module TreeStore {
  import opened ChessEngine
  import opened MoveOrder
  import opened NodeIds

  /** One record of the tree. `built` says whether the node's children
      container exists (its children have been created); `serial` stands for
      the record's object identity. */
  datatype Node = Node(
    move: Move,
    fen: string,
    depth: nat,
    expanded: bool,
    hasChildren: bool,
    path: Line,
    built: bool,
    serial: nat)

  /** The tree: the map, its insertion order, the deepest level created and
      the next object identity to hand out. */
  datatype Store = Store(
    nodes: map<string, Node>,
    order: seq<string>,
    maxDepth: nat,
    nextSerial: nat)

  /** A reference to a node record taken by the expand-all snapshot. */
  datatype Ticket = Ticket(id: string, serial: nat)

  function Max(a: nat, b: nat): nat {
    if a < b then b else a
  }

  predicate Distinct<T(==)>(xs: seq<T>) {
    forall i, j :: 0 <= i < j < |xs| ==> xs[i] != xs[j]
  }

  // ---------------------------------------------------------------------
  // The operations

  /** createMoveNode: the record for `m` played after `parentPath` is set
      under its id, replacing any record already there. */
  function Created(e: Engine, s: Store, m: Move, fen: string, depth: nat, parentPath: Line): Store {
    var path := parentPath + [m.san];
    var id := NodeId(path);
    Store(
      s.nodes[id := Node(m, fen, depth, false, HasContinuation(e, path), path, false, s.nextSerial)],
      if id in s.nodes then s.order else s.order + [id],
      Max(s.maxDepth, depth),
      s.nextSerial + 1)
  }

  /** createMoveNode for each of `ms` in turn. */
  function CreateAll(e: Engine, s: Store, ms: seq<Move>, fen: string, depth: nat, parentPath: Line): Store
    decreases |ms|
  {
    if ms == [] then s
    else Created(e, CreateAll(e, s, ms[..|ms| - 1], fen, depth, parentPath), ms[|ms| - 1], fen, depth, parentPath)
  }

  /** The ids of the children for `ms` below `parentPath`. */
  function ChildIds(parentPath: Line, ms: seq<Move>): (r: seq<string>)
    ensures |r| == |ms|
    ensures forall k :: 0 <= k < |ms| ==> r[k] == NodeId(parentPath + [ms[k].san])
  {
    seq(|ms|, k requires 0 <= k < |ms| => NodeId(parentPath + [ms[k].san]))
  }

  /** The record a child gets. */
  function ChildNode(e: Engine, m: Move, fen: string, depth: nat, parentPath: Line, serial: nat): Node {
    Node(m, fen, depth, false, HasContinuation(e, parentPath + [m.san]), parentPath + [m.san], false, serial)
  }

  /** expandNode: the children container is made, then one child per legal
      move after the node, in child order, one level deeper. */
  function Expanded(e: Engine, s: Store, id: string): Store {
    if id !in s.nodes || !s.nodes[id].hasChildren then s
    else
      var n := s.nodes[id];
      CreateAll(e, s.(nodes := s.nodes[id := n.(built := true)]),
                ChildOrder(e.legalMoves(n.path)), e.fen(n.path), n.depth + 1, n.path)
  }

  /** toggleNodeExpansion: collapse an expanded node, or expand it,
      creating its children only if they do not exist yet. */
  function Toggled(e: Engine, s: Store, id: string): Store {
    if id !in s.nodes || !s.nodes[id].hasChildren then s
    else
      var n := s.nodes[id];
      if n.expanded then s.(nodes := s.nodes[id := n.(expanded := false)])
      else
        var s1 := if n.built then s else Expanded(e, s, id);
        s1.(nodes := s1.nodes[id := n.(expanded := true, built := true)])
  }

  /** collapseAll: every node ends collapsed; the records are kept and
      nothing but their `expanded` flags changes. */
  function Collapsed(s: Store): (r: Store)
    ensures r.nodes.Keys == s.nodes.Keys && r.order == s.order
    ensures forall id :: id in r.nodes ==>
      !r.nodes[id].expanded && r.nodes[id].(expanded := s.nodes[id].expanded) == s.nodes[id]
  {
    s.(nodes := map id | id in s.nodes :: s.nodes[id].(expanded := false))
  }

  /** initializeTree: the map is cleared and one root node is made per
      legal move after `line`, opening moves first. */
  function Initialized(e: Engine, s: Store, line: Line): Store {
    CreateAll(e, Store(map[], [], s.maxDepth, s.nextSerial),
              RootOrder(e.legalMoves(line)), e.fen(line), 0, [])
  }

  predicate Expandable(n: Node) {
    n.hasChildren && !n.expanded
  }

  /** The expandable records in insertion order, as expand-all snapshots them. */
  function FrontierOf(nodes: map<string, Node>, order: seq<string>): seq<Ticket>
    decreases |order|
  {
    if order == [] then []
    else
      var id := order[|order| - 1];
      FrontierOf(nodes, order[..|order| - 1])
        + (if id in nodes && Expandable(nodes[id]) then [Ticket(id, nodes[id].serial)] else [])
  }

  function Frontier(s: Store): seq<Ticket> {
    FrontierOf(s.nodes, s.order)
  }

  /** Whether the record a ticket refers to is still in the map. */
  predicate Live(s: Store, t: Ticket) {
    t.id in s.nodes && s.nodes[t.id].serial == t.serial
  }

  /** One step of expand-all as written: toggle the record if it is still
      in the map. */
  function ExpandStepAsWritten(e: Engine, s: Store, t: Ticket): Store {
    if Live(s, t) then Toggled(e, s, t.id) else s
  }

  /** One step of expand-all, checking again that the record is collapsed. */
  function ExpandStep(e: Engine, s: Store, t: Ticket): Store {
    if Live(s, t) && !s.nodes[t.id].expanded then Toggled(e, s, t.id) else s
  }

  /** The expand-all batch over the tickets `ts`, in order. */
  function Batch(e: Engine, s: Store, ts: seq<Ticket>): Store
    decreases |ts|
  {
    if ts == [] then s else ExpandStep(e, Batch(e, s, ts[..|ts| - 1]), ts[|ts| - 1])
  }

  /** The expand-all batch as written: each step toggles without checking
      again that its record is still collapsed. */
  function BatchAsWritten(e: Engine, s: Store, ts: seq<Ticket>): Store
    decreases |ts|
  {
    if ts == [] then s else ExpandStepAsWritten(e, BatchAsWritten(e, s, ts[..|ts| - 1]), ts[|ts| - 1])
  }

  function Ids(ts: seq<Ticket>): (r: seq<string>)
    ensures |r| == |ts|
    ensures forall k :: 0 <= k < |ts| ==> r[k] == ts[k].id
  {
    seq(|ts|, k requires 0 <= k < |ts| => ts[k].id)
  }

  // ---------------------------------------------------------------------
  // The invariant of the store

  /** A record describes the position reached by its path. */
  ghost predicate NodeOk(e: Engine, n: Node) {
    && |n.path| == n.depth + 1
    && n.move.san == n.path[n.depth]
    && n.move in e.legalMoves(n.path[..n.depth])
    && LegalLine(e, n.path)
    && n.fen == e.fen(n.path[..n.depth])
    && n.hasChildren == HasContinuation(e, n.path)
    && (n.built ==> n.hasChildren)
    && (n.expanded ==> n.built)
  }

  /** The parent of a node at `parentPath` exists, has its children
      container and sits at that path (the roots have no parent). */
  predicate ParentReady(s: Store, parentPath: Line) {
    parentPath == [] ||
    (NodeId(parentPath) in s.nodes && s.nodes[NodeId(parentPath)].built
     && s.nodes[NodeId(parentPath)].path == parentPath)
  }

  ghost predicate NodeValid(e: Engine, s: Store, id: string)
    requires id in s.nodes
  {
    var n := s.nodes[id];
    && id == NodeId(n.path)
    && NodeOk(e, n)
    && n.depth <= s.maxDepth
    && n.serial < s.nextSerial
    && ParentReady(s, n.path[..n.depth])
  }

  ghost predicate StoreValid(e: Engine, s: Store) {
    && (forall id {:trigger NodeValid(e, s, id)} :: id in s.nodes ==> NodeValid(e, s, id))
    && Distinct(s.order)
    && (forall id :: id in s.order <==> id in s.nodes)
  }

  /** Everything `CreateAll` needs to add children below `parentPath`. */
  ghost predicate ChildrenReady(e: Engine, s: Store, ms: seq<Move>, fen: string, depth: nat, parentPath: Line) {
    && StoreValid(e, s)
    && ParentReady(s, parentPath)
    && depth == |parentPath|
    && fen == e.fen(parentPath)
    && LegalLine(e, parentPath)
    && (forall k :: 0 <= k < |ms| ==> ms[k] in e.legalMoves(parentPath))
    && ChildrenFresh(s, ms, parentPath)
  }

  // ---------------------------------------------------------------------
  // Creating nodes

  /** Records stay valid in a store that only adds records and raises the
      bounds. */
  lemma StoreGrows(e: Engine, s: Store, r: Store)
    requires forall x {:trigger NodeValid(e, s, x)} :: x in s.nodes ==> NodeValid(e, s, x)
    requires forall x :: x in s.nodes ==> x in r.nodes && r.nodes[x] == s.nodes[x]
    requires s.maxDepth <= r.maxDepth && s.nextSerial <= r.nextSerial
    ensures forall x :: x in s.nodes ==> x in r.nodes && NodeValid(e, r, x)
  {
    forall x | x in s.nodes ensures NodeValid(e, r, x) {
      assert NodeValid(e, s, x);
      var n := s.nodes[x];
      assert ParentReady(s, n.path[..n.depth]);
    }
  }

  /** A fresh child below a ready parent is a valid record. */
  lemma ChildValid(e: Engine, s: Store, m: Move, fen: string, depth: nat, parentPath: Line)
    requires ParentReady(s, parentPath)
    requires depth == |parentPath| && fen == e.fen(parentPath) && LegalLine(e, parentPath)
    requires m in e.legalMoves(parentPath)
    requires NodeId(parentPath + [m.san]) !in s.nodes
    ensures var r := Created(e, s, m, fen, depth, parentPath);
      NodeId(parentPath + [m.san]) in r.nodes && NodeValid(e, r, NodeId(parentPath + [m.san]))
  {
    var r := Created(e, s, m, fen, depth, parentPath);
    var path := parentPath + [m.san];
    var cid := NodeId(path);
    assert path[..depth] == parentPath;
    OffersMember(e.legalMoves(parentPath), m);
    LegalLineExtend(e, parentPath, m.san);
    assert NodeOk(e, r.nodes[cid]);
    assert parentPath != [] ==> NodeId(parentPath) != cid;
  }

  /** Creating a fresh child below a ready parent keeps the store valid. */
  lemma CreatedValid(e: Engine, s: Store, m: Move, fen: string, depth: nat, parentPath: Line)
    requires StoreValid(e, s) && ParentReady(s, parentPath)
    requires depth == |parentPath| && fen == e.fen(parentPath) && LegalLine(e, parentPath)
    requires m in e.legalMoves(parentPath)
    requires NodeId(parentPath + [m.san]) !in s.nodes
    ensures StoreValid(e, Created(e, s, m, fen, depth, parentPath))
    ensures ParentReady(Created(e, s, m, fen, depth, parentPath), parentPath)
  {
    var r := Created(e, s, m, fen, depth, parentPath);
    var cid := NodeId(parentPath + [m.san]);
    ChildValid(e, s, m, fen, depth, parentPath);
    StoreGrows(e, s, r);
    assert parentPath != [] ==> NodeId(parentPath) != cid;
    assert r.order == s.order + [cid];
  }

  /** No two of the children share an id and none is in the store yet. */
  predicate ChildrenFresh(s: Store, ms: seq<Move>, parentPath: Line) {
    && Distinct(ChildIds(parentPath, ms))
    && (forall k :: 0 <= k < |ms| ==> ChildIds(parentPath, ms)[k] !in s.nodes)
  }

  /** The children created below a parent, when fresh: the map gains
      exactly their ids, appended to the order in turn; nothing that was
      there changes. */
  lemma {:induction false} CreateAllShape(e: Engine, s: Store, ms: seq<Move>, fen: string, depth: nat, parentPath: Line)
    requires ChildrenFresh(s, ms, parentPath)
    ensures var r := CreateAll(e, s, ms, fen, depth, parentPath);
      && r.order == s.order + ChildIds(parentPath, ms)
      && (forall id :: id in r.nodes <==> id in s.nodes || id in ChildIds(parentPath, ms))
      && (forall id :: id in s.nodes ==> r.nodes[id] == s.nodes[id])
      && r.nextSerial == s.nextSerial + |ms|
      && r.maxDepth == (if ms == [] then s.maxDepth else Max(s.maxDepth, depth))
  {
    CreateAllKeys(e, s, ms, fen, depth, parentPath);
    CreateAllKeeps(e, s, ms, fen, depth, parentPath);
    CreateAllCounters(e, s, ms, fen, depth, parentPath);
  }

  /** The ids of fresh children are appended to the order and added to the map. */
  lemma {:induction false} CreateAllKeys(e: Engine, s: Store, ms: seq<Move>, fen: string, depth: nat, parentPath: Line)
    requires ChildrenFresh(s, ms, parentPath)
    ensures var r := CreateAll(e, s, ms, fen, depth, parentPath);
      && r.order == s.order + ChildIds(parentPath, ms)
      && (forall id :: id in r.nodes <==> id in s.nodes || id in ChildIds(parentPath, ms))
    decreases |ms|
  {
    if ms != [] {
      var init := ms[..|ms| - 1];
      var ids := ChildIds(parentPath, ms);
      var ids0 := ChildIds(parentPath, init);
      assert ids0 == ids[..|ms| - 1];
      CreateAllKeys(e, s, init, fen, depth, parentPath);
      var r0 := CreateAll(e, s, init, fen, depth, parentPath);
      var m := ms[|ms| - 1];
      var cid := ids[|ms| - 1];
      assert cid !in ids0;
      assert cid !in r0.nodes;
      assert ids == ids0 + [cid];
      CreatedShape(e, r0, m, fen, depth, parentPath);
      var r := CreateAll(e, s, ms, fen, depth, parentPath);
      assert r == Created(e, r0, m, fen, depth, parentPath);
      assert r.order == r0.order + [cid] == (s.order + ids0) + [cid] == s.order + ids;
    }
  }

  /** Creating fresh children leaves every existing record as it was. */
  lemma {:induction false} CreateAllKeeps(e: Engine, s: Store, ms: seq<Move>, fen: string, depth: nat, parentPath: Line)
    requires ChildrenFresh(s, ms, parentPath)
    ensures var r := CreateAll(e, s, ms, fen, depth, parentPath);
      forall id :: id in s.nodes ==> id in r.nodes && r.nodes[id] == s.nodes[id]
    decreases |ms|
  {
    if ms != [] {
      var init := ms[..|ms| - 1];
      var ids := ChildIds(parentPath, ms);
      assert ChildIds(parentPath, init) == ids[..|ms| - 1];
      CreateAllKeeps(e, s, init, fen, depth, parentPath);
      var r0 := CreateAll(e, s, init, fen, depth, parentPath);
      var m := ms[|ms| - 1];
      assert ids[|ms| - 1] !in s.nodes;
      CreatedShape(e, r0, m, fen, depth, parentPath);
    }
  }

  /** Each created record takes the next identity, and the deepest level
      is raised to the children's level. */
  lemma {:induction false} CreateAllCounters(e: Engine, s: Store, ms: seq<Move>, fen: string, depth: nat, parentPath: Line)
    ensures var r := CreateAll(e, s, ms, fen, depth, parentPath);
      && r.nextSerial == s.nextSerial + |ms|
      && r.maxDepth == (if ms == [] then s.maxDepth else Max(s.maxDepth, depth))
    decreases |ms|
  {
    if ms != [] {
      CreateAllCounters(e, s, ms[..|ms| - 1], fen, depth, parentPath);
    }
  }


  /** Each fresh child created below a parent is the record for its move,
      one level deeper, with the parent's path plus its SAN, numbered in
      turn. */
  lemma {:induction false} CreateAllChildren(e: Engine, s: Store, ms: seq<Move>, fen: string, depth: nat, parentPath: Line)
    requires ChildrenFresh(s, ms, parentPath)
    ensures var r := CreateAll(e, s, ms, fen, depth, parentPath);
      forall k :: 0 <= k < |ms| ==>
        && ChildIds(parentPath, ms)[k] in r.nodes
        && r.nodes[ChildIds(parentPath, ms)[k]] == ChildNode(e, ms[k], fen, depth, parentPath, s.nextSerial + k)
    decreases |ms|
  {
    if ms != [] {
      var init := ms[..|ms| - 1];
      var ids := ChildIds(parentPath, ms);
      var ids0 := ChildIds(parentPath, init);
      assert ids0 == ids[..|ms| - 1];
      CreateAllShape(e, s, init, fen, depth, parentPath);
      CreateAllChildren(e, s, init, fen, depth, parentPath);
      var r0 := CreateAll(e, s, init, fen, depth, parentPath);
      var m := ms[|ms| - 1];
      var cid := ids[|ms| - 1];
      CreatedShape(e, r0, m, fen, depth, parentPath);
      var r := CreateAll(e, s, ms, fen, depth, parentPath);
      assert r == Created(e, r0, m, fen, depth, parentPath);
      forall k | 0 <= k < |ms|
        ensures ids[k] in r.nodes && r.nodes[ids[k]] == ChildNode(e, ms[k], fen, depth, parentPath, s.nextSerial + k)
      {
        if k < |init| {
          assert ids[k] == ids0[k] && ms[k] == init[k] && ids[k] != cid;
        } else {
          assert ids[k] == cid && ms[k] == m && r0.nextSerial == s.nextSerial + k;
        }
      }
    }
  }

  /** What one createMoveNode call does to the map and its order. */
  lemma CreatedShape(e: Engine, s: Store, m: Move, fen: string, depth: nat, parentPath: Line)
    ensures var cid := NodeId(parentPath + [m.san]);
      var r := Created(e, s, m, fen, depth, parentPath);
      && r.nodes == s.nodes[cid := ChildNode(e, m, fen, depth, parentPath, s.nextSerial)]
      && r.order == (if cid in s.nodes then s.order else s.order + [cid])
      && r.maxDepth == Max(s.maxDepth, depth)
      && r.nextSerial == s.nextSerial + 1
  {
  }

  /** Creating fresh children below a ready parent keeps the store valid. */
  lemma {:induction false} CreateAllValid(e: Engine, s: Store, ms: seq<Move>, fen: string, depth: nat, parentPath: Line)
    requires ChildrenReady(e, s, ms, fen, depth, parentPath)
    ensures StoreValid(e, CreateAll(e, s, ms, fen, depth, parentPath))
    ensures ParentReady(CreateAll(e, s, ms, fen, depth, parentPath), parentPath)
    decreases |ms|
  {
    if ms != [] {
      var init := ms[..|ms| - 1];
      var ids := ChildIds(parentPath, ms);
      var ids0 := ChildIds(parentPath, init);
      assert ids0 == ids[..|ms| - 1];
      assert ChildrenReady(e, s, init, fen, depth, parentPath);
      CreateAllValid(e, s, init, fen, depth, parentPath);
      CreateAllShape(e, s, init, fen, depth, parentPath);
      var r0 := CreateAll(e, s, init, fen, depth, parentPath);
      assert ids[|ms| - 1] !in ids0;
      CreatedValid(e, r0, ms[|ms| - 1], fen, depth, parentPath);
    }
  }

  /** Child ids below a line of listed moves, for a list of distinct listed
      moves, are distinct. */
  lemma ChildIdsDistinct(e: Engine, parentPath: Line, ms: seq<Move>)
    requires WellFormed(e) && LegalLine(e, parentPath)
    requires DistinctSans(ms)
    requires forall k :: 0 <= k < |ms| ==> ms[k] in e.legalMoves(parentPath)
    ensures Distinct(ChildIds(parentPath, ms))
  {
    LegalLineWritten(e, parentPath);
    var ids := ChildIds(parentPath, ms);
    forall i, j | 0 <= i < j < |ms| ensures ids[i] != ids[j] {
      var a, b := parentPath + [ms[i].san], parentPath + [ms[j].san];
      ChildPathWritten(e, parentPath, ms[i]);
      ChildPathWritten(e, parentPath, ms[j]);
      NodeIdInjective(a, b);
      assert a[|parentPath|] == ms[i].san && b[|parentPath|] == ms[j].san;
    }
  }

  /** A child path of a line of listed moves is written in SAN. */
  lemma ChildPathWritten(e: Engine, parentPath: Line, m: Move)
    requires WellFormed(e) && LegalLine(e, parentPath) && m in e.legalMoves(parentPath)
    ensures forall i :: 0 <= i < |parentPath + [m.san]| ==> IsSan((parentPath + [m.san])[i])
  {
    LegalLineWritten(e, parentPath);
    var ms := e.legalMoves(parentPath);
    assert SansWritten(ms);
    var k :| 0 <= k < |ms| && ms[k] == m;
  }

  /** A record at a child path of `parentPath` has its parent's children
      container: so the children of an unbuilt node are not in the store. */
  lemma ChildIdNeedsBuiltParent(e: Engine, s: Store, parentPath: Line, m: Move)
    requires WellFormed(e) && StoreValid(e, s) && parentPath != []
    requires LegalLine(e, parentPath) && m in e.legalMoves(parentPath)
    ensures NodeId(parentPath + [m.san]) in s.nodes ==>
      NodeId(parentPath) in s.nodes && s.nodes[NodeId(parentPath)].built
  {
    var cid := NodeId(parentPath + [m.san]);
    if cid in s.nodes {
      var q := s.nodes[cid];
      assert NodeValid(e, s, cid);
      LegalLineWritten(e, q.path);
      ChildPathWritten(e, parentPath, m);
      NodeIdInjective(q.path, parentPath + [m.san]);
      assert q.path[..q.depth] == parentPath;
    }
  }

  /** A record's path is a line the engine plays through, and replays to itself. */
  lemma PathReplays(e: Engine, s: Store, id: string)
    requires WellFormed(e) && StoreValid(e, s) && id in s.nodes
    ensures Playable(e, s.nodes[id].path)
    ensures Replay(e, s.nodes[id].path) == s.nodes[id].path
  {
    assert NodeValid(e, s, id);
    LegalLinePlayable(e, s.nodes[id].path);
    ReplayPlayable(e, s.nodes[id].path);
  }

  /** The children of an unbuilt node, in child order, are ready to be created. */
  lemma ExpandReady(e: Engine, s: Store, id: string)
    requires WellFormed(e) && StoreValid(e, s)
    requires id in s.nodes && s.nodes[id].hasChildren && !s.nodes[id].built
    ensures var n := s.nodes[id];
      ChildrenReady(e, s.(nodes := s.nodes[id := n.(built := true)]),
                    ChildOrder(e.legalMoves(n.path)), e.fen(n.path), n.depth + 1, n.path)
  {
    var n := s.nodes[id];
    var s1 := s.(nodes := s.nodes[id := n.(built := true)]);
    assert NodeValid(e, s, id);
    RetagValid(e, s, id, false, true);
    var legal := e.legalMoves(n.path);
    var ms := ChildOrder(legal);
    assert DistinctSans(legal);
    SortKeepsDistinct(legal, ChildScore);
    forall k | 0 <= k < |ms| ensures ms[k] in legal {
      SortedMember(legal, ChildScore, k);
    }
    ChildIdsDistinct(e, n.path, ms);
    forall k | 0 <= k < |ms| ensures ChildIds(n.path, ms)[k] !in s1.nodes {
      ChildIdNeedsBuiltParent(e, s, n.path, ms[k]);
    }
    assert ParentReady(s1, n.path);
  }

  /** The roots of an empty store are ready to be created. */
  lemma RootsReady(e: Engine, s: Store)
    requires WellFormed(e)
    ensures ChildrenReady(e, Store(map[], [], s.maxDepth, s.nextSerial),
                          RootOrder(e.legalMoves([])), e.fen([]), 0, [])
  {
    var legal := e.legalMoves([]);
    var ms := RootOrder(legal);
    RootsFresh(e, s);
    forall k | 0 <= k < |ms| ensures ms[k] in legal {
      SortedMember(legal, OpeningScore, k);
    }
  }

  /** The ids of the roots are distinct. */
  lemma RootsFresh(e: Engine, s: Store)
    requires WellFormed(e)
    ensures ChildrenFresh(Store(map[], [], s.maxDepth, s.nextSerial), RootOrder(e.legalMoves([])), [])
  {
    var legal := e.legalMoves([]);
    var ms := RootOrder(legal);
    assert DistinctSans(legal);
    SortKeepsDistinct(legal, OpeningScore);
    forall k | 0 <= k < |ms| ensures ms[k] in legal {
      SortedMember(legal, OpeningScore, k);
    }
    ChildIdsDistinct(e, [], ms);
  }

  // ---------------------------------------------------------------------
  // Changing the flags of one record

  /** Setting the flags of one record keeps the store valid, as long as an
      expanded node has its children container, only an expandable node
      gets one, and a container, once made, stays. */
  lemma RetagValid(e: Engine, s: Store, id: string, expanded: bool, built: bool)
    requires StoreValid(e, s) && id in s.nodes
    requires expanded ==> built
    requires built ==> s.nodes[id].hasChildren
    requires s.nodes[id].built ==> built
    ensures StoreValid(e, s.(nodes := s.nodes[id := s.nodes[id].(expanded := expanded, built := built)]))
  {
    var r := s.(nodes := s.nodes[id := s.nodes[id].(expanded := expanded, built := built)]);
    forall x | x in r.nodes ensures NodeValid(e, r, x) {
      assert NodeValid(e, s, x);
      var n := s.nodes[x];
      assert ParentReady(s, n.path[..n.depth]);
    }
  }

  /** Toggling one node of a valid store: the store stays valid, no record
      is removed, the node's `expanded` flips, no other existing record
      changes, and records are created only when the node had no children
      container yet; the records created are collapsed and without children
      container. */
  lemma ToggledFacts(e: Engine, s: Store, id: string)
    requires WellFormed(e) && StoreValid(e, s)
    ensures var r := Toggled(e, s, id);
      && StoreValid(e, r)
      && (forall x :: x in s.nodes ==> x in r.nodes)
      && (id in s.nodes && s.nodes[id].hasChildren ==>
            r.nodes[id] == s.nodes[id].(expanded := !s.nodes[id].expanded, built := true))
      && (forall x :: x in s.nodes && x != id ==> r.nodes[x] == s.nodes[x])
      && (forall x :: x in r.nodes && x !in s.nodes ==> !r.nodes[x].expanded && !r.nodes[x].built)
      && (id !in s.nodes || !s.nodes[id].hasChildren || s.nodes[id].expanded || s.nodes[id].built ==>
            r.nodes.Keys == s.nodes.Keys)
    ensures id !in s.nodes || !s.nodes[id].hasChildren ==> Toggled(e, s, id) == s
    ensures id in s.nodes && s.nodes[id].hasChildren && (s.nodes[id].expanded || s.nodes[id].built) ==>
      && Toggled(e, s, id).order == s.order
      && Toggled(e, s, id).maxDepth == s.maxDepth
      && Toggled(e, s, id).nextSerial == s.nextSerial
  {
    if id in s.nodes && s.nodes[id].hasChildren {
      var n := s.nodes[id];
      assert NodeValid(e, s, id);
      if n.expanded {
        RetagValid(e, s, id, false, true);
        assert n.(expanded := false) == n.(expanded := false, built := true);
      } else if n.built {
        RetagValid(e, s, id, true, true);
      } else {
        ExpandedValid(e, s, id);
        ExpandedFacts(e, s, id);
        ExpandedChildren(e, s, id);
        var s1 := Expanded(e, s, id);
        RetagValid(e, s1, id, true, true);
        assert s1.nodes[id].(expanded := true, built := true) == n.(expanded := true, built := true);
      }
    }
  }

  /** Expanding an unbuilt node keeps the store valid. */
  lemma ExpandedValid(e: Engine, s: Store, id: string)
    requires WellFormed(e) && StoreValid(e, s)
    requires id in s.nodes && s.nodes[id].hasChildren && !s.nodes[id].built
    ensures StoreValid(e, Expanded(e, s, id))
  {
    var n := s.nodes[id];
    ExpandReady(e, s, id);
    var s1 := s.(nodes := s.nodes[id := n.(built := true)]);
    var ms := ChildOrder(e.legalMoves(n.path));
    assert Expanded(e, s, id) == CreateAll(e, s1, ms, e.fen(n.path), n.depth + 1, n.path);
    CreateAllValid(e, s1, ms, e.fen(n.path), n.depth + 1, n.path);
  }

  /** Expanding an unbuilt node: the node gets its children container, the
      ids of its children are appended in child order, and nothing else
      changes. */
  lemma ExpandedFacts(e: Engine, s: Store, id: string)
    requires WellFormed(e) && StoreValid(e, s)
    requires id in s.nodes && s.nodes[id].hasChildren && !s.nodes[id].built
    ensures var n := s.nodes[id];
      var ms := ChildOrder(e.legalMoves(n.path));
      var r := Expanded(e, s, id);
      && r.order == s.order + ChildIds(n.path, ms)
      && (forall x :: x in r.nodes <==> x in s.nodes || x in ChildIds(n.path, ms))
      && r.nodes[id] == n.(built := true)
      && (forall x :: x in s.nodes && x != id ==> r.nodes[x] == s.nodes[x])
  {
    var n := s.nodes[id];
    ExpandReady(e, s, id);
    var s1 := s.(nodes := s.nodes[id := n.(built := true)]);
    var ms := ChildOrder(e.legalMoves(n.path));
    assert ChildrenFresh(s1, ms, n.path);
    assert Expanded(e, s, id) == CreateAll(e, s1, ms, e.fen(n.path), n.depth + 1, n.path);
    CreateAllShape(e, s1, ms, e.fen(n.path), n.depth + 1, n.path);
  }

  /** The records expanding an unbuilt node creates: one per legal move
      after it, in child order, each a level deeper with the node's path
      plus its SAN, collapsed and without children container. */
  lemma ExpandedChildren(e: Engine, s: Store, id: string)
    requires WellFormed(e) && StoreValid(e, s)
    requires id in s.nodes && s.nodes[id].hasChildren && !s.nodes[id].built
    ensures var n := s.nodes[id];
      var ms := ChildOrder(e.legalMoves(n.path));
      var r := Expanded(e, s, id);
      forall k :: 0 <= k < |ms| ==>
        && ChildIds(n.path, ms)[k] in r.nodes
        && r.nodes[ChildIds(n.path, ms)[k]] == ChildNode(e, ms[k], e.fen(n.path), n.depth + 1, n.path, s.nextSerial + k)
  {
    var n := s.nodes[id];
    ExpandReady(e, s, id);
    var s1 := s.(nodes := s.nodes[id := n.(built := true)]);
    var ms := ChildOrder(e.legalMoves(n.path));
    assert ChildrenFresh(s1, ms, n.path);
    assert Expanded(e, s, id) == CreateAll(e, s1, ms, e.fen(n.path), n.depth + 1, n.path);
    CreateAllChildren(e, s1, ms, e.fen(n.path), n.depth + 1, n.path);
  }

  /** Toggling twice a node whose children exist gives the store back. */
  lemma ToggleTwice(e: Engine, s: Store, id: string)
    requires StoreValid(e, s)
    requires id in s.nodes && s.nodes[id].built
    ensures Toggled(e, Toggled(e, s, id), id) == s
  {
    var n := s.nodes[id];
    assert NodeValid(e, s, id);
    if n.expanded {
      assert n.(expanded := false).(expanded := true, built := true) == n;
    } else {
      assert n.(expanded := true, built := true).(expanded := false) == n;
    }
    var r := Toggled(e, Toggled(e, s, id), id);
    assert r.nodes == s.nodes;
  }

  // ---------------------------------------------------------------------
  // Collapse all

  /** Collapsing every node keeps the store valid. */
  lemma CollapsedValid(e: Engine, s: Store)
    requires StoreValid(e, s)
    ensures StoreValid(e, Collapsed(s))
  {
    var r := Collapsed(s);
    forall id | id in r.nodes ensures NodeValid(e, r, id) {
      assert NodeValid(e, s, id);
      var n := s.nodes[id];
      assert ParentReady(s, n.path[..n.depth]);
    }
  }

  // ---------------------------------------------------------------------
  // Expand all

  /** The snapshot: the expandable records, each once, in insertion order. */
  lemma {:induction false} FrontierOfFacts(nodes: map<string, Node>, order: seq<string>)
    requires Distinct(order)
    ensures var ts := FrontierOf(nodes, order);
      && Distinct(Ids(ts))
      && (forall k :: 0 <= k < |ts| ==>
            && ts[k].id in order && ts[k].id in nodes
            && Expandable(nodes[ts[k].id]) && ts[k].serial == nodes[ts[k].id].serial)
      && (forall id :: id in order && id in nodes && Expandable(nodes[id]) ==> id in Ids(ts))
    decreases |order|
  {
    if order != [] {
      var init := order[..|order| - 1];
      var id := order[|order| - 1];
      assert Distinct(init);
      FrontierOfFacts(nodes, init);
      var ts0 := FrontierOf(nodes, init);
      var ts := FrontierOf(nodes, order);
      assert id !in init;
      assert order == init + [id];
      if id in nodes && Expandable(nodes[id]) {
        assert ts == ts0 + [Ticket(id, nodes[id].serial)];
        assert Ids(ts) == Ids(ts0) + [id];
      } else {
        assert ts == ts0;
      }
    }
  }

  lemma PairInPrefix(init: seq<string>, last: string, x: string, y: string)
    requires exists i, j :: 0 <= i < j < |init| && init[i] == x && init[j] == y
    ensures exists i, j :: 0 <= i < j < |init + [last]| && (init + [last])[i] == x && (init + [last])[j] == y
  {
    var i, j :| 0 <= i < j < |init| && init[i] == x && init[j] == y;
    assert (init + [last])[i] == x && (init + [last])[j] == y;
  }

  lemma PairWithLast(init: seq<string>, last: string, x: string)
    requires x in init
    ensures exists i, j :: 0 <= i < j < |init + [last]| && (init + [last])[i] == x && (init + [last])[j] == last
  {
    var i :| 0 <= i < |init| && init[i] == x;
    assert (init + [last])[i] == x && (init + [last])[|init|] == last;
  }

  /** The snapshot lists its records in the map's insertion order. */
  lemma {:induction false} FrontierInOrder(nodes: map<string, Node>, order: seq<string>)
    requires Distinct(order)
    ensures var ts := FrontierOf(nodes, order);
      forall a, b :: 0 <= a < b < |ts| ==>
        exists i, j :: 0 <= i < j < |order| && order[i] == ts[a].id && order[j] == ts[b].id
    decreases |order|
  {
    if order != [] {
      var init := order[..|order| - 1];
      var id := order[|order| - 1];
      assert Distinct(init);
      FrontierInOrder(nodes, init);
      FrontierOfFacts(nodes, init);
      var ts0 := FrontierOf(nodes, init);
      var ts := FrontierOf(nodes, order);
      assert order == init + [id];
      forall a, b | 0 <= a < b < |ts|
        ensures exists i, j :: 0 <= i < j < |order| && order[i] == ts[a].id && order[j] == ts[b].id
      {
        if b < |ts0| {
          assert ts[a] == ts0[a] && ts[b] == ts0[b];
          PairInPrefix(init, id, ts0[a].id, ts0[b].id);
        } else {
          assert ts == ts0 + [Ticket(id, nodes[id].serial)];
          assert ts[a] == ts0[a] && ts[b].id == id;
          PairWithLast(init, id, ts0[a].id);
        }
      }
    }
  }

  /** A snapshot of records of `s0`: live, expandable, each once. */
  ghost predicate Snapshot(s0: Store, ts: seq<Ticket>) {
    && Distinct(Ids(ts))
    && (forall k :: 0 <= k < |ts| ==> Live(s0, ts[k]) && Expandable(s0.nodes[ts[k].id]))
  }

  /** The batch over a snapshot expands exactly the snapshot's records,
      leaves every other record as it was, and leaves the records it creates
      collapsed and without children; the store stays valid. */
  lemma {:induction false} BatchFacts(e: Engine, s0: Store, ts: seq<Ticket>)
    requires WellFormed(e) && StoreValid(e, s0) && Snapshot(s0, ts)
    ensures var r := Batch(e, s0, ts);
      && StoreValid(e, r)
      && (forall x :: x in s0.nodes ==>
            && x in r.nodes
            && r.nodes[x] == (if x in Ids(ts) then s0.nodes[x].(expanded := true, built := true) else s0.nodes[x]))
      && (forall x :: x in r.nodes && x !in s0.nodes ==> !r.nodes[x].expanded && !r.nodes[x].built)
    decreases |ts|
  {
    if ts != [] {
      var ts0 := ts[..|ts| - 1];
      var t := ts[|ts| - 1];
      assert Ids(ts0) == Ids(ts)[..|ts| - 1];
      assert Ids(ts) == Ids(ts0) + [t.id];
      assert t.id !in Ids(ts0);
      assert Snapshot(s0, ts0);
      BatchFacts(e, s0, ts0);
      var r0 := Batch(e, s0, ts0);
      assert r0.nodes[t.id] == s0.nodes[t.id];
      ToggledFacts(e, r0, t.id);
      var r := Batch(e, s0, ts);
      assert r == Toggled(e, r0, t.id);
    }
  }

  /** Without clicks between the steps, the batch as written and the
      checked batch agree: a snapshot record is still collapsed when its
      step comes. */
  lemma {:induction false} BatchAsWrittenAgrees(e: Engine, s0: Store, ts: seq<Ticket>)
    requires WellFormed(e) && StoreValid(e, s0) && Snapshot(s0, ts)
    ensures BatchAsWritten(e, s0, ts) == Batch(e, s0, ts)
    decreases |ts|
  {
    if ts != [] {
      var ts0 := ts[..|ts| - 1];
      var t := ts[|ts| - 1];
      assert Ids(ts0) == Ids(ts)[..|ts| - 1];
      assert Ids(ts) == Ids(ts0) + [t.id];
      assert t.id !in Ids(ts0);
      assert Snapshot(s0, ts0);
      BatchAsWrittenAgrees(e, s0, ts0);
      BatchFacts(e, s0, ts0);
      var r0 := Batch(e, s0, ts0);
      assert r0.nodes[t.id] == s0.nodes[t.id];
      assert ExpandStepAsWritten(e, r0, t) == ExpandStep(e, r0, t);
    }
  }

  /** The same for the snapshot expand-all takes of the whole store. */
  lemma ExpandAllAsWritten(e: Engine, s: Store)
    requires WellFormed(e) && StoreValid(e, s)
    ensures BatchAsWritten(e, s, Frontier(s)) == Batch(e, s, Frontier(s))
  {
    FrontierOfFacts(s.nodes, s.order);
    assert Snapshot(s, Frontier(s));
    BatchAsWrittenAgrees(e, s, Frontier(s));
  }

  /** Expand-all over its snapshot: every record that was expandable at the
      start is expanded, every other record is unchanged, no record is
      removed, and the records created meanwhile are collapsed. */
  lemma ExpandAllFacts(e: Engine, s: Store)
    requires WellFormed(e) && StoreValid(e, s)
    ensures var r := Batch(e, s, Frontier(s));
      && StoreValid(e, r)
      && (forall x :: x in s.nodes ==>
            && x in r.nodes
            && r.nodes[x] == (if Expandable(s.nodes[x]) then s.nodes[x].(expanded := true, built := true) else s.nodes[x]))
      && (forall x :: x in r.nodes && x !in s.nodes ==> !r.nodes[x].expanded && !r.nodes[x].built)
  {
    var ts := Frontier(s);
    FrontierOfFacts(s.nodes, s.order);
    assert Snapshot(s, ts);
    BatchFacts(e, s, ts);
    forall x | x in s.nodes ensures x in Ids(ts) <==> Expandable(s.nodes[x]) {
      if x in Ids(ts) {
        var k :| 0 <= k < |ts| && Ids(ts)[k] == x;
      }
    }
  }

  /** As written, a step of expand-all whose record the user expanded after
      the snapshot collapses it again. */
  lemma AsWrittenCollapsesExpanded(e: Engine, s: Store, t: Ticket)
    requires Live(s, t) && s.nodes[t.id].hasChildren && s.nodes[t.id].expanded
    ensures t.id in ExpandStepAsWritten(e, s, t).nodes
    ensures !ExpandStepAsWritten(e, s, t).nodes[t.id].expanded
  {
  }

  /** The corrected step leaves a live expandable-or-expanded record
      expanded, and skips a record that is gone. */
  lemma ExpandStepExpands(e: Engine, s: Store, t: Ticket)
    requires WellFormed(e) && StoreValid(e, s)
    ensures Live(s, t) && s.nodes[t.id].hasChildren ==>
      t.id in ExpandStep(e, s, t).nodes && ExpandStep(e, s, t).nodes[t.id].expanded
    ensures !Live(s, t) ==> ExpandStep(e, s, t) == s
  {
    ToggledFacts(e, s, t.id);
  }

  // ---------------------------------------------------------------------
  // Initialising the tree

  /** A fresh tree is a valid store. */
  lemma InitializedValid(e: Engine, s: Store)
    requires WellFormed(e)
    ensures StoreValid(e, Initialized(e, s, []))
  {
    var s0 := Store(map[], [], s.maxDepth, s.nextSerial);
    RootsReady(e, s);
    RootsValid(e, s0, RootOrder(e.legalMoves([])), e.fen([]));
  }

  /** A fresh tree holds exactly the roots, one per legal move in the
      starting position, opening moves first. */
  lemma InitializedFacts(e: Engine, s: Store)
    requires WellFormed(e)
    ensures var ms := RootOrder(e.legalMoves([]));
      var r := Initialized(e, s, []);
      && r.order == ChildIds([], ms)
      && (forall x :: x in r.nodes <==> x in ChildIds([], ms))
      && r.maxDepth == s.maxDepth
  {
    var s0 := Store(map[], [], s.maxDepth, s.nextSerial);
    var ms := RootOrder(e.legalMoves([]));
    RootsFresh(e, s);
    assert Initialized(e, s, []) == CreateAll(e, s0, ms, e.fen([]), 0, []);
    RootsFacts(e, s0, ms, e.fen([]));
  }

  /** Each root is the record for its move in the starting position,
      numbered in turn from the next identity. */
  lemma InitializedChildren(e: Engine, s: Store)
    requires WellFormed(e)
    ensures var ms := RootOrder(e.legalMoves([]));
      var r := Initialized(e, s, []);
      forall k :: 0 <= k < |ms| ==>
        && ChildIds([], ms)[k] in r.nodes
        && r.nodes[ChildIds([], ms)[k]] == ChildNode(e, ms[k], e.fen([]), 0, [], s.nextSerial + k)
  {
    var s0 := Store(map[], [], s.maxDepth, s.nextSerial);
    var ms := RootOrder(e.legalMoves([]));
    RootsFresh(e, s);
    assert Initialized(e, s, []) == CreateAll(e, s0, ms, e.fen([]), 0, []);
    CreateAllChildren(e, s0, ms, e.fen([]), 0, []);
  }

  lemma RootsValid(e: Engine, s0: Store, ms: seq<Move>, fen: string)
    requires ChildrenReady(e, s0, ms, fen, 0, [])
    ensures StoreValid(e, CreateAll(e, s0, ms, fen, 0, []))
  {
    CreateAllValid(e, s0, ms, fen, 0, []);
  }

  lemma RootsFacts(e: Engine, s0: Store, ms: seq<Move>, fen: string)
    requires ChildrenFresh(s0, ms, []) && s0.nodes == map[] && s0.order == []
    ensures var r := CreateAll(e, s0, ms, fen, 0, []);
      && r.order == ChildIds([], ms)
      && (forall x :: x in r.nodes <==> x in ChildIds([], ms))
      && r.maxDepth == (if ms == [] then s0.maxDepth else Max(s0.maxDepth, 0))
  {
    CreateAllShape(e, s0, ms, fen, 0, []);
    assert s0.order + ChildIds([], ms) == ChildIds([], ms);
  }

  /** After the tree is made afresh, no record of the old tree is live. */
  lemma InitializedStale(e: Engine, s: Store)
    requires WellFormed(e)
    ensures forall t: Ticket :: t.serial < s.nextSerial ==> !Live(Initialized(e, s, []), t)
  {
    var s0 := Store(map[], [], s.maxDepth, s.nextSerial);
    var ms := RootOrder(e.legalMoves([]));
    var r := Initialized(e, s, []);
    assert r == CreateAll(e, s0, ms, e.fen([]), 0, []);
    RootsReady(e, s);
    CreateAllShape(e, s0, ms, e.fen([]), 0, []);
    CreateAllChildren(e, s0, ms, e.fen([]), 0, []);
    forall t: Ticket | t.serial < s.nextSerial ensures !Live(r, t) {
      if t.id in r.nodes {
        var k :| 0 <= k < |ms| && ChildIds([], ms)[k] == t.id;
        assert r.nodes[t.id].serial == s.nextSerial + k;
      }
    }
  }
}
