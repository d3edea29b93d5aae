/** The explorer's state and its operations (main.js:5-8, 155-310, 381-465):
    the active game line with its history, the deepest level of the tree and
    the move-tree map, all updated in place. */
module MoveExplorer {
  import opened ChessEngine
  import opened MoveOrder
  import opened TreeStore
  import NodeIds
  import Pgn

  class Explorer {
    /** The rule engine the explorer asks about positions. */
    const engine: Engine
    /** The active line (the engine's game) and its history entries. */
    var game: Line
    var history: seq<HistoryEntry>
    /** maxDepthReached. */
    var maxDepth: nat
    /** The move-tree map and its insertion order. */
    var nodes: map<string, Node>
    var order: seq<string>
    /** The identity the next record created gets. */
    var nextSerial: nat

    /** The tree as a value. */
    function StoreOf(): Store
      reads this`nodes, this`order, this`maxDepth, this`nextSerial
    {
      Store(nodes, order, maxDepth, nextSerial)
    }

    ghost predicate Valid()
      reads this
    {
      && WellFormed(engine)
      && StoreValid(engine, StoreOf())
      && Playable(engine, game)
      && history == Entries(engine, game)
    }

    /** Page load: a new game, an empty history and the root level of the tree. */
    constructor (e: Engine)
      requires WellFormed(e)
      ensures Valid()
      ensures engine == e && game == [] && history == []
      ensures StoreOf() == Initialized(e, Store(map[], [], 0, 0), [])
    {
      engine := e;
      game := [];
      history := [];
      maxDepth := 0;
      nodes := map[];
      order := [];
      nextSerial := 0;
      new;
      InitializeTree();
      InitializedValid(e, Store(map[], [], 0, 0));
      InitializedFacts(e, Store(map[], [], 0, 0));
    }

    /** createMoveNode: records the node for `move` played after `pathToNode`. */
    method CreateMoveNode(move: Move, fen: string, depth: nat, pathToNode: Line)
      modifies this
      ensures StoreOf() == Created(engine, old(StoreOf()), move, fen, depth, pathToNode)
      ensures game == old(game) && history == old(history)
    {
      maxDepth := Max(maxDepth, depth);
      var path := pathToNode + [move.san];
      var id := NodeIds.NodeId(path);
      var hasChildren := HasContinuation(engine, path);
      if id !in nodes {
        order := order + [id];
      }
      nodes := nodes[id := Node(move, fen, depth, false, hasChildren, path, false, nextSerial)];
      nextSerial := nextSerial + 1;
    }

    /** initializeTree: clears the map and makes one root per legal move of
        the current game, opening moves first. */
    method InitializeTree()
      modifies this
      ensures StoreOf() == Initialized(engine, old(StoreOf()), game)
      ensures game == old(game) && history == old(history)
    {
      nodes := map[];
      order := [];
      CreateChildren(RootOrder(engine.legalMoves(game)), engine.fen(game), 0, []);
    }

    /** The `forEach` of expandNode and initializeTree: createMoveNode for
        each move in turn, below `parentPath`. */
    method CreateChildren(moves: seq<Move>, fen: string, depth: nat, parentPath: Line)
      modifies this
      ensures StoreOf() == CreateAll(engine, old(StoreOf()), moves, fen, depth, parentPath)
      ensures game == old(game) && history == old(history)
    {
      ghost var s0 := StoreOf();
      for i := 0 to |moves|
        invariant StoreOf() == CreateAll(engine, s0, moves[..i], fen, depth, parentPath)
        invariant game == old(game) && history == old(history)
      {
        CreateMoveNode(moves[i], fen, depth, parentPath);
        assert moves[..i + 1][..i] == moves[..i];
      }
      assert moves[..|moves|] == moves;
    }

    /** expandNode: makes the children container and one child per legal
        move after the node, in child order. */
    method ExpandNode(id: string)
      modifies this
      ensures StoreOf() == Expanded(engine, old(StoreOf()), id)
      ensures game == old(game) && history == old(history)
    {
      if id !in nodes || !nodes[id].hasChildren {
        return;
      }
      var node := nodes[id];
      nodes := nodes[id := node.(built := true)];
      CreateChildren(ChildOrder(engine.legalMoves(node.path)), engine.fen(node.path), node.depth + 1, node.path);
    }

    /** toggleNodeExpansion: collapses an expanded node; expands a collapsed
        one, creating its children the first time. */
    method ToggleNodeExpansion(id: string)
      requires Valid()
      modifies this
      ensures Valid()
      ensures StoreOf() == Toggled(engine, old(StoreOf()), id)
      ensures game == old(game) && history == old(history)
    {
      ToggledFacts(engine, StoreOf(), id);
      if id !in nodes || !nodes[id].hasChildren {
        return;
      }
      var node := nodes[id];
      if node.expanded {
        nodes := nodes[id := node.(expanded := false)];
      } else {
        if !node.built {
          ExpandNode(id);
        }
        nodes := nodes[id := node.(expanded := true, built := true)];
      }
    }

    /** collapseAll: toggles every expanded node, in map order. */
    method CollapseAll()
      requires Valid()
      modifies this
      ensures Valid()
      ensures StoreOf() == Collapsed(old(StoreOf()))
      ensures game == old(game) && history == old(history)
    {
      ghost var s0 := StoreOf();
      for i := 0 to |order|
        invariant Valid()
        invariant order == s0.order && maxDepth == s0.maxDepth && nextSerial == s0.nextSerial
        invariant nodes.Keys == s0.nodes.Keys
        invariant forall x :: x in nodes ==>
          nodes[x] == (if x in s0.order[..i] then s0.nodes[x].(expanded := false) else s0.nodes[x])
        invariant game == old(game) && history == old(history)
      {
        var id := order[i];
        assert s0.order[..i + 1] == s0.order[..i] + [id];
        assert id !in s0.order[..i];
        assert NodeValid(engine, StoreOf(), id);
        if nodes[id].expanded {
          ToggleNodeExpansion(id);
        }
      }
      assert s0.order[..|s0.order|] == s0.order;
      assert nodes == Collapsed(s0).nodes;
    }

    /** One step of the expand-all batch as written: the record is looked up
        by identity and toggled if it is still in the map. */
    method ExpandNextAsWritten(t: Ticket)
      requires Valid()
      modifies this
      ensures Valid()
      ensures StoreOf() == ExpandStepAsWritten(engine, old(StoreOf()), t)
      ensures game == old(game) && history == old(history)
    {
      if t.id in nodes && nodes[t.id].serial == t.serial {
        ToggleNodeExpansion(t.id);
      }
    }

    /** One step of the expand-all batch, toggling the record only if it is
        still in the map and still collapsed. */
    method ExpandNext(t: Ticket)
      requires Valid()
      modifies this
      ensures Valid()
      ensures StoreOf() == ExpandStep(engine, old(StoreOf()), t)
      ensures game == old(game) && history == old(history)
    {
      if t.id in nodes && nodes[t.id].serial == t.serial && !nodes[t.id].expanded {
        ToggleNodeExpansion(t.id);
      }
    }

    /** expandAll: snapshots the expandable records, then expands them one
        after the other. */
    method ExpandAll()
      requires Valid()
      modifies this
      ensures Valid()
      ensures StoreOf() == BatchAsWritten(engine, old(StoreOf()), Frontier(old(StoreOf())))
      ensures StoreOf() == Batch(engine, old(StoreOf()), Frontier(old(StoreOf())))
      ensures game == old(game) && history == old(history)
    {
      ghost var s0 := StoreOf();
      var expandable := FrontierOf(nodes, order);
      var processed := 0;
      while processed < |expandable|
        invariant 0 <= processed <= |expandable|
        invariant Valid()
        invariant StoreOf() == BatchAsWritten(engine, s0, expandable[..processed])
        invariant game == old(game) && history == old(history)
        decreases |expandable| - processed
      {
        ExpandNextAsWritten(expandable[processed]);
        assert expandable[..processed + 1][..processed] == expandable[..processed];
        processed := processed + 1;
      }
      assert expandable[..|expandable|] == expandable;
      ExpandAllAsWritten(engine, s0);
    }

    /** The replay loop of handleMoveClick: plays the moves of `path` from
        the start position, keeping the ones the engine accepts. */
    method ReplayPath(path: Line) returns (line: Line, entries: seq<HistoryEntry>)
      ensures line == Replay(engine, path)
      ensures entries == Entries(engine, line)
    {
      line := [];
      entries := [];
      for i := 0 to |path|
        invariant line == Replay(engine, path[..i])
        invariant entries == Entries(engine, line)
      {
        var san := path[i];
        assert path[..i + 1][..i] == path[..i];
        if engine.accepts(line, san) {
          EntriesSnoc(engine, line, san);
          line := line + [san];
          entries := entries + [HistoryEntry(engine.fen(line), san)];
        }
      }
      assert path[..|path|] == path;
    }

    /** handleMoveClick: toggles an expandable node, then makes its path the
        active line. */
    method HandleMoveClick(id: string)
      requires Valid()
      modifies this
      ensures Valid()
      ensures id !in old(nodes) ==>
        StoreOf() == old(StoreOf()) && game == old(game) && history == old(history)
      ensures id in old(nodes) ==>
        && StoreOf() == Toggled(engine, old(StoreOf()), id)
        && game == old(nodes)[id].path
        && history == Entries(engine, game)
    {
      if id !in nodes {
        return;
      }
      var node := nodes[id];
      PathReplays(engine, StoreOf(), id);
      if node.hasChildren {
        ToggleNodeExpansion(id);
      }
      var line, entries := ReplayPath(node.path);
      game := line;
      history := entries;
    }

    /** The replay loop of undoMove: plays the moves of the history entries
        from the start position; a move the engine refuses is skipped. */
    method ReplayHistory(entries: seq<HistoryEntry>) returns (line: Line)
      ensures line == Replay(engine, Sans(entries))
    {
      line := [];
      ghost var sans := Sans(entries);
      for i := 0 to |entries|
        invariant line == Replay(engine, sans[..i])
      {
        var san := entries[i].san;
        assert sans[..i + 1][..i] == sans[..i] && sans[i] == san;
        if engine.accepts(line, san) {
          line := line + [san];
        }
      }
      assert sans[..|entries|] == sans;
    }

    /** undoMove: drops the last history entry and replays the rest. */
    method UndoMove()
      requires Valid()
      modifies this
      ensures Valid()
      ensures StoreOf() == old(StoreOf())
      ensures old(history) == [] ==> game == old(game) && history == old(history)
      ensures old(history) != [] ==>
        && history == old(history)[..|old(history)| - 1]
        && game == old(game)[..|old(game)| - 1]
    {
      if |history| > 0 {
        ghost var g0 := game;
        var n := |history| - 1;
        var entries := history[..n];
        EntriesPrefix(engine, g0, n);
        PlayablePrefix(engine, g0, n);
        ReplayPlayable(engine, g0[..n]);
        assert Sans(entries) == g0[..n];
        var line := ReplayHistory(entries);
        history := entries;
        game := line;
      }
    }

    /** resetGame: a new game, an empty history, depth 0 and a fresh tree. */
    method ResetGame()
      requires Valid()
      modifies this
      ensures Valid()
      ensures game == [] && history == [] && maxDepth == 0
      ensures StoreOf() == Initialized(engine, old(StoreOf()).(maxDepth := 0), [])
      ensures forall t: Ticket :: t.serial < old(nextSerial) ==> !Live(StoreOf(), t)
    {
      game := [];
      history := [];
      maxDepth := 0;
      InitializeTree();
      InitializedValid(engine, old(StoreOf()).(maxDepth := 0));
      InitializedFacts(engine, old(StoreOf()).(maxDepth := 0));
      InitializedStale(engine, old(StoreOf()).(maxDepth := 0));
    }

    /** generatePgn on the active line; the date and the game status are
        what the clock and the engine report. */
    method CopyPgn(date: string) returns (pgn: string)
      requires Valid()
      ensures pgn == Pgn.PgnDocument(game, date, engine.status(game))
    {
      assert Sans(history) == game;
      pgn := Pgn.GeneratePgn(Sans(history), date, engine.status(game));
    }
  }
}
