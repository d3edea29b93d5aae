/** The chess rule engine, seen from the move explorer.
    The engine itself is a foreign library; here it is a value holding total
    functions of the line played from the standard starting position. */
module ChessEngine {

  /** A move as the engine reports it in verbose mode. */
  datatype Move = Move(san: string, captured: bool, promotion: bool)

  /** A line: the SAN strings played from the starting position, in order. */
  type Line = seq<string>

  /** The status queries the notation exporter asks of the engine. */
  datatype GameStatus = GameStatus(
    checkmate: bool,
    whiteToMove: bool,
    draw: bool,
    stalemate: bool,
    insufficientMaterial: bool,
    threefoldRepetition: bool)

  /** The engine as uninterpreted functions of the line played so far. */
  datatype Engine = Engine(
    legalMoves: Line -> seq<Move>,
    accepts: (Line, string) -> bool,
    gameOver: Line -> bool,
    fen: Line -> string,
    status: Line -> GameStatus)

  /** One ply of the active line: the position after it and its SAN. */
  datatype HistoryEntry = HistoryEntry(fen: string, san: string)

  /** Whether a node for the position after `line` is expandable. */
  predicate HasContinuation(e: Engine, line: Line) {
    |e.legalMoves(line)| > 0 && !e.gameOver(line)
  }

  /** Whether one of `ms` is written `san`. */
  predicate Offers(ms: seq<Move>, san: string) {
    exists i :: 0 <= i < |ms| && ms[i].san == san
  }

  predicate DistinctSans(ms: seq<Move>) {
    forall i, j :: 0 <= i < j < |ms| ==> ms[i].san != ms[j].san
  }

  /** The characters standard algebraic notation is written with. */
  predicate IsSanChar(c: char) {
    ('a' <= c <= 'h') || ('1' <= c <= '8') || c in "KQRBNOx=+#-"
  }

  predicate IsSan(s: string) {
    forall i :: 0 <= i < |s| ==> IsSanChar(s[i])
  }

  predicate SansWritten(ms: seq<Move>) {
    forall i :: 0 <= i < |ms| ==> IsSan(ms[i].san)
  }

  /** What the explorer relies on: the engine accepts every move it lists,
      lists each SAN once, and writes SANs in the notation's alphabet. */
  ghost predicate WellFormed(e: Engine) {
    && (forall line, san :: Offers(e.legalMoves(line), san) ==> e.accepts(line, san))
    && (forall line :: DistinctSans(e.legalMoves(line)))
    && (forall line :: SansWritten(e.legalMoves(line)))
  }

  /** Every move of `line` is one the engine listed where it was played. */
  ghost predicate LegalLine(e: Engine, line: Line)
    decreases |line|
  {
    line == [] ||
    (LegalLine(e, line[..|line| - 1]) && Offers(e.legalMoves(line[..|line| - 1]), line[|line| - 1]))
  }

  /** Every move of `line` is accepted by the engine where it is played. */
  ghost predicate Playable(e: Engine, line: Line) {
    forall i :: 0 <= i < |line| ==> e.accepts(line[..i], line[i])
  }

  /** Replaying `sans` from the start, keeping only the moves the engine accepts. */
  function Replay(e: Engine, sans: Line): (r: Line)
    ensures |r| <= |sans|
    ensures Playable(e, r)
    decreases |sans|
  {
    if sans == [] then []
    else
      var prev := Replay(e, sans[..|sans| - 1]);
      if e.accepts(prev, sans[|sans| - 1]) then
        assert forall i :: 0 <= i < |prev| ==> (prev + [sans[|sans| - 1]])[..i] == prev[..i];
        prev + [sans[|sans| - 1]]
      else prev
  }

  /** The history entries of the active line `line`. */
  function Entries(e: Engine, line: Line): (h: seq<HistoryEntry>)
    ensures |h| == |line|
    ensures forall i :: 0 <= i < |line| ==> h[i].san == line[i]
  {
    seq(|line|, i requires 0 <= i < |line| => HistoryEntry(e.fen(line[..i + 1]), line[i]))
  }

  function Sans(h: seq<HistoryEntry>): (r: Line)
    ensures |r| == |h|
    ensures forall i :: 0 <= i < |h| ==> r[i] == h[i].san
  {
    seq(|h|, i requires 0 <= i < |h| => h[i].san)
  }

  /** Replaying an already playable line gives it back unchanged. */
  lemma {:induction false} ReplayPlayable(e: Engine, line: Line)
    requires Playable(e, line)
    ensures Replay(e, line) == line
    decreases |line|
  {
    if line != [] {
      var init := line[..|line| - 1];
      assert Playable(e, init) by {
        forall i | 0 <= i < |init| ensures e.accepts(init[..i], init[i]) {
          assert init[..i] == line[..i];
        }
      }
      ReplayPlayable(e, init);
      assert line[..|line| - 1] == init;
      assert e.accepts(init, line[|line| - 1]);
      assert init + [line[|line| - 1]] == line;
    }
  }

  /** A line of listed moves is playable when the engine is well formed. */
  lemma {:induction false} LegalLinePlayable(e: Engine, line: Line)
    requires WellFormed(e) && LegalLine(e, line)
    ensures Playable(e, line)
    decreases |line|
  {
    if line != [] {
      var init := line[..|line| - 1];
      LegalLinePlayable(e, init);
      assert e.accepts(init, line[|line| - 1]);
      forall i | 0 <= i < |line| ensures e.accepts(line[..i], line[i]) {
        if i < |init| {
          assert line[..i] == init[..i];
        } else {
          assert line[..i] == init;
        }
      }
    }
  }

  /** Every SAN on a line of listed moves is written in the notation's alphabet. */
  lemma {:induction false} LegalLineWritten(e: Engine, line: Line)
    requires WellFormed(e) && LegalLine(e, line)
    ensures forall i :: 0 <= i < |line| ==> IsSan(line[i])
    decreases |line|
  {
    if line != [] {
      var init := line[..|line| - 1];
      LegalLineWritten(e, init);
      var ms := e.legalMoves(init);
      assert SansWritten(ms);
      var k :| 0 <= k < |ms| && ms[k].san == line[|line| - 1];
      assert IsSan(ms[k].san);
    }
  }

  /** Extending a line of listed moves by a listed move keeps it legal. */
  lemma LegalLineExtend(e: Engine, line: Line, san: string)
    requires LegalLine(e, line) && Offers(e.legalMoves(line), san)
    ensures LegalLine(e, line + [san])
  {
    assert (line + [san])[..|line|] == line;
  }

  /** A member of a move list is offered by it. */
  lemma OffersMember(ms: seq<Move>, m: Move)
    requires m in ms
    ensures Offers(ms, m.san)
  {
    var k :| 0 <= k < |ms| && ms[k] == m;
  }

  /** The history of any line, cut after `n` plies, is the history of the cut line. */
  lemma EntriesPrefix(e: Engine, line: Line, n: nat)
    requires n <= |line|
    ensures Entries(e, line)[..n] == Entries(e, line[..n])
  {
    var a, b := Entries(e, line)[..n], Entries(e, line[..n]);
    forall i | 0 <= i < n ensures a[i] == b[i] {
      assert line[..n][..i + 1] == line[..i + 1];
    }
  }

  /** Playing one more accepted move appends one history entry. */
  lemma EntriesSnoc(e: Engine, line: Line, san: string)
    ensures Entries(e, line + [san]) == Entries(e, line) + [HistoryEntry(e.fen(line + [san]), san)]
  {
    var a, b := Entries(e, line + [san]), Entries(e, line) + [HistoryEntry(e.fen(line + [san]), san)];
    forall i | 0 <= i < |a| ensures a[i] == b[i] {
      if i < |line| {
        assert (line + [san])[..i + 1] == line[..i + 1];
      } else {
        assert (line + [san])[..i + 1] == line + [san];
      }
    }
  }

  /** A prefix of a playable line is playable. */
  lemma PlayablePrefix(e: Engine, line: Line, n: nat)
    requires n <= |line| && Playable(e, line)
    ensures Playable(e, line[..n])
  {
    forall i | 0 <= i < n ensures e.accepts(line[..n][..i], line[..n][i]) {
      assert line[..n][..i] == line[..i];
    }
  }
}
