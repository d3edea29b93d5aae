/** The PGN export of the active line (main.js:312-347): a fixed header,
    the numbered move text and a result tag. The date and the engine's view
    of the final position are parameters. */
module Pgn {
  import opened ChessEngine

  /** What is exported when no move has been played. */
  const NoMoves: string := "No moves played"

  /** The tag block, ending in the blank line before the move text. */
  function Header(date: string): string {
    "[Event \"Chess Move Tree Game\"]\n"
    + "[Date \"" + date + "\"]\n"
    + "[White \"Player\"]\n"
    + "[Black \"Player\"]\n\n"
  }

  function DigitChar(d: nat): (c: char)
    requires d < 10
    ensures '0' <= c <= '9'
  {
    ['0', '1', '2', '3', '4', '5', '6', '7', '8', '9'][d]
  }

  /** The decimal numeral of `n`, as a template literal writes a number. */
  function Decimal(n: nat): (r: string)
    ensures |r| > 0
    ensures forall i :: 0 <= i < |r| ==> '0' <= r[i] <= '9'
    ensures n > 0 ==> r[0] != '0'
  {
    if n < 10 then [DigitChar(n)]
    else Decimal(n / 10) + [DigitChar(n % 10)]
  }

  /** The value of a string of decimal digits. */
  function DecimalValue(s: string): nat
    requires forall i :: 0 <= i < |s| ==> '0' <= s[i] <= '9'
  {
    if s == [] then 0
    else DecimalValue(s[..|s| - 1]) * 10 + (s[|s| - 1] as int - '0' as int)
  }

  /** Reading the numeral back gives the number. */
  lemma {:induction false} DecimalRoundTrip(n: nat)
    ensures DecimalValue(Decimal(n)) == n
  {
    if n >= 10 {
      DecimalRoundTrip(n / 10);
      var r := Decimal(n);
      assert r[..|r| - 1] == Decimal(n / 10);
    }
  }

  /** A numbered white move, "k. san", with `num` writing the number. */
  function Numbered(num: nat -> string, k: nat, san: string): string {
    num(k) + ". " + san
  }

  /** The text of ply `i` (from 0): a white ply is numbered "k. san" with
      k = i/2 + 1 and, after the first, a leading space; a black ply is " san".
      The layout is stated for any way `num` of writing numbers; the export
      writes them with Decimal. */
  function PlyText(num: nat -> string, i: nat, san: string): string {
    if i % 2 == 0 then (if i > 0 then " " + Numbered(num, i / 2 + 1, san) else Numbered(num, i / 2 + 1, san))
    else " " + san
  }

  /** The move text of a line, ply by ply. */
  function MoveText(num: nat -> string, sans: Line): string
    decreases |sans|
  {
    if sans == [] then "" else MoveText(num, sans[..|sans| - 1]) + PlyText(num, |sans| - 1, sans[|sans| - 1])
  }

  /** The result tag: mate gives the win to the side not to move; any
      drawing condition gives the draw; otherwise there is no tag. */
  function ResultTag(st: GameStatus): (r: string)
    ensures r == " 0-1" <==> st.checkmate && st.whiteToMove
    ensures r == " 1-0" <==> st.checkmate && !st.whiteToMove
    ensures r == " 1/2-1/2" <==>
      !st.checkmate && (st.draw || st.stalemate || st.insufficientMaterial || st.threefoldRepetition)
    ensures r == "" <==>
      !st.checkmate && !st.draw && !st.stalemate && !st.insufficientMaterial && !st.threefoldRepetition
  {
    if st.checkmate then (if st.whiteToMove then " 0-1" else " 1-0")
    else if st.draw || st.stalemate || st.insufficientMaterial || st.threefoldRepetition then " 1/2-1/2"
    else ""
  }

  /** The exported document. */
  function PgnDocument(sans: Line, date: string, st: GameStatus): (r: string)
    ensures sans == [] <==> r == NoMoves
    ensures sans != [] ==> |Header(date)| <= |r| && r[..|Header(date)|] == Header(date)
  {
    if sans == [] then NoMoves
    else
      var r := Header(date) + MoveText(Decimal, sans) + ResultTag(st);
      assert r[0] == '[' && NoMoves[0] == 'N';
      assert r[..|Header(date)|] == Header(date);
      r
  }

  lemma Assoc(a: string, b: string, c: string)
    ensures a + (b + c) == a + b + c
  {
  }

  /** The move text grows by one ply at a time. */
  lemma MoveTextSnoc(num: nat -> string, sans: Line, i: nat)
    requires i < |sans|
    ensures MoveText(num, sans[..i + 1]) == MoveText(num, sans[..i]) + PlyText(num, i, sans[i])
  {
    assert sans[..i + 1][..i] == sans[..i];
  }

  /** generatePgn: builds the move text in one pass, counting move numbers
      up after each black ply. */
  method GeneratePgn(sans: Line, date: string, st: GameStatus) returns (pgn: string)
    ensures pgn == PgnDocument(sans, date, st)
  {
    if |sans| == 0 {
      return NoMoves;
    }
    pgn := Header(date);
    var moveNumber := 1;
    var moveText := "";
    for i := 0 to |sans|
      invariant moveNumber == i / 2 + 1
      invariant moveText == MoveText(Decimal, sans[..i])
    {
      MoveTextSnoc(Decimal, sans, i);
      ghost var before := moveText;
      if i % 2 == 0 {
        if i > 0 {
          moveText := moveText + " ";
          Assoc(before, " ", Numbered(Decimal, moveNumber, sans[i]));
        }
        moveText := moveText + (Decimal(moveNumber) + ". " + sans[i]);
      } else {
        moveText := moveText + (" " + sans[i]);
        moveNumber := moveNumber + 1;
      }
    }
    assert sans[..|sans|] == sans;
    pgn := pgn + moveText;
    pgn := pgn + ResultTag(st);
  }

  // ---------------------------------------------------------------------
  // The move text is the usual layout of numbered move pairs

  /** The numbered moves of a line from move number `k`: "k. white black". */
  function MovePairs(num: nat -> string, sans: Line, k: nat): seq<string>
    decreases |sans|
  {
    if sans == [] then []
    else if |sans| == 1 then [Numbered(num, k, sans[0])]
    else [Numbered(num, k, sans[0]) + " " + sans[1]] + MovePairs(num, sans[2..], k + 1)
  }

  /** Items separated by single spaces. */
  function Spaced(items: seq<string>): string
    decreases |items|
  {
    if items == [] then ""
    else if |items| == 1 then items[0]
    else items[0] + " " + Spaced(items[1..])
  }

  /** The plies of `sans`, the first of them ply `i0`, front to back, each
      written by `text`. */
  function Plies(text: (nat, string) -> string, sans: Line, i0: nat): string
    decreases |sans|
  {
    if sans == [] then "" else text(i0, sans[0]) + Plies(text, sans[1..], i0 + 1)
  }

  /** PlyText as a value, to be handed to Plies. */
  function PlyWriter(num: nat -> string): (nat, string) -> string {
    (i: nat, san: string) => PlyText(num, i, san)
  }

  lemma {:induction false} PliesSnoc(text: (nat, string) -> string, sans: Line, san: string, i0: nat)
    ensures Plies(text, sans + [san], i0) == Plies(text, sans, i0) + text(i0 + |sans|, san)
    decreases |sans|
  {
    var whole := sans + [san];
    if sans == [] {
      assert whole[1..] == [];
    } else {
      assert whole[0] == sans[0];
      assert whole[1..] == sans[1..] + [san];
      PliesSnoc(text, sans[1..], san, i0 + 1);
    }
  }

  lemma {:induction false} MoveTextPlies(num: nat -> string, sans: Line)
    ensures MoveText(num, sans) == Plies(PlyWriter(num), sans, 0)
    decreases |sans|
  {
    if sans != [] {
      var init := sans[..|sans| - 1];
      MoveTextPlies(num, init);
      PliesSnoc(PlyWriter(num), init, sans[|sans| - 1], 0);
      assert init + [sans[|sans| - 1]] == sans;
    }
  }

  /** Two plies off the front. */
  lemma PliesTwo(text: (nat, string) -> string, sans: Line, i0: nat)
    requires |sans| > 1
    ensures Plies(text, sans, i0) == text(i0, sans[0]) + (text(i0 + 1, sans[1]) + Plies(text, sans[2..], i0 + 2))
  {
    assert sans[1..][0] == sans[1] && sans[1..][1..] == sans[2..];
  }

  /** A white ply from an even ply and the black ply after it. */
  lemma PlyPair(num: nat -> string, i0: nat, white: string, black: string)
    requires i0 % 2 == 0
    ensures PlyWriter(num)(i0, white) == (if i0 > 0 then " " else "") + Numbered(num, i0 / 2 + 1, white)
    ensures PlyWriter(num)(i0 + 1, black) == " " + black
  {
    assert (i0 + 1) % 2 == 1;
  }

  /** Written from an even ply, the plies are the numbered pairs, spaced. */
  lemma {:induction false} PliesFromPairs(num: nat -> string, sans: Line, k: nat)
    requires k >= 1
    ensures Plies(PlyWriter(num), sans, 2 * (k - 1))
         == (if k > 1 && sans != [] then " " else "") + Spaced(MovePairs(num, sans, k))
    decreases |sans|
  {
    var text := PlyWriter(num);
    var i0 := 2 * (k - 1);
    assert i0 % 2 == 0 && i0 / 2 + 1 == k && (i0 > 0 <==> k > 1);
    var lead: string := if k > 1 then " " else "";
    if |sans| == 1 {
      assert sans[1..] == [];
      PlyPair(num, i0, sans[0], "");
      assert Plies(text, sans, i0) == text(i0, sans[0]) + Plies(text, sans[1..], i0 + 1);
      assert Spaced(MovePairs(num, sans, k)) == Numbered(num, k, sans[0]);
    } else if |sans| > 1 {
      var rest := sans[2..];
      var pair := Numbered(num, k, sans[0]) + " " + sans[1];
      var sp := Spaced(MovePairs(num, rest, k + 1));
      assert 2 * (k + 1 - 1) == i0 + 2;
      PliesFromPairs(num, rest, k + 1);
      PairPlies(num, sans, i0);
      assert Plies(text, sans, i0) == lead + pair + Plies(text, rest, i0 + 2);
      assert MovePairs(num, sans, k) == [pair] + MovePairs(num, rest, k + 1);
      if rest != [] {
        assert Plies(text, rest, i0 + 2) == " " + sp;
        assert MovePairs(num, rest, k + 1) != [];
        assert ([pair] + MovePairs(num, rest, k + 1))[1..] == MovePairs(num, rest, k + 1);
        assert Spaced(MovePairs(num, sans, k)) == pair + " " + sp;
        Regroup(lead, pair, " ", sp);
      } else {
        assert Plies(text, rest, i0 + 2) == "";
        assert MovePairs(num, rest, k + 1) == [];
        assert Spaced(MovePairs(num, sans, k)) == pair;
        assert lead + pair + "" == lead + pair;
      }
    }
  }

  lemma Regroup(a: string, b: string, c: string, d: string)
    ensures a + b + (c + d) == a + (b + c + d)
  {
  }

  /** The first two plies of a line from an even ply are one numbered pair. */
  lemma PairPlies(num: nat -> string, sans: Line, i0: nat)
    requires |sans| > 1 && i0 % 2 == 0
    ensures Plies(PlyWriter(num), sans, i0)
         == (if i0 > 0 then " " else "") + (Numbered(num, i0 / 2 + 1, sans[0]) + " " + sans[1])
          + Plies(PlyWriter(num), sans[2..], i0 + 2)
  {
    var lead: string := if i0 > 0 then " " else "";
    var n, b, r := Numbered(num, i0 / 2 + 1, sans[0]), sans[1], Plies(PlyWriter(num), sans[2..], i0 + 2);
    PliesTwo(PlyWriter(num), sans, i0);
    PlyPair(num, i0, sans[0], b);
    Regroup(lead + n, " ", b, r);
    Regroup(lead, n, " ", b);
  }

  /** The move text reads "1. w b 2. w b ...": numbered move pairs separated
      by single spaces, a lone white move at the end if the line is odd. */
  lemma MoveTextIsNumberedPairs(num: nat -> string, sans: Line)
    ensures MoveText(num, sans) == Spaced(MovePairs(num, sans, 1))
  {
    MoveTextPlies(num, sans);
    PliesFromPairs(num, sans, 1);
  }

  /** The example of a game still in progress after 1. e4 e5. */
  lemma OpeningPairExport(date: string, st: GameStatus)
    requires !st.checkmate && !st.draw && !st.stalemate && !st.insufficientMaterial && !st.threefoldRepetition
    ensures PgnDocument(["e4", "e5"], date, st) == Header(date) + "1. e4 e5"
  {
    var line := ["e4", "e5"];
    assert line[..1] == ["e4"] && ["e4"][..0] == [];
    assert Decimal(1) == "1";
    assert MoveText(Decimal, ["e4"]) == "" + Numbered(Decimal, 1, "e4");
    assert Numbered(Decimal, 1, "e4") == "1. e4";
    assert MoveText(Decimal, line) == "1. e4" + " e5";
    assert ResultTag(st) == "";
  }
}
