/** The key under which the move tree stores a node: the node's path of
    SAN strings joined into one string. main.js:191-192 joins with '-',
    which is also the character castling is written with, so two different
    paths can get the same key. The store in this model joins with a space,
    which standard algebraic notation never uses. */
module NodeIds {
  import opened ChessEngine

  /** The parts of `parts` with `sep` between neighbours. */
  function Join(parts: seq<string>, sep: char): string
    decreases |parts|
  {
    if parts == [] then ""
    else if |parts| == 1 then parts[0]
    else parts[0] + [sep] + Join(parts[1..], sep)
  }

  /** The node id exactly as main.js:191-192 computes it. */
  function JoinedId(path: Line): string {
    Join(path, '-')
  }

  const IdSeparator: char := ' '

  /** The node id the store of this model uses. */
  function NodeId(path: Line): string {
    Join(path, IdSeparator)
  }

  predicate SepFree(parts: seq<string>, sep: char) {
    forall i :: 0 <= i < |parts| ==> sep !in parts[i]
  }

  lemma {:induction false} JoinAppend(p: seq<string>, q: seq<string>, sep: char)
    requires p != [] && q != []
    ensures Join(p + q, sep) == Join(p, sep) + [sep] + Join(q, sep)
    decreases |p|
  {
    if |p| == 1 {
      assert (p + q)[1..] == q;
    } else {
      assert (p + q)[1..] == p[1..] + q;
      JoinAppend(p[1..], q, sep);
    }
  }

  /** main.js's ids collide: after any line, castling short then long and
      castling long then short get the same id "...O-O-O-O-O". */
  lemma JoinedIdCollides(p: Line)
    ensures p + ["O-O", "O-O-O"] != p + ["O-O-O", "O-O"]
    ensures JoinedId(p + ["O-O", "O-O-O"]) == JoinedId(p + ["O-O-O", "O-O"])
  {
    var short, long := ["O-O", "O-O-O"], ["O-O-O", "O-O"];
    assert (p + short)[|p|] != (p + long)[|p|];
    assert Join(short, '-') == "O-O-O-O-O";
    assert Join(long, '-') == "O-O-O-O-O";
    if p != [] {
      JoinAppend(p, short, '-');
      JoinAppend(p, long, '-');
    } else {
      assert p + short == short && p + long == long;
    }
  }

  /** In a word, a separator and the rest, the first separator follows the word. */
  lemma FirstSeparator(u: string, x: string, sep: char)
    requires sep !in u
    ensures (u + [sep] + x)[|u|] == sep
    ensures forall i :: 0 <= i < |u| ==> (u + [sep] + x)[i] != sep
  {
    forall i | 0 <= i < |u| ensures (u + [sep] + x)[i] != sep {
      assert (u + [sep] + x)[i] == u[i];
    }
  }

  /** Two separator-free words followed by a separator split the same way. */
  lemma SplitAtSep(u: string, x: string, v: string, y: string, sep: char)
    requires sep !in u && sep !in v
    requires u + [sep] + x == v + [sep] + y
    ensures u == v && x == y
  {
    var s := u + [sep] + x;
    FirstSeparator(u, x, sep);
    FirstSeparator(v, y, sep);
    assert |u| == |v|;
    assert u == s[..|u|] && v == (v + [sep] + y)[..|v|];
    assert x == s[|u| + 1..] && y == (v + [sep] + y)[|v| + 1..];
  }

  /** A join of more than one part contains the separator; a join of
      separator-free parts does not. */
  lemma {:induction false} JoinHasSeparator(a: seq<string>, sep: char)
    requires a != []
    ensures |a| > 1 ==> sep in Join(a, sep)
    ensures |a| == 1 && SepFree(a, sep) ==> sep !in Join(a, sep)
  {
    if |a| > 1 {
      assert Join(a, sep)[|a[0]|] == sep;
    }
  }

  /** A joined string without separator-bearing parts determines its parts. */
  lemma {:induction false} JoinInjective(a: seq<string>, b: seq<string>, sep: char)
    requires a != [] && b != [] && SepFree(a, sep) && SepFree(b, sep)
    requires Join(a, sep) == Join(b, sep)
    ensures a == b
    decreases |a|
  {
    JoinHasSeparator(a, sep);
    JoinHasSeparator(b, sep);
    assert (|a| == 1) == (|b| == 1);
    if |a| > 1 {
      SplitAtSep(a[0], Join(a[1..], sep), b[0], Join(b[1..], sep), sep);
      assert SepFree(a[1..], sep) by {
        forall i | 0 <= i < |a[1..]| ensures sep !in a[1..][i] { assert a[1..][i] == a[i + 1]; }
      }
      assert SepFree(b[1..], sep) by {
        forall i | 0 <= i < |b[1..]| ensures sep !in b[1..][i] { assert b[1..][i] == b[i + 1]; }
      }
      JoinInjective(a[1..], b[1..], sep);
      assert a == [a[0]] + a[1..] && b == [b[0]] + b[1..];
    }
  }

  /** Standard algebraic notation never contains the separator. */
  lemma SanHasNoSeparator(s: string)
    requires IsSan(s)
    ensures IdSeparator !in s
  {
    forall i | 0 <= i < |s| ensures s[i] != IdSeparator {
      assert IsSanChar(s[i]);
    }
  }

  /** Non-empty paths of SAN moves have the same id only if they are equal. */
  lemma NodeIdInjective(a: Line, b: Line)
    requires a != [] && b != []
    requires forall i :: 0 <= i < |a| ==> IsSan(a[i])
    requires forall i :: 0 <= i < |b| ==> IsSan(b[i])
    ensures NodeId(a) == NodeId(b) <==> a == b
  {
    if NodeId(a) == NodeId(b) {
      forall i | 0 <= i < |a| ensures IdSeparator !in a[i] { SanHasNoSeparator(a[i]); }
      forall i | 0 <= i < |b| ensures IdSeparator !in b[i] { SanHasNoSeparator(b[i]); }
      JoinInjective(a, b, IdSeparator);
    }
  }
}
