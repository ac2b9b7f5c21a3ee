/**
 * The pieces of java.lang.String and java.lang.Integer that the unit codecs rely on:
 * trim, split on a one-character separator, joining with a separator, and the
 * decimal rendering of an int. The rendering and parsing of doubles is not modelled:
 * it is a parameter, NumberText.
 */
module Text {
  import opened Optional

  /** String.trim removes every leading and trailing character at or below U+0020. */
  predicate IsWhite(c: char) {
    c <= ' '
  }

  function TrimStart(s: string): string
    decreases |s|
  {
    if |s| > 0 && IsWhite(s[0]) then TrimStart(s[1..]) else s
  }

  function TrimEnd(s: string): string
    decreases |s|
  {
    if |s| > 0 && IsWhite(s[|s| - 1]) then TrimEnd(s[..|s| - 1]) else s
  }

  /** String.trim. */
  function Trim(s: string): string {
    TrimEnd(TrimStart(s))
  }

  /** A string whose first and last characters are not white space is its own trim. */
  lemma TrimKeeps(s: string)
    requires s == [] || (!IsWhite(s[0]) && !IsWhite(s[|s| - 1]))
    ensures Trim(s) == s
  {
  }

  /**
   * Cuts s at every occurrence of sep, keeping empty pieces: the pieces String.split
   * produces before it drops the trailing empty ones.
   */
  function Pieces(s: string, sep: char): (p: seq<string>)
    ensures |p| >= 1
    decreases |s|
  {
    if s == [] then [[]]
    else
      var rest := Pieces(s[1..], sep);
      if s[0] == sep then [[]] + rest else [[s[0]] + rest[0]] + rest[1..]
  }

  function DropTrailingEmpty(p: seq<string>): seq<string>
    decreases |p|
  {
    if |p| > 0 && p[|p| - 1] == [] then DropTrailingEmpty(p[..|p| - 1]) else p
  }

  /**
   * String.split with a one-character separator (limit 0): the whole string when the
   * separator does not occur, otherwise the pieces without the trailing empty ones.
   */
  function Split(s: string, sep: char): seq<string> {
    if sep !in s then [s] else DropTrailingEmpty(Pieces(s, sep))
  }

  /** The strings of ts with sep between consecutive ones. */
  function Join(ts: seq<string>, sep: char): string
    decreases |ts|
  {
    if |ts| == 0 then []
    else if |ts| == 1 then ts[0]
    else ts[0] + [sep] + Join(ts[1..], sep)
  }

  predicate Avoids(ts: seq<string>, c: char) {
    forall i :: 0 <= i < |ts| ==> c !in ts[i]
  }

  /** Appending one more string: the shape the encode loops build. */
  lemma {:induction false} JoinSnoc(ts: seq<string>, t: string, sep: char)
    ensures Join(ts + [t], sep) == if ts == [] then t else Join(ts, sep) + [sep] + t
    decreases |ts|
  {
    if |ts| > 1 {
      assert (ts + [t])[1..] == ts[1..] + [t];
      JoinSnoc(ts[1..], t, sep);
    } else if |ts| == 1 {
      assert (ts + [t])[1..] == [t];
    }
  }

  lemma {:induction false} JoinAvoids(ts: seq<string>, sep: char, c: char)
    requires c != sep && Avoids(ts, c)
    ensures c !in Join(ts, sep)
    decreases |ts|
  {
    if |ts| > 1 {
      JoinAvoids(ts[1..], sep, c);
    }
  }

  /** The first and last characters of a join of non-empty strings. */
  lemma {:induction false} JoinEnds(ts: seq<string>, sep: char)
    requires |ts| > 0 && forall i :: 0 <= i < |ts| ==> ts[i] != []
    ensures var j := Join(ts, sep); |j| > 0 && j[0] == ts[0][0] && j[|j| - 1] == ts[|ts| - 1][|ts[|ts| - 1]| - 1]
    decreases |ts|
  {
    if |ts| > 1 {
      JoinEnds(ts[1..], sep);
    }
  }

  lemma {:induction false} PiecesWithout(s: string, sep: char)
    requires sep !in s
    ensures Pieces(s, sep) == [s]
    decreases |s|
  {
    if s != [] {
      PiecesWithout(s[1..], sep);
      assert [s[0]] + s[1..] == s;
    }
  }

  /** A prefix free of the separator glues onto the first piece of what follows. */
  lemma {:induction false} PiecesPrefix(a: string, b: string, sep: char)
    requires sep !in a
    ensures Pieces(a + b, sep) == [a + Pieces(b, sep)[0]] + Pieces(b, sep)[1..]
    decreases |a|
  {
    if a == [] {
      assert a + b == b;
      var p := Pieces(b, sep);
      assert p == [p[0]] + p[1..];
      assert a + p[0] == p[0];
    } else {
      assert (a + b)[1..] == a[1..] + b;
      assert (a + b)[0] == a[0] != sep;
      PiecesPrefix(a[1..], b, sep);
      assert [a[0]] + (a[1..] + Pieces(b, sep)[0]) == a + Pieces(b, sep)[0];
    }
  }

  lemma PiecesAfterSep(b: string, sep: char)
    ensures Pieces([sep] + b, sep) == [[]] + Pieces(b, sep)
  {
    assert ([sep] + b)[1..] == b;
  }

  /** Cutting a join of separator-free strings at the separator gives the strings back. */
  lemma {:induction false} PiecesJoin(ts: seq<string>, sep: char)
    requires |ts| > 0 && Avoids(ts, sep)
    ensures Pieces(Join(ts, sep), sep) == ts
    decreases |ts|
  {
    if |ts| == 1 {
      PiecesWithout(ts[0], sep);
    } else {
      var rest := Join(ts[1..], sep);
      assert Join(ts, sep) == ts[0] + ([sep] + rest);
      PiecesPrefix(ts[0], [sep] + rest, sep);
      PiecesAfterSep(rest, sep);
      PiecesJoin(ts[1..], sep);
      var q := Pieces([sep] + rest, sep);
      assert q == [[]] + ts[1..];
      assert q[0] == [] && q[1..] == ts[1..];
      assert ts[0] + q[0] == ts[0];
      assert ts == [ts[0]] + ts[1..];
    }
  }

  /**
   * Splitting a join of non-empty, separator-free strings recovers them, whether or not
   * the join holds a separator at all.
   */
  lemma SplitJoin(ts: seq<string>, sep: char)
    requires |ts| > 0 && Avoids(ts, sep) && forall i :: 0 <= i < |ts| ==> ts[i] != []
    ensures Split(Join(ts, sep), sep) == ts
  {
    PiecesJoin(ts, sep);
    if |ts| > 1 {
      assert Join(ts, sep)[|ts[0]|] == sep;
      assert sep in Join(ts, sep);
    }
  }

  /**
   * A separator followed by a join: an empty leading piece and then the strings, or
   * nothing at all when there are no strings (all pieces are then trailing empties).
   */
  lemma SplitAfterSep(ts: seq<string>, sep: char)
    requires Avoids(ts, sep) && forall i :: 0 <= i < |ts| ==> ts[i] != []
    ensures Split([sep] + Join(ts, sep), sep) == if ts == [] then [] else [[]] + ts
  {
    var s := [sep] + Join(ts, sep);
    assert s[0] == sep;
    PiecesAfterSep(Join(ts, sep), sep);
    if ts == [] {
      assert Join(ts, sep) == [];
      assert Pieces([], sep) == [[]];
      var p: seq<string> := [[], []];
      assert Pieces(s, sep) == p;
      assert p[..1] == [[]];
      assert DropTrailingEmpty([[]]) == DropTrailingEmpty([]);
      assert DropTrailingEmpty(p) == [];
    } else {
      PiecesJoin(ts, sep);
      var p := [[]] + ts;
      assert p[|p| - 1] == ts[|ts| - 1] != [];
    }
  }

  /**
   * How Double.toString and new Double(String) are seen by the model: a rendering of
   * exact reals to text and a partial parse back. Nothing about them is presupposed;
   * lemmas that need the parse to undo the rendering say so with Inverse.
   */
  datatype NumberText = NumberText(show: real -> string, parse: string -> Option<real>)

  ghost predicate Inverse(nt: NumberText) {
    forall r :: nt.parse(nt.show(r)) == Some(r)
  }

  function DigitChar(d: nat): char
    requires d < 10
  {
    "0123456789"[d]
  }

  function NaturalText(n: nat): string
    decreases n
  {
    if n < 10 then [DigitChar(n)] else NaturalText(n / 10) + [DigitChar(n % 10)]
  }

  /** Integer.toString: decimal digits with a leading minus sign when negative. */
  function IntText(n: int): string {
    if n < 0 then "-" + NaturalText(-n) else NaturalText(n)
  }
}
