/**
  The standard-library string primitives the cleaning engine is built from:
  repeated `std::getline(stream, piece, d)` over a string stream, `std::string::find`,
  and the `stringstream` serialisation that joins cells with ',' and ends each row with '\n'.
*/
module Streams {

  /** Index of the first `d` in `s`, or `|s|` when there is none (`std::string::npos`). */
  function IndexOf(s: string, d: char): (i: nat)
    ensures i <= |s|
  {
    if s == [] then 0 else if s[0] == d then 0 else 1 + IndexOf(s[1..], d)
  }

  /** `IndexOf` finds the first `d`: none before it, and `d` at it unless it is the end. */
  lemma {:induction false} IndexOfSpec(s: string, d: char)
    ensures forall k :: 0 <= k < IndexOf(s, d) ==> s[k] != d
    ensures IndexOf(s, d) < |s| ==> s[IndexOf(s, d)] == d
    decreases |s|
  {
    if s != [] && s[0] != d {
      IndexOfSpec(s[1..], d);
      forall k | 0 < k < IndexOf(s, d)
        ensures s[k] != d
      {
        assert s[k] == s[1..][k - 1];
      }
    }
  }

  /** An index with no `d` before it and `d` at it (or the end) is what `IndexOf` returns. */
  lemma {:induction false} IndexOfAt(s: string, d: char, i: nat)
    requires i <= |s| && (forall k :: 0 <= k < i ==> s[k] != d) && (i < |s| ==> s[i] == d)
    ensures IndexOf(s, d) == i
    decreases |s|
  {
    if s != [] && i > 0 {
      assert s[0] != d;
      IndexOfAt(s[1..], d, i - 1);
    }
  }

  /** `s.find(c, from)`: first index at or after `from` holding `c`, or `|s|` for npos. */
  function FindFrom(s: string, c: char, from: nat): (i: nat)
    requires from <= |s|
    ensures from <= i <= |s|
    ensures forall k :: from <= k < i ==> s[k] != c
    ensures i < |s| ==> s[i] == c
    decreases |s| - from
  {
    if from == |s| then |s| else if s[from] == c then from else FindFrom(s, c, from + 1)
  }

  /**
    The pieces that successive `std::getline(stream, piece, d)` calls yield from a stream
    holding `s`: each call reads up to and discards the next `d`; a call that finds the
    stream exhausted fails, so text after the last `d` yields a piece only when non-empty.
  */
  function Getlines(s: string, d: char): (pieces: seq<string>)
    decreases |s|
  {
    if s == [] then []
    else
      var i := IndexOf(s, d);
      if i == |s| then [s] else [s[..i]] + Getlines(s[i + 1..], d)
  }

  /** One `std::getline` call on the stream positioned at `pos`: the piece read and the position after it. */
  method Getline(s: string, pos: nat, d: char) returns (piece: string, next: nat)
    requires pos < |s|
    ensures pos < next <= |s|
    ensures d !in piece
    ensures Getlines(s[pos..], d) == [piece] + Getlines(s[next..], d)
  {
    var i := pos;
    while i < |s| && s[i] != d
      invariant pos <= i <= |s|
      invariant forall k :: pos <= k < i ==> s[k] != d
    {
      i := i + 1;
    }
    piece := s[pos..i];
    var rest := s[pos..];
    IndexOfAt(rest, d, i - pos);
    assert rest[..i - pos] == piece;
    if i < |s| {
      next := i + 1;
      assert rest[i - pos + 1..] == s[next..];
    } else {
      next := i;
      assert rest == piece;
      assert s[next..] == [];
    }
  }

  /** Moving the next piece from the rest onto the part already read; that piece is one of the pieces. */
  lemma AppendStep<T>(done: seq<T>, x: T, rest: seq<T>, target: seq<T>)
    requires done + ([x] + rest) == target
    ensures (done + [x]) + rest == target && x in target
  {
    assert (done + [x]) + rest == done + ([x] + rest);
    assert target[|done|] == x;
  }

  /** The cells of a row written with `sep` between consecutive cells (the loop that writes a separator before every cell but the first). */
  function Join(cells: seq<string>, sep: char): string
  {
    if |cells| == 0 then ""
    else if |cells| == 1 then cells[0]
    else Join(cells[..|cells| - 1], sep) + [sep] + cells[|cells| - 1]
  }

  /** Every piece followed by `d` (the loop that writes each row and then a newline). */
  function Terminated(pieces: seq<string>, d: char): string
  {
    if pieces == [] then "" else pieces[0] + [d] + Terminated(pieces[1..], d)
  }

  /** No piece contains the separator. */
  ghost predicate Free(pieces: seq<string>, d: char)
  {
    forall p :: p in pieces ==> d !in p
  }

  lemma {:induction false} GetlinesFree(s: string, d: char)
    ensures Free(Getlines(s, d), d)
    decreases |s|
  {
    if s != [] {
      var i := IndexOf(s, d);
      IndexOfSpec(s, d);
      if i < |s| {
        GetlinesFree(s[i + 1..], d);
      }
    }
  }

  /** getline yields nothing exactly from the empty text. */
  lemma {:induction false} GetlinesEmpty(s: string, d: char)
    ensures Getlines(s, d) == [] <==> s == []
  {
  }

  /** One getline call over a separator-free piece and its separator. */
  lemma {:induction false} GetlinesStep(a: string, d: char, b: string)
    requires d !in a
    ensures Getlines(a + [d] + b, d) == [a] + Getlines(b, d)
  {
    var s := a + [d] + b;
    assert s[|a|] == d;
    assert forall k :: 0 <= k < |a| ==> s[k] == a[k];
    IndexOfAt(s, d, |a|);
    assert s[..|a|] == a;
    assert s[|a| + 1..] == b;
  }

  lemma {:induction false} IndexOfFree(a: string, d: char)
    requires d !in a
    ensures IndexOf(a, d) == |a|
  {
    IndexOfAt(a, d, |a|);
  }

  /** The first piece of a terminated sequence, regrouped with whatever follows. */
  lemma TerminatedCons(pieces: seq<string>, rest: string, d: char)
    requires pieces != []
    ensures Terminated(pieces, d) + rest == pieces[0] + [d] + (Terminated(pieces[1..], d) + rest)
  {
    var t := Terminated(pieces[1..], d);
    assert Terminated(pieces, d) == pieces[0] + [d] + t;
    assert (pieces[0] + [d] + t) + rest == pieces[0] + [d] + (t + rest);
  }

  /** The first piece of a separator-free sequence is free of the separator, and so is the rest. */
  lemma FreeCons(pieces: seq<string>, d: char)
    requires pieces != [] && Free(pieces, d)
    ensures d !in pieces[0] && Free(pieces[1..], d)
  {
    assert pieces[0] in pieces;
    forall q | q in pieces[1..]
      ensures d !in q
    {
      assert q in pieces;
    }
  }

  lemma ConsAppend<T>(xs: seq<T>, ys: seq<T>)
    requires xs != []
    ensures xs + ys == [xs[0]] + (xs[1..] + ys)
  {
    assert xs == [xs[0]] + xs[1..];
  }

  /** Terminated pieces read back piece by piece, whatever follows them. */
  lemma {:induction false} GetlinesTerminated(pieces: seq<string>, rest: string, d: char)
    requires Free(pieces, d)
    ensures Getlines(Terminated(pieces, d) + rest, d) == pieces + Getlines(rest, d)
    decreases |pieces|
  {
    if pieces == [] {
      assert Terminated(pieces, d) + rest == rest;
    } else {
      FreeCons(pieces, d);
      TerminatedCons(pieces, rest, d);
      GetlinesStep(pieces[0], d, Terminated(pieces[1..], d) + rest);
      GetlinesTerminated(pieces[1..], rest, d);
      ConsAppend(pieces, Getlines(rest, d));
    }
  }

  /** Round trip of the serialisation: every piece, even an empty one, comes back. */
  lemma GetlinesOfTerminated(pieces: seq<string>, d: char)
    requires Free(pieces, d)
    ensures Getlines(Terminated(pieces, d), d) == pieces
  {
    GetlinesTerminated(pieces, [], d);
    assert Terminated(pieces, d) + [] == Terminated(pieces, d);
  }

  lemma {:induction false} TerminatedSnoc(pieces: seq<string>, p: string, d: char)
    ensures Terminated(pieces + [p], d) == Terminated(pieces, d) + p + [d]
    decreases |pieces|
  {
    if pieces == [] {
      assert pieces + [p] == [p];
    } else {
      assert (pieces + [p])[1..] == pieces[1..] + [p];
      TerminatedSnoc(pieces[1..], p, d);
    }
  }

  /** A joined non-empty row followed by the separator is the terminated row. */
  lemma {:induction false} JoinThenSeparator(cells: seq<string>, d: char)
    requires cells != []
    ensures Join(cells, d) + [d] == Terminated(cells, d)
    decreases |cells|
  {
    if |cells| == 1 {
      assert cells[1..] == [];
    } else {
      var init := cells[..|cells| - 1];
      JoinThenSeparator(init, d);
      TerminatedSnoc(init, cells[|cells| - 1], d);
      assert init + [cells[|cells| - 1]] == cells;
    }
  }

  /** A joined row is its leading cells terminated, then its last cell. */
  lemma {:induction false} JoinAsTerminated(cells: seq<string>, d: char)
    requires cells != []
    ensures Join(cells, d) == Terminated(cells[..|cells| - 1], d) + cells[|cells| - 1]
  {
    if |cells| == 1 {
      assert cells[..0] == [];
    } else {
      JoinThenSeparator(cells[..|cells| - 1], d);
    }
  }

  /** Reading back a joined row restores it when its last cell is non-empty. */
  lemma GetlinesOfJoin(cells: seq<string>, d: char)
    requires Free(cells, d)
    requires cells != [] && cells[|cells| - 1] != ""
    ensures Getlines(Join(cells, d), d) == cells
  {
    var last := cells[|cells| - 1];
    JoinAsTerminated(cells, d);
    GetlinesTerminated(cells[..|cells| - 1], last, d);
    IndexOfFree(last, d);
    assert Getlines(last, d) == [last];
    assert cells[..|cells| - 1] + [last] == cells;
  }

  /** Joining separator-free non-empty rows is injective. */
  lemma JoinInjective(a: seq<string>, b: seq<string>, d: char)
    requires Free(a, d) && Free(b, d)
    requires a != [] && b != []
    requires Join(a, d) == Join(b, d)
    ensures a == b
  {
    JoinThenSeparator(a, d);
    JoinThenSeparator(b, d);
    GetlinesOfTerminated(a, d);
    GetlinesOfTerminated(b, d);
  }

  lemma {:induction false} JoinFree(cells: seq<string>, sep: char, d: char)
    requires Free(cells, d) && sep != d
    ensures d !in Join(cells, sep)
    decreases |cells|
  {
    if |cells| > 1 {
      JoinFree(cells[..|cells| - 1], sep, d);
    }
  }

  /** The serialising loop, a separator before every cell but the first, computes Join. */
  method JoinRow(cells: seq<string>, sep: char) returns (s: string)
    ensures s == Join(cells, sep)
  {
    s := "";
    var i := 0;
    while i < |cells|
      invariant 0 <= i <= |cells|
      invariant s == Join(cells[..i], sep)
    {
      if i > 0 {
        s := s + [sep];
      }
      s := s + cells[i];
      assert cells[..i + 1][..i] == cells[..i];
      i := i + 1;
    }
    assert cells[..|cells|] == cells;
  }
}
