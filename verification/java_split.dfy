/** `java.lang.String.split(regex)` for a regex that is one ordinary
    character and no limit argument: the string is cut at every separator;
    when there is no separator at all the result is the string itself, even
    an empty one; otherwise trailing empty pieces are removed, which can
    leave nothing at all (`";".split(";")` has length 0). */
module JavaSplit {
  import opened Common

  /** Position of the first `c` in `s`. */
  function IndexOf(s: string, c: char): (r: Option<nat>)
    ensures r.None? <==> c !in s
    ensures r.Some? ==> r.value < |s| && s[r.value] == c && c !in s[..r.value]
  {
    if |s| == 0 then None
    else if s[0] == c then Some(0)
    else match IndexOf(s[1..], c)
      case None => None
      case Some(i) =>
        assert s[..i + 1] == [s[0]] + s[1..][..i];
        Some(i + 1)
  }

  /** Every piece between separators, empty ones included. */
  function Pieces(s: string, sep: char): (r: seq<string>)
    ensures |r| >= 1
    ensures forall i :: 0 <= i < |r| ==> sep !in r[i]
    ensures sep !in s ==> r == [s]
    decreases |s|
  {
    match IndexOf(s, sep)
    case None => [s]
    case Some(i) => [s[..i]] + Pieces(s[i + 1..], sep)
  }

  /** `String.join(sep, pieces)`. */
  function Join(pieces: seq<string>, sep: char): string
    requires |pieces| >= 1
  {
    if |pieces| == 1 then pieces[0] else pieces[0] + [sep] + Join(pieces[1..], sep)
  }

  /** Cutting at every separator loses nothing. */
  lemma {:induction false} JoinPieces(s: string, sep: char)
    ensures Join(Pieces(s, sep), sep) == s
    decreases |s|
  {
    match IndexOf(s, sep)
    case None =>
    case Some(i) =>
      var tail := Pieces(s[i + 1..], sep);
      JoinPieces(s[i + 1..], sep);
      JoinCons(s[..i], tail, sep);
      CutAt(s, i);
  }

  lemma JoinCons(a: string, tail: seq<string>, sep: char)
    requires |tail| >= 1
    ensures Join([a] + tail, sep) == a + [sep] + Join(tail, sep)
  {
    assert ([a] + tail)[1..] == tail;
  }

  lemma CutAt(s: string, i: nat)
    requires i < |s|
    ensures s == s[..i] + [s[i]] + s[i + 1..]
  {
  }

  lemma {:induction false} IndexOfAfter(a: string, sep: char, b: string)
    requires sep !in a
    ensures IndexOf(a + [sep] + b, sep) == Some(|a|)
    decreases |a|
  {
    var s := a + [sep] + b;
    if |a| > 0 {
      assert s[1..] == a[1..] + [sep] + b;
      IndexOfAfter(a[1..], sep, b);
    }
  }

  /** Joining pieces free of the separator and cutting again restores them. */
  lemma {:induction false} PiecesOfJoin(pieces: seq<string>, sep: char)
    requires |pieces| >= 1
    requires forall i :: 0 <= i < |pieces| ==> sep !in pieces[i]
    ensures Pieces(Join(pieces, sep), sep) == pieces
    decreases |pieces|
  {
    if |pieces| > 1 {
      var rest := Join(pieces[1..], sep);
      assert pieces == [pieces[0]] + pieces[1..];
      JoinCons(pieces[0], pieces[1..], sep);
      IndexOfAfter(pieces[0], sep, rest);
      SlicesAround(pieces[0], sep, rest);
      PiecesOfJoin(pieces[1..], sep);
    }
  }

  lemma SlicesAround(a: string, sep: char, b: string)
    ensures (a + [sep] + b)[..|a|] == a && (a + [sep] + b)[|a| + 1..] == b
  {
  }

  /** Remove trailing empty strings. */
  function DropTrailingEmpty(xs: seq<string>): (r: seq<string>)
    ensures |r| <= |xs| && r == xs[..|r|]
    ensures |r| == 0 || r[|r| - 1] != ""
    ensures forall i :: |r| <= i < |xs| ==> xs[i] == ""
  {
    if |xs| > 0 && xs[|xs| - 1] == "" then DropTrailingEmpty(xs[..|xs| - 1]) else xs
  }

  /** `s.split(sep)`. */
  function Split(s: string, sep: char): (r: seq<string>)
    ensures forall i :: 0 <= i < |r| ==> sep !in r[i]
    ensures sep !in s ==> r == [s]
    ensures sep in s ==> |r| <= |Pieces(s, sep)| && r == Pieces(s, sep)[..|r|]
    ensures sep in s ==> |r| == 0 || r[|r| - 1] != ""
    ensures sep in s ==> forall i :: |r| <= i < |Pieces(s, sep)| ==> Pieces(s, sep)[i] == ""
  {
    if sep !in s then [s] else DropTrailingEmpty(Pieces(s, sep))
  }

  /** What `split` returns followed by the empty pieces it dropped is the
      full cut, so joining them gives back the string. */
  lemma SplitReconstructs(s: string, sep: char)
    ensures |Split(s, sep)| <= |Pieces(s, sep)|
    ensures Join(Split(s, sep) + Repeat("", |Pieces(s, sep)| - |Split(s, sep)|), sep) == s
  {
    var p := Pieces(s, sep);
    var r := Split(s, sep);
    JoinPieces(s, sep);
    if sep in s {
      RestoreFill(p, r, "");
    } else {
      assert r + Repeat("", 0) == p;
    }
  }

  /** A prefix of `p`, padded with the filler that makes up the rest of
      `p`, is `p`. */
  lemma {:induction false} RestoreFill<T>(p: seq<T>, r: seq<T>, x: T)
    requires |r| <= |p| && r == p[..|r|]
    requires forall i :: |r| <= i < |p| ==> p[i] == x
    ensures r + Repeat(x, |p| - |r|) == p
    decreases |p| - |r|
  {
    if |r| == |p| {
      assert r == p;
    } else {
      var r' := r + [x];
      assert p[|r|] == x;
      assert r' == p[..|r'|];
      RestoreFill(p, r', x);
      assert Repeat(x, |p| - |r|) == [x] + Repeat(x, |p| - |r'|);
      assert r + ([x] + Repeat(x, |p| - |r'|)) == r' + Repeat(x, |p| - |r'|);
    }
  }

  /** Splitting the join of separator-free pieces restores them, empty
      leading and interior pieces included, unless a trailing empty piece
      after a separator is dropped. */
  lemma SplitOfJoin(pieces: seq<string>, sep: char)
    requires |pieces| >= 1
    requires forall i :: 0 <= i < |pieces| ==> sep !in pieces[i]
    requires |pieces| == 1 || pieces[|pieces| - 1] != ""
    ensures Split(Join(pieces, sep), sep) == pieces
  {
    PiecesOfJoin(pieces, sep);
    var s := Join(pieces, sep);
    if sep !in s {
      assert Pieces(s, sep) == [s];
    }
  }
}
