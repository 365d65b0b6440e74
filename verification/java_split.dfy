/** `String.split(regex)` for the two patterns the wake path uses, `":"` and
    `"[.]"`, both of which match exactly one literal character. Java's rules
    for such a pattern: with no match the result is the whole input; otherwise
    the input is cut at every separator and trailing empty pieces are dropped
    (so `"a:b:"` gives two pieces and `":"` gives none, while `""` gives one). */
module JavaSplit {

  /** The inverse of cutting: the pieces glued back with `sep` between them. */
  function Join(parts: seq<string>, sep: char): string
  {
    if |parts| == 0 then []
    else if |parts| == 1 then parts[0]
    else parts[0] + [sep] + Join(parts[1..], sep)
  }

  /** The input cut at every `sep`, keeping every piece, empty ones included. */
  function Pieces(s: string, sep: char): (r: seq<string>)
    ensures |r| == multiset(s)[sep] + 1
    ensures forall i :: 0 <= i < |r| ==> sep !in r[i]
    ensures Join(r, sep) == s
    decreases |s|
  {
    if |s| == 0 then [[]]
    else
      var rest := Pieces(s[1..], sep);
      assert s == [s[0]] + s[1..];
      assert multiset(s) == multiset([s[0]]) + multiset(s[1..]);
      if s[0] == sep then
        JoinCons([], rest, sep);
        [[]] + rest
      else
        JoinExtendHead(s[0], rest, sep);
        [[s[0]] + rest[0]] + rest[1..]
  }

  lemma JoinCons(head: string, rest: seq<string>, sep: char)
    requires |rest| >= 1
    ensures Join([head] + rest, sep) == head + [sep] + Join(rest, sep)
  {
    assert ([head] + rest)[1..] == rest;
  }

  /** Prefixing a character to the first piece prefixes it to the join. */
  lemma JoinExtendHead(ch: char, parts: seq<string>, sep: char)
    requires |parts| >= 1
    ensures Join([[ch] + parts[0]] + parts[1..], sep) == [ch] + Join(parts, sep)
  {
    if |parts| > 1 {
      JoinCons([ch] + parts[0], parts[1..], sep);
      JoinCons(parts[0], parts[1..], sep);
      assert [parts[0]] + parts[1..] == parts;
    }
  }

  /** Drops the empty pieces at the end, as `split` with limit 0 does. */
  function DropTrailingEmpty(parts: seq<string>): (r: seq<string>)
    ensures r <= parts
    ensures |r| == 0 || r[|r| - 1] != []
    ensures forall i :: |r| <= i < |parts| ==> parts[i] == []
  {
    if |parts| == 0 || parts[|parts| - 1] != [] then parts
    else DropTrailingEmpty(parts[..|parts| - 1])
  }

  /** `s.split(sep)` for a one-character literal separator. */
  function Split(s: string, sep: char): (r: seq<string>)
    ensures forall i :: 0 <= i < |r| ==> sep !in r[i]
    ensures sep !in s ==> r == [s]
    ensures sep in s ==> r <= Pieces(s, sep) && (|r| == 0 || r[|r| - 1] != [])
    ensures sep in s ==> forall i :: |r| <= i < |Pieces(s, sep)| ==> Pieces(s, sep)[i] == []
  {
    if sep !in s then [s] else DropTrailingEmpty(Pieces(s, sep))
  }

  /** Pieces with no separator inside them and a non-empty last piece are
      recovered exactly by splitting their join (a single piece may be empty). */
  lemma {:induction false} SplitJoin(parts: seq<string>, sep: char)
    requires |parts| >= 1
    requires forall i :: 0 <= i < |parts| ==> sep !in parts[i]
    requires |parts| == 1 || parts[|parts| - 1] != []
    ensures Split(Join(parts, sep), sep) == parts
  {
    PiecesJoin(parts, sep);
    if |parts| == 1 {
      assert sep !in Join(parts, sep);
    } else {
      assert sep in Join(parts, sep);
    }
  }

  /** Cutting a join at every separator gives back the pieces. */
  lemma {:induction false} PiecesJoin(parts: seq<string>, sep: char)
    requires |parts| >= 1
    requires forall i :: 0 <= i < |parts| ==> sep !in parts[i]
    ensures Pieces(Join(parts, sep), sep) == parts
    decreases |parts|
  {
    if |parts| == 1 {
      PiecesOfSeparatorFree(parts[0], sep);
    } else {
      PiecesJoin(parts[1..], sep);
      PiecesCut(parts[0], Join(parts[1..], sep), sep);
      assert [parts[0]] + parts[1..] == parts;
    }
  }

  lemma {:induction false} PiecesOfSeparatorFree(s: string, sep: char)
    requires sep !in s
    ensures Pieces(s, sep) == [s]
    decreases |s|
  {
    if |s| > 0 {
      PiecesOfSeparatorFree(s[1..], sep);
      assert [s[0]] + s[1..] == s;
    }
  }

  /** One step of cutting: a leading separator closes an empty piece, any
      other leading character joins the first piece of the rest. */
  lemma PiecesStep(s: string, sep: char)
    requires |s| > 0
    ensures s[0] == sep ==> Pieces(s, sep) == [[]] + Pieces(s[1..], sep)
    ensures s[0] != sep ==> Pieces(s, sep) == [[s[0]] + Pieces(s[1..], sep)[0]] + Pieces(s[1..], sep)[1..]
  {
  }

  /** A separator-free head followed by a separator starts a new piece. */
  lemma {:induction false} PiecesCut(head: string, tail: string, sep: char)
    requires sep !in head
    ensures Pieces(head + [sep] + tail, sep) == [head] + Pieces(tail, sep)
    decreases |head|
  {
    var s := head + [sep] + tail;
    if |head| == 0 {
      assert s[0] == sep && s[1..] == tail;
      PiecesStep(s, sep);
    } else {
      var s1 := s[1..];
      assert s1 == head[1..] + [sep] + tail;
      assert s[0] == head[0] && s[0] != sep;
      var rest := Pieces(s1, sep);
      assert rest == [head[1..]] + Pieces(tail, sep) by {
        PiecesCut(head[1..], tail, sep);
      }
      assert Pieces(s, sep) == [[head[0]] + rest[0]] + rest[1..] by {
        PiecesStep(s, sep);
      }
      assert [head[0]] + head[1..] == head;
      assert rest[1..] == Pieces(tail, sep);
    }
  }
}
