/** Splitting, joining and flattening of sequences: the vocabulary of every framer and parser. */
module Sequences {

  function Flatten<T>(xss: seq<seq<T>>): seq<T> {
    if xss == [] then [] else Flatten(xss[..|xss| - 1]) + xss[|xss| - 1]
  }

  lemma {:induction false} FlattenAppend<T>(xss: seq<seq<T>>, yss: seq<seq<T>>)
    ensures Flatten(xss + yss) == Flatten(xss) + Flatten(yss)
  {
    if yss == [] {
      assert xss + yss == xss;
    } else {
      var k := |yss| - 1;
      assert (xss + yss)[..|xss + yss| - 1] == xss + yss[..k];
      FlattenAppend(xss, yss[..k]);
    }
  }

  /** The pieces of s between occurrences of sep; always at least one piece. */
  function Split<T(==)>(s: seq<T>, sep: T): (pieces: seq<seq<T>>)
    ensures |pieces| >= 1
  {
    if s == [] then [[]]
    else
      var rest := Split(s[1..], sep);
      if s[0] == sep then [[]] + rest else [[s[0]] + rest[0]] + rest[1..]
  }

  lemma {:induction false} SplitPiecesHoldNoSeparator<T>(s: seq<T>, sep: T)
    ensures forall p :: p in Split(s, sep) ==> sep !in p
  {
    if s != [] {
      SplitPiecesHoldNoSeparator(s[1..], sep);
      var rest := Split(s[1..], sep);
      assert rest[0] in rest;
    }
  }

  function Join<T>(pieces: seq<seq<T>>, sep: T): seq<T>
    requires |pieces| >= 1
  {
    if |pieces| == 1 then pieces[0] else pieces[0] + [sep] + Join(pieces[1..], sep)
  }

  lemma {:induction false} JoinSplit<T>(s: seq<T>, sep: T)
    ensures Join(Split(s, sep), sep) == s
  {
    if s != [] {
      JoinSplit(s[1..], sep);
      var rest := Split(s[1..], sep);
      if s[0] == sep {
        assert ([[]] + rest)[1..] == rest;
      } else {
        var pieces := [[s[0]] + rest[0]] + rest[1..];
        assert pieces[1..] == rest[1..];
        assert Join(pieces, sep) == [s[0]] + Join(rest, sep);
      }
    }
  }

  /** A piece without separators, followed by more text. */
  lemma {:induction false} SplitPrefix<T>(p: seq<T>, s: seq<T>, sep: T)
    requires sep !in p
    ensures Split(p + s, sep) == [p + Split(s, sep)[0]] + Split(s, sep)[1..]
  {
    if p == [] {
      assert p + s == s;
      assert p + Split(s, sep)[0] == Split(s, sep)[0];
    } else {
      assert (p + s)[0] == p[0] && (p + s)[1..] == p[1..] + s;
      SplitPrefix(p[1..], s, sep);
      assert [p[0]] + (p[1..] + Split(s, sep)[0]) == p + Split(s, sep)[0];
    }
  }

  lemma SplitHead<T>(p: seq<T>, s: seq<T>, sep: T)
    requires sep !in p
    ensures Split(p + [sep] + s, sep) == [p] + Split(s, sep)
  {
    assert p + [sep] + s == p + ([sep] + s);
    SplitPrefix(p, [sep] + s, sep);
    assert ([sep] + s)[1..] == s;
    assert p + [] == p;
  }

  lemma SplitAtom<T>(p: seq<T>, sep: T)
    requires sep !in p
    ensures Split(p, sep) == [p]
  {
    SplitPrefix(p, [], sep);
    assert p + [] == p;
  }

  lemma {:induction false} SplitJoin<T>(pieces: seq<seq<T>>, sep: T)
    requires |pieces| >= 1
    requires forall p :: p in pieces ==> sep !in p
    ensures Split(Join(pieces, sep), sep) == pieces
  {
    if |pieces| == 1 {
      SplitAtom(pieces[0], sep);
    } else {
      SplitJoin(pieces[1..], sep);
      SplitHead(pieces[0], Join(pieces[1..], sep), sep);
    }
  }

  /** How one more element at the end changes the pieces: the step of every incremental framer. */
  lemma {:induction false} SplitSnoc<T>(s: seq<T>, c: T, sep: T)
    ensures var p := Split(s, sep); var k := |p| - 1;
            Split(s + [c], sep) == if c == sep then p + [[]] else p[..k] + [p[k] + [c]]
  {
    if s == [] {
      assert s + [c] == [c] && [c][1..] == [];
      assert [c] + [] == [] + [c];
    } else {
      assert (s + [c])[0] == s[0] && (s + [c])[1..] == s[1..] + [c];
      SplitFront(s, sep);
      SplitFront(s + [c], sep);
      hide Split, InFront;
      SplitSnoc(s[1..], c, sep);
      SnocPieces(Split(s[1..], sep), s[0], c, sep);
    }
  }

  lemma SplitFront<T>(s: seq<T>, sep: T)
    requires s != []
    ensures Split(s, sep) == InFront(s[0], Split(s[1..], sep), sep)
  {
  }

  function InFront<T(==)>(first: T, rest: seq<seq<T>>, sep: T): (p: seq<seq<T>>)
    requires |rest| >= 1
    ensures |p| >= 1
  {
    if first == sep then [[]] + rest else [[first] + rest[0]] + rest[1..]
  }

  function Behind<T(==)>(p: seq<seq<T>>, c: T, sep: T): (more: seq<seq<T>>)
    requires |p| >= 1
    ensures |more| >= 1
  {
    if c == sep then p + [[]] else p[..|p| - 1] + [p[|p| - 1] + [c]]
  }

  /** Growing the first piece or adding one in front commutes with growing the last or adding one behind. */
  lemma SnocPieces<T>(rest: seq<seq<T>>, first: T, c: T, sep: T)
    requires |rest| >= 1
    ensures InFront(first, Behind(rest, c, sep), sep) == Behind(InFront(first, rest, sep), c, sep)
  {
    if first != sep && c != sep && |rest| == 1 {
      assert [first] + (rest[0] + [c]) == [first] + rest[0] + [c];
    }
  }

  predicate Ascending(s: seq<int>) {
    forall i, j :: 0 <= i < j < |s| ==> s[i] < s[j]
  }
}
