/** Splitting a sequence on a separator and joining it again.

    The pieces are the only ones without the separator that join to the whole, however it was
    put together. */
module Splitting {

  function Init<T>(s: seq<T>): seq<T>
    requires s != []
  {
    s[..|s| - 1]
  }

  function Last<T>(s: seq<T>): T
    requires s != []
  {
    s[|s| - 1]
  }

  /** The pieces between separators; the one after the last separator is there even when it is
      empty. */
  function Split<T(==)>(s: seq<T>, sep: T): (pieces: seq<seq<T>>)
    ensures pieces != []
  {
    if s == [] then [[]]
    else if Last(s) == sep then Split(Init(s), sep) + [[]]
    else
      var before := Split(Init(s), sep);
      Init(before) + [Last(before) + [Last(s)]]
  }

  function Join<T>(pieces: seq<seq<T>>, sep: T): seq<T>
    requires pieces != []
  {
    if |pieces| == 1 then pieces[0] else Join(Init(pieces), sep) + [sep] + Last(pieces)
  }

  ghost predicate Free<T>(s: seq<T>, sep: T) {
    sep !in s
  }

  ghost predicate AllFree<T>(pieces: seq<seq<T>>, sep: T) {
    forall i :: 0 <= i < |pieces| ==> Free(pieces[i], sep)
  }

  lemma {:induction false} SplitExtends<T>(a: seq<T>, run: seq<T>, sep: T)
    requires Free(run, sep)
    ensures Split(a + run, sep) == Init(Split(a, sep)) + [Last(Split(a, sep)) + run]
  {
    if run == [] {
      assert a + run == a;
      assert Last(Split(a, sep)) + run == Last(Split(a, sep));
    } else {
      SplitExtends(a, Init(run), sep);
      assert Init(a + run) == a + Init(run);
      assert Last(Split(a, sep)) + Init(run) + [Last(run)] == Last(Split(a, sep)) + run;
    }
  }

  lemma SplitAtSeparator<T>(a: seq<T>, sep: T)
    ensures Split(a + [sep], sep) == Split(a, sep) + [[]]
  {
    assert Init(a + [sep]) == a;
  }

  lemma {:induction false} SplitIsFree<T>(s: seq<T>, sep: T)
    ensures AllFree(Split(s, sep), sep)
  {
    if s != [] {
      SplitIsFree(Init(s), sep);
    }
  }

  lemma JoinAppend<T>(pieces: seq<seq<T>>, piece: seq<T>, sep: T)
    requires pieces != []
    ensures Join(pieces + [piece], sep) == Join(pieces, sep) + [sep] + piece
  {
    assert Init(pieces + [piece]) == pieces;
  }

  lemma JoinGrowLast<T>(before: seq<seq<T>>, piece: seq<T>, x: T, sep: T)
    ensures Join(before + [piece + [x]], sep) == Join(before + [piece], sep) + [x]
  {
    if before != [] {
      JoinAppend(before, piece, sep);
      JoinAppend(before, piece + [x], sep);
    }
  }

  /** `Split` is the split: joining its pieces, which have no separator, gives the whole ... */
  lemma {:induction false} SplitJoins<T>(s: seq<T>, sep: T)
    ensures Join(Split(s, sep), sep) == s
  {
    if s != [] {
      SplitJoins(Init(s), sep);
      var before := Split(Init(s), sep);
      assert s == Init(s) + [Last(s)];
      if Last(s) == sep {
        JoinAppend(before, [], sep);
      } else {
        assert before == Init(before) + [Last(before)];
        JoinGrowLast(Init(before), Last(before), Last(s), sep);
      }
    }
  }

  lemma SplitAppend<T>(s: seq<T>, piece: seq<T>, sep: T)
    requires Free(piece, sep)
    ensures Split(s + [sep] + piece, sep) == Split(s, sep) + [piece]
  {
    hide Split;
    SplitAtSeparator(s, sep);
    SplitExtends(s + [sep], piece, sep);
    assert Init(Split(s, sep) + [[]]) == Split(s, sep);
    assert [] + piece == piece;
  }

  /** ... and it is the only one: pieces without a separator that join to the whole. */
  lemma {:induction false} SplitIsUnique<T>(pieces: seq<seq<T>>, sep: T)
    requires pieces != [] && AllFree(pieces, sep)
    ensures Split(Join(pieces, sep), sep) == pieces
    decreases |pieces|
  {
    if |pieces| == 1 {
      SplitExtends([], pieces[0], sep);
      assert [] + pieces[0] == pieces[0];
    } else {
      hide Split;
      SplitIsUnique(Init(pieces), sep);
      SplitAppend(Join(Init(pieces), sep), Last(pieces), sep);
      assert Init(pieces) + [Last(pieces)] == pieces;
    }
  }
}
