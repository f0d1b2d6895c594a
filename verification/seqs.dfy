/** Sequence helpers the adapter's list processing is built from: the first
    position satisfying a predicate, removal of one position, and splitting a
    sequence at a separator (Go's strings.Split) with its inverse. */
module Seqs {
  import opened Wrappers

  /** The first position of `s` whose element satisfies `p`, if any. */
  function FirstIndex<T>(s: seq<T>, p: T -> bool): (r: Option<nat>)
    ensures r.Some? ==> r.value < |s| && p(s[r.value])
    ensures r.Some? ==> forall j :: 0 <= j < r.value ==> !p(s[j])
    ensures r.None? ==> forall j :: 0 <= j < |s| ==> !p(s[j])
  {
    if |s| == 0 then None
    else if p(s[0]) then Some(0)
    else
      match FirstIndex(s[1..], p)
      case None => None
      case Some(k) => Some(k + 1)
  }

  /** `i` is the position of the first occurrence of `x` in `s`. */
  predicate IsFirstOccurrence<T(==)>(s: seq<T>, x: T, i: int)
  {
    0 <= i < |s| && s[i] == x && x !in s[..i]
  }

  /** The first occurrence of `x` in `s`, if any. */
  function IndexOf<T(==)>(s: seq<T>, x: T): (r: Option<nat>)
    ensures r.Some? <==> x in s
    ensures r.Some? ==> IsFirstOccurrence(s, x, r.value)
  {
    var r := FirstIndex(s, y => y == x);
    assert r.Some? ==> forall j :: 0 <= j < r.value ==> s[..r.value][j] != x;
    r
  }

  /** `s` without position `i`: the other elements keep their relative order
      and exactly one copy of `s[i]` is gone. */
  function RemoveAt<T>(s: seq<T>, i: nat): (r: seq<T>)
    requires i < |s|
    ensures |r| == |s| - 1
    ensures forall j :: 0 <= j < i ==> r[j] == s[j]
    ensures forall j :: i <= j < |r| ==> r[j] == s[j + 1]
    ensures multiset(r) + multiset{s[i]} == multiset(s)
  {
    assert s == s[..i] + [s[i]] + s[i + 1..];
    s[..i] + s[i + 1..]
  }

  /** The pieces of `s` between occurrences of `sep`, as Go's strings.Split
      with a one-element separator: there is always at least one piece, none
      contains the separator, and the first piece is what precedes the first
      separator (or all of `s` when there is none). */
  function Split<T(==)>(s: seq<T>, sep: T): (parts: seq<seq<T>>)
    ensures |parts| >= 1
    ensures |parts| == multiset(s)[sep] + 1
    ensures forall k :: 0 <= k < |parts| ==> sep !in parts[k]
    ensures parts[0] == s || parts[0] + [sep] <= s
    ensures Join(parts, sep) == s
    decreases |s|
  {
    match IndexOf(s, sep)
    case None => [s]
    case Some(i) =>
      var rest := Split(s[i + 1..], sep);
      SplitCons(s, sep, i, rest);
      [s[..i]] + rest
  }

  /** The pieces of what follows the first separator, with what precedes it
      in front, are the pieces of the whole. */
  lemma SplitCons<T>(s: seq<T>, sep: T, i: nat, rest: seq<seq<T>>)
    requires i < |s| && s[i] == sep && sep !in s[..i]
    requires |rest| >= 1 && |rest| == multiset(s[i + 1..])[sep] + 1
    requires forall k :: 0 <= k < |rest| ==> sep !in rest[k]
    requires Join(rest, sep) == s[i + 1..]
    ensures var parts := [s[..i]] + rest;
            && |parts| == multiset(s)[sep] + 1
            && (forall k :: 0 <= k < |parts| ==> sep !in parts[k])
            && parts[0] + [sep] <= s
            && Join(parts, sep) == s
  {
    var head, tail := s[..i], s[i + 1..];
    var parts := [head] + rest;
    assert s == head + [sep] + tail;
    assert multiset(s) == multiset(head) + multiset{sep} + multiset(tail);
    assert multiset(head)[sep] == 0;
    assert parts[1..] == rest;
    assert forall k :: 1 <= k < |parts| ==> parts[k] == rest[k - 1];
  }

  /** The inverse of Split: the pieces glued back together with `sep`. */
  function Join<T>(parts: seq<seq<T>>, sep: T): seq<T>
    requires |parts| >= 1
  {
    if |parts| == 1 then parts[0] else parts[0] + [sep] + Join(parts[1..], sep)
  }

  /** In a piece free of the separator followed by the separator, the first
      separator is the one right after the piece. */
  lemma IndexOfAfterPiece<T>(piece: seq<T>, sep: T, rest: seq<T>)
    requires sep !in piece
    ensures IndexOf(piece + [sep] + rest, sep) == Some(|piece|)
  {
    var s := piece + [sep] + rest;
    assert s[..|piece|] == piece;
    assert IsFirstOccurrence(s, sep, |piece|);
  }

  /** Splitting peels off the piece before the first separator. */
  lemma SplitStep<T>(piece: seq<T>, sep: T, rest: seq<T>)
    requires sep !in piece
    ensures Split(piece + [sep] + rest, sep) == [piece] + Split(rest, sep)
  {
    var s := piece + [sep] + rest;
    IndexOfAfterPiece(piece, sep, rest);
    assert s[..|piece|] == piece;
    assert s[|piece| + 1..] == rest;
  }

  /** One step of the round trip: a separator-free piece in front of pieces
      that already round-trip. */
  lemma SplitJoinCons<T>(first: seq<T>, tail: seq<seq<T>>, sep: T)
    requires sep !in first && |tail| >= 1
    requires Split(Join(tail, sep), sep) == tail
    ensures Split(Join([first] + tail, sep), sep) == [first] + tail
  {
    var parts := [first] + tail;
    assert parts[1..] == tail;
    assert Join(parts, sep) == first + [sep] + Join(tail, sep);
    SplitStep(first, sep, Join(tail, sep));
  }

  /** Splitting what Join glued together gives the pieces back, provided no
      piece contains the separator. */
  lemma {:induction false} SplitJoin<T>(parts: seq<seq<T>>, sep: T)
    requires |parts| >= 1
    requires forall k :: 0 <= k < |parts| ==> sep !in parts[k]
    ensures Split(Join(parts, sep), sep) == parts
    decreases |parts|
  {
    if |parts| == 1 {
      assert IndexOf(parts[0], sep).None?;
    } else {
      var tail := parts[1..];
      assert forall k :: 0 <= k < |tail| ==> sep !in tail[k] by {
        forall k | 0 <= k < |tail| ensures sep !in tail[k] {
          assert tail[k] == parts[k + 1];
        }
      }
      SplitJoin(tail, sep);
      SplitJoinCons(parts[0], tail, sep);
      assert parts == [parts[0]] + tail;
    }
  }
}
