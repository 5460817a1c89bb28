/**
 * Concatenation of a sequence of pieces, in order.  It serves twice: joining
 * text chunks back into the text they came from, and appending audio
 * fragments into one combined buffer.
 */
module Concat {

  /** All pieces appended in list order, starting from the empty sequence:
      the left fold `acc := []; for p in ss: acc += p`. */
  function Flatten<T>(ss: seq<seq<T>>): seq<T>
  {
    if ss == [] then [] else Flatten(ss[..|ss| - 1]) + ss[|ss| - 1]
  }

  /** Sum of the lengths of the pieces. */
  function TotalLength<T>(ss: seq<seq<T>>): nat
  {
    if ss == [] then 0 else TotalLength(ss[..|ss| - 1]) + |ss[|ss| - 1]|
  }

  /** Concatenation neither adds nor loses elements. */
  lemma {:induction false} FlattenLength<T>(ss: seq<seq<T>>)
    ensures |Flatten(ss)| == TotalLength(ss)
  {
    if ss != [] {
      FlattenLength(ss[..|ss| - 1]);
    }
  }

  /** Concatenating two lists of pieces one after the other is the same as
      concatenating their concatenations. */
  lemma {:induction false} FlattenAppend<T>(a: seq<seq<T>>, b: seq<seq<T>>)
    ensures Flatten(a + b) == Flatten(a) + Flatten(b)
  {
    if b == [] {
      assert a + b == a;
    } else {
      var init := b[..|b| - 1];
      assert (a + b)[..|a + b| - 1] == a + init;
      FlattenAppend(a, init);
    }
  }

  /** Piece i appears in the concatenation exactly once, intact, right after
      the pieces before it: nothing is dropped, reordered or duplicated. */
  lemma FragmentPlacement<T>(ss: seq<seq<T>>, i: nat)
    requires i < |ss|
    ensures TotalLength(ss[..i]) + |ss[i]| == TotalLength(ss[..i + 1]) <= |Flatten(ss)|
    ensures Flatten(ss)[TotalLength(ss[..i])..TotalLength(ss[..i + 1])] == ss[i]
  {
    var before, rest := ss[..i + 1], ss[i + 1..];
    assert ss == before + rest;
    FlattenAppend(before, rest);
    assert before[..i] == ss[..i];
    FlattenLength(ss[..i]);
    FlattenLength(before);
    assert Flatten(before) == Flatten(ss[..i]) + ss[i];
  }
}
