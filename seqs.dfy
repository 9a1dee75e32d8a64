/** Concatenation of a sequence of sequences, shared by the byte stream of FNV and by the chunks
    of IterativeParallelism. */
module Seqs {

  /** The parts, concatenated in order. */
  function Flatten<T>(parts: seq<seq<T>>): seq<T>
    decreases |parts|
  {
    if parts == [] then [] else Flatten(parts[..|parts| - 1]) + parts[|parts| - 1]
  }

  /** Appending one part adds its elements at the end. */
  lemma FlattenSnoc<T>(parts: seq<seq<T>>, part: seq<T>)
    ensures Flatten(parts + [part]) == Flatten(parts) + part
  {
    assert (parts + [part])[..|parts|] == parts;
  }

  /** Flattening distributes over a part taken off the front. */
  lemma {:induction false} FlattenCons<T>(part: seq<T>, parts: seq<seq<T>>)
    ensures Flatten([part] + parts) == part + Flatten(parts)
    decreases |parts|
  {
    if parts == [] {
      assert [part] + parts == [part];
      assert [part][..0] == [];
    } else {
      var init := parts[..|parts| - 1];
      assert [part] + parts == ([part] + init) + [parts[|parts| - 1]];
      assert parts == init + [parts[|parts| - 1]];
      FlattenSnoc([part] + init, parts[|parts| - 1]);
      FlattenSnoc(init, parts[|parts| - 1]);
      FlattenCons(part, init);
    }
  }

  /** Concatenating two lists of parts concatenates their concatenations. */
  lemma {:induction false} FlattenAppend<T>(a: seq<seq<T>>, b: seq<seq<T>>)
    ensures Flatten(a + b) == Flatten(a) + Flatten(b)
    decreases |b|
  {
    if b == [] {
      assert a + b == a;
    } else {
      var init := b[..|b| - 1];
      assert a + b == (a + init) + [b[|b| - 1]];
      FlattenSnoc(a + init, b[|b| - 1]);
      FlattenSnoc(init, b[|b| - 1]);
      FlattenAppend(a, init);
    }
  }

  /** Consecutive slices of a sequence, from its start to bounds[|parts|], concatenate to that prefix. */
  lemma {:induction false} FlattenSlices<T>(s: seq<T>, parts: seq<seq<T>>, bounds: seq<int>)
    requires |bounds| == |parts| + 1 && bounds[0] == 0
    requires forall k :: 0 <= k < |bounds| ==> 0 <= bounds[k] <= |s|
    requires forall k :: 0 <= k < |parts| ==> bounds[k] <= bounds[k + 1] && parts[k] == s[bounds[k]..bounds[k + 1]]
    ensures Flatten(parts) == s[..bounds[|parts|]]
    decreases |parts|
  {
    if parts != [] {
      var n := |parts|;
      var init, front := parts[..n - 1], bounds[..n];
      assert forall k :: 0 <= k < |front| ==> front[k] == bounds[k];
      assert forall k :: 0 <= k < |init| ==> init[k] == parts[k];
      FlattenSlices(s, init, front);
      assert bounds[n - 1] <= bounds[n];
      assert s[..bounds[n]] == s[..bounds[n - 1]] + s[bounds[n - 1]..bounds[n]];
    }
  }

  /** An element of the concatenation is an element of some part, and conversely. */
  lemma {:induction false} FlattenMember<T>(parts: seq<seq<T>>, x: T)
    ensures x in Flatten(parts) <==> exists k :: 0 <= k < |parts| && x in parts[k]
    decreases |parts|
  {
    if parts != [] {
      var init := parts[..|parts| - 1];
      FlattenMember(init, x);
      if x in Flatten(parts) && x !in parts[|parts| - 1] {
        var k :| 0 <= k < |init| && x in init[k];
        assert parts[k] == init[k];
      }
      if exists k :: 0 <= k < |parts| && x in parts[k] {
        var k :| 0 <= k < |parts| && x in parts[k];
        if k < |init| {
          assert init[k] == parts[k];
        }
      }
    }
  }
}
