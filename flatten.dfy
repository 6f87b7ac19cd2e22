/** Model of `flatten_nested` (szkarc.h): concatenate a vector of vectors in order,
    after reserving the summed size of the inner vectors. */
module NestedLists {

  /** The in-order concatenation of the inner lists (the specification of `flatten_nested`). */
  function Flatten<T>(nested: seq<seq<T>>): seq<T>
  {
    if nested == [] then []
    else Flatten(nested[..|nested| - 1]) + nested[|nested| - 1]
  }

  /** Sum of the inner lengths, the value `std::transform_reduce` computes. */
  function TotalSize<T>(nested: seq<seq<T>>): nat
  {
    if nested == [] then 0
    else TotalSize(nested[..|nested| - 1]) + |nested[|nested| - 1]|
  }

  /** The value handed to `reserve`: the reduction's accumulator starts from `0u`, an
      unsigned 32-bit integer, so the sum is taken modulo 2^32. */
  function ReserveSize<T>(nested: seq<seq<T>>): (r: nat)
    ensures r < 0x1_0000_0000
    ensures TotalSize(nested) < 0x1_0000_0000 ==> r == TotalSize(nested)
  {
    TotalSize(nested) % 0x1_0000_0000
  }

  lemma {:induction false} FlattenLength<T>(nested: seq<seq<T>>)
    ensures |Flatten(nested)| == TotalSize(nested)
    decreases |nested|
  {
    if nested != [] {
      FlattenLength(nested[..|nested| - 1]);
    }
  }

  /** The reserved capacity equals the final length unless more than 2^32 - 1 elements
      are flattened; the reservation is only a hint, so the result is the same either way. */
  lemma ReserveMatchesLength<T>(nested: seq<seq<T>>)
    requires TotalSize(nested) < 0x1_0000_0000
    ensures ReserveSize(nested) == |Flatten(nested)|
  {
    FlattenLength(nested);
  }

  /** Flattening distributes over concatenation of the outer lists. */
  lemma {:induction false} FlattenAppend<T>(a: seq<seq<T>>, b: seq<seq<T>>)
    ensures Flatten(a + b) == Flatten(a) + Flatten(b)
    decreases |b|
  {
    if b == [] {
      assert a + b == a;
    } else {
      var b' := b[..|b| - 1];
      assert (a + b)[..|a + b| - 1] == a + b';
      FlattenAppend(a, b');
    }
  }

  lemma {:induction false} TotalSizeAppend<T>(a: seq<seq<T>>, b: seq<seq<T>>)
    ensures TotalSize(a + b) == TotalSize(a) + TotalSize(b)
    decreases |b|
  {
    if b == [] {
      assert a + b == a;
    } else {
      var b' := b[..|b| - 1];
      assert (a + b)[..|a + b| - 1] == a + b';
      TotalSizeAppend(a, b');
    }
  }

  /** Flattening an empty outer list, or one holding only empty lists, gives nothing. */
  lemma {:induction false} FlattenAllEmpty<T>(nested: seq<seq<T>>)
    requires forall i :: 0 <= i < |nested| ==> nested[i] == []
    ensures Flatten(nested) == []
    decreases |nested|
  {
    if nested != [] {
      FlattenAllEmpty(nested[..|nested| - 1]);
    }
  }

  /** An element is in the flattened list exactly when it is in one of the inner lists. */
  lemma {:induction false} FlattenMember<T>(nested: seq<seq<T>>, x: T)
    ensures x in Flatten(nested) <==> exists i :: 0 <= i < |nested| && x in nested[i]
    decreases |nested|
  {
    if nested != [] {
      var front := nested[..|nested| - 1];
      FlattenMember(front, x);
      if x in Flatten(nested) && x !in Flatten(front) {
        assert x in nested[|nested| - 1];
      }
      if exists i :: 0 <= i < |nested| && x in nested[i] {
        var i :| 0 <= i < |nested| && x in nested[i];
        if i < |nested| - 1 {
          assert x in front[i];
        }
      }
    }
  }

  /** In-order concatenation, element by element: the j-th element of the i-th inner list
      sits right after the elements of the inner lists before it. */
  lemma FlattenAt<T>(nested: seq<seq<T>>, i: nat, j: nat)
    requires i < |nested| && j < |nested[i]|
    ensures TotalSize(nested[..i]) + j < |Flatten(nested)|
    ensures Flatten(nested)[TotalSize(nested[..i]) + j] == nested[i][j]
  {
    assert nested == nested[..i] + [nested[i]] + nested[i + 1..];
    FlattenAppend(nested[..i] + [nested[i]], nested[i + 1..]);
    FlattenAppend(nested[..i], [nested[i]]);
    assert Flatten([nested[i]]) == nested[i] by {
      assert [nested[i]][..0] == [];
    }
    FlattenLength(nested[..i]);
  }

  /** `std::transform_reduce(nested, 0u, plus{}, size)`: the accumulator has the type of
      `0u`, so every partial sum is truncated to 32 bits. */
  method SumSizes<T>(nested: seq<seq<T>>) returns (total: nat)
    ensures total == ReserveSize(nested)
  {
    total := 0;
    for i := 0 to |nested|
      invariant total == TotalSize(nested[..i]) % 0x1_0000_0000
    {
      assert nested[..i + 1][..i] == nested[..i];
      ModAdd(TotalSize(nested[..i]), |nested[i]|);
      total := (total + |nested[i]|) % 0x1_0000_0000;
    }
    assert nested[..|nested|] == nested;
  }

  /** Truncating after every step is truncating once at the end. */
  lemma ModAdd(a: nat, b: nat)
    ensures (a % 0x1_0000_0000 + b) % 0x1_0000_0000 == (a + b) % 0x1_0000_0000
  {
  }

  /** `flatten_nested`: reserve the summed size, then append every inner list, in order,
      to `flat`. */
  method FlattenNested<T>(nested: seq<seq<T>>) returns (flat: seq<T>)
    ensures flat == Flatten(nested)
    ensures |flat| == TotalSize(nested)
  {
    var capacity := SumSizes(nested);
    flat := [];
    for i := 0 to |nested|
      invariant flat == Flatten(nested[..i])
      invariant |flat| == TotalSize(nested[..i])
    {
      assert nested[..i + 1][..i] == nested[..i];
      flat := flat + nested[i];
    }
    assert nested[..|nested|] == nested;
  }
}
