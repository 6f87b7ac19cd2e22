/** Model of the erase-remove idiom (`std::remove_if` followed by `erase`) used by
    unzipdirs.cpp and deldirs.cpp to drop entries from a listing in place. */
module Filters {

  /** The elements of `s` that `drop` does not select, in their original order: what the
      vector holds after `erase(remove_if(begin, end, drop), end)`. */
  function Keep<T>(s: seq<T>, drop: T -> bool): seq<T>
  {
    if s == [] then []
    else Keep(s[..|s| - 1], drop) + (if drop(s[|s| - 1]) then [] else [s[|s| - 1]])
  }

  /** An element survives exactly when it was there and is not dropped. */
  lemma {:induction false} KeepMembers<T>(s: seq<T>, drop: T -> bool)
    ensures |Keep(s, drop)| <= |s|
    ensures forall x {:trigger x in Keep(s, drop)} :: x in Keep(s, drop) <==> x in s && !drop(x)
    decreases |s|
  {
    if s != [] {
      var front := s[..|s| - 1];
      KeepMembers(front, drop);
      assert s == front + [s[|s| - 1]];
    }
  }

  /** The filter is stable: the survivors of a prefix come first, in the same order, and are
      followed by the survivors of the rest. */
  lemma {:induction false} KeepAppend<T>(a: seq<T>, b: seq<T>, drop: T -> bool)
    ensures Keep(a + b, drop) == Keep(a, drop) + Keep(b, drop)
    decreases |b|
  {
    if b == [] {
      assert a + b == a;
    } else {
      var b' := b[..|b| - 1];
      assert (a + b)[..|a + b| - 1] == a + b';
      KeepAppend(a, b', drop);
    }
  }

  /** A single element survives exactly when it is not dropped. */
  lemma KeepOne<T>(x: T, drop: T -> bool)
    ensures Keep([x], drop) == if drop(x) then [] else [x]
  {
    assert [x][..0] == [];
  }

  /** Nothing is dropped when no element is selected, and everything when all are. */
  lemma {:induction false} KeepExtremes<T>(s: seq<T>, drop: T -> bool)
    ensures (forall i :: 0 <= i < |s| ==> !drop(s[i])) ==> Keep(s, drop) == s
    ensures (forall i :: 0 <= i < |s| ==> drop(s[i])) ==> Keep(s, drop) == []
    decreases |s|
  {
    if s != [] {
      var front := s[..|s| - 1];
      KeepExtremes(front, drop);
      assert s == front + [s[|s| - 1]];
    }
  }

  /** Two predicates that agree on every element of `s` filter it the same way. */
  lemma {:induction false} KeepAgrees<T>(s: seq<T>, d1: T -> bool, d2: T -> bool)
    requires forall i :: 0 <= i < |s| ==> d1(s[i]) == d2(s[i])
    ensures Keep(s, d1) == Keep(s, d2)
    decreases |s|
  {
    if s != [] {
      KeepAgrees(s[..|s| - 1], d1, d2);
    }
  }

  /** `std::remove_if`: move every element that is kept to the front, in order, and return
      the new logical end. What is left behind the new end is unspecified, as in C++. */
  method RemoveIf<T>(a: array<T>, drop: T -> bool) returns (newEnd: nat)
    modifies a
    ensures newEnd <= a.Length
    ensures a[..newEnd] == Keep(old(a[..]), drop)
  {
    ghost var s := a[..];
    newEnd := 0;
    for r := 0 to a.Length
      invariant newEnd <= r
      invariant a[..newEnd] == Keep(s[..r], drop)
      invariant forall j :: r <= j < a.Length ==> a[j] == s[j]
    {
      assert s[..r + 1][..r] == s[..r];
      assert a[r] == s[r];
      if !drop(a[r]) {
        ghost var kept := a[..newEnd];
        a[newEnd] := a[r];
        assert a[..newEnd + 1] == kept + [s[r]];
        newEnd := newEnd + 1;
      }
    }
    assert s[..a.Length] == s;
  }

  /** The whole idiom on a vector: copy into a buffer, `remove_if`, `erase` the tail. */
  method EraseIf<T>(v: seq<T>, drop: T -> bool) returns (kept: seq<T>)
    ensures kept == Keep(v, drop)
  {
    if |v| == 0 {
      return [];
    }
    var a := new T[|v|](i requires 0 <= i < |v| => v[i]);
    assert a[..] == v;
    var newEnd := RemoveIf(a, drop);
    kept := a[..newEnd];
  }
}
