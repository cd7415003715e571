/**
 * `arrayMove` of the sortable drag-and-drop library the board uses: take the
 * element at `from` out of the sequence and put it back in at `to`.
 */
module Sortable {

  function ArrayMove<T>(s: seq<T>, from: nat, to: nat): (r: seq<T>)
    requires from < |s| && to < |s|
    ensures |r| == |s| && r[to] == s[from]
    ensures multiset(r) == multiset(s)
  {
    var rest := s[..from] + s[from + 1..];
    var r := rest[..to] + [s[from]] + rest[to..];
    assert multiset(r) == multiset(s) by {
      assert s == s[..from] + [s[from]] + s[from + 1..];
      assert rest == rest[..to] + rest[to..];
      calc {
        multiset(r);
        multiset(rest[..to]) + multiset(rest[to..]) + multiset{s[from]};
        multiset(rest) + multiset{s[from]};
        multiset(s[..from]) + multiset(s[from + 1..]) + multiset{s[from]};
        multiset(s);
      }
    }
    r
  }

  /**
   * The index of `s` whose element lands at index `k` after moving `from`
   * to `to`: the moved element itself, or a neighbour shifted by one.
   */
  function Origin(from: nat, to: nat, k: nat): nat {
    if k == to then from
    else if from < to && from <= k < to then k + 1
    else if to < from && to < k <= from then k - 1
    else k
  }

  lemma ArrayMoveAt<T>(s: seq<T>, from: nat, to: nat, k: nat)
    requires from < |s| && to < |s| && k < |s|
    ensures Origin(from, to, k) < |s|
    ensures ArrayMove(s, from, to)[k] == s[Origin(from, to, k)]
  {
  }

  /** Different positions of the result come from different positions of the input. */
  lemma OriginInjective(from: nat, to: nat, i: nat, j: nat)
    requires i != j
    ensures Origin(from, to, i) != Origin(from, to, j)
  {
  }

  /** Moving back from `to` to `from` undoes the move. */
  lemma {:induction false} ArrayMoveInverse<T>(s: seq<T>, from: nat, to: nat)
    requires from < |s| && to < |s|
    ensures ArrayMove(ArrayMove(s, from, to), to, from) == s
  {
    var rest := s[..from] + s[from + 1..];
    var m := ArrayMove(s, from, to);
    assert m == rest[..to] + [s[from]] + rest[to..];
    assert m[..to] + m[to + 1..] == rest;
    assert rest[..from] + [s[from]] + rest[from..] == s;
  }

  lemma ArrayMoveInPlace<T>(s: seq<T>, i: nat)
    requires i < |s|
    ensures ArrayMove(s, i, i) == s
  {
    assert s == s[..i] + [s[i]] + s[i + 1..];
  }
}
