/**
 * The round-robin cursor of the delegation module (liquid-staking/src/delegation.rs,
 * `get_next_delegation_contract`): a 1-based index into the list of whitelisted
 * delegation contracts that advances by one on every call and wraps back to 1.
 *
 * This module knows nothing about addresses; it only follows the cursor value.
 */
module RoundRobin {

  /** The cursor after one call, given the stored cursor and the list length. */
  function NextIndex(lastIndex: nat, len: nat): (r: nat)
    ensures 1 <= r
    ensures 0 < len ==> r <= len
    ensures lastIndex >= len ==> r == 1
    ensures lastIndex < len ==> r == lastIndex + 1
  {
    if lastIndex >= len then 1 else lastIndex + 1
  }

  /** The cursor values (= the 1-based list positions returned) of `k` consecutive calls. */
  function Visits(lastIndex: nat, len: nat, k: nat): (v: seq<nat>)
    ensures |v| == k
    decreases k
  {
    if k == 0 then []
    else
      var next := NextIndex(lastIndex, len);
      [next] + Visits(next, len, k - 1)
  }

  /**
   * The 0-based list position the cursor effectively stands on: a cursor at or beyond
   * the end behaves exactly like the cursor 0 (the next call returns position 1).
   */
  function Offset(lastIndex: nat, len: nat): (o: nat)
    requires 0 < len
    ensures o < len
  {
    if lastIndex >= len then 0 else lastIndex
  }

  /**
   * Closed form, independent of the call-by-call definition: the position returned by
   * call number `i` (0-based) is the `i`-th one after the effective offset, counted
   * cyclically. Stated for the first `len + 1` calls, which wrap at most once.
   */
  function Position(offset: nat, len: nat, i: nat): (p: nat)
    requires offset < len && i <= len
    ensures 1 <= p <= len
  {
    if offset + i < len then offset + i + 1 else offset + i - len + 1
  }

  /** Call `i` of `k` consecutive calls returns the closed-form position. */
  lemma {:induction false} VisitsAt(lastIndex: nat, len: nat, k: nat, i: nat)
    requires 0 < len && k <= len + 1 && i < k
    ensures Visits(lastIndex, len, k)[i] == Position(Offset(lastIndex, len), len, i)
    decreases i
  {
    if i > 0 {
      var next := NextIndex(lastIndex, len);
      assert Visits(lastIndex, len, k)[i] == Visits(next, len, k - 1)[i - 1];
      VisitsAt(next, len, k - 1, i - 1);
    }
  }

  /** One call more extends the sequence of returned positions by one element. */
  lemma {:induction false} VisitsExtend(lastIndex: nat, len: nat, k: nat)
    ensures Visits(lastIndex, len, k + 1)[..k] == Visits(lastIndex, len, k)
    decreases k
  {
    if k > 0 {
      var next := NextIndex(lastIndex, len);
      VisitsExtend(next, len, k - 1);
      assert Visits(lastIndex, len, k + 1)[..k] == [next] + Visits(next, len, k)[..k - 1];
    }
  }

  /**
   * Round-robin coverage: from any stored cursor, `len` consecutive calls return every
   * position 1..len, no position twice (so each exactly once), and call `len + 1`
   * returns the same position as the first call.
   */
  lemma RoundRobinCoverage(lastIndex: nat, len: nat)
    requires 0 < len
    ensures var v := Visits(lastIndex, len, len);
      && (forall i :: 0 <= i < len ==> 1 <= v[i] <= len)
      && (forall i, j :: 0 <= i < j < len ==> v[i] != v[j])
      && (forall p :: 1 <= p <= len ==> p in v)
    ensures Visits(lastIndex, len, len + 1) == Visits(lastIndex, len, len) + [Visits(lastIndex, len, len)[0]]
  {
    var v := Visits(lastIndex, len, len);
    var o := Offset(lastIndex, len);
    forall i | 0 <= i < len
      ensures v[i] == Position(o, len, i)
    {
      VisitsAt(lastIndex, len, len, i);
    }
    forall p | 1 <= p <= len
      ensures p in v
    {
      var i := if p - 1 >= o then p - 1 - o else p - 1 - o + len;
      assert v[i] == p;
    }
    var w := Visits(lastIndex, len, len + 1);
    VisitsExtend(lastIndex, len, len);
    VisitsAt(lastIndex, len, len + 1, len);
    VisitsAt(lastIndex, len, len + 1, 0);
    assert w == w[..len] + [w[len]];
  }
}
