/**
 * The specification of the server's fan-out prune: `filter_map` over the
 * connections, keeping a connection exactly when its write succeeded.
 * ok[i] is the outcome of the write to connection cs[i].
 */
module Registry {

  /** The connections of cs whose write succeeded, in their original order. */
  function Surviving<T>(cs: seq<T>, ok: seq<bool>): (r: seq<T>)
    requires |cs| == |ok|
    ensures |r| <= |cs|
    ensures forall x :: x in r ==> x in cs
    decreases |cs|
  {
    if cs == [] then []
    else (if ok[0] then [cs[0]] else []) + Surviving(cs[1..], ok[1..])
  }

  /** Pruning works connection by connection: it distributes over concatenation. */
  lemma {:induction false} SurvivingAppend<T>(a: seq<T>, oa: seq<bool>, b: seq<T>, ob: seq<bool>)
    requires |a| == |oa| && |b| == |ob|
    ensures Surviving(a + b, oa + ob) == Surviving(a, oa) + Surviving(b, ob)
    decreases |a|
  {
    if a == [] {
      assert a + b == b && oa + ob == ob;
    } else {
      SurvivingAppend(a[1..], oa[1..], b, ob);
      var h := if oa[0] then [a[0]] else [];
      assert (a + b)[1..] == a[1..] + b && (oa + ob)[1..] == oa[1..] + ob;
      assert (a + b)[0] == a[0] && (oa + ob)[0] == oa[0];
      assert Surviving(a + b, oa + ob) == h + Surviving(a[1..] + b, oa[1..] + ob);
      assert Surviving(a, oa) == h + Surviving(a[1..], oa[1..]);
    }
  }

  /** Extending the registry by one connection extends the pruned registry by it exactly when its write succeeded. */
  lemma SurvivingStep<T>(cs: seq<T>, ok: seq<bool>, i: nat)
    requires |cs| == |ok| && i < |cs|
    ensures Surviving(cs[..i + 1], ok[..i + 1]) == Surviving(cs[..i], ok[..i]) + (if ok[i] then [cs[i]] else [])
  {
    assert cs[..i + 1] == cs[..i] + [cs[i]] && ok[..i + 1] == ok[..i] + [ok[i]];
    SurvivingAppend(cs[..i], ok[..i], [cs[i]], [ok[i]]);
  }

  /** The positions, offset by base, whose write succeeded, in increasing order. */
  function OkPositions(ok: seq<bool>, base: nat): (p: seq<nat>)
    decreases |ok|
  {
    if ok == [] then []
    else (if ok[0] then [base] else []) + OkPositions(ok[1..], base + 1)
  }

  /** Each listed position is in range, had a successful write, and carries the survivor at that rank. */
  lemma {:induction false} OkPositionsSound<T>(cs: seq<T>, ok: seq<bool>, base: nat)
    requires |cs| == |ok|
    ensures |OkPositions(ok, base)| == |Surviving(cs, ok)|
    ensures forall k :: 0 <= k < |OkPositions(ok, base)| ==>
      var p := OkPositions(ok, base)[k];
      base <= p < base + |cs| && ok[p - base] && Surviving(cs, ok)[k] == cs[p - base]
    decreases |cs|
  {
    if cs != [] {
      OkPositionsSound(cs[1..], ok[1..], base + 1);
      var p := OkPositions(ok, base);
      var r := Surviving(cs, ok);
      var rest := OkPositions(ok[1..], base + 1);
      var tail := Surviving(cs[1..], ok[1..]);
      var n := if ok[0] then 1 else 0;
      assert p == (if ok[0] then [base] else []) + rest;
      assert r == (if ok[0] then [cs[0]] else []) + tail;
      forall k | n <= k < |p|
        ensures base <= p[k] < base + |cs| && ok[p[k] - base] && r[k] == cs[p[k] - base]
      {
        assert p[k] == rest[k - n] && r[k] == tail[k - n];
        assert ok[1..][p[k] - (base + 1)] == ok[p[k] - base];
        assert cs[1..][p[k] - (base + 1)] == cs[p[k] - base];
      }
    }
  }

  /** The listed positions strictly increase. */
  lemma {:induction false} OkPositionsIncrease(ok: seq<bool>, base: nat)
    ensures forall k :: 0 <= k < |OkPositions(ok, base)| ==> base <= OkPositions(ok, base)[k] < base + |ok|
    ensures forall k, l :: 0 <= k < l < |OkPositions(ok, base)| ==> OkPositions(ok, base)[k] < OkPositions(ok, base)[l]
    decreases |ok|
  {
    if ok != [] {
      OkPositionsIncrease(ok[1..], base + 1);
    }
  }

  /** Every position whose write succeeded is listed. */
  lemma {:induction false} OkPositionsComplete(ok: seq<bool>, base: nat)
    ensures forall i :: 0 <= i < |ok| && ok[i] ==> base + i in OkPositions(ok, base)
    decreases |ok|
  {
    if ok != [] {
      OkPositionsComplete(ok[1..], base + 1);
      forall i | 1 <= i < |ok| && ok[i] ensures base + i in OkPositions(ok, base) {
        assert ok[1..][i - 1] == ok[i];
      }
    }
  }

  /**
   * The pruned registry is exactly the subsequence of cs at the positions
   * whose write succeeded: idx lists those positions in increasing order,
   * each of them appears, and nothing else does.
   */
  lemma SurvivingIsOkSubsequence<T>(cs: seq<T>, ok: seq<bool>) returns (idx: seq<nat>)
    requires |cs| == |ok|
    ensures |idx| == |Surviving(cs, ok)|
    ensures forall k :: 0 <= k < |idx| ==> idx[k] < |cs| && ok[idx[k]] && Surviving(cs, ok)[k] == cs[idx[k]]
    ensures forall k, l :: 0 <= k < l < |idx| ==> idx[k] < idx[l]
    ensures forall i :: 0 <= i < |cs| && ok[i] ==> i in idx
  {
    idx := OkPositions(ok, 0);
    OkPositionsSound(cs, ok, 0);
    OkPositionsIncrease(ok, 0);
    OkPositionsComplete(ok, 0);
  }

  /** A connection survives if and only if some position holding it had a successful write. */
  lemma SurvivingMembership<T>(cs: seq<T>, ok: seq<bool>, x: T)
    requires |cs| == |ok|
    ensures x in Surviving(cs, ok) <==> exists i :: 0 <= i < |cs| && cs[i] == x && ok[i]
  {
    var idx := SurvivingIsOkSubsequence(cs, ok);
    var r := Surviving(cs, ok);
    if x in r {
      var k :| 0 <= k < |r| && r[k] == x;
      assert cs[idx[k]] == x && ok[idx[k]];
    }
    if i :| 0 <= i < |cs| && cs[i] == x && ok[i] {
      assert i in idx;
      var k :| 0 <= k < |idx| && idx[k] == i;
      assert r[k] == x;
    }
  }

  /** When every write succeeds nothing is pruned. */
  lemma {:induction false} AllWritesSucceed<T>(cs: seq<T>, ok: seq<bool>)
    requires |cs| == |ok| && forall i :: 0 <= i < |ok| ==> ok[i]
    ensures Surviving(cs, ok) == cs
    decreases |cs|
  {
    if cs != [] {
      AllWritesSucceed(cs[1..], ok[1..]);
    }
  }

  /** When every write fails the registry becomes empty. */
  lemma {:induction false} AllWritesFail<T>(cs: seq<T>, ok: seq<bool>)
    requires |cs| == |ok| && forall i :: 0 <= i < |ok| ==> !ok[i]
    ensures Surviving(cs, ok) == []
    decreases |cs|
  {
    if cs != [] {
      AllWritesFail(cs[1..], ok[1..]);
    }
  }

  /** The number of successful writes. */
  function CountOk(ok: seq<bool>): nat
    decreases |ok|
  {
    if ok == [] then 0 else (if ok[0] then 1 else 0) + CountOk(ok[1..])
  }

  /** The registry shrinks by exactly the number of failed writes. */
  lemma {:induction false} SurvivingLength<T>(cs: seq<T>, ok: seq<bool>)
    requires |cs| == |ok|
    ensures |Surviving(cs, ok)| == CountOk(ok)
    decreases |cs|
  {
    if cs != [] {
      SurvivingLength(cs[1..], ok[1..]);
    }
  }
}
