/**
 Next-Fit bin packing: a request goes into the last bin if it fits there, otherwise into a
 new bin, and earlier bins are never looked at again.
 */
module NextFit {
  import opened Sums

  /** The loads of the bins that Next-Fit fills, oldest first. */
  function Bins(capacity: int, requests: seq<int>): seq<int> {
    if requests == [] then []
    else Place(capacity, Bins(capacity, requests[..|requests| - 1]), requests[|requests| - 1])
  }

  function Place(capacity: int, bins: seq<int>, request: int): seq<int> {
    var n := |bins|;
    if n > 0 && bins[n - 1] + request <= capacity then bins[n - 1 := bins[n - 1] + request]
    else bins + [request]
  }

  ghost predicate Fitting(capacity: int, requests: seq<int>) {
    forall i :: 0 <= i < |requests| ==> 0 <= requests[i] <= capacity
  }

  lemma BinsSnoc(capacity: int, requests: seq<int>, request: int)
    ensures Bins(capacity, requests + [request]) == Place(capacity, Bins(capacity, requests), request)
  {
    assert (requests + [request])[..|requests|] == requests;
  }

  /** Two neighbouring bins together always hold more than one capacity. */
  lemma {:induction false} WasteBound(capacity: int, requests: seq<int>)
    requires Fitting(capacity, requests)
    ensures var bins := Bins(capacity, requests);
            var k := |bins|;
            && (k == 0 <==> requests == [])
            && (k == 1 ==> Sum(requests) == bins[0])
            && (k >= 2 ==> (k - 1) * capacity < 2 * Sum(requests) - bins[k - 1])
            && (k >= 1 ==> 0 <= bins[k - 1] <= capacity)
  {
    if requests != [] {
      var rest := requests[..|requests| - 1];
      WasteBound(capacity, rest);
      var k := |Bins(capacity, rest)|;
      assert k * capacity == (k - 1) * capacity + capacity;
    }
  }

  // ----- any other way of packing -----

  /** What bin `b` carries when request `i` is put into bin `choice[i]`. */
  function Load(requests: seq<int>, choice: seq<int>, b: int): int
    requires |choice| == |requests|
  {
    if requests == [] then 0
    else
      var n := |requests| - 1;
      Load(requests[..n], choice[..n], b) + (if choice[n] == b then requests[n] else 0)
  }

  function Loads(requests: seq<int>, choice: seq<int>, m: nat): (loads: seq<int>)
    requires |choice| == |requests|
    ensures |loads| == m && forall b :: 0 <= b < m ==> loads[b] == Load(requests, choice, b)
  {
    seq(m, b => Load(requests, choice, b))
  }

  /** `choice` packs the requests into `m` bins without exceeding any bin's capacity. */
  ghost predicate Packs(capacity: int, requests: seq<int>, choice: seq<int>, m: nat) {
    && |choice| == |requests|
    && (forall i :: 0 <= i < |choice| ==> 0 <= choice[i] < m)
    && (forall b :: 0 <= b < m ==> Load(requests, choice, b) <= capacity)
  }

  lemma {:induction false} LoadsSum(requests: seq<int>, choice: seq<int>, m: nat)
    requires |choice| == |requests| && forall i :: 0 <= i < |choice| ==> 0 <= choice[i] < m
    ensures Sum(Loads(requests, choice, m)) == Sum(requests)
  {
    if requests == [] {
      SumZeros(Loads(requests, choice, m));
    } else {
      var n := |requests| - 1;
      var before := Loads(requests[..n], choice[..n], m);
      LoadsSum(requests[..n], choice[..n], m);
      var b := choice[n];
      assert Loads(requests, choice, m) == before[b := before[b] + requests[n]];
      SumUpdate(before, b, before[b] + requests[n]);
    }
  }

  lemma Cancel(a: int, b: int, c: int)
    requires c > 0 && a * c < b * c
    ensures a < b
  {
  }

  /** Bins taken in pairs: every full pair carries more than one capacity. */
  lemma {:induction false} PairBound(capacity: int, requests: seq<int>)
    requires capacity > 0 && Fitting(capacity, requests)
    ensures var bins := Bins(capacity, requests);
            var k := |bins|;
            && (k >= 2 && k % 2 == 0 ==> k / 2 * capacity < Sum(requests))
            && (k >= 2 && k % 2 == 1 ==> k / 2 * capacity < Sum(requests) - bins[k - 1])
  {
    if requests != [] {
      var rest := requests[..|requests| - 1];
      PairBound(capacity, rest);
      WasteBound(capacity, rest);
      var k := |Bins(capacity, rest)|;
      assert (k + 1) / 2 == if k % 2 == 0 then k / 2 else k / 2 + 1;
      assert (k / 2 + 1) * capacity == k / 2 * capacity + capacity;
    }
  }

  /**
   Next-Fit against any packing whatsoever: fewer than twice its bins. (With no request at
   all both use none.)
   */
  lemma TwiceAnyPacking(capacity: int, requests: seq<int>, choice: seq<int>, m: nat)
    requires capacity > 0 && Fitting(capacity, requests) && Packs(capacity, requests, choice, m)
    ensures requests != [] ==> 1 <= |Bins(capacity, requests)| <= 2 * m - 1
    ensures requests == [] ==> Bins(capacity, requests) == []
  {
    WasteBound(capacity, requests);
    PairBound(capacity, requests);
    LoadsSum(requests, choice, m);
    SumAtMost(Loads(requests, choice, m), capacity);
    var k := |Bins(capacity, requests)|;
    if k == 1 {
      assert 0 <= choice[0] < m;
    } else if k >= 2 {
      Cancel(k / 2, m, capacity);
    }
  }
}
