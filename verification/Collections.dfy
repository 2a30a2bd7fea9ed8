/** What several modules use of options, bytes, sequences and sets. */
module Collections {

  datatype Option<T> = None | Some(value: T)

  ghost predicate AllBytes(data: seq<nat>) {
    forall i :: 0 <= i < |data| ==> data[i] < 256
  }

  function Zeros(n: nat): (z: seq<nat>)
    ensures |z| == n && forall i :: 0 <= i < n ==> z[i] == 0
  {
    seq(n, _ => 0)
  }

  // The elements of xs at these positions.
  ghost function Pick(xs: seq<nat>, ps: seq<nat>): (ys: seq<nat>)
    requires forall k :: 0 <= k < |ps| ==> ps[k] < |xs|
    ensures |ys| == |ps| && forall k :: 0 <= k < |ps| ==> ys[k] == xs[ps[k]]
  {
    seq(|ps|, k requires 0 <= k < |ps| => xs[ps[k]])
  }

  lemma SubsetSize(a: set<nat>, b: set<nat>)
    requires a <= b
    ensures |a| <= |b|
    ensures |a| == |b| ==> a == b
  {
    assert b == a + (b - a);
    assert |b| == |a| + |b - a|;
  }
}
