/** Small facts about sequences, kept apart so that proofs can cite them cheaply. */
module SeqFacts {

  lemma ConsSplit<T>(xs: seq<T>)
    requires |xs| > 0
    ensures xs == [xs[0]] + xs[1..]
  {
  }

  lemma ConsSuffix<T>(x: T, r: seq<T>, k: nat)
    requires k <= |r|
    ensures ([x] + r)[k + 1..] == r[k..]
    ensures 0 < k ==> ([x] + r)[k] == r[k - 1]
  {
  }

  lemma SuffixHead<T>(w: seq<T>, k: nat, r: seq<T>)
    requires k < |w| && w[k + 1..] == r && |r| > 0
    ensures k + 1 < |w| && w[k + 1] == r[0]
  {
    assert r[0] == w[k + 1..][0];
  }

  lemma ConsLast<T>(x: T, r: seq<T>)
    requires |r| > 0
    ensures ([x] + r)[|r|] == r[|r| - 1]
  {
  }

  lemma SnocSplit<T>(xs: seq<T>, ys: seq<T>)
    ensures |ys| == 0 ==> xs + ys == xs
    ensures |ys| > 0 ==> (xs + ys)[..|xs + ys| - 1] == xs + ys[..|ys| - 1] && (xs + ys)[|xs + ys| - 1] == ys[|ys| - 1]
  {
  }

  lemma InitOfSnoc<T>(xs: seq<T>, x: T)
    ensures (xs + [x])[..|xs|] == xs && (xs + [x])[|xs|] == x
  {
  }
}
