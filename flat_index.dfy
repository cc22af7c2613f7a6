/**
 * An exact, brute-force stand-in for faiss's IndexFlatL2: vectors of a fixed
 * dimension kept in insertion order, searched by squared Euclidean distance.
 * Components are integers here, so distances are exact.
 */
module FlatIndex {

  /** The dimension of the sentence embeddings (backend/main.py: DIM). */
  const DIM: nat := 384

  type Vector = v: seq<int> | |v| == DIM witness seq(384, _ => 0)

  // ---------------------------------------------------------------------
  // Distance
  // ---------------------------------------------------------------------

  /** Squared L2 distance, the metric of IndexFlatL2. It is zero exactly between equal vectors. */
  function Dist2(a: seq<int>, b: seq<int>): (r: int)
    requires |a| == |b|
    ensures r >= 0
    ensures r == 0 <==> a == b
  {
    if a == [] then 0
    else
      var d := a[0] - b[0];
      var rest := Dist2(a[1..], b[1..]);
      assert d * d >= 0;
      assert d * d == 0 ==> d == 0;
      assert a == [a[0]] + a[1..] && b == [b[0]] + b[1..];
      d * d + rest
  }

  lemma {:induction false} Dist2Symmetric(a: seq<int>, b: seq<int>)
    requires |a| == |b|
    ensures Dist2(a, b) == Dist2(b, a)
  {
    if a != [] {
      Dist2Symmetric(a[1..], b[1..]);
      assert (a[0] - b[0]) * (a[0] - b[0]) == (b[0] - a[0]) * (b[0] - a[0]);
    }
  }

  /** The distance from the query to every stored vector, by ordinal. */
  function Distances(data: seq<Vector>, q: Vector): (ds: seq<int>)
  {
    seq(|data|, i requires 0 <= i < |data| => Dist2(data[i], q))
  }

  // ---------------------------------------------------------------------
  // Ranking ordinals nearest first
  // ---------------------------------------------------------------------

  /** Ordinal `i` ranks ahead of ordinal `j`: strictly closer, or as close and inserted earlier. */
  predicate Before(ds: seq<int>, i: nat, j: nat)
    requires i < |ds| && j < |ds|
  {
    ds[i] < ds[j] || (ds[i] == ds[j] && i < j)
  }

  /** `s` lists ordinals of `ds`, each ranked ahead of every later one (so no ordinal twice). */
  predicate Ranking(ds: seq<int>, s: seq<nat>) {
    (forall a :: 0 <= a < |s| ==> s[a] < |ds|)
    && (forall a, b :: 0 <= a < b < |s| ==> Before(ds, s[a], s[b]))
  }

  /** Insert one more ordinal at its place in a ranking. */
  function Insert(ds: seq<int>, x: nat, s: seq<nat>): (r: seq<nat>)
    requires x < |ds| && x !in s && Ranking(ds, s)
    ensures Ranking(ds, r)
    ensures |r| == |s| + 1
    ensures forall y :: y in r <==> y == x || y in s
  {
    if s == [] then [x]
    else if Before(ds, x, s[0]) then
      assert forall b :: 0 <= b < |s| ==> Before(ds, x, s[b]) by {
        forall b | 0 < b < |s| ensures Before(ds, x, s[b]) {
          assert Before(ds, s[0], s[b]);
        }
      }
      [x] + s
    else
      assert Ranking(ds, s[1..]) by {
        forall a, b | 0 <= a < b < |s| - 1 ensures Before(ds, s[1..][a], s[1..][b]) {
          assert s[1..][a] == s[a + 1] && s[1..][b] == s[b + 1];
        }
      }
      assert forall y :: y in s <==> y == s[0] || y in s[1..] by {
        assert s == [s[0]] + s[1..];
      }
      var t := Insert(ds, x, s[1..]);
      var r := [s[0]] + t;
      assert forall b :: 0 <= b < |t| ==> Before(ds, s[0], t[b]) by {
        forall b | 0 <= b < |t| ensures Before(ds, s[0], t[b]) {
          assert t[b] in t;
          if t[b] != x {
            var c :| 0 <= c < |s| - 1 && s[1..][c] == t[b];
            assert Before(ds, s[0], s[c + 1]);
          }
        }
      }
      assert Ranking(ds, r) by {
        forall a, b | 0 <= a < b < |r| ensures Before(ds, r[a], r[b]) {
          if a == 0 {
            assert r[b] == t[b - 1];
          } else {
            assert r[a] == t[a - 1] && r[b] == t[b - 1];
          }
        }
      }
      r
  }

  /** The ordinals `0 .. n-1` ranked nearest first. */
  function RankFirst(ds: seq<int>, n: nat): (r: seq<nat>)
    requires n <= |ds|
    ensures Ranking(ds, r)
    ensures |r| == n
    ensures forall y: nat :: y in r <==> y < n
  {
    if n == 0 then [] else Insert(ds, n - 1, RankFirst(ds, n - 1))
  }

  function Min(a: nat, b: nat): nat {
    if a < b then a else b
  }

  /** The shape of a faiss result over `n` stored vectors: ordinals first, then -1 in every slot past `n`. */
  predicate Padded(labels: seq<int>, n: nat) {
    forall a :: 0 <= a < |labels| ==> if a < n then 0 <= labels[a] < n else labels[a] == -1
  }

  /**
   * `IndexFlatL2.search` for one query vector: the labels of the `k` nearest
   * stored vectors, nearest first (equal distances: earlier insertion first).
   * faiss always returns `k` labels; the slots beyond the number of stored
   * vectors hold the label -1.
   */
  function Search(data: seq<Vector>, q: Vector, k: nat): (labels: seq<int>)
    requires k >= 1
    ensures |labels| == k
    ensures Padded(labels, |data|)
    ensures forall a, b :: 0 <= a < b < Min(k, |data|) ==>
              Before(Distances(data, q), labels[a], labels[b])
  {
    var ranked := RankFirst(Distances(data, q), |data|);
    var m := Min(k, |data|);
    seq(k, a requires 0 <= a < k => if a < m then ranked[a] as int else -1)
  }

  /** The ordinal of every stored vector that is not returned is at least as far as each returned one. */
  lemma SearchIsNearest(data: seq<Vector>, q: Vector, k: nat, a: nat, j: nat)
    requires k >= 1
    requires a < Min(k, |data|) && j < |data|
    requires j !in Search(data, q, k)
    ensures Dist2(data[Search(data, q, k)[a]], q) <= Dist2(data[j], q)
  {
    var ds := Distances(data, q);
    var ranked := RankFirst(ds, |data|);
    var labels := Search(data, q, k);
    var m := Min(k, |data|);
    assert j in ranked;
    var p :| 0 <= p < |ranked| && ranked[p] == j;
    assert forall c :: 0 <= c < m ==> labels[c] == ranked[c];
    assert p >= m;
    assert Before(ds, ranked[a], ranked[p]);
    assert ds[ranked[a]] == Dist2(data[labels[a]], q);
    assert ds[j] == Dist2(data[j], q);
  }

  /** When `k` covers the whole index, every stored ordinal is returned. */
  lemma SearchReturnsAll(data: seq<Vector>, q: Vector, k: nat, j: nat)
    requires k >= |data| && k >= 1 && j < |data|
    ensures j in Search(data, q, k)
  {
    var ranked := RankFirst(Distances(data, q), |data|);
    assert j in ranked;
    var p :| 0 <= p < |ranked| && ranked[p] == j;
    assert Search(data, q, k)[p] == j;
  }

  /** A vector equal to the query is at distance zero, so something at distance zero comes first. */
  lemma ExactMatchFirst(data: seq<Vector>, q: Vector, k: nat, j: nat)
    requires k >= 1 && j < |data| && data[j] == q
    ensures Dist2(data[Search(data, q, k)[0]], q) == 0
  {
    var labels := Search(data, q, k);
    if j !in labels {
      SearchIsNearest(data, q, k, 0, j);
    } else {
      var p :| 0 <= p < |labels| && labels[p] == j;
      if p > 0 {
        assert Before(Distances(data, q), labels[0], labels[p]);
      }
    }
  }

  // ---------------------------------------------------------------------
  // The index object
  // ---------------------------------------------------------------------

  /** The faiss index object: its dimension and the vectors added so far, in order. */
  class IndexFlatL2 {
    const d: nat
    var data: seq<Vector>

    /** `faiss.IndexFlatL2(d)`: a new, empty index. */
    constructor (d: nat)
      ensures this.d == d && data == []
    {
      this.d := d;
      data := [];
    }

    /** `faiss.read_index`: an index holding the saved vectors. */
    constructor Read(saved: seq<Vector>)
      ensures d == DIM && data == saved
    {
      d := DIM;
      data := saved;
    }

    /** `index.ntotal`. */
    function NTotal(): nat
      reads this
    {
      |data|
    }

    /** `index.add` of one vector: it becomes the next ordinal. */
    method Add(v: Vector)
      modifies this
      ensures data == old(data) + [v]
      ensures NTotal() == old(NTotal()) + 1
    {
      data := data + [v];
    }

    /** `index.search` for one query vector. */
    function SearchOne(q: Vector, k: nat): (labels: seq<int>)
      requires k >= 1
      reads this
      ensures |labels| == k && Padded(labels, NTotal())
    {
      Search(data, q, k)
    }
  }
}
