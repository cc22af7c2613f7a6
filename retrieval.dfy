/**
 * Mapping search labels back to text chunks, the list comprehension of
 * `get_relevant_context`: first as the code is written, then the filter it
 * evidently intends, and how the two differ on faiss's -1 padding.
 */
module Retrieval {
  import opened Wrappers
  import opened FlatIndex

  /** Python's `xs[i]`: a negative index counts from the end; out of range is an IndexError (None). */
  function PyIndex<T>(xs: seq<T>, i: int): (r: Option<T>)
    ensures r.Some? <==> -|xs| <= i < |xs|
    ensures r.Some? ==> r.value in xs
  {
    if 0 <= i < |xs| then Some(xs[i])
    else if -|xs| <= i < 0 then Some(xs[|xs| + i])
    else None
  }

  /**
   * `[text_chunks[i] for i in labels if i < len(text_chunks)]`, as written.
   * Labels at or past the end are skipped; every other label is a Python
   * index, so -1 reads the last chunk; an IndexError aborts the whole list
   * (None). The result has at most one chunk per label, each a stored chunk,
   * and an IndexError happens exactly when some label lies below `-len`.
   */
  function Lookup(chunks: seq<string>, labels: seq<int>): (r: Option<seq<string>>)
    ensures r.Some? ==> |r.value| <= |labels|
    ensures r.Some? ==> forall c :: c in r.value ==> c in chunks
    ensures r.None? <==> exists a :: 0 <= a < |labels| && labels[a] < -|chunks|
  {
    if labels == [] then Some([])
    else
      var rest := Lookup(chunks, labels[1..]);
      assert forall a :: 0 < a < |labels| ==> labels[a] == labels[1..][a - 1];
      if labels[0] >= |chunks| then rest
      else match PyIndex(chunks, labels[0])
        case None => None
        case Some(c) => if rest.None? then None else Some([c] + rest.value)
  }

  /**
   * The filter the comprehension evidently intends: keep exactly the labels
   * that are ordinals of a stored chunk, in order.
   */
  function Context(chunks: seq<string>, labels: seq<int>): (r: seq<string>)
    ensures |r| <= |labels|
    ensures forall c :: c in r ==> c in chunks
  {
    if labels == [] then []
    else
      (if 0 <= labels[0] < |chunks| then [chunks[labels[0]]] else []) + Context(chunks, labels[1..])
  }

  function Repeat<T>(x: T, n: nat): (r: seq<T>)
    ensures |r| == n && forall a :: 0 <= a < n ==> r[a] == x
  {
    seq(n, _ => x)
  }

  /** The comprehension works label by label. */
  lemma {:induction false} LookupAppend(chunks: seq<string>, xs: seq<int>, ys: seq<int>)
    ensures Lookup(chunks, xs + ys) ==
              if Lookup(chunks, xs).None? || Lookup(chunks, ys).None? then None
              else Some(Lookup(chunks, xs).value + Lookup(chunks, ys).value)
    decreases |xs|
  {
    if xs == [] {
      assert xs + ys == ys;
      if Lookup(chunks, ys).Some? {
        assert [] + Lookup(chunks, ys).value == Lookup(chunks, ys).value;
      }
    } else {
      assert (xs + ys)[1..] == xs[1..] + ys;
      LookupAppend(chunks, xs[1..], ys);
      if Lookup(chunks, xs).Some? && Lookup(chunks, ys).Some? && xs[0] < |chunks| {
        assert [PyIndex(chunks, xs[0]).value] + Lookup(chunks, xs[1..]).value + Lookup(chunks, ys).value
            == [PyIndex(chunks, xs[0]).value] + (Lookup(chunks, xs[1..]).value + Lookup(chunks, ys).value);
      }
    }
  }

  lemma {:induction false} ContextAppend(chunks: seq<string>, xs: seq<int>, ys: seq<int>)
    ensures Context(chunks, xs + ys) == Context(chunks, xs) + Context(chunks, ys)
    decreases |xs|
  {
    if xs == [] {
      assert xs + ys == ys;
    } else {
      assert (xs + ys)[1..] == xs[1..] + ys;
      ContextAppend(chunks, xs[1..], ys);
    }
  }

  /** On labels that are all ordinals of stored chunks, the comprehension and the intended filter agree, label for label. */
  lemma {:induction false} LookupOfOrdinals(chunks: seq<string>, labels: seq<int>)
    requires forall a :: 0 <= a < |labels| ==> 0 <= labels[a] < |chunks|
    ensures Lookup(chunks, labels) == Some(Context(chunks, labels))
    ensures |Context(chunks, labels)| == |labels|
    ensures forall a :: 0 <= a < |labels| ==> Context(chunks, labels)[a] == chunks[labels[a]]
  {
    if labels != [] {
      assert forall a :: 0 <= a < |labels| - 1 ==> labels[1..][a] == labels[a + 1];
      LookupOfOrdinals(chunks, labels[1..]);
    }
  }

  /** Labels at or past the end are skipped by both. */
  lemma LookupSkipsPastEnd(chunks: seq<string>, labels: seq<int>, l: int)
    requires l >= |chunks|
    ensures Lookup(chunks, labels + [l]) == Lookup(chunks, labels)
    ensures Context(chunks, labels + [l]) == Context(chunks, labels)
  {
    LookupAppend(chunks, labels, [l]);
    ContextAppend(chunks, labels, [l]);
    assert [l][1..] == [];
    assert Lookup(chunks, [l]) == Some([]);
    assert Context(chunks, [l]) == [];
    if Lookup(chunks, labels).Some? {
      assert Lookup(chunks, labels).value + [] == Lookup(chunks, labels).value;
    }
    assert Context(chunks, labels) + [] == Context(chunks, labels);
  }

  /** faiss's padding label -1 reads the last chunk, once per padded slot. */
  lemma {:induction false} LookupOfPadding(chunks: seq<string>, labels: seq<int>)
    requires chunks != []
    requires forall a :: 0 <= a < |labels| ==> labels[a] == -1
    ensures Lookup(chunks, labels) == Some(Repeat(chunks[|chunks| - 1], |labels|))
    ensures Context(chunks, labels) == []
  {
    if labels != [] {
      assert forall a :: 0 <= a < |labels| - 1 ==> labels[1..][a] == labels[a + 1];
      LookupOfPadding(chunks, labels[1..]);
      var last := chunks[|chunks| - 1];
      assert [last] + Repeat(last, |labels| - 1) == Repeat(last, |labels|);
    }
  }

  lemma {:induction false} ContextOfNegatives(chunks: seq<string>, labels: seq<int>)
    requires forall a :: 0 <= a < |labels| ==> labels[a] < 0
    ensures Context(chunks, labels) == []
  {
    if labels != [] {
      assert forall a :: 0 <= a < |labels| - 1 ==> labels[1..][a] == labels[a + 1];
      ContextOfNegatives(chunks, labels[1..]);
    }
  }

  /** A padded result splits into its ordinals and its padding. */
  lemma PaddedParts(labels: seq<int>, n: nat)
    requires Padded(labels, n)
    ensures var m := Min(|labels|, n);
            labels == labels[..m] + labels[m..]
            && (forall a :: 0 <= a < m ==> 0 <= labels[..m][a] < n)
            && (forall a :: 0 <= a < |labels| - m ==> labels[m..][a] == -1)
  {
    var m := Min(|labels|, n);
    assert labels == labels[..m] + labels[m..];
    forall a | 0 <= a < |labels| - m ensures labels[m..][a] == -1 {
      assert labels[m..][a] == labels[m + a];
    }
  }

  /**
   * The intended filter over a padded result on an aligned store returns one
   * chunk per returned ordinal, in the result's order, and nothing for the
   * padding.
   */
  lemma ContextOfPadded(chunks: seq<string>, labels: seq<int>)
    requires Padded(labels, |chunks|)
    ensures var r := Context(chunks, labels);
            |r| == Min(|labels|, |chunks|)
            && forall a :: 0 <= a < |r| ==> r[a] == chunks[labels[a]]
  {
    var m := Min(|labels|, |chunks|);
    var pre, pad := labels[..m], labels[m..];
    PaddedParts(labels, |chunks|);
    ContextAppend(chunks, pre, pad);
    LookupOfOrdinals(chunks, pre);
    ContextOfNegatives(chunks, pad);
    assert Context(chunks, labels) == Context(chunks, pre);
  }

  /**
   * As written, over a padded result on an aligned, non-empty store, the
   * comprehension returns the intended chunks followed by one copy of the
   * last chunk for every padded slot: always one chunk per label.
   */
  lemma LookupOfPadded(chunks: seq<string>, labels: seq<int>)
    requires chunks != [] && Padded(labels, |chunks|)
    ensures Lookup(chunks, labels)
              == Some(Context(chunks, labels) + Repeat(chunks[|chunks| - 1], |labels| - Min(|labels|, |chunks|)))
  {
    var m := Min(|labels|, |chunks|);
    var pre, pad := labels[..m], labels[m..];
    PaddedParts(labels, |chunks|);
    LookupAppend(chunks, pre, pad);
    ContextAppend(chunks, pre, pad);
    LookupOfOrdinals(chunks, pre);
    LookupOfPadding(chunks, pad);
    assert Context(chunks, pre) + [] == Context(chunks, pre);
  }

  /**
   * The padding discrepancy on the smallest store: one chunk, the default
   * `k = 3`. The comprehension as written returns that chunk three times;
   * the intended filter returns it once.
   */
  lemma PaddedSlotsRepeatLastChunk(v: Vector, c: string)
    ensures Lookup([c], Search([v], v, 3)) == Some([c, c, c])
    ensures Context([c], Search([v], v, 3)) == [c]
  {
    var labels := Search([v], v, 3);
    LookupOfPadded([c], labels);
    ContextOfPadded([c], labels);
    var r := Context([c], labels);
    assert |r| == 1 && r[0] == c;
    assert r == [c];
    assert Repeat(c, 2) == [c, c];
    assert [c] + [c, c] == [c, c, c];
  }
}
