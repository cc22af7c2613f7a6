/**
 * The document chunker of the upload route: the text is cut with Python's
 * `str.split("\n\n")`, every segment is `str.strip()`ped, and the segments
 * that are still non-empty are the chunks handed to the store, in order.
 */
module Chunking {

  /** The separator the upload route splits on: one blank line. */
  const Sep: string := "\n\n"

  // ---------------------------------------------------------------------
  // str.strip()
  // ---------------------------------------------------------------------

  /** Python's `str.isspace()` for a single character: exactly the characters `str.strip()` removes. */
  predicate IsSpace(c: char) {
    var n := c as int;
    (0x09 <= n <= 0x0D) || (0x1C <= n <= 0x20) || n == 0x85 || n == 0xA0 || n == 0x1680
    || (0x2000 <= n <= 0x200A) || n == 0x2028 || n == 0x2029 || n == 0x202F || n == 0x205F
    || n == 0x3000
  }

  /**
   * A few characters from the table: the ASCII blanks and the no-break space
   * are whitespace; a letter and the zero-width space are not.
   */
  lemma IsSpaceExamples()
    ensures IsSpace(' ') && IsSpace('\t') && IsSpace('\n') && IsSpace('\r') && IsSpace('\U{A0}')
    ensures !IsSpace('a') && !IsSpace('\U{200B}')
  {
  }

  predicate AllSpace(s: string) {
    forall i :: 0 <= i < |s| ==> IsSpace(s[i])
  }

  /** Neither starts nor ends with whitespace. */
  predicate IsStripped(s: string) {
    s == [] || (!IsSpace(s[0]) && !IsSpace(s[|s| - 1]))
  }

  /** The first position at or after `i` that does not hold whitespace (or `|s|`). */
  function SkipStart(s: string, i: nat): (k: nat)
    requires i <= |s|
    ensures i <= k <= |s|
    ensures forall m :: i <= m < k ==> IsSpace(s[m])
    ensures k == |s| || !IsSpace(s[k])
    decreases |s| - i
  {
    if i == |s| || !IsSpace(s[i]) then i else SkipStart(s, i + 1)
  }

  /** The position just after the last non-whitespace character in `s[lo..j]` (or `lo`). */
  function SkipEnd(s: string, lo: nat, j: nat): (k: nat)
    requires lo <= j <= |s|
    ensures lo <= k <= j
    ensures forall m :: k <= m < j ==> IsSpace(s[m])
    ensures k == lo || !IsSpace(s[k - 1])
    decreases j - lo
  {
    if j == lo || !IsSpace(s[j - 1]) then j else SkipEnd(s, lo, j - 1)
  }

  /**
   * Python's `str.strip()` with no argument: the slice between the first and
   * after the last non-whitespace character. What it removes on either side
   * is whitespace only.
   */
  function Strip(s: string): (r: string)
    ensures IsStripped(r)
    ensures |r| <= |s|
  {
    var i := SkipStart(s, 0);
    var j := SkipEnd(s, i, |s|);
    s[i..j]
  }

  lemma {:induction false} SkipStartAt(s: string, i: nat, k: nat)
    requires i <= k <= |s|
    requires forall m :: i <= m < k ==> IsSpace(s[m])
    requires k == |s| || !IsSpace(s[k])
    ensures SkipStart(s, i) == k
    decreases k - i
  {
    if i < k {
      SkipStartAt(s, i + 1, k);
    }
  }

  lemma {:induction false} SkipEndAt(s: string, lo: nat, j: nat, k: nat)
    requires lo <= k <= j <= |s|
    requires forall m :: k <= m < j ==> IsSpace(s[m])
    requires k == lo || !IsSpace(s[k - 1])
    ensures SkipEnd(s, lo, j) == k
    decreases j - k
  {
    if k < j {
      SkipEndAt(s, lo, j - 1, k);
    }
  }

  /** A run of whitespace inside `s` is an all-whitespace slice. */
  lemma AllSpaceSlice(s: string, i: nat, j: nat)
    requires i <= j <= |s|
    requires forall m :: i <= m < j ==> IsSpace(s[m])
    ensures AllSpace(s[i..j])
  {
    forall m | 0 <= m < j - i ensures IsSpace(s[i..j][m]) {
      assert s[i..j][m] == s[i + m];
    }
  }

  /** Strip of whitespace only is empty. */
  lemma StripBlank(w: string)
    requires AllSpace(w)
    ensures Strip(w) == []
  {
    SkipStartAt(w, 0, |w|);
    SkipEndAt(w, |w|, |w|, |w|);
  }

  /** The leading margin of `a + t + b` ends where a stripped, non-empty `t` begins. */
  lemma SkipStartOf(a: string, t: string, b: string)
    requires AllSpace(a) && t != [] && IsStripped(t)
    ensures SkipStart(a + t + b, 0) == |a|
  {
    var s := a + t + b;
    forall m | 0 <= m < |a| ensures IsSpace(s[m]) {
      assert s[m] == a[m];
    }
    assert s[|a|] == t[0];
    SkipStartAt(s, 0, |a|);
  }

  /** The trailing margin of `a + t + b` begins where a stripped, non-empty `t` ends. */
  lemma SkipEndOf(a: string, t: string, b: string)
    requires AllSpace(b) && t != [] && IsStripped(t)
    ensures SkipEnd(a + t + b, |a|, |a + t + b|) == |a| + |t|
  {
    var s := a + t + b;
    var e := |a| + |t|;
    forall m | e <= m < |s| ensures IsSpace(s[m]) {
      assert s[m] == b[m - e];
    }
    assert s[e - 1] == t[|t| - 1];
    SkipEndAt(s, |a|, |s|, e);
  }

  /**
   * Reference characterisation of strip: whatever whitespace surrounds a
   * stripped string, strip returns exactly that string.
   */
  lemma StripUnique(a: string, t: string, b: string)
    requires AllSpace(a) && AllSpace(b) && IsStripped(t)
    ensures Strip(a + t + b) == t
  {
    var s := a + t + b;
    if t == [] {
      forall m | 0 <= m < |s| ensures IsSpace(s[m]) {
        if m < |a| { assert s[m] == a[m]; } else { assert s[m] == b[m - |a|]; }
      }
      StripBlank(s);
    } else {
      SkipStartOf(a, t, b);
      SkipEndOf(a, t, b);
      assert s[|a|..|a| + |t|] == t;
    }
  }

  /** Strip removes only surrounding whitespace: its result sits inside the input between two all-space margins. */
  lemma StripIsInfix(s: string)
    ensures var i := SkipStart(s, 0);
            i + |Strip(s)| <= |s|
            && s == s[..i] + Strip(s) + s[i + |Strip(s)|..]
            && AllSpace(s[..i]) && AllSpace(s[i + |Strip(s)|..])
  {
    var i := SkipStart(s, 0);
    var j := SkipEnd(s, i, |s|);
    assert AllSpace(s[..i]) by {
      AllSpaceSlice(s, 0, i);
      assert s[0..i] == s[..i];
    }
    assert AllSpace(s[j..]) by {
      AllSpaceSlice(s, j, |s|);
      assert s[j..|s|] == s[j..];
    }
    assert Strip(s) == s[i..j];
    assert s == s[..i] + s[i..j] + s[j..];
  }

  /** The condition `if chunk.strip():` holds exactly when the segment is not all whitespace. */
  lemma StripEmptyIffBlank(s: string)
    ensures Strip(s) == [] <==> AllSpace(s)
  {
    if AllSpace(s) {
      StripBlank(s);
    }
    if Strip(s) == [] {
      var i := SkipStart(s, 0);
      assert SkipEnd(s, i, |s|) == i;
    }
  }

  lemma StripIdempotent(s: string)
    ensures Strip(Strip(s)) == Strip(s)
  {
    var t := Strip(s);
    assert [] + t + [] == t;
    StripUnique([], t, []);
  }

  // ---------------------------------------------------------------------
  // str.split("\n\n") and its inverse, "\n\n".join
  // ---------------------------------------------------------------------

  /** No blank line inside: the separator does not occur in `t`. */
  predicate NoSep(t: string) {
    forall j :: 0 <= j < |t| - 1 ==> !(t[j] == '\n' && t[j + 1] == '\n')
  }

  /** `"\n\n".join(segs)`. */
  function Join(segs: seq<string>): string
    requires |segs| >= 1
  {
    if |segs| == 1 then segs[0] else segs[0] + Sep + Join(segs[1..])
  }

  /** A character that does not start the separator cannot make one with the segment it joins. */
  lemma SplitConsNoSep(s: string, t: string)
    requires |s| >= 2 && s[..2] != Sep && t <= s[1..] && NoSep(t)
    ensures NoSep([s[0]] + t)
  {
    var head := [s[0]] + t;
    forall j | 0 <= j < |head| - 1 ensures !(head[j] == '\n' && head[j + 1] == '\n') {
      if j == 0 {
        assert head[1] == t[0] == s[1];
        assert s[..2] == [s[0], s[1]];
      } else {
        assert head[j] == t[j - 1] && head[j + 1] == t[j];
      }
    }
  }

  /**
   * Python's `s.split("\n\n")`: scanning left to right, every occurrence of
   * the separator that does not overlap an earlier one ends a segment. The
   * result is never empty (`"".split(sep) == [""]`).
   */
  function Split(s: string): (r: seq<string>)
    ensures |r| >= 1
    decreases |s|
  {
    if |s| < 2 then [s]
    else if s[..2] == Sep then [""] + Split(s[2..])
    else
      var rest := Split(s[1..]);
      [[s[0]] + rest[0]] + rest[1..]
  }

  /** The first segment is a prefix of the input. */
  lemma {:induction false} SplitPrefix(s: string)
    ensures Split(s)[0] <= s
    decreases |s|
  {
    if |s| >= 2 && s[..2] != Sep {
      SplitPrefix(s[1..]);
      var t := Split(s[1..])[0];
      assert t == s[1..][..|t|];
      assert [s[0]] + t == s[..|t| + 1];
    }
  }

  /** Joining the segments back with the separator gives the input. */
  lemma {:induction false} SplitJoin(s: string)
    ensures Join(Split(s)) == s
    decreases |s|
  {
    if |s| < 2 {
    } else if s[..2] == Sep {
      SplitJoin(s[2..]);
      assert s == Sep + s[2..];
    } else {
      SplitJoin(s[1..]);
      var rest := Split(s[1..]);
      var r := Split(s);
      assert r[1..] == rest[1..];
      assert s == [s[0]] + s[1..];
      if |rest| > 1 {
        assert Join(rest) == rest[0] + Sep + Join(rest[1..]);
      }
    }
  }

  /** No segment contains the separator. */
  lemma {:induction false} SplitNoSep(s: string)
    ensures forall i :: 0 <= i < |Split(s)| ==> NoSep(Split(s)[i])
    decreases |s|
  {
    if |s| < 2 {
    } else if s[..2] == Sep {
      SplitNoSep(s[2..]);
      assert forall i :: 1 <= i < |Split(s)| ==> Split(s)[i] == Split(s[2..])[i - 1];
    } else {
      SplitNoSep(s[1..]);
      SplitPrefix(s[1..]);
      var rest := Split(s[1..]);
      SplitConsNoSep(s, rest[0]);
      assert forall i :: 1 <= i < |Split(s)| ==> Split(s)[i] == rest[i];
    }
  }

  /** Segments meeting a blank line on their right never end in a newline: the cut is the leftmost one. */
  predicate Leftmost(segs: seq<string>) {
    forall i :: 0 <= i < |segs| - 1 ==> segs[i] == [] || segs[i][|segs[i]| - 1] != '\n'
  }

  /** An empty first segment followed by others means the input starts with the separator. */
  lemma SplitEmptyHead(t: string)
    requires |Split(t)| > 1 && Split(t)[0] == []
    ensures |t| >= 2 && t[..2] == Sep
  {
  }

  /** Putting an empty segment in front keeps the cuts leftmost. */
  lemma LeftmostEmptyFront(t: seq<string>)
    requires Leftmost(t)
    ensures Leftmost([[]] + t)
  {
    var r := [[]] + t;
    assert forall i :: 1 <= i < |r| ==> r[i] == t[i - 1];
  }

  /** Replacing the first segment by one that does not end in a newline keeps the cuts leftmost. */
  lemma LeftmostNewHead(h: string, t: seq<string>)
    requires |t| >= 1 && Leftmost(t)
    requires |t| > 1 ==> h == [] || h[|h| - 1] != '\n'
    ensures Leftmost([h] + t[1..])
  {
    var r := [h] + t[1..];
    assert forall i :: 1 <= i < |r| ==> r[i] == t[i];
  }

  lemma {:induction false} SplitIsLeftmost(s: string)
    ensures Leftmost(Split(s))
    decreases |s|
  {
    if |s| < 2 {
    } else if s[..2] == Sep {
      SplitIsLeftmost(s[2..]);
      LeftmostEmptyFront(Split(s[2..]));
      assert Split(s) == [[]] + Split(s[2..]);
    } else {
      var rest := Split(s[1..]);
      SplitIsLeftmost(s[1..]);
      var head := [s[0]] + rest[0];
      if |rest| > 1 {
        if rest[0] == [] {
          // The separator starts at s[1], so s[0] must not be a newline.
          SplitEmptyHead(s[1..]);
          assert s[..2] == [s[0], s[1]];
          assert s[0] != '\n';
        }
        assert head[|head| - 1] == if rest[0] == [] then s[0] else rest[0][|rest[0]| - 1];
      }
      LeftmostNewHead(head, rest);
      assert Split(s) == [head] + rest[1..];
    }
  }

  /**
   * When the first piece is not empty, its first character is the first
   * character of `s`, and the rest of `s` decomposes the same way with that
   * character removed from the first piece.
   */
  lemma SplitUniqueShift(s: string, segs: seq<string>)
    requires |segs| >= 2 && Join(segs) == s && segs[0] != []
    requires forall i :: 0 <= i < |segs| ==> NoSep(segs[i])
    requires Leftmost(segs)
    ensures var tail := [segs[0][1..]] + segs[1..];
            |s| >= 2 && s[..2] != Sep && s[0] == segs[0][0] && s[1..] == Join(tail)
            && (forall i :: 0 <= i < |tail| ==> NoSep(tail[i])) && Leftmost(tail)
  {
    var h := segs[0];
    var h' := h[1..];
    var tail := [h'] + segs[1..];
    assert tail[1..] == segs[1..];
    assert s == h + Sep + Join(segs[1..]);
    assert s[0] == h[0] && s[1..] == Join(tail) by {
      assert Join(tail) == h' + Sep + Join(segs[1..]);
      assert s == [h[0]] + Join(tail);
    }
    assert s[..2] != Sep by {
      assert NoSep(h);
      if |h| == 1 {
        assert h[0] != '\n';
      } else {
        assert s[1] == h[1];
        assert !(h[0] == '\n' && h[1] == '\n');
      }
      assert s[..2] == [s[0], s[1]];
    }
    assert forall i :: 0 <= i < |tail| ==> NoSep(tail[i]) by {
      assert NoSep(h') by {
        assert NoSep(h);
        forall j | 0 <= j < |h'| - 1 ensures !(h'[j] == '\n' && h'[j + 1] == '\n') {
          assert h'[j] == h[j + 1] && h'[j + 1] == h[j + 2];
        }
      }
    }
    assert Leftmost(tail) by {
      assert |h| > 1 ==> h'[|h'| - 1] == h[|h| - 1];
    }
  }

  /**
   * Reference characterisation of split: any decomposition of `s` into
   * separator-free pieces, joined by the separator and cut leftmost, is the
   * one `Split` returns.
   */
  lemma {:induction false} SplitUnique(s: string, segs: seq<string>)
    requires |segs| >= 1 && Join(segs) == s
    requires forall i :: 0 <= i < |segs| ==> NoSep(segs[i])
    requires Leftmost(segs)
    ensures Split(s) == segs
    decreases |s|
  {
    if |segs| == 1 {
      SplitSingle(s);
    } else if segs[0] == [] {
      assert s == Sep + Join(segs[1..]);
      assert s[..2] == Sep && s[2..] == Join(segs[1..]);
      SplitUnique(s[2..], segs[1..]);
    } else {
      var h := segs[0];
      var tail := [h[1..]] + segs[1..];
      SplitUniqueShift(s, segs);
      SplitUnique(s[1..], tail);
      assert Split(s) == [[s[0]] + tail[0]] + tail[1..];
      assert [s[0]] + tail[0] == h;
    }
  }

  lemma {:induction false} SplitSingle(s: string)
    requires NoSep(s)
    ensures Split(s) == [s]
    decreases |s|
  {
    if |s| >= 2 {
      assert s[..2] == [s[0], s[1]];
      assert s[..2] != Sep;
      assert NoSep(s[1..]) by {
        forall j | 0 <= j < |s| - 2 ensures !(s[1..][j] == '\n' && s[1..][j + 1] == '\n') {
          assert s[1..][j] == s[j + 1] && s[1..][j + 1] == s[j + 2];
        }
      }
      SplitSingle(s[1..]);
      assert [s[0]] + s[1..] == s;
    }
  }

  // ---------------------------------------------------------------------
  // The upload loop's filter
  // ---------------------------------------------------------------------

  /**
   * The chunks the upload loop ingests from `segs`: each segment stripped,
   * the empty ones dropped, order kept. Defined on the last segment so that
   * it follows the loop one iteration at a time.
   */
  function Keep(segs: seq<string>): (r: seq<string>)
    ensures |r| <= |segs|
    ensures forall i :: 0 <= i < |r| ==> r[i] != [] && IsStripped(r[i])
  {
    if segs == [] then []
    else
      var last := Strip(segs[|segs| - 1]);
      var init := Keep(segs[..|segs| - 1]);
      var r := init + (if last != [] then [last] else []);
      assert forall i :: 0 <= i < |init| ==> r[i] == init[i];
      r
  }

  /** What one upload of `contents` adds to the store, in order. */
  function Chunks(contents: string): (r: seq<string>)
    ensures |r| <= |Split(contents)|
    ensures forall i :: 0 <= i < |r| ==> r[i] != [] && IsStripped(r[i])
  {
    Keep(Split(contents))
  }

  /** The filter works segment by segment: it keeps the order of the segments. */
  lemma {:induction false} KeepAppend(a: seq<string>, b: seq<string>)
    ensures Keep(a + b) == Keep(a) + Keep(b)
    decreases |b|
  {
    if b == [] {
      assert a + b == a;
    } else {
      var b' := b[..|b| - 1];
      var x := b[|b| - 1];
      var tail := if Strip(x) != [] then [Strip(x)] else [];
      assert (a + b)[..|a + b| - 1] == a + b';
      assert (a + b)[|a + b| - 1] == x;
      assert Keep(a + b) == Keep(a + b') + tail;
      assert Keep(b) == Keep(b') + tail;
      KeepAppend(a, b');
    }
  }

  /** A chunk is ingested exactly when it is the non-empty strip of some segment. */
  lemma {:induction false} KeepMembers(segs: seq<string>, x: string)
    ensures x in Keep(segs) <==> x != [] && exists i :: 0 <= i < |segs| && Strip(segs[i]) == x
    decreases |segs|
  {
    if segs != [] {
      var init := segs[..|segs| - 1];
      KeepMembers(init, x);
      if x != [] && (exists i :: 0 <= i < |segs| && Strip(segs[i]) == x) {
        var i :| 0 <= i < |segs| && Strip(segs[i]) == x;
        if i < |segs| - 1 {
          assert init[i] == segs[i];
        }
      }
      if exists i :: 0 <= i < |init| && Strip(init[i]) == x {
        var i :| 0 <= i < |init| && Strip(init[i]) == x;
        assert segs[i] == init[i];
      }
    }
  }

  /** The example from the upload route: three raw segments, the last of them a lone newline. */
  lemma SplitExample()
    ensures Split("para one\n\npara two\n\n\n") == ["para one", "para two", "\n"]
  {
    var segs := ["para one", "para two", "\n"];
    assert Join(segs[2..]) == "\n";
    assert Join(segs[1..]) == "para two" + Sep + "\n";
    assert Join(segs) == "para one\n\npara two\n\n\n";
    assert NoSep(segs[0]) && NoSep(segs[1]) && NoSep(segs[2]);
    SplitUnique("para one\n\npara two\n\n\n", segs);
  }

  /** Of the three raw segments of the example, two are ingested: the whitespace-only one is dropped. */
  lemma ChunksExample()
    ensures Chunks("para one\n\npara two\n\n\n") == ["para one", "para two"]
  {
    SplitExample();
    StripKeeps("para one");
    StripKeeps("para two");
    StripBlank("\n");
    KeepDropsBlank("para one", "para two", "\n");
  }

  lemma StripKeeps(t: string)
    requires IsStripped(t)
    ensures Strip(t) == t
  {
    assert [] + t + [] == t;
    StripUnique([], t, []);
  }

  lemma KeepDropsBlank(p1: string, p2: string, w: string)
    requires Strip(p1) == p1 != [] && Strip(p2) == p2 != [] && Strip(w) == []
    ensures Keep([p1, p2, w]) == [p1, p2]
  {
    assert Keep([p1, p2]) == [p1, p2] by {
      KeepOne(p1);
      KeepOne(p2);
      KeepAppend([p1], [p2]);
      assert [p1] + [p2] == [p1, p2];
    }
    assert Keep([p1, p2, w]) == Keep([p1, p2]) by {
      KeepOne(w);
      KeepAppend([p1, p2], [w]);
      assert [p1, p2] + [w] == [p1, p2, w];
    }
  }

  /** The same step, taken by the filter as a whole: the prefix's chunks, then the next segment's. */
  lemma KeepNext(segs: seq<string>, i: nat)
    requires i < |segs|
    ensures Keep(segs[..i + 1]) == Keep(segs[..i]) + Keep([segs[i]])
  {
    assert segs[..i + 1] == segs[..i] + [segs[i]];
    KeepAppend(segs[..i], [segs[i]]);
  }

  lemma KeepOne(x: string)
    ensures Keep([x]) == if Strip(x) != [] then [Strip(x)] else []
  {
    assert [x][..0] == [];
  }
}
