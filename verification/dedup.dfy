/**
 First-occurrence deduplication of a sequence of templates under structural
 equality: the inner loop of the template merge, which appends a template
 only when no equal template has been kept yet.
 */
module UniqueTemplates {

  import opened Catalogs

  /** No two positions of `s` hold equal elements. */
  ghost predicate Distinct(s: seq<Json>) {
    forall i, j :: 0 <= i < j < |s| ==> s[i] != s[j]
  }

  /** The position of the first occurrence of `x` in `xs`. */
  function IndexOf(xs: seq<Json>, x: Json): (k: nat)
    requires x in xs
    ensures k < |xs| && xs[k] == x
    ensures forall j :: 0 <= j < k ==> xs[j] != x
  {
    if xs[0] == x then 0 else 1 + IndexOf(xs[1..], x)
  }

  /** `unique` extended, left to right, with each element of `ts` that is not
      yet present (the `if t not in unique_templates: append` loop). */
  function AddUnique(unique: seq<Json>, ts: seq<Json>): (r: seq<Json>)
    ensures unique <= r
    ensures |r| <= |unique| + |ts|
    ensures forall x :: x in r <==> x in unique || x in ts
    ensures Distinct(unique) ==> Distinct(r)
    decreases |ts|
  {
    if |ts| == 0 then unique
    else
      var init := ts[..|ts| - 1];
      var t := ts[|ts| - 1];
      assert ts == init + [t];
      var acc := AddUnique(unique, init);
      if t in acc then acc else acc + [t]
  }

  /** The first occurrences of the elements of `xs`, in order. */
  function Dedup(xs: seq<Json>): (r: seq<Json>)
    ensures Distinct(r)
    ensures forall x :: x in r <==> x in xs
    ensures |r| <= |xs|
  {
    AddUnique([], xs)
  }

  /** `r` lists its elements in the order in which they first occur in `xs`. */
  ghost predicate InFirstOccurrenceOrder(r: seq<Json>, xs: seq<Json>) {
    forall i, j :: 0 <= i < j < |r| && r[i] in xs && r[j] in xs ==>
      IndexOf(xs, r[i]) < IndexOf(xs, r[j])
  }

  /** `r` can be obtained from `xs` by deleting elements. */
  ghost predicate IsSubsequence(r: seq<Json>, xs: seq<Json>) {
    exists idx: seq<nat> ::
      && |idx| == |r|
      && (forall i :: 0 <= i < |idx| ==> idx[i] < |xs| && xs[idx[i]] == r[i])
      && (forall i, j :: 0 <= i < j < |idx| ==> idx[i] < idx[j])
  }

  /** Adding a batch of templates and then another is adding both batches at once. */
  lemma {:induction false} AddUniqueAppend(unique: seq<Json>, a: seq<Json>, b: seq<Json>)
    ensures AddUnique(AddUnique(unique, a), b) == AddUnique(unique, a + b)
    decreases |b|
  {
    if |b| > 0 {
      var init := b[..|b| - 1];
      assert (a + b)[..|a + b| - 1] == a + init;
      assert (a + b)[|a + b| - 1] == b[|b| - 1];
      AddUniqueAppend(unique, a, init);
    } else {
      assert a + b == a;
    }
  }

  /** Elements already kept are never added again. */
  lemma {:induction false} AddUniqueAbsorbs(unique: seq<Json>, ts: seq<Json>)
    requires forall t :: t in ts ==> t in unique
    ensures AddUnique(unique, ts) == unique
    decreases |ts|
  {
    if |ts| > 0 {
      var init := ts[..|ts| - 1];
      assert forall t :: t in init ==> t in ts;
      AddUniqueAbsorbs(unique, init);
      assert ts[|ts| - 1] in ts;
    }
  }

  lemma {:induction false} IndexOfSnoc(xs: seq<Json>, x: Json, y: Json)
    requires y in xs
    ensures y in xs + [x] && IndexOf(xs + [x], y) == IndexOf(xs, y)
  {
    var k := IndexOf(xs, y);
    var k' := IndexOf(xs + [x], y);
    assert (xs + [x])[k] == y;
    assert k' <= k;
  }

  /** Dedup lists each element at the place of its first occurrence. */
  lemma {:induction false} DedupOrder(xs: seq<Json>)
    ensures InFirstOccurrenceOrder(Dedup(xs), xs)
    decreases |xs|
  {
    if |xs| > 0 {
      var init := xs[..|xs| - 1];
      var x := xs[|xs| - 1];
      assert xs == init + [x];
      var p := Dedup(init);
      DedupOrder(init);
      var r := Dedup(xs);
      assert r == if x in p then p else p + [x];
      forall i, j | 0 <= i < j < |r| && r[i] in xs && r[j] in xs
        ensures IndexOf(xs, r[i]) < IndexOf(xs, r[j])
      {
        assert r[i] in init;
        IndexOfSnoc(init, x, r[i]);
        if j < |p| {
          assert r[j] == p[j] && r[i] == p[i];
          IndexOfSnoc(init, x, r[j]);
        } else {
          assert r[j] == x && x !in init;
          assert IndexOf(xs, x) == |init| by {
            assert xs[|init|] == x;
            assert forall k :: 0 <= k < |init| ==> xs[k] == init[k];
          }
        }
      }
    }
  }

  /** Dedup deletes later repeats and reorders nothing. */
  lemma DedupSubsequence(xs: seq<Json>)
    ensures IsSubsequence(Dedup(xs), xs)
  {
    DedupOrder(xs);
    OrderedIsSubsequence(Dedup(xs), xs);
  }

  /** Elements of `xs` listed in first-occurrence order can be picked out of
      `xs` at their first occurrences. */
  lemma OrderedIsSubsequence(r: seq<Json>, xs: seq<Json>)
    requires forall i :: 0 <= i < |r| ==> r[i] in xs
    requires InFirstOccurrenceOrder(r, xs)
    ensures IsSubsequence(r, xs)
  {
    var idx := seq(|r|, i requires 0 <= i < |r| => IndexOf(xs, r[i]));
    assert forall i :: 0 <= i < |idx| ==> idx[i] < |xs| && xs[idx[i]] == r[i];
    assert forall i, j :: 0 <= i < j < |idx| ==> idx[i] < idx[j];
  }

  /** The result is never longer than the input, and has the input's length
      exactly when the input has no two equal elements. */
  lemma {:induction false} DedupLength(xs: seq<Json>)
    ensures |Dedup(xs)| <= |xs|
    ensures |Dedup(xs)| == |xs| <==> Distinct(xs)
    decreases |xs|
  {
    if |xs| > 0 {
      var init := xs[..|xs| - 1];
      var x := xs[|xs| - 1];
      assert xs == init + [x];
      DedupLength(init);
      if Distinct(xs) {
        assert Distinct(init);
        assert forall k :: 0 <= k < |init| ==> init[k] == xs[k] != xs[|xs| - 1];
      } else if x !in init {
        assert !Distinct(init) by {
          var i, j :| 0 <= i < j < |xs| && xs[i] == xs[j];
          assert j < |xs| - 1 ==> init[i] == init[j];
        }
      }
    }
  }

  /** An input without repeats is its own deduplication. */
  lemma DedupOfDistinct(xs: seq<Json>)
    requires Distinct(xs)
    ensures Dedup(xs) == xs
  {
    DedupOrder(xs);
    DistinctInOrder(xs);
    FirstOccurrenceUnique(Dedup(xs), xs, xs);
  }

  /** An input without repeats lists its elements in first-occurrence order. */
  lemma DistinctInOrder(xs: seq<Json>)
    requires Distinct(xs)
    ensures InFirstOccurrenceOrder(xs, xs)
  {
    forall i | 0 <= i < |xs| ensures IndexOf(xs, xs[i]) == i {
      var k := IndexOf(xs, xs[i]);
      if k < i { assert xs[k] == xs[i]; }
    }
  }

  /** Distinctness, the same elements and first-occurrence order determine a
      sequence completely: Dedup(xs) is the only sequence with all three. */
  lemma FirstOccurrenceUnique(r1: seq<Json>, r2: seq<Json>, xs: seq<Json>)
    requires Distinct(r1) && Distinct(r2)
    requires forall x :: x in r1 <==> x in xs
    requires forall x :: x in r2 <==> x in xs
    requires InFirstOccurrenceOrder(r1, xs) && InFirstOccurrenceOrder(r2, xs)
    ensures r1 == r2
  {
    var n := if |r1| < |r2| then |r1| else |r2|;
    var i := 0;
    while i < n
      invariant i <= n
      invariant forall k :: 0 <= k < i ==> r1[k] == r2[k]
    {
      AgreeAt(r1, r2, xs, i);
      i := i + 1;
    }
    WithinPrefix(r1, r2, xs, n);
    WithinPrefix(r2, r1, xs, n);
    assert |r1| == |r2|;
  }

  /** Where `r1` and `r2` agree below `i`, they agree at `i` too. */
  lemma AgreeAt(r1: seq<Json>, r2: seq<Json>, xs: seq<Json>, i: nat)
    requires Distinct(r1) && Distinct(r2)
    requires forall x :: x in r1 <==> x in xs
    requires forall x :: x in r2 <==> x in xs
    requires InFirstOccurrenceOrder(r1, xs) && InFirstOccurrenceOrder(r2, xs)
    requires i < |r1| && i < |r2|
    requires forall k :: 0 <= k < i ==> r1[k] == r2[k]
    ensures r1[i] == r2[i]
  {
    var a := SameFirstIndex(r1, r2, xs, i);
    var b := SameFirstIndex(r2, r1, xs, i);
    assert xs[a] == r1[i] && xs[b] == r2[i];
  }

  /** Where `r1` and `r2` agree below `i`, the first occurrence of `r1[i]`
      in `xs` is no later than that of `r2[i]`. */
  lemma SameFirstIndex(r1: seq<Json>, r2: seq<Json>, xs: seq<Json>, i: nat) returns (a: nat)
    requires Distinct(r2)
    requires forall x :: x in r1 <==> x in xs
    requires forall x :: x in r2 <==> x in xs
    requires InFirstOccurrenceOrder(r1, xs)
    requires i < |r1| && i < |r2|
    requires forall k :: 0 <= k < i ==> r1[k] == r2[k]
    ensures r1[i] in xs && r2[i] in xs && a == IndexOf(xs, r1[i])
    ensures a <= IndexOf(xs, r2[i])
  {
    assert r1[i] in xs && r2[i] in xs;
    a := IndexOf(xs, r1[i]);
    assert r2[i] in r1;
    var j := IndexOf(r1, r2[i]);
    assert i <= j by {
      forall k | 0 <= k < i ensures r1[k] != r2[i] {
        assert r1[k] == r2[k];
      }
    }
    if i < j {
      assert r1[j] in xs;
    }
  }

  /** When the two agree on their first `n` positions, a distinct `r2` has no
      position beyond the length of `r1`. */
  lemma WithinPrefix(r1: seq<Json>, r2: seq<Json>, xs: seq<Json>, n: nat)
    requires Distinct(r2)
    requires forall x :: x in r1 <==> x in xs
    requires forall x :: x in r2 <==> x in xs
    requires n <= |r1| && n <= |r2| && (n == |r1| || n == |r2|)
    requires forall k :: 0 <= k < n ==> r1[k] == r2[k]
    ensures |r2| <= |r1|
  {
    if |r2| > 0 {
      var m := |r2| - 1;
      assert r2[m] in xs;
      var j :| 0 <= j < |r1| && r1[j] == r2[m];
      if j < n {
        assert r2[j] == r2[m];
      }
    }
  }
}
