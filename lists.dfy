/**
 * Python's order-preserving list comprehension `[x for x in xs if keep(x)]`
 * and its complement, with the facts the filters of the downloader rely on.
 */
module Lists {

  /** The elements of `xs` that `keep` accepts, in their original order. */
  function Select(xs: seq<string>, keep: string -> bool): seq<string>
  {
    if xs == [] then []
    else
      var last := xs[|xs| - 1];
      Select(xs[..|xs| - 1], keep) + (if keep(last) then [last] else [])
  }

  /** The elements of `xs` that `keep` rejects, in their original order. */
  function Reject(xs: seq<string>, keep: string -> bool): seq<string>
  {
    if xs == [] then []
    else
      var last := xs[|xs| - 1];
      Reject(xs[..|xs| - 1], keep) + (if keep(last) then [] else [last])
  }

  /** Extending the input by one element extends the selection or the rejection by it. */
  lemma SelectStep(xs: seq<string>, i: nat, keep: string -> bool)
    requires i < |xs|
    ensures Select(xs[..i + 1], keep) == Select(xs[..i], keep) + (if keep(xs[i]) then [xs[i]] else [])
    ensures Reject(xs[..i + 1], keep) == Reject(xs[..i], keep) + (if keep(xs[i]) then [] else [xs[i]])
    ensures multiset(xs[..i + 1]) == multiset(xs[..i]) + multiset{xs[i]}
  {
    assert xs[..i + 1][..i] == xs[..i];
    assert xs[..i + 1] == xs[..i] + [xs[i]];
  }

  /** When every element is accepted, selecting returns the input and rejects nothing. */
  lemma {:induction false} SelectAll(xs: seq<string>, keep: string -> bool)
    requires forall x :: x in xs ==> keep(x)
    ensures Select(xs, keep) == xs
    ensures Reject(xs, keep) == []
  {
    if xs != [] {
      SelectAll(xs[..|xs| - 1], keep);
      assert xs[|xs| - 1] in xs;
    }
  }

  /** An element is selected exactly when it is in the input and accepted. */
  lemma {:induction false} SelectMembership(xs: seq<string>, keep: string -> bool, x: string)
    ensures x in Select(xs, keep) <==> x in xs && keep(x)
  {
    if xs != [] {
      var init := xs[..|xs| - 1];
      SelectMembership(init, keep, x);
      assert xs == init + [xs[|xs| - 1]];
    }
  }

  /** Selection acts on each element independently: selecting from a concatenation selects from each part. */
  lemma {:induction false} SelectAppend(a: seq<string>, b: seq<string>, keep: string -> bool)
    ensures Select(a + b, keep) == Select(a, keep) + Select(b, keep)
    decreases |b|
  {
    if b == [] {
      assert a + b == a;
    } else {
      var init := b[..|b| - 1];
      assert (a + b)[..|a + b| - 1] == a + init;
      assert (a + b)[|a + b| - 1] == b[|b| - 1];
      SelectAppend(a, init, keep);
    }
  }

  /** Selecting twice with the same test is selecting once. */
  lemma {:induction false} SelectIdempotent(xs: seq<string>, keep: string -> bool)
    ensures Select(Select(xs, keep), keep) == Select(xs, keep)
  {
    if xs != [] {
      var init := xs[..|xs| - 1];
      var last := xs[|xs| - 1];
      SelectIdempotent(init, keep);
      var tail := if keep(last) then [last] else [];
      SelectAppend(Select(init, keep), tail, keep);
      if keep(last) {
        assert [last][..0] == [];
        assert Select([last], keep) == [last];
      } else {
        assert Select(tail, keep) == [];
      }
    }
  }

  /** `a` is `b` with some elements left out and the rest in the same order. */
  predicate IsSubsequence(a: seq<string>, b: seq<string>)
    decreases |b|
  {
    if a == [] then true
    else if b == [] then false
    else if a[|a| - 1] == b[|b| - 1] then IsSubsequence(a[..|a| - 1], b[..|b| - 1])
    else IsSubsequence(a, b[..|b| - 1])
  }

  /** A subsequence of `b` without its last element is a subsequence of `b`. */
  lemma {:induction false} SkipLastKeepsSubsequence(a: seq<string>, b: seq<string>)
    requires b != []
    requires IsSubsequence(a, b[..|b| - 1])
    ensures IsSubsequence(a, b)
    decreases |b|, |a|
  {
    if a != [] && a[|a| - 1] == b[|b| - 1] {
      SubsequenceDropLast(a, b[..|b| - 1]);
    }
  }

  /** A subsequence stays one when its last element is dropped. */
  lemma {:induction false} SubsequenceDropLast(a: seq<string>, b: seq<string>)
    requires a != []
    requires IsSubsequence(a, b)
    ensures IsSubsequence(a[..|a| - 1], b)
    decreases |b|, |a|
  {
    var ia := a[..|a| - 1];
    if b != [] && ia != [] {
      if a[|a| - 1] != b[|b| - 1] {
        SubsequenceDropLast(a, b[..|b| - 1]);
      }
      SkipLastKeepsSubsequence(ia, b);
    }
  }

  /** What is selected is an order-preserving subsequence of the input. */
  lemma {:induction false} SelectIsSubsequence(xs: seq<string>, keep: string -> bool)
    ensures IsSubsequence(Select(xs, keep), xs)
  {
    if xs != [] {
      var init := xs[..|xs| - 1];
      var last := xs[|xs| - 1];
      SelectIsSubsequence(init, keep);
      var r := Select(xs, keep);
      if keep(last) {
        assert r[|r| - 1] == last;
        assert r[..|r| - 1] == Select(init, keep);
      } else {
        assert r == Select(init, keep);
        SkipLastKeepsSubsequence(r, xs);
      }
    }
  }

  /** Every element lands in exactly one of the selection and the rejection. */
  lemma {:induction false} SelectRejectPartition(xs: seq<string>, keep: string -> bool)
    ensures multiset(Select(xs, keep)) + multiset(Reject(xs, keep)) == multiset(xs)
  {
    if xs != [] {
      var init := xs[..|xs| - 1];
      SelectRejectPartition(init, keep);
      assert xs == init + [xs[|xs| - 1]];
    }
  }

  /** An element is rejected exactly when it is in the input and not accepted. */
  lemma {:induction false} RejectMembership(xs: seq<string>, keep: string -> bool, x: string)
    ensures x in Reject(xs, keep) <==> x in xs && !keep(x)
  {
    if xs != [] {
      var init := xs[..|xs| - 1];
      RejectMembership(init, keep, x);
      assert xs == init + [xs[|xs| - 1]];
    }
  }

  /** Nothing accepted means nothing selected. */
  lemma {:induction false} SelectNothing(xs: seq<string>, keep: string -> bool)
    requires forall i :: 0 <= i < |xs| ==> !keep(xs[i])
    ensures Select(xs, keep) == []
  {
    if xs != [] {
      var init := xs[..|xs| - 1];
      assert forall i :: 0 <= i < |init| ==> init[i] == xs[i];
      SelectNothing(init, keep);
    }
  }

  /** The head of the selection is the first accepted element of the input. */
  lemma {:induction false} SelectHeadIsFirst(xs: seq<string>, keep: string -> bool)
    requires Select(xs, keep) != []
    ensures exists j :: (0 <= j < |xs| && xs[j] == Select(xs, keep)[0] && keep(xs[j])
                         && forall i :: 0 <= i < j ==> !keep(xs[i]))
  {
    var init := xs[..|xs| - 1];
    var last := xs[|xs| - 1];
    if Select(init, keep) != [] {
      SelectHeadIsFirst(init, keep);
      var j :| 0 <= j < |init| && init[j] == Select(init, keep)[0] && keep(init[j])
        && forall i :: 0 <= i < j ==> !keep(init[i]);
      assert forall i :: 0 <= i < j ==> xs[i] == init[i];
      assert xs[j] == init[j];
    } else {
      forall i | 0 <= i < |init| ensures !keep(xs[i]) {
        assert xs[i] == init[i];
        SelectMembership(init, keep, init[i]);
      }
      assert xs[|xs| - 1] == Select(xs, keep)[0];
    }
  }

  /** An element accepted alone is the whole selection. */
  lemma {:induction false} SelectUnique(xs: seq<string>, keep: string -> bool, j: nat)
    requires j < |xs| && keep(xs[j])
    requires forall i :: 0 <= i < |xs| && i != j ==> !keep(xs[i])
    ensures Select(xs, keep) == [xs[j]]
  {
    var init := xs[..|xs| - 1];
    assert forall i :: 0 <= i < |init| ==> init[i] == xs[i];
    if j == |xs| - 1 {
      SelectNothing(init, keep);
    } else {
      SelectUnique(init, keep, j);
    }
  }

  /** A selection of exactly one element comes from exactly one accepted position. */
  lemma {:induction false} SelectSingleton(xs: seq<string>, keep: string -> bool)
    requires |Select(xs, keep)| == 1
    ensures exists j :: (0 <= j < |xs| && xs[j] == Select(xs, keep)[0] && keep(xs[j])
                         && forall i :: 0 <= i < |xs| && i != j ==> !keep(xs[i]))
  {
    var init := xs[..|xs| - 1];
    var last := xs[|xs| - 1];
    assert forall i :: 0 <= i < |init| ==> init[i] == xs[i];
    if keep(last) {
      assert Select(init, keep) == [];
      forall i | 0 <= i < |init| ensures !keep(xs[i]) {
        SelectMembership(init, keep, init[i]);
      }
      assert xs[|xs| - 1] == Select(xs, keep)[0];
    } else {
      SelectSingleton(init, keep);
      var j :| 0 <= j < |init| && init[j] == Select(init, keep)[0] && keep(init[j])
        && forall i :: 0 <= i < |init| && i != j ==> !keep(init[i]);
      assert xs[j] == init[j];
    }
  }
}
