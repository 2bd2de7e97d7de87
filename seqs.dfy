/** Sequence helpers shared by the model: linear search (std::find), the
    order-preserving filter that the store's queries and std::list::remove_if
    perform, and pairwise properties of lists. */
module Seqs {

  /** std::find from a position: the index of the first occurrence of x at
      or after from, or |s| (the end iterator) when there is none. */
  function FindFrom<T(==)>(s: seq<T>, x: T, from: nat): (i: nat)
    requires from <= |s|
    ensures from <= i <= |s|
    ensures i < |s| ==> s[i] == x
    ensures forall k :: from <= k < i ==> s[k] != x
    decreases |s| - from
  {
    if from == |s| then |s|
    else if s[from] == x then from
    else FindFrom(s, x, from + 1)
  }

  /** std::find over the whole sequence. */
  function Find<T(==)>(s: seq<T>, x: T): (i: nat)
    ensures i <= |s|
    ensures i < |s| ==> s[i] == x
    ensures forall k :: 0 <= k < i ==> s[k] != x
  {
    FindFrom(s, x, 0)
  }

  /** The search reaches the end exactly when x does not occur. */
  lemma FindAbsent<T>(s: seq<T>, x: T)
    ensures Find(s, x) == |s| <==> x !in s
  {
  }

  /** The elements of s that pass p, in their order in s. */
  function Select<T(!new)>(s: seq<T>, p: T -> bool): (r: seq<T>)
    ensures |r| <= |s|
  {
    if s == [] then []
    else Select(s[..|s| - 1], p) + (if p(s[|s| - 1]) then [s[|s| - 1]] else [])
  }

  /** The elements of s that fail p, in their order in s. */
  function Reject<T(!new)>(s: seq<T>, p: T -> bool): (r: seq<T>)
    ensures |r| <= |s|
  {
    if s == [] then []
    else Reject(s[..|s| - 1], p) + (if p(s[|s| - 1]) then [] else [s[|s| - 1]])
  }

  /** The selection holds exactly the elements that pass. */
  lemma {:induction false} SelectMembers<T(!new)>(s: seq<T>, p: T -> bool)
    ensures forall x :: x in Select(s, p) <==> x in s && p(x)
  {
    if s != [] {
      var n := |s| - 1;
      SelectMembers(s[..n], p);
      assert s == s[..n] + [s[n]];
    }
  }

  /** The survivors are exactly the elements that fail. */
  lemma {:induction false} RejectMembers<T(!new)>(s: seq<T>, p: T -> bool)
    ensures forall x :: x in Reject(s, p) <==> x in s && !p(x)
  {
    if s != [] {
      var n := |s| - 1;
      RejectMembers(s[..n], p);
      assert s == s[..n] + [s[n]];
    }
  }

  /** Every element is selected or rejected, never both. */
  lemma {:induction false} SelectRejectSizes<T(!new)>(s: seq<T>, p: T -> bool)
    ensures |Select(s, p)| + |Reject(s, p)| == |s|
  {
    if s != [] {
      SelectRejectSizes(s[..|s| - 1], p);
    }
  }

  /** The selection is empty exactly when nothing passes the filter. */
  lemma SelectEmpty<T(!new)>(s: seq<T>, p: T -> bool)
    ensures Select(s, p) == [] <==> forall x :: x in s ==> !p(x)
    ensures |Select(s, p)| != 0 <==> exists x :: x in s && p(x)
  {
    SelectMembers(s, p);
    if Select(s, p) != [] {
      assert Select(s, p)[0] in Select(s, p);
    }
  }

  /** A filter that everything passes selects the whole list. */
  lemma {:induction false} SelectAll<T(!new)>(s: seq<T>, p: T -> bool)
    requires forall x :: x in s ==> p(x)
    ensures Select(s, p) == s
  {
    if s != [] {
      var n := |s| - 1;
      assert s[n] in s;
      SelectAll(s[..n], p);
      assert s[..n] + [s[n]] == s;
    }
  }

  /** A filter that nothing passes removes nothing. */
  lemma {:induction false} RejectNone<T(!new)>(s: seq<T>, p: T -> bool)
    requires forall x :: x in s ==> !p(x)
    ensures Reject(s, p) == s
  {
    if s != [] {
      var n := |s| - 1;
      assert s[n] in s;
      RejectNone(s[..n], p);
      assert s[..n] + [s[n]] == s;
    }
  }

  /** A filter that everything passes removes everything. */
  lemma {:induction false} RejectEvery<T(!new)>(s: seq<T>, p: T -> bool)
    requires forall x :: x in s ==> p(x)
    ensures Reject(s, p) == []
  {
    if s != [] {
      var n := |s| - 1;
      assert s[n] in s;
      RejectEvery(s[..n], p);
    }
  }

  /** Rejecting distributes over concatenation. */
  lemma {:induction false} RejectAppend<T(!new)>(a: seq<T>, b: seq<T>, p: T -> bool)
    ensures Reject(a + b, p) == Reject(a, p) + Reject(b, p)
    decreases |b|
  {
    if b == [] {
      assert a + b == a;
    } else {
      var n := |b| - 1;
      assert (a + b)[..|a + b| - 1] == a + b[..n];
      RejectAppend(a, b[..n], p);
    }
  }

  /** R holds of every pair of positions i < j. */
  ghost predicate Pairwise<T>(s: seq<T>, R: (T, T) -> bool)
  {
    forall i, j :: 0 <= i < j < |s| ==> R(s[i], s[j])
  }

  /** Appending x keeps a pairwise property when x is related to everything before it. */
  lemma PairwiseSnoc<T>(s: seq<T>, x: T, R: (T, T) -> bool)
    requires Pairwise(s, R)
    requires forall y :: y in s ==> R(y, x)
    ensures Pairwise(s + [x], R)
  {
    var t := s + [x];
    forall i, j | 0 <= i < j < |t| ensures R(t[i], t[j]) {
      if j == |s| {
        assert t[i] == s[i] && s[i] in s;
      } else {
        assert t[i] == s[i] && t[j] == s[j];
      }
    }
  }

  /** Removing elements keeps the survivors' relative order, so pairwise
      properties of the list survive a Reject. */
  lemma {:induction false} RejectKeepsPairwise<T(!new)>(s: seq<T>, p: T -> bool, R: (T, T) -> bool)
    requires Pairwise(s, R)
    ensures Pairwise(Reject(s, p), R)
  {
    if s != [] {
      var n := |s| - 1;
      var init := s[..n];
      assert Pairwise(init, R) by {
        forall i, j | 0 <= i < j < |init| ensures R(init[i], init[j]) {
          assert init[i] == s[i] && init[j] == s[j];
        }
      }
      RejectKeepsPairwise(init, p, R);
      RejectMembers(init, p);
      if !p(s[n]) {
        forall y | y in Reject(init, p) ensures R(y, s[n]) {
          var k :| 0 <= k < |init| && init[k] == y;
          assert s[k] == y;
        }
        PairwiseSnoc(Reject(init, p), s[n], R);
      }
    }
  }

  /** No element occurs twice. */
  predicate Distinct<T(==)>(s: seq<T>)
  {
    forall i, j :: 0 <= i < j < |s| ==> s[i] != s[j]
  }
}
