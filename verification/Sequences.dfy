/** Sequence operations and the optional value that several components share. */
module Sequences {

  datatype Option<T> = None | Some(value: T)

  ghost predicate Distinct<T>(s: seq<T>) {
    forall i, j :: 0 <= i < j < |s| ==> s[i] != s[j]
  }

  ghost function InsertAt<T>(s: seq<T>, p: nat, x: T): seq<T>
    requires p <= |s|
  {
    s[..p] + [x] + s[p..]
  }

  ghost function DropAt<T>(s: seq<T>, k: nat): seq<T>
    requires k < |s|
  {
    s[..k] + s[k + 1..]
  }

  lemma AppendAssoc<T>(a: seq<T>, b: seq<T>, c: seq<T>)
    ensures a + b + c == a + (b + c)
  {
  }

  lemma AppendSplit<T>(a: seq<T>, b: seq<T>, k: nat)
    requires k <= |b|
    ensures a + b[..k] + b[k..] == a + b
  {
  }

  lemma InsertAtIndex<T>(s: seq<T>, p: nat, x: T, i: nat)
    requires p <= |s| && i <= |s|
    ensures InsertAt(s, p, x)[i] == if i < p then s[i] else if i == p then x else s[i - 1]
  {
  }

  lemma DropAtIndex<T>(s: seq<T>, k: nat, i: nat)
    requires k < |s| && i < |s| - 1
    ensures DropAt(s, k)[i] == s[if i < k then i else i + 1]
  {
  }

  lemma InsertAddsOne<T>(s: seq<T>, p: nat, x: T)
    requires p <= |s|
    ensures forall y :: y in InsertAt(s, p, x) <==> y in s || y == x
  {
    assert s == s[..p] + s[p..];
  }

  lemma DropIsSubset<T>(s: seq<T>, k: nat)
    requires k < |s|
    ensures forall x :: x in DropAt(s, k) ==> x in s
  {
  }

  lemma InsertKeepsDistinct<T>(s: seq<T>, p: nat, x: T)
    requires Distinct(s) && p <= |s| && x !in s
    ensures Distinct(InsertAt(s, p, x))
  {
    forall i, j | 0 <= i < j <= |s| ensures InsertAt(s, p, x)[i] != InsertAt(s, p, x)[j] {
      InsertAtIndex(s, p, x, i);
      InsertAtIndex(s, p, x, j);
    }
  }

  lemma DropKeepsDistinct<T>(s: seq<T>, k: nat)
    requires Distinct(s) && k < |s|
    ensures Distinct(DropAt(s, k)) && s[k] !in DropAt(s, k)
  {
    forall i, j | 0 <= i < j < |s| - 1 ensures DropAt(s, k)[i] != DropAt(s, k)[j] {
      DropAtIndex(s, k, i);
      DropAtIndex(s, k, j);
    }
    forall i | 0 <= i < |s| - 1 ensures DropAt(s, k)[i] != s[k] {
      DropAtIndex(s, k, i);
    }
  }

  lemma InsertAtMultiset<T>(s: seq<T>, p: nat, x: T)
    requires p <= |s|
    ensures multiset(InsertAt(s, p, x)) == multiset(s) + multiset{x}
  {
    assert s[..p] + s[p..] == s;
  }

  ghost function Sum(s: seq<nat>): nat {
    if s == [] then 0 else Sum(s[..|s| - 1]) + s[|s| - 1]
  }

  lemma {:induction false} SumUpdate(s: seq<nat>, i: nat, x: nat)
    requires i < |s|
    ensures Sum(s[i := x]) == Sum(s) - s[i] + x
  {
    var m := |s| - 1;
    if i < m {
      SumUpdate(s[..m], i, x);
      assert s[i := x][..m] == s[..m][i := x];
    } else {
      assert s[i := x][..m] == s[..m];
    }
  }

  ghost predicate Ascending(at: seq<nat>, limit: nat) {
    (forall a :: 0 <= a < |at| ==> at[a] < limit) && forall a, b :: 0 <= a < b < |at| ==> at[a] < at[b]
  }

  /** `out` is what f gives on s, in order, where it gives something: at positions `at`, and nowhere else. */
  ghost predicate Selects<T, U>(s: seq<T>, f: T -> Option<U>, out: seq<U>, at: seq<nat>) {
    && |at| == |out| && Ascending(at, |s|)
    && (forall a :: 0 <= a < |at| ==> f(s[at[a]]) == Some(out[a]))
    && (forall j :: 0 <= j < |s| && f(s[j]).Some? ==> j in at)
  }

  lemma AscendingNext(at: seq<nat>, m: nat)
    requires Ascending(at, m)
    ensures Ascending(at, m + 1) && Ascending(at + [m], m + 1)
  {
  }

  lemma SelectsNext<T, U>(s: seq<T>, f: T -> Option<U>, out: seq<U>, at: seq<nat>)
    requires s != [] && Selects(s[..|s| - 1], f, out, at)
    ensures var m := |s| - 1;
            match f(s[m])
            case None => Selects(s, f, out, at)
            case Some(x) => Selects(s, f, out + [x], at + [m])
  {
    var m := |s| - 1;
    AscendingNext(at, m);
    assert forall a :: 0 <= a < |at| ==> s[..m][at[a]] == s[at[a]];
    forall j | 0 <= j < m && f(s[j]).Some? ensures j in at {
      assert s[..m][j] == s[j];
    }
    assert (at + [m])[|at|] == m;
  }
}
