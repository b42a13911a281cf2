/**
 The parameter map of camera/CameraParameters.cpp and its text form.

 The map is a vector of entries kept sorted by key, as KeyedVector keeps it. Strings are C strings
 without their terminator.
 */
module CameraParameters {
  import opened Sequences

  datatype Entry = Entry(key: string, value: string)

  // ----- key order

  /** strcmp order. */
  predicate Less(a: string, b: string) {
    if b == [] then false
    else if a == [] then true
    else if a[0] != b[0] then a[0] < b[0]
    else Less(a[1..], b[1..])
  }

  /** Below: a proper prefix, or the smaller character at the first difference. */
  lemma {:induction false} LessIffFirstDifference(a: string, b: string)
    ensures Less(a, b) <==>
            exists k :: 0 <= k <= |a| && k < |b| && a[..k] == b[..k] && (k == |a| || a[k] < b[k])
  {
    if a != [] && b != [] && a[0] == b[0] {
      LessIffFirstDifference(a[1..], b[1..]);
      if k :| 0 <= k <= |a| && k < |b| && a[..k] == b[..k] && (k == |a| || a[k] < b[k]) {
        assert k > 0 && a[1..][..k - 1] == a[..k][1..] == b[..k][1..] == b[1..][..k - 1];
      }
      if k :| 0 <= k <= |a[1..]| && k < |b[1..]| && a[1..][..k] == b[1..][..k] && (k == |a[1..]| || a[1..][k] < b[1..][k]) {
        assert a[..k + 1] == [a[0]] + a[1..][..k] && b[..k + 1] == [b[0]] + b[1..][..k];
      }
    } else {
      assert a[..0] == b[..0];
      if k :| 0 <= k <= |a| && k < |b| && a[..k] == b[..k] && (k == |a| || a[k] < b[k]) {
        SameHeads(a, b, k);
      }
    }
  }

  lemma SameHeads(a: string, b: string, k: nat)
    requires k <= |a| && k <= |b| && a[..k] == b[..k]
    ensures k > 0 ==> a[0] == b[0]
  {
    if k > 0 {
      assert a[0] == a[..k][0] && b[0] == b[..k][0];
    }
  }

  lemma {:induction false} LessIrreflexive(a: string)
    ensures !Less(a, a)
  {
    if a != [] {
      LessIrreflexive(a[1..]);
    }
  }

  lemma {:induction false} LessTransitive(a: string, b: string, c: string)
    requires Less(a, b) && Less(b, c)
    ensures Less(a, c)
  {
    if a != [] && a[0] == b[0] == c[0] {
      LessTransitive(a[1..], b[1..], c[1..]);
    }
  }

  lemma {:induction false} LessTotal(a: string, b: string)
    ensures Less(a, b) || a == b || Less(b, a)
  {
    if a != [] && b != [] && a[0] == b[0] {
      LessTotal(a[1..], b[1..]);
      assert a == [a[0]] + a[1..] && b == [b[0]] + b[1..];
    }
  }

  ghost predicate Sorted(es: seq<Entry>) {
    forall i, j :: 0 <= i < j < |es| ==> Less(es[i].key, es[j].key)
  }

  // ----- the vector

  /** add and replaceValueFor: overwrite, or insert in key order. */
  function Put(es: seq<Entry>, key: string, value: string): seq<Entry> {
    if es == [] then [Entry(key, value)]
    else if es[0].key == key then [Entry(key, value)] + es[1..]
    else if Less(key, es[0].key) then [Entry(key, value)] + es
    else [es[0]] + Put(es[1..], key, value)
  }

  function Delete(es: seq<Entry>, key: string): seq<Entry> {
    if es == [] then []
    else if es[0].key == key then es[1..]
    else [es[0]] + Delete(es[1..], key)
  }

  /** valueFor, which gives the empty string for an absent key. */
  function ValueFor(es: seq<Entry>, key: string): string {
    if es == [] then ""
    else if es[0].key == key then es[0].value
    else ValueFor(es[1..], key)
  }

  lemma {:induction false} ValueForAfterPut(es: seq<Entry>, key: string, value: string, k: string)
    ensures ValueFor(Put(es, key, value), k) == if k == key then value else ValueFor(es, k)
  {
    if es != [] && es[0].key != key && !Less(key, es[0].key) {
      ValueForAfterPut(es[1..], key, value, k);
    }
  }

  lemma {:induction false} PutKeys(es: seq<Entry>, key: string, value: string)
    ensures forall e :: e in Put(es, key, value) ==> e in es || e == Entry(key, value)
  {
    if es != [] && es[0].key != key && !Less(key, es[0].key) {
      PutKeys(es[1..], key, value);
    }
  }

  lemma SortedCons(e: Entry, es: seq<Entry>)
    requires Sorted(es) && forall x :: x in es ==> Less(e.key, x.key)
    ensures Sorted([e] + es)
  {
  }

  lemma SortedTail(es: seq<Entry>)
    requires Sorted(es) && es != []
    ensures Sorted(es[1..]) && forall x :: x in es[1..] ==> Less(es[0].key, x.key)
  {
  }

  lemma {:induction false} PutKeepsSorted(es: seq<Entry>, key: string, value: string)
    requires Sorted(es)
    ensures Sorted(Put(es, key, value))
  {
    if es != [] {
      SortedTail(es);
      if es[0].key == key {
        SortedCons(Entry(key, value), es[1..]);
      } else if Less(key, es[0].key) {
        forall x | x in es ensures Less(key, x.key) {
          if x in es[1..] {
            LessTransitive(key, es[0].key, x.key);
          }
        }
        SortedCons(Entry(key, value), es);
      } else {
        LessTotal(key, es[0].key);
        PutKeepsSorted(es[1..], key, value);
        PutKeys(es[1..], key, value);
        SortedCons(es[0], Put(es[1..], key, value));
      }
    }
  }

  lemma {:induction false} DeleteIsSubset(es: seq<Entry>, key: string)
    ensures forall e :: e in Delete(es, key) ==> e in es
  {
    if es != [] && es[0].key != key {
      DeleteIsSubset(es[1..], key);
    }
  }

  lemma {:induction false} DeleteKeepsSorted(es: seq<Entry>, key: string)
    requires Sorted(es)
    ensures Sorted(Delete(es, key))
  {
    if es != [] && es[0].key != key {
      SortedTail(es);
      DeleteKeepsSorted(es[1..], key);
      DeleteIsSubset(es[1..], key);
      SortedCons(es[0], Delete(es[1..], key));
    }
  }

  /** Of a sorted vector every entry of the key goes; the others stay. */
  lemma {:induction false} ValueForAfterDelete(es: seq<Entry>, key: string, k: string)
    requires Sorted(es)
    ensures ValueFor(Delete(es, key), k) == if k == key then "" else ValueFor(es, k)
  {
    if es != [] {
      SortedTail(es);
      if es[0].key != key {
        ValueForAfterDelete(es[1..], key, k);
      } else if k == key {
        LessIrreflexive(key);
        AbsentKey(es[1..], key);
      }
    }
  }

  lemma {:induction false} AbsentKey(es: seq<Entry>, key: string)
    requires forall e :: e in es ==> e.key != key
    ensures ValueFor(es, key) == ""
  {
    if es != [] {
      AbsentKey(es[1..], key);
    }
  }

  /** A non-empty value is found exactly when a sorted vector holds the entry. */
  lemma {:induction false} ValueForFinds(es: seq<Entry>, key: string, value: string)
    requires Sorted(es) && value != ""
    ensures ValueFor(es, key) == value <==> Entry(key, value) in es
  {
    if es != [] {
      SortedTail(es);
      if es[0].key == key {
        LessIrreflexive(key);
      } else {
        ValueForFinds(es[1..], key, value);
      }
    }
  }

  /** A key larger than all others is appended. */
  lemma {:induction false} PutAtEnd(es: seq<Entry>, e: Entry)
    requires forall x :: x in es ==> Less(x.key, e.key)
    ensures Put(es, e.key, e.value) == es + [e]
  {
    if es != [] {
      LessIrreflexive(e.key);
      assert Less(es[0].key, e.key);
      if Less(e.key, es[0].key) {
        LessTransitive(e.key, es[0].key, e.key);
      }
      PutAtEnd(es[1..], e);
      assert es + [e] == [es[0]] + (es[1..] + [e]);
    }
  }

  // ----- the text form

  function Flatten(es: seq<Entry>): string {
    if es == [] then ""
    else
      var pair := es[0].key + "=" + es[0].value;
      if |es| == 1 then pair else pair + ";" + Flatten(es[1..])
  }

  /** strchr: the first position of c, or the length when there is none. */
  function Find(s: string, c: char): (k: nat)
    ensures k <= |s| && c !in s[..k] && (k < |s| ==> s[k] == c)
  {
    if s == [] || s[0] == c then 0
    else
      var k := 1 + Find(s[1..], c);
      assert s[..k] == [s[0]] + s[1..][..k - 1];
      k
  }

  /** The key and value pairs that unflatten finds, in text order. */
  function Pairs(s: string): seq<Entry>
    decreases |s|
  {
    var b := Find(s, '=');
    if b == |s| then []
    else
      var (key, rest) := (s[..b], s[b + 1..]);
      var e := Find(rest, ';');
      if e == |rest| then [Entry(key, rest)]
      else [Entry(key, rest[..e])] + Pairs(rest[e + 1..])
  }

  function PutAll(es: seq<Entry>, pairs: seq<Entry>): seq<Entry>
    decreases |pairs|
  {
    if pairs == [] then es else PutAll(Put(es, pairs[0].key, pairs[0].value), pairs[1..])
  }

  function Unflatten(s: string): seq<Entry> {
    PutAll([], Pairs(s))
  }

  /** Keys without '=' and values without ';': what the text form can carry. */
  ghost predicate Clean(e: Entry) {
    '=' !in e.key && ';' !in e.value
  }

  ghost predicate AllClean(es: seq<Entry>) {
    forall i :: 0 <= i < |es| ==> Clean(es[i])
  }

  /** The maps that a CameraParameters object can hold. */
  ghost predicate WellFormed(es: seq<Entry>) {
    Sorted(es) && AllClean(es)
  }

  lemma CleanCons(e: Entry, es: seq<Entry>)
    requires Clean(e) && AllClean(es)
    ensures AllClean([e] + es)
  {
  }

  lemma {:induction false} PairsAreClean(s: string)
    ensures AllClean(Pairs(s))
    decreases |s|
  {
    hide Find;
    var b := Find(s, '=');
    if b < |s| {
      var rest := s[b + 1..];
      var e := Find(rest, ';');
      if e < |rest| {
        PairsAreClean(rest[e + 1..]);
        CleanCons(Entry(s[..b], rest[..e]), Pairs(rest[e + 1..]));
      } else {
        assert rest[..e] == rest;
        CleanCons(Entry(s[..b], rest), []);
      }
    }
  }

  lemma PutKeepsWellFormed(es: seq<Entry>, key: string, value: string)
    requires WellFormed(es) && Clean(Entry(key, value))
    ensures WellFormed(Put(es, key, value))
  {
    PutKeepsSorted(es, key, value);
    PutKeys(es, key, value);
  }

  lemma {:induction false} PutAllKeepsWellFormed(es: seq<Entry>, pairs: seq<Entry>)
    requires WellFormed(es) && AllClean(pairs)
    ensures WellFormed(PutAll(es, pairs))
    decreases |pairs|
  {
    if pairs != [] {
      PutKeepsWellFormed(es, pairs[0].key, pairs[0].value);
      PutAllKeepsWellFormed(Put(es, pairs[0].key, pairs[0].value), pairs[1..]);
    }
  }

  lemma DeleteKeepsWellFormed(es: seq<Entry>, key: string)
    requires WellFormed(es)
    ensures WellFormed(Delete(es, key))
  {
    DeleteKeepsSorted(es, key);
    DeleteIsSubset(es, key);
  }

  /** Whatever the text, even malformed, what it unflattens to is well formed. */
  lemma UnflattenIsWellFormed(s: string)
    ensures WellFormed(Unflatten(s))
  {
    PairsAreClean(s);
    PutAllKeepsWellFormed([], Pairs(s));
  }

  lemma {:induction false} FindInFront(s: string, c: char, t: string)
    requires c !in s
    ensures Find(s + [c] + t, c) == |s|
  {
    if s != [] {
      assert (s + [c] + t)[1..] == s[1..] + [c] + t;
      FindInFront(s[1..], c, t);
    }
  }

  lemma {:induction false} FindAbsent(s: string, c: char)
    requires c !in s
    ensures Find(s, c) == |s|
  {
    if s != [] {
      FindAbsent(s[1..], c);
    }
  }

  /** Parsing one printed pair: alone, or followed by ';' and more text. */
  lemma PairsOfLast(e: Entry)
    requires Clean(e)
    ensures Pairs(e.key + "=" + e.value) == [e]
  {
    var s := e.key + "=" + e.value;
    FindInFront(e.key, '=', e.value);
    assert s[..|e.key|] == e.key && s[|e.key| + 1..] == e.value;
    FindAbsent(e.value, ';');
  }

  lemma PairsOfCons(e: Entry, more: string)
    requires Clean(e)
    ensures Pairs(e.key + "=" + e.value + ";" + more) == [e] + Pairs(more)
  {
    hide Find;
    var (rest, s) := (e.value + ";" + more, e.key + "=" + e.value + ";" + more);
    assert s == e.key + ['='] + rest;
    FindInFront(e.key, '=', rest);
    assert s[..|e.key|] == e.key && s[|e.key| + 1..] == rest;
    assert rest == e.value + [';'] + more;
    FindInFront(e.value, ';', more);
    assert rest[..|e.value|] == e.value && rest[|e.value| + 1..] == more;
  }

  /** Printing and parsing keeps the entries and their order. */
  lemma {:induction false} PairsOfFlatten(es: seq<Entry>)
    requires AllClean(es)
    ensures Pairs(Flatten(es)) == es
  {
    if es != [] {
      assert Clean(es[0]) && es == [es[0]] + es[1..];
      if |es| == 1 {
        PairsOfLast(es[0]);
      } else {
        PairsOfCons(es[0], Flatten(es[1..]));
        PairsOfFlatten(es[1..]);
      }
    }
  }

  lemma {:induction false} PutAllInOrder(es: seq<Entry>, more: seq<Entry>)
    requires Sorted(es + more)
    ensures PutAll(es, more) == es + more
    decreases |more|
  {
    if more == [] {
      assert es + more == es;
    } else {
      assert (es + more)[|es|] == more[0];
      forall x | x in es ensures Less(x.key, more[0].key) {
        var i :| 0 <= i < |es| && es[i] == x;
        assert (es + more)[i] == x;
      }
      PutAtEnd(es, more[0]);
      assert es + [more[0]] + more[1..] == es + more;
      PutAllInOrder(es + [more[0]], more[1..]);
    }
  }

  /** unflatten is the inverse of flatten on every map an object can hold. */
  lemma UnflattenFlatten(es: seq<Entry>)
    requires WellFormed(es)
    ensures Unflatten(Flatten(es)) == es
  {
    PairsOfFlatten(es);
    assert [] + es == es;
    PutAllInOrder([], es);
  }

  /** On any text at all, unflattening and flattening once more changes nothing after the first time. */
  lemma NormalFormIsStable(s: string)
    ensures Flatten(Unflatten(Flatten(Unflatten(s)))) == Flatten(Unflatten(s))
  {
    UnflattenIsWellFormed(s);
    UnflattenFlatten(Unflatten(s));
  }

  /** One turn of the printing loop. */
  lemma FlattenNext(before: string, es: seq<Entry>, i: nat)
    requires i < |es|
    ensures var printed := before + es[i].key + "=" + es[i].value;
            (if i != |es| - 1 then printed + ";" else printed) + Flatten(es[i + 1..]) == before + Flatten(es[i..])
  {
    var (e, rest) := (es[i], Flatten(es[i + 1..]));
    assert es[i..][0] == e && es[i..][1..] == es[i + 1..];
    AppendAssoc(before, e.key, "=");
    AppendAssoc(before, e.key + "=", e.value);
    if i != |es| - 1 {
      AppendAssoc(before, e.key + "=" + e.value, ";");
      AppendAssoc(before, e.key + "=" + e.value + ";", rest);
    } else {
      assert rest == "";
    }
  }

  // ----- what unflatten holds

  ghost predicate HasKey(es: seq<Entry>, key: string) {
    exists i :: 0 <= i < |es| && es[i].key == key
  }

  /** Pair i is the last one with its key. */
  ghost predicate IsLast(pairs: seq<Entry>, i: nat)
    requires i < |pairs|
  {
    forall j :: i < j < |pairs| ==> pairs[j].key != pairs[i].key
  }

  /** The entry is the last pair with its key. */
  ghost predicate HoldsLast(pairs: seq<Entry>, e: Entry) {
    exists i :: 0 <= i < |pairs| && pairs[i] == e && IsLast(pairs, i)
  }

  lemma {:induction false} PutHolds(es: seq<Entry>, key: string, value: string, e: Entry)
    requires Sorted(es)
    ensures e in Put(es, key, value) <==> e == Entry(key, value) || (e in es && e.key != key)
  {
    if es != [] {
      SortedTail(es);
      assert es == [es[0]] + es[1..];
      if es[0].key == key {
        LessIrreflexive(key);
      } else if Less(key, es[0].key) {
        forall x | x in es ensures x.key != key {
          LessIrreflexive(key);
          if x in es[1..] {
            LessTransitive(key, es[0].key, x.key);
          }
        }
      } else {
        PutHolds(es[1..], key, value, e);
      }
    }
  }

  lemma {:induction false} DeleteHolds(es: seq<Entry>, key: string, e: Entry)
    requires Sorted(es)
    ensures e in Delete(es, key) <==> e in es && e.key != key
  {
    if es != [] {
      SortedTail(es);
      assert es == [es[0]] + es[1..];
      if es[0].key == key {
        LessIrreflexive(key);
      } else {
        DeleteHolds(es[1..], key, e);
      }
    }
  }

  lemma {:induction false} PutAllHolds(es: seq<Entry>, pairs: seq<Entry>, e: Entry)
    requires Sorted(es)
    ensures e in PutAll(es, pairs) <==>
            HoldsLast(pairs, e) || (e in es && !HasKey(pairs, e.key))
    decreases |pairs|
  {
    if pairs != [] {
      var (first, rest) := (pairs[0], pairs[1..]);
      PutHolds(es, first.key, first.value, e);
      PutKeepsSorted(es, first.key, first.value);
      PutAllHolds(Put(es, first.key, first.value), rest, e);
      LastOfCons(pairs, e);
    }
  }

  lemma LastOfCons(pairs: seq<Entry>, e: Entry)
    requires pairs != []
    ensures HoldsLast(pairs, e) <==> HoldsLast(pairs[1..], e) || (pairs[0] == e && !HasKey(pairs[1..], e.key))
    ensures HasKey(pairs, e.key) <==> pairs[0].key == e.key || HasKey(pairs[1..], e.key)
  {
    var rest := pairs[1..];
    assert forall i :: 0 <= i < |rest| ==> rest[i] == pairs[i + 1];
    assert forall i :: 0 <= i < |rest| ==> (IsLast(rest, i) <==> IsLast(pairs, i + 1));
    assert IsLast(pairs, 0) <==> !HasKey(rest, pairs[0].key);
    if i :| 0 <= i < |pairs| && pairs[i] == e && IsLast(pairs, i) {
      assert i > 0 ==> rest[i - 1] == e && IsLast(rest, i - 1);
    }
    if i :| 0 <= i < |rest| && rest[i] == e && IsLast(rest, i) {
      assert pairs[i + 1] == e && IsLast(pairs, i + 1);
    }
    if i :| 0 <= i < |pairs| && pairs[i].key == e.key {
      assert i > 0 ==> rest[i - 1].key == e.key;
    }
    if i :| 0 <= i < |rest| && rest[i].key == e.key {
      assert pairs[i + 1].key == e.key;
    }
  }

  /** For every text, in any order and with repeats: an entry is held exactly when it is the last pair of
      its key in the text. */
  lemma UnflattenHoldsLastPairs(s: string, e: Entry)
    ensures e in Unflatten(s) <==> HoldsLast(Pairs(s), e)
  {
    var none: seq<Entry> := [];
    var pairs := Pairs(s);
    PutAllHolds(none, pairs, e);
    assert e !in none && Unflatten(s) == PutAll(none, pairs);
  }

  lemma {:induction false} LastWithKey(pairs: seq<Entry>, key: string) returns (i: nat)
    requires HasKey(pairs, key)
    ensures i < |pairs| && pairs[i].key == key && IsLast(pairs, i)
  {
    var m := |pairs| - 1;
    if pairs[m].key == key {
      i := m;
    } else {
      var j :| 0 <= j < |pairs| && pairs[j].key == key;
      assert pairs[..m][j] == pairs[j];
      i := LastWithKey(pairs[..m], key);
      assert forall n :: i < n < m ==> pairs[..m][n] == pairs[n];
    }
  }

  /** So a key is held exactly when some pair of the text has it, and reads as the value of the last. */
  lemma UnflattenReads(s: string, key: string)
    ensures HasKey(Unflatten(s), key) <==> HasKey(Pairs(s), key)
    ensures !HasKey(Pairs(s), key) ==> ValueFor(Unflatten(s), key) == ""
    ensures forall i :: 0 <= i < |Pairs(s)| && Pairs(s)[i].key == key && IsLast(Pairs(s), i) ==>
              ValueFor(Unflatten(s), key) == Pairs(s)[i].value
  {
    var (es, pairs) := (Unflatten(s), Pairs(s));
    hide Unflatten, Pairs;
    UnflattenIsWellFormed(s);
    if HasKey(es, key) {
      var i :| 0 <= i < |es| && es[i].key == key;
      UnflattenHoldsLastPairs(s, es[i]);
    } else {
      AbsentKey(es, key);
    }
    if HasKey(pairs, key) {
      var i := LastWithKey(pairs, key);
      UnflattenHoldsLastPairs(s, pairs[i]);
    }
    forall i | 0 <= i < |pairs| && pairs[i].key == key && IsLast(pairs, i)
      ensures ValueFor(es, key) == pairs[i].value
    {
      UnflattenHoldsLastPairs(s, pairs[i]);
      HeldValue(es, pairs[i]);
    }
  }

  lemma {:induction false} HeldValue(es: seq<Entry>, e: Entry)
    requires Sorted(es) && e in es
    ensures ValueFor(es, e.key) == e.value
  {
    SortedTail(es);
    LessIrreflexive(e.key);
    if es[0] != e {
      assert e in es[1..];
      HeldValue(es[1..], e);
    }
  }

  lemma FlattenCons(e: Entry, es: seq<Entry>)
    ensures Flatten([e]) == e.key + "=" + e.value
    ensures es != [] ==> Flatten([e] + es) == e.key + "=" + e.value + ";" + Flatten(es)
  {
    assert ([e] + es)[1..] == es;
  }

  lemma SplitAt(s: string, k: nat)
    requires k < |s|
    ensures s == s[..k] + [s[k]] + s[k + 1..]
  {
  }

  /** Text `s` is the pairs printed, and perhaps a ';' and a tail. */
  ghost predicate IsTextOf(s: string, pairs: seq<Entry>, tail: string) {
    if pairs == [] then s == tail
    else s == Flatten(pairs) || s == Flatten(pairs) + ";" + tail
  }

  lemma TextOfCons(e: Entry, more: string, pairs: seq<Entry>, tail: string)
    requires IsTextOf(more, pairs, tail)
    ensures IsTextOf(e.key + "=" + e.value + ";" + more, [e] + pairs, tail)
  {
    hide Flatten;
    FlattenCons(e, pairs);
    var pair := e.key + "=" + e.value + ";";
    if pairs == [] {
      assert [e] + pairs == [e];
    } else if more == Flatten(pairs) + ";" + tail {
      AppendAssoc(pair, Flatten(pairs), ";");
      AppendAssoc(pair, Flatten(pairs) + ";", tail);
    }
  }

  /** Nothing of the text is lost but what follows the last pair: the text is its pairs printed, and
      perhaps a ';' and a rest without '='. */
  lemma {:induction false} PairsAreTheText(s: string) returns (tail: string)
    ensures '=' !in tail && IsTextOf(s, Pairs(s), tail)
    decreases |s|, 1
  {
    hide Find, Flatten;
    var b := Find(s, '=');
    if b == |s| {
      assert s[..b] == s;
      tail := s;
    } else {
      var (key, rest) := (s[..b], s[b + 1..]);
      var e := Find(rest, ';');
      SplitAt(s, b);
      if e == |rest| {
        tail := "";
        FlattenCons(Entry(key, rest), []);
      } else {
        tail := TextOfRest(s, key, rest, e);
      }
    }
  }

  lemma {:induction false} TextOfRest(s: string, key: string, rest: string, e: nat) returns (tail: string)
    requires s == key + "=" + rest && e < |rest| && rest[e] == ';'
    requires Pairs(s) == [Entry(key, rest[..e])] + Pairs(rest[e + 1..])
    ensures '=' !in tail && IsTextOf(s, Pairs(s), tail)
    decreases |s|, 0
  {
    hide IsTextOf, Pairs;
    var (value, more) := (rest[..e], rest[e + 1..]);
    SplitAt(rest, e);
    AppendAssoc(key + "=", value, ";");
    AppendAssoc(key + "=", value + ";", more);
    tail := PairsAreTheText(more);
    TextOfCons(Entry(key, value), more, Pairs(more), tail);
  }

  // ----- reserved characters

  predicate HasReserved(s: string) {
    '=' in s || ';' in s
  }

  /** An entry that `set` would accept. */
  ghost predicate Plain(e: Entry) {
    !HasReserved(e.key) && !HasReserved(e.value)
  }

  ghost predicate AllPlain(es: seq<Entry>) {
    forall i :: 0 <= i < |es| ==> Plain(es[i])
  }

  /** Up to the last '=' of the text, '=' and ';' take turns, '=' first. */
  predicate Alternates(s: string, awaited: char) {
    if s == [] then true
    else if s[0] != '=' && s[0] != ';' then Alternates(s[1..], awaited)
    else if s[0] == awaited then Alternates(s[1..], if awaited == '=' then ';' else '=')
    else s[0] == ';' && '=' !in s
  }

  /** Skips to the awaited character when the other one does not come first. */
  lemma {:induction false} AlternatesSkips(s: string, awaited: char, k: nat)
    requires awaited == '=' || awaited == ';'
    requires k < |s| && s[k] == awaited && awaited !in s[..k]
    requires awaited == ';' || '=' in s
    ensures var other := if awaited == '=' then ';' else '=';
            Alternates(s, awaited) <==> other !in s[..k] && Alternates(s[k + 1..], other)
  {
    if k > 0 {
      assert s[..k] == [s[0]] + s[1..][..k - 1];
      assert s[0] != awaited && s[1..][k - 1] == s[k] && s[1..][k..] == s[k + 1..];
      if s[0] != '=' && s[0] != ';' {
        AlternatesSkips(s[1..], awaited, k - 1);
      }
    }
  }

  lemma {:induction false} AlternatesAbsent(s: string, awaited: char)
    requires awaited == '=' || awaited == ';'
    requires awaited !in s
    ensures Alternates(s, awaited) <==> awaited == '=' || '=' !in s
  {
    if s != [] {
      assert s[0] != awaited && s == [s[0]] + s[1..];
      if s[0] != '=' && s[0] != ';' {
        AlternatesAbsent(s[1..], awaited);
      }
    }
  }

  lemma PlainCons(e: Entry, es: seq<Entry>)
    ensures AllPlain([e] + es) <==> Plain(e) && AllPlain(es)
  {
    assert ([e] + es)[0] == e;
    assert forall i :: 0 <= i < |es| ==> es[i] == ([e] + es)[i + 1];
  }

  lemma PlainNone()
    ensures AllPlain([])
  {
  }

  lemma PlainEntry(key: string, value: string)
    requires '=' !in key && ';' !in value
    ensures Plain(Entry(key, value)) <==> ';' !in key && '=' !in value
  {
  }

  lemma LastPairIsPlainIff(key: string, rest: string)
    requires '=' !in key && ';' !in rest
    ensures AllPlain([Entry(key, rest)]) <==> ';' !in key && Alternates(rest, ';')
  {
    hide Alternates;
    AlternatesAbsent(rest, ';');
    PlainEntry(key, rest);
    PlainCons(Entry(key, rest), []);
    assert [Entry(key, rest)] + [] == [Entry(key, rest)];
  }

  lemma NextPairIsPlainIff(key: string, rest: string, e: nat, more: seq<Entry>)
    requires '=' !in key && e < |rest| && rest[e] == ';' && ';' !in rest[..e]
    requires AllPlain(more) <==> Alternates(rest[e + 1..], '=')
    ensures AllPlain([Entry(key, rest[..e])] + more) <==> ';' !in key && Alternates(rest, ';')
  {
    hide Alternates;
    AlternatesSkips(rest, ';', e);
    PlainEntry(key, rest[..e]);
    PlainCons(Entry(key, rest[..e]), more);
  }

  /** unflatten accepts more than set does: every pair that it finds is one that set would accept if and
      only if the separators of the text alternate. */
  lemma {:induction false} PairsArePlainIff(s: string)
    ensures AllPlain(Pairs(s)) <==> Alternates(s, '=')
    decreases |s|
  {
    hide Find, Alternates, AllPlain;
    var b := Find(s, '=');
    if b == |s| {
      assert s[..b] == s;
      PlainNone();
      AlternatesAbsent(s, '=');
    } else {
      AlternatesSkips(s, '=', b);
      var rest := s[b + 1..];
      var e := Find(rest, ';');
      if e == |rest| {
        assert rest[..e] == rest;
        LastPairIsPlainIff(s[..b], rest);
      } else {
        PairsArePlainIff(rest[e + 1..]);
        NextPairIsPlainIff(s[..b], rest, e, Pairs(rest[e + 1..]));
      }
    }
  }

  /** A text that leaves ';' in a key and '=' in a value. */
  lemma UnflattenKeepsReserved()
    ensures Unflatten(";a=b=c") == [Entry(";a", "b=c")]
  {
    assert ";a=b=c" == ";a" + "=" + "b=c";
    PairsOfLast(Entry(";a", "b=c"));
    assert PutAll([], [Entry(";a", "b=c")]) == PutAll(Put([], ";a", "b=c"), []);
  }

  // ----- the object

  /** set: a missing or reserved-character argument leaves the map as it is. */
  function SetEntry(es: seq<Entry>, key: Option<string>, value: Option<string>): seq<Entry> {
    if key.None? || value.None? || HasReserved(key.value) || HasReserved(value.value) then es
    else Put(es, key.value, value.value)
  }

  /** get: an empty value counts as absent. */
  function GetEntry(es: seq<Entry>, key: string): Option<string> {
    var v := ValueFor(es, key);
    if |v| == 0 then None else Some(v)
  }

  class Parameters {
    var entries: seq<Entry>

    constructor ()
      ensures entries == []
    {
      entries := [];
    }

    method FlattenText() returns (flattened: string)
      ensures flattened == Flatten(entries)
    {
      flattened := "";
      var size := |entries|;
      assert entries[0..] == entries;
      for i := 0 to size
        invariant flattened + Flatten(entries[i..]) == Flatten(entries)
      {
        ghost var before := flattened;
        flattened := flattened + entries[i].key;
        flattened := flattened + "=";
        flattened := flattened + entries[i].value;
        if i != size - 1 {
          flattened := flattened + ";";
        }
        FlattenNext(before, entries, i);
      }
    }

    method UnflattenText(params: string)
      modifies this
      ensures entries == Unflatten(params) && WellFormed(entries)
    {
      hide Put, Find;
      entries := [];
      var a := params;
      while true
        invariant PutAll(entries, Pairs(a)) == Unflatten(params)
        decreases |a|
      {
        var b := Find(a, '=');
        if b == |a| {
          break;
        }
        var k := a[..b];
        a := a[b + 1..];
        b := Find(a, ';');
        if b == |a| {
          entries := Put(entries, k, a);
          break;
        }
        entries := Put(entries, k, a[..b]);
        a := a[b + 1..];
      }
      UnflattenIsWellFormed(params);
    }

    /** A missing argument, or '=' or ';' in one, changes nothing; else one key reads as the value. */
    method Set(key: Option<string>, value: Option<string>)
      modifies this
      ensures entries == SetEntry(old(entries), key, value)
      ensures key.None? || value.None? ==> entries == old(entries)
      ensures key.Some? && ('=' in key.value || ';' in key.value) ==> entries == old(entries)
      ensures value.Some? && ('=' in value.value || ';' in value.value) ==> entries == old(entries)
      ensures key.Some? && value.Some? &&
              '=' !in key.value && ';' !in key.value && '=' !in value.value && ';' !in value.value ==>
                forall k :: ValueFor(entries, k) == if k == key.value then value.value else ValueFor(old(entries), k)
      ensures WellFormed(old(entries)) ==> WellFormed(entries)
    {
      if key.None? || value.None? {
        return;
      }
      if '=' in key.value || ';' in key.value {
        return;
      }
      if '=' in value.value || ';' in value.value {
        return;
      }
      if WellFormed(entries) {
        PutKeepsWellFormed(entries, key.value, value.value);
      }
      forall k ensures ValueFor(Put(entries, key.value, value.value), k) ==
                       if k == key.value then value.value else ValueFor(entries, k)
      {
        ValueForAfterPut(entries, key.value, value.value, k);
      }
      entries := Put(entries, key.value, value.value);
    }

    /** The non-empty value stored for the key, if there is one. */
    method Get(key: string) returns (value: Option<string>)
      ensures value == GetEntry(entries, key)
      ensures Sorted(entries) ==> forall v :: value == Some(v) <==> v != "" && Entry(key, v) in entries
    {
      var v := ValueFor(entries, key);
      value := if |v| == 0 then None else Some(v);
      if Sorted(entries) {
        forall w | w != "" ensures ValueFor(entries, key) == w <==> Entry(key, w) in entries {
          ValueForFinds(entries, key, w);
        }
      }
    }

    method Remove(key: string)
      modifies this
      ensures entries == Delete(old(entries), key)
      ensures Sorted(old(entries)) ==> forall e :: e in entries <==> e in old(entries) && e.key != key
      ensures WellFormed(old(entries)) ==> WellFormed(entries)
    {
      if WellFormed(entries) {
        DeleteKeepsWellFormed(entries, key);
      }
      if Sorted(entries) {
        forall e ensures e in Delete(entries, key) <==> e in entries && e.key != key {
          DeleteHolds(entries, key, e);
        }
      }
      entries := Delete(entries, key);
    }
  }

  // ----- every history of an object

  datatype Op = DoUnflatten(text: string) | DoSet(key: Option<string>, value: Option<string>) | DoRemove(name: string)

  function After(es: seq<Entry>, ops: seq<Op>): seq<Entry>
    decreases |ops|
  {
    if ops == [] then es
    else
      var next := match ops[0]
        case DoUnflatten(text) => Unflatten(text)
        case DoSet(key, value) => SetEntry(es, key, value)
        case DoRemove(name) => Delete(es, name);
      After(next, ops[1..])
  }

  /** After any mix of unflatten, set and remove the map survives a round trip through its text form. */
  lemma {:induction false} HistoryRoundTrips(es: seq<Entry>, ops: seq<Op>)
    requires WellFormed(es)
    ensures WellFormed(After(es, ops)) && Unflatten(Flatten(After(es, ops))) == After(es, ops)
    decreases |ops|
  {
    if ops == [] {
      UnflattenFlatten(es);
    } else {
      match ops[0] {
        case DoUnflatten(text) =>
          UnflattenIsWellFormed(text);
          HistoryRoundTrips(Unflatten(text), ops[1..]);
        case DoSet(key, value) =>
          SetKeepsWellFormed(es, key, value);
          HistoryRoundTrips(SetEntry(es, key, value), ops[1..]);
        case DoRemove(name) =>
          DeleteKeepsWellFormed(es, name);
          HistoryRoundTrips(Delete(es, name), ops[1..]);
      }
    }
  }

  lemma SetKeepsWellFormed(es: seq<Entry>, key: Option<string>, value: Option<string>)
    requires WellFormed(es)
    ensures WellFormed(SetEntry(es, key, value))
  {
    if SetEntry(es, key, value) != es {
      PutKeepsWellFormed(es, key.value, value.value);
    }
  }
}
