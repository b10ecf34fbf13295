/** Entries of the timer heap in their order, and the sorted sequence that stands for a heap. */
module Entries {

  /** A deadline in nanoseconds and the sequence number of its timer. */
  datatype Entry = Entry(at: int, id: nat)

  /** The order of `std::pair`. */
  predicate Less(a: Entry, b: Entry) {
    a.at < b.at || (a.at == b.at && a.id < b.id)
  }

  ghost predicate StrictlySorted(es: seq<Entry>) {
    forall i, j :: 0 <= i < j < |es| ==> Less(es[i], es[j])
  }

  /** `emplace` on the heap, seen as the sequence of its pops. */
  function Insert(es: seq<Entry>, x: Entry): (r: seq<Entry>)
    ensures forall y :: y in r <==> y == x || y in es
    ensures |r| == |es| + 1
  {
    if es == [] || Less(x, es[0]) then [x] + es
    else
      assert es == [es[0]] + es[1..];
      [es[0]] + Insert(es[1..], x)
  }

  lemma {:induction false} InsertSorted(es: seq<Entry>, x: Entry)
    requires StrictlySorted(es) && x !in es
    ensures StrictlySorted(Insert(es, x))
  {
    if es != [] && !Less(x, es[0]) {
      InsertSorted(es[1..], x);
      var r := Insert(es[1..], x);
      forall i | 0 <= i < |r|
        ensures Less(es[0], r[i])
      {
        assert r[i] in r;
        assert r[i] == x || r[i] in es[1..];
        assert es[0] in es;
      }
    }
  }

  /** A set of entries as its sorted sequence. */
  ghost function Sorted(es: set<Entry>): (r: seq<Entry>)
    ensures StrictlySorted(r) && forall x :: x in r <==> x in es
    decreases |es|
  {
    if es == {} then []
    else
      var x :| x in es;
      InsertSorted(Sorted(es - {x}), x);
      Insert(Sorted(es - {x}), x)
  }

  /** There is only one strictly sorted sequence of given elements. */
  lemma {:induction false} SortedUnique(a: seq<Entry>, b: seq<Entry>)
    requires StrictlySorted(a) && StrictlySorted(b)
    requires forall x :: x in a <==> x in b
    ensures a == b
  {
    assert a != [] ==> a[0] in a;
    assert b != [] ==> b[0] in b;
    if a != [] {
      HeadIsLeast(a, b[0]);
      HeadIsLeast(b, a[0]);
      assert a[0] == b[0];
      forall x
        ensures x in a[1..] <==> x in b[1..]
      {
        TailMembers(a, x);
        TailMembers(b, x);
      }
      SortedUnique(a[1..], b[1..]);
    }
  }

  lemma HeadIsLeast(a: seq<Entry>, x: Entry)
    requires StrictlySorted(a) && x in a
    ensures x == a[0] || Less(a[0], x)
  {
  }

  lemma TailMembers(a: seq<Entry>, x: Entry)
    requires StrictlySorted(a) && a != []
    ensures x in a[1..] <==> x in a && x != a[0]
  {
    if x in a && x != a[0] {
      var i :| 0 <= i < |a| && a[i] == x;
      assert a[1..][i - 1] == x;
    }
  }

  /** The entries of live timers, in order. */
  function OfLive<T>(es: seq<Entry>, live: map<nat, T>): (r: seq<Entry>)
    ensures forall x :: x in r <==> x in es && x.id in live
  {
    if es == [] then []
    else
      assert es == [es[0]] + es[1..];
      (if es[0].id in live then [es[0]] else []) + OfLive(es[1..], live)
  }

  lemma {:induction false} OfLiveSorted<T>(es: seq<Entry>, live: map<nat, T>)
    requires StrictlySorted(es)
    ensures StrictlySorted(OfLive(es, live))
  {
    if es != [] {
      OfLiveSorted(es[1..], live);
      var r := OfLive(es[1..], live);
      forall i | 0 <= i < |r|
        ensures Less(es[0], r[i])
      {
        assert r[i] in es[1..];
      }
    }
  }
}
