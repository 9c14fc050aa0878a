/**
 * The heap of candidate entries `(reward, tiebreak, job)` of the candidate
 * filter. Entries are ordered by reward, then by tiebreak; the job itself is
 * never compared because tiebreaks are distinct. The heap is kept as a
 * strictly ascending sequence; its operations are stated by what `heapq`
 * promises: a push adds one entry, a push-pop adds one entry and then
 * removes and returns the smallest, a pop removes and returns the smallest.
 */
module Heap {
  import opened Jobs
  import Lex

  datatype Entry = Entry(reward: seq<int>, tiebreak: real, job: Job)

  predicate Less(a: Entry, b: Entry) {
    Lex.Less(a.reward, b.reward) || (a.reward == b.reward && a.tiebreak < b.tiebreak)
  }

  /** Two entries whose keys tie; with distinct tiebreaks only an entry with itself. */
  predicate SameKey(a: Entry, b: Entry) {
    a.reward == b.reward && a.tiebreak == b.tiebreak
  }

  lemma LessIrreflexive(a: Entry)
    ensures !Less(a, a)
  {
    Lex.LessIrreflexive(a.reward);
  }

  lemma LessTransitive(a: Entry, b: Entry, c: Entry)
    requires Less(a, b) && Less(b, c)
    ensures Less(a, c)
  {
    if Lex.Less(a.reward, b.reward) && Lex.Less(b.reward, c.reward) {
      Lex.LessTransitive(a.reward, b.reward, c.reward);
    }
  }

  /** Entries with different keys are comparable. */
  lemma LessTotal(a: Entry, b: Entry)
    requires !SameKey(a, b)
    ensures Less(a, b) || Less(b, a)
  {
    if a.reward != b.reward {
      Lex.LessTotal(a.reward, b.reward);
    }
  }

  lemma LessAsymmetric(a: Entry, b: Entry)
    requires Less(a, b)
    ensures !Less(b, a)
  {
    if Less(b, a) {
      LessTransitive(a, b, a);
      LessIrreflexive(a);
    }
  }

  predicate StrictlyAscending(s: seq<Entry>) {
    forall i, j :: 0 <= i < j < |s| ==> Less(s[i], s[j])
  }

  /** The first entry of a strictly ascending sequence is below every other one and above none. */
  lemma HeadIsMinimum(s: seq<Entry>)
    requires StrictlyAscending(s) && s != []
    ensures forall x :: x in s[1..] ==> Less(s[0], x)
    ensures forall x :: x in s ==> !Less(x, s[0])
  {
    forall x | x in s ensures !Less(x, s[0]) {
      var i :| 0 <= i < |s| && s[i] == x;
      if i == 0 {
        LessIrreflexive(x);
      } else {
        LessAsymmetric(s[0], x);
      }
    }
  }

  /** `e` ties with no entry of `s`. */
  predicate KeyAbsent(e: Entry, s: seq<Entry>) {
    forall x :: x in s ==> !SameKey(x, e)
  }

  class MinHeap {
    var items: seq<Entry>

    ghost predicate Valid()
      reads this
    {
      StrictlyAscending(items)
    }

    function Size(): nat
      reads this
    {
      |items|
    }

    constructor ()
      ensures Valid() && items == []
    {
      items := [];
    }

    /** heappush: add `e`. */
    method Push(e: Entry)
      requires Valid() && KeyAbsent(e, items)
      modifies this
      ensures Valid()
      ensures multiset(items) == multiset(old(items)) + multiset{e}
      ensures |items| == |old(items)| + 1
    {
      var k := 0;
      while k < |items| && Less(items[k], e)
        invariant 0 <= k <= |items|
        invariant forall i :: 0 <= i < k ==> Less(items[i], e)
      {
        k := k + 1;
      }
      if k < |items| {
        LessTotal(items[k], e);
        forall j | k < j < |items| ensures Less(e, items[j]) {
          LessTransitive(e, items[k], items[j]);
        }
      }
      assert items == items[..k] + items[k..];
      items := items[..k] + [e] + items[k..];
    }

    /**
     * heappushpop: add `e`, then remove and return the smallest entry. The
     * returned entry is smaller than every entry left in the heap.
     */
    method PushPop(e: Entry) returns (m: Entry)
      requires Valid() && KeyAbsent(e, items)
      modifies this
      ensures Valid()
      ensures m in old(items) || m == e
      ensures forall x :: x in old(items) || x == e ==> !Less(x, m)
      ensures forall x :: x in items ==> Less(m, x)
      ensures multiset(items) + multiset{m} == multiset(old(items)) + multiset{e}
      ensures |items| == |old(items)|
    {
      if items != [] && Less(items[0], e) {
        m := items[0];
        HeadIsMinimum(items);
        LessAsymmetric(m, e);
        assert items == [m] + items[1..];
        items := items[1..];
        ghost var rest := items;
        Push(e);
        forall x | x in items ensures Less(m, x) {
          assert x in multiset(items);
          assert x in rest || x == e;
        }
      } else {
        m := e;
        LessIrreflexive(e);
        if items != [] {
          LessTotal(items[0], e);
          HeadIsMinimum(items);
          forall x | x in items ensures Less(e, x) {
            if x != items[0] {
              LessTransitive(e, items[0], x);
            }
          }
          forall x | x in items ensures !Less(x, e) {
            LessAsymmetric(e, x);
          }
        }
      }
    }

    /** heappop: remove and return the smallest entry. */
    method Pop() returns (m: Entry)
      requires Valid() && items != []
      modifies this
      ensures Valid()
      ensures m in old(items)
      ensures forall x :: x in old(items) ==> !Less(x, m)
      ensures forall x :: x in items ==> Less(m, x)
      ensures multiset(items) + multiset{m} == multiset(old(items))
      ensures |items| == |old(items)| - 1
    {
      m := items[0];
      HeadIsMinimum(items);
      assert items == [m] + items[1..];
      items := items[1..];
    }
  }
}
