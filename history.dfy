/**
  The session history: solve records in the order they were made, and the
  ranked view `updateTimesList` builds for display by sorting a copy of
  them, fastest first, and numbering the result from 1.
 */
module History {

  /** One completed solve, `{time: savedTime, scramble: currentScramble}`. */
  datatype Record = Record(time: int, scramble: string)

  /** One line of the ranked view: its 1-based rank and the record shown there. */
  datatype Entry = Entry(rank: nat, record: Record)

  predicate SortedByTime(s: seq<Record>)
  {
    forall i, j :: 0 <= i < j < |s| ==> s[i].time <= s[j].time
  }

  /** The records of s whose time is t, in the order s has them. */
  function WithTime(s: seq<Record>, t: int): seq<Record>
  {
    if s == [] then [] else (if s[0].time == t then [s[0]] else []) + WithTime(s[1..], t)
  }

  /** Places x in front of the first record of s that is not faster than x. */
  function Insert(x: Record, s: seq<Record>): (r: seq<Record>)
    ensures |r| == |s| + 1
  {
    if s == [] || x.time <= s[0].time then [x] + s
    else [s[0]] + Insert(x, s[1..])
  }

  /** `[...timesList].sort((a, b) => a.time - b.time)`, as an insertion sort. */
  function SortByTime(s: seq<Record>): (r: seq<Record>)
    ensures |r| == |s|
  {
    if s == [] then [] else Insert(s[0], SortByTime(s[1..]))
  }

  /** Inserting into a sorted sequence keeps it sorted. */
  lemma {:induction false} InsertSorted(x: Record, s: seq<Record>)
    requires SortedByTime(s)
    ensures SortedByTime(Insert(x, s))
  {
    if s != [] && x.time > s[0].time {
      SortedTail(s);
      InsertSorted(x, s[1..]);
      InsertMembers(x, s[1..]);
      var rest := Insert(x, s[1..]);
      forall j | 0 <= j < |rest|
        ensures s[0].time <= rest[j].time
      {
        assert rest[j] in rest;
        if rest[j] != x {
          var k :| 0 <= k < |s[1..]| && s[1..][k] == rest[j];
          assert s[k + 1] == rest[j];
        }
      }
    }
  }

  /** Inserting adds exactly the one record. */
  lemma {:induction false} InsertPermutes(x: Record, s: seq<Record>)
    ensures multiset(Insert(x, s)) == multiset(s) + multiset{x}
  {
    if s != [] && x.time > s[0].time {
      InsertPermutes(x, s[1..]);
      assert s == [s[0]] + s[1..];
    }
  }

  lemma SortedTail(s: seq<Record>)
    requires s != [] && SortedByTime(s)
    ensures SortedByTime(s[1..])
  {
  }

  lemma {:induction false} InsertMembers(x: Record, s: seq<Record>)
    ensures forall e :: e in Insert(x, s) ==> e == x || e in s
  {
    if s != [] && x.time > s[0].time {
      InsertMembers(x, s[1..]);
    }
  }

  /** The sorted copy is sorted ascending by time and holds exactly the stored records. */
  lemma {:induction false} SortSorted(s: seq<Record>)
    ensures SortedByTime(SortByTime(s))
    ensures multiset(SortByTime(s)) == multiset(s)
  {
    if s != [] {
      SortSorted(s[1..]);
      InsertSorted(s[0], SortByTime(s[1..]));
      InsertPermutes(s[0], SortByTime(s[1..]));
      assert s == [s[0]] + s[1..];
    }
  }

  lemma {:induction false} WithTimeAppend(a: seq<Record>, b: seq<Record>, t: int)
    ensures WithTime(a + b, t) == WithTime(a, t) + WithTime(b, t)
  {
    if a == [] {
      assert a + b == b;
    } else {
      var head := if a[0].time == t then [a[0]] else [];
      assert (a + b)[0] == a[0] && (a + b)[1..] == a[1..] + b;
      WithTimeAppend(a[1..], b, t);
      calc {
        WithTime(a + b, t);
        head + WithTime(a[1..] + b, t);
        head + (WithTime(a[1..], t) + WithTime(b, t));
        (head + WithTime(a[1..], t)) + WithTime(b, t);
      }
    }
  }

  lemma {:induction false} InsertWithTime(x: Record, s: seq<Record>, t: int)
    ensures WithTime(Insert(x, s), t) == (if x.time == t then [x] else []) + WithTime(s, t)
  {
    if s == [] || x.time <= s[0].time {
      WithTimeAppend([x], s, t);
    } else {
      InsertWithTime(x, s[1..], t);
      WithTimeAppend([s[0]], Insert(x, s[1..]), t);
    }
  }

  /** Records with equal times keep their insertion order in the sorted copy. */
  lemma {:induction false} SortStable(s: seq<Record>, t: int)
    ensures WithTime(SortByTime(s), t) == WithTime(s, t)
  {
    if s != [] {
      SortStable(s[1..], t);
      InsertWithTime(s[0], SortByTime(s[1..]), t);
    }
  }

  lemma {:induction false} WithTimeMembers(s: seq<Record>, t: int)
    ensures forall e :: e in WithTime(s, t) ==> e in s && e.time == t
  {
    if s != [] {
      WithTimeMembers(s[1..], t);
    }
  }

  /** Two sorted lists that agree on the records with each of their first times start alike. */
  lemma HeadsAgree(a: seq<Record>, b: seq<Record>)
    requires a != [] && b != [] && SortedByTime(a) && SortedByTime(b)
    requires WithTime(a, a[0].time) == WithTime(b, a[0].time)
    requires WithTime(a, b[0].time) == WithTime(b, b[0].time)
    ensures a[0] == b[0]
  {
    var ta, tb := a[0].time, b[0].time;
    WithTimeMembers(a, tb);
    WithTimeMembers(b, ta);
    assert WithTime(a, ta)[0] == a[0];
    assert WithTime(b, tb)[0] == b[0];
    assert a[0] in WithTime(b, ta);
    assert b[0] in WithTime(a, tb);
  }

  lemma TailsAgree(a: seq<Record>, b: seq<Record>, t: int)
    requires a != [] && b != [] && a[0] == b[0]
    requires WithTime(a, t) == WithTime(b, t)
    ensures WithTime(a[1..], t) == WithTime(b[1..], t)
  {
    var head := if a[0].time == t then [a[0]] else [];
    assert WithTime(a, t) == head + WithTime(a[1..], t);
    assert WithTime(b, t) == head + WithTime(b[1..], t);
    assert (head + WithTime(a[1..], t))[|head|..] == WithTime(a[1..], t);
    assert (head + WithTime(b[1..], t))[|head|..] == WithTime(b[1..], t);
  }

  /**
    A sorted order that keeps ties in their original order is unique: any
    stable ascending sort of the records yields exactly SortByTime.
   */
  lemma {:induction false} StableSortUnique(a: seq<Record>, b: seq<Record>)
    requires SortedByTime(a) && SortedByTime(b)
    requires forall t :: WithTime(a, t) == WithTime(b, t)
    ensures a == b
    decreases |a|
  {
    // A record of a non-empty side needs a counterpart with its time on the other.
    assert a != [] ==> WithTime(a, a[0].time) != [];
    assert b != [] ==> WithTime(b, b[0].time) != [];
    if a != [] && b != [] {
      assert a[0] == b[0] by {
        HeadsAgree(a, b);
      }
      assert forall t :: WithTime(a[1..], t) == WithTime(b[1..], t) by {
        forall t
          ensures WithTime(a[1..], t) == WithTime(b[1..], t)
        {
          TailsAgree(a, b, t);
        }
      }
      SortedTail(a);
      SortedTail(b);
      StableSortUnique(a[1..], b[1..]);
      assert a == [a[0]] + a[1..] && b == [b[0]] + b[1..];
    }
  }

  /** Any sorted, stable rearrangement of the records is the sorted copy the view shows. */
  lemma StableSortIsSortByTime(s: seq<Record>, r: seq<Record>)
    requires SortedByTime(r)
    requires forall t :: WithTime(r, t) == WithTime(s, t)
    ensures r == SortByTime(s)
  {
    SortSorted(s);
    forall t
      ensures WithTime(r, t) == WithTime(SortByTime(s), t)
    {
      SortStable(s, t);
    }
    StableSortUnique(r, SortByTime(s));
  }

  /** The records of a ranked view, top to bottom. */
  function RecordsOf(view: seq<Entry>): seq<Record>
  {
    seq(|view|, i requires 0 <= i < |view| => view[i].record)
  }

  /**
    The ranked view of updateTimesList: every stored record exactly once,
    fastest first, ranked `index + 1`. It is built from a copy, so the
    stored order is not touched.
   */
  function Ranked(times: seq<Record>): (view: seq<Entry>)
    ensures |view| == |times|
    ensures forall i :: 0 <= i < |view| ==> view[i].rank == i + 1
    ensures SortedByTime(RecordsOf(view))
    ensures multiset(RecordsOf(view)) == multiset(times)
  {
    var sorted := SortByTime(times);
    SortSorted(times);
    var view := seq(|sorted|, i requires 0 <= i < |sorted| => Entry(i + 1, sorted[i]));
    assert RecordsOf(view) == sorted;
    view
  }

  /** In the ranked view, ties stay in the order the solves were recorded. */
  lemma RankedStable(times: seq<Record>, t: int)
    ensures WithTime(RecordsOf(Ranked(times)), t) == WithTime(times, t)
  {
    var sorted := SortByTime(times);
    assert RecordsOf(Ranked(times)) == sorted;
    SortStable(times, t);
  }

  lemma SortExampleTail(b: Record, c: Record, d: Record)
    requires b.time == 900 && c.time == 900 && d.time == 1500
    ensures SortByTime([b, c, d]) == [b, c, d]
  {
    assert [b, c, d][1..] == [c, d] && [c, d][1..] == [d] && [d][1..] == [];
    assert SortByTime([d]) == [d];
    assert SortByTime([c, d]) == [c, d];
  }

  lemma InsertExample(a: Record, b: Record, c: Record, d: Record)
    requires a.time == 1200 && b.time == 900 && c.time == 900 && d.time == 1500
    ensures Insert(a, [b, c, d]) == [b, c, a, d]
  {
    assert [b, c, d][1..] == [c, d] && [c, d][1..] == [d];
    assert Insert(a, [d]) == [a, d];
    assert Insert(a, [c, d]) == [c, a, d];
  }

  /** Durations 1200, 900, 900, 1500 sort as 900, 900, 1200, 1500, the two 900s in insertion order. */
  lemma SortExample(a: Record, b: Record, c: Record, d: Record)
    requires a.time == 1200 && b.time == 900 && c.time == 900 && d.time == 1500
    ensures SortByTime([a, b, c, d]) == [b, c, a, d]
  {
    assert [a, b, c, d][1..] == [b, c, d];
    SortExampleTail(b, c, d);
    InsertExample(a, b, c, d);
  }

  /** The same durations in the ranked view: ranks 1 to 4 over 900, 900, 1200, 1500. */
  lemma RankedExample(a: Record, b: Record, c: Record, d: Record)
    requires a.time == 1200 && b.time == 900 && c.time == 900 && d.time == 1500
    ensures Ranked([a, b, c, d]) == [Entry(1, b), Entry(2, c), Entry(3, a), Entry(4, d)]
  {
    SortExample(a, b, c, d);
    var view := Ranked([a, b, c, d]);
    assert view[0] == Entry(1, b) && view[1] == Entry(2, c) && view[2] == Entry(3, a) && view[3] == Entry(4, d);
  }
}
