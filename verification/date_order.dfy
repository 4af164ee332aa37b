/** `items.sortedByDescending { it.date }`: a stable sort of entries by date,
    newest first. */
module DateOrder {
  import opened Entries

  /** Dates never increase along the sequence. */
  predicate SortedDesc(s: seq<Entry>)
  {
    forall i, j :: 0 <= i < j < |s| ==> s[i].date >= s[j].date
  }

  /** The entries of `s` that carry date `d`, in their order in `s`. */
  function OfDate(s: seq<Entry>, d: int): seq<Entry>
  {
    if |s| == 0 then []
    else (if s[0].date == d then [s[0]] else []) + OfDate(s[1..], d)
  }

  /** Places `x` in front of the first entry that is not newer than it, so
      that `x` precedes every entry of equal date that follows it. */
  function InsertByDate(x: Entry, s: seq<Entry>): (r: seq<Entry>)
    ensures multiset(r) == multiset(s) + multiset{x}
    ensures |r| == |s| + 1
  {
    if |s| == 0 || s[0].date <= x.date then [x] + s
    else
      assert s == [s[0]] + s[1..];
      [s[0]] + InsertByDate(x, s[1..])
  }

  /** Inserting into a sorted sequence keeps it sorted. */
  lemma {:induction false} InsertByDateSorted(x: Entry, s: seq<Entry>)
    requires SortedDesc(s)
    ensures SortedDesc(InsertByDate(x, s))
    decreases |s|
  {
    if |s| > 0 && s[0].date > x.date {
      var t := InsertByDate(x, s[1..]);
      InsertByDateSorted(x, s[1..]);
      forall k | 0 <= k < |t|
        ensures s[0].date >= t[k].date
      {
        assert t[k] in multiset(t);
        assert t[k] == x || t[k] in multiset(s[1..]);
        if t[k] != x {
          var j :| 0 <= j < |s[1..]| && s[1..][j] == t[k];
          assert s[1 + j] == t[k];
        }
      }
    }
  }

  /** The sorted view the fake store emits after every change. */
  function SortByDateDesc(s: seq<Entry>): (r: seq<Entry>)
    ensures SortedDesc(r)
    ensures multiset(r) == multiset(s)
    ensures |r| == |s|
  {
    if |s| == 0 then []
    else
      assert s == [s[0]] + s[1..];
      InsertByDateSorted(s[0], SortByDateDesc(s[1..]));
      InsertByDate(s[0], SortByDateDesc(s[1..]))
  }

  lemma {:induction false} OfDateCons(y: Entry, t: seq<Entry>, d: int)
    ensures OfDate([y] + t, d) == (if y.date == d then [y] else []) + OfDate(t, d)
  {
    assert ([y] + t)[1..] == t;
  }

  lemma {:induction false} InsertByDateOfDate(x: Entry, s: seq<Entry>, d: int)
    ensures OfDate(InsertByDate(x, s), d)
            == (if x.date == d then [x] else []) + OfDate(s, d)
    decreases |s|
  {
    if |s| == 0 || s[0].date <= x.date {
      OfDateCons(x, s, d);
    } else {
      var t := InsertByDate(x, s[1..]);
      assert InsertByDate(x, s) == [s[0]] + t;
      OfDateCons(s[0], t, d);
      InsertByDateOfDate(x, s[1..], d);
      if x.date == d {
        assert s[0].date != d;
      }
      assert s == [s[0]] + s[1..];
      OfDateCons(s[0], s[1..], d);
    }
  }

  /** Stability: among entries of one date the sorted view keeps the order of
      the underlying list, so ties are broken by insertion order. */
  lemma {:induction false} SortIsStable(s: seq<Entry>, d: int)
    ensures OfDate(SortByDateDesc(s), d) == OfDate(s, d)
    decreases |s|
  {
    if |s| > 0 {
      SortIsStable(s[1..], d);
      InsertByDateOfDate(s[0], SortByDateDesc(s[1..]), d);
    }
  }

}
