/** The order of the listing page: `list.sort(key=date, reverse=True)`.
    Python compares `str` values code point by code point (a proper prefix
    is smaller), and its sort is stable even with `reverse=True`: records
    with equal dates keep their stored order. */
module Ordering {

  import opened Records

  /** Python's `a < b` on strings. */
  predicate Less(a: string, b: string)
  {
    if a == [] then b != []
    else if b == [] then false
    else a[0] < b[0] || (a[0] == b[0] && Less(a[1..], b[1..]))
  }

  lemma {:induction false} LessIrreflexive(a: string)
    ensures !Less(a, a)
  {
    if a != [] {
      LessIrreflexive(a[1..]);
    }
  }

  lemma {:induction false} LessTransitive(a: string, b: string, c: string)
    requires Less(a, b) && Less(b, c)
    ensures Less(a, c)
  {
    if a != [] && a[0] == b[0] && b[0] == c[0] {
      LessTransitive(a[1..], b[1..], c[1..]);
    }
  }

  /** Strings with a common prefix of length `k` are ordered by their
      characters at position `k`. */
  lemma {:induction false} LessAt(a: string, b: string, k: nat)
    requires k < |a| && k < |b| && a[..k] == b[..k] && a[k] < b[k]
    ensures Less(a, b)
  {
    if k > 0 {
      assert a[0] == a[..k][0] && b[0] == b[..k][0];
      assert a[1..][..k - 1] == a[..k][1..] && b[1..][..k - 1] == b[..k][1..];
      LessAt(a[1..], b[1..], k - 1);
    }
  }

  lemma LessAsymmetric(a: string, b: string)
    requires Less(a, b)
    ensures !Less(b, a)
  {
    if Less(b, a) {
      LessTransitive(a, b, a);
      LessIrreflexive(a);
    }
  }

  /** Any two strings are equal or ordered one way. */
  lemma {:induction false} LessTotal(a: string, b: string)
    ensures a == b || Less(a, b) || Less(b, a)
  {
    if a != [] && b != [] && a[0] == b[0] {
      LessTotal(a[1..], b[1..]);
      if a[1..] == b[1..] {
        assert a == [a[0]] + a[1..] && b == [b[0]] + b[1..];
      }
    }
  }

  /** Non-increasing by date: no record is followed by a later date. */
  ghost predicate SortedDesc(s: seq<Tournament>)
  {
    forall i, j :: 0 <= i < j < |s| ==> !Less(s[i].date, s[j].date)
  }

  /** Puts `x`, which comes after every record of the sorted `s` in the
      input, before the first record with a strictly earlier date, so that
      it follows every record with an equal date. */
  function Insert(x: Tournament, s: seq<Tournament>): seq<Tournament>
  {
    if s == [] then [x]
    else if Less(s[0].date, x.date) then [x] + s
    else [s[0]] + Insert(x, s[1..])
  }

  /** The listing order: a stable sort by date, newest first. */
  function SortByDate(s: seq<Tournament>): seq<Tournament>
  {
    if s == [] then [] else Insert(s[|s| - 1], SortByDate(s[..|s| - 1]))
  }

  /** The records of `s` whose date is `d`, in their order in `s`. */
  function WithDate(s: seq<Tournament>, d: string): seq<Tournament>
  {
    if s == [] then []
    else (if s[0].date == d then [s[0]] else []) + WithDate(s[1..], d)
  }

  lemma {:induction false} InsertPermutation(x: Tournament, s: seq<Tournament>)
    ensures multiset(Insert(x, s)) == multiset(s) + multiset{x}
  {
    if s != [] && !Less(s[0].date, x.date) {
      InsertPermutation(x, s[1..]);
      assert s == [s[0]] + s[1..];
    }
  }

  /** A record not earlier than any record of a sorted sequence can go in
      front of it. */
  lemma ConsSorted(y: Tournament, t: seq<Tournament>)
    requires SortedDesc(t)
    requires forall m :: 0 <= m < |t| ==> !Less(y.date, t[m].date)
    ensures SortedDesc([y] + t)
  {
    var r := [y] + t;
    forall i, j | 0 <= i < j < |r| ensures !Less(r[i].date, r[j].date) {
      assert r[j] == t[j - 1];
      if i > 0 {
        assert r[i] == t[i - 1];
      }
    }
  }

  /** A record later than the first of a sorted sequence can go in
      front of it. */
  lemma PrependSorted(x: Tournament, s: seq<Tournament>)
    requires SortedDesc(s) && s != [] && Less(s[0].date, x.date)
    ensures SortedDesc([x] + s)
  {
    forall m | 0 <= m < |s| ensures !Less(x.date, s[m].date) {
      if Less(x.date, s[m].date) {
        LessTransitive(s[0].date, x.date, s[m].date);
        if m == 0 { LessIrreflexive(s[0].date); }
      }
    }
    ConsSorted(x, s);
  }

  lemma {:induction false} InsertSorted(x: Tournament, s: seq<Tournament>)
    requires SortedDesc(s)
    ensures SortedDesc(Insert(x, s))
  {
    if s == [] {
    } else if Less(s[0].date, x.date) {
      PrependSorted(x, s);
    } else {
      var tl := Insert(x, s[1..]);
      InsertSorted(x, s[1..]);
      InsertPermutation(x, s[1..]);
      forall m | 0 <= m < |tl| ensures !Less(s[0].date, tl[m].date) {
        assert tl[m] in multiset(tl);
        assert tl[m] == x || tl[m] in s[1..];
      }
      ConsSorted(s[0], tl);
    }
  }

  /** The listing holds exactly the stored records. */
  lemma {:induction false} SortPermutation(s: seq<Tournament>)
    ensures multiset(SortByDate(s)) == multiset(s)
  {
    if s != [] {
      SortPermutation(s[..|s| - 1]);
      InsertPermutation(s[|s| - 1], SortByDate(s[..|s| - 1]));
      assert s == s[..|s| - 1] + [s[|s| - 1]];
    }
  }

  /** The listing is newest first. */
  lemma {:induction false} SortSorted(s: seq<Tournament>)
    ensures SortedDesc(SortByDate(s))
  {
    if s != [] {
      SortSorted(s[..|s| - 1]);
      InsertSorted(s[|s| - 1], SortByDate(s[..|s| - 1]));
    }
  }

  /** Two records change places exactly when the second has the later
      date; equal dates keep their stored order. */
  lemma SortTwo(x: Tournament, y: Tournament)
    ensures SortByDate([x, y]) == if Less(x.date, y.date) then [y, x] else [x, y]
  {
    var s := [x, y];
    assert s[..1] == [x] && s[1] == y;
    assert SortByDate([x]) == [x] by {
      assert [x][..0] == [];
    }
    assert SortByDate(s) == Insert(y, [x]);
    assert [x][1..] == [];
    assert Insert(y, []) == [y];
    assert [y] + [x] == [y, x] && [x] + [y] == [x, y];
  }

  lemma {:induction false} WithDateConcat(a: seq<Tournament>, b: seq<Tournament>, d: string)
    ensures WithDate(a + b, d) == WithDate(a, d) + WithDate(b, d)
  {
    if a == [] {
      assert a + b == b;
    } else {
      assert (a + b)[1..] == a[1..] + b;
      WithDateConcat(a[1..], b, d);
    }
  }

  lemma {:induction false} WithDateNone(s: seq<Tournament>, d: string)
    requires forall i :: 0 <= i < |s| ==> s[i].date != d
    ensures WithDate(s, d) == []
  {
    if s != [] {
      WithDateNone(s[1..], d);
    }
  }

  lemma {:induction false} InsertWithDate(x: Tournament, s: seq<Tournament>, d: string)
    requires SortedDesc(s)
    ensures WithDate(Insert(x, s), d) == WithDate(s, d) + (if x.date == d then [x] else [])
  {
    if s == [] {
    } else if Less(s[0].date, x.date) {
      assert ([x] + s)[1..] == s;
      if x.date == d {
        forall i | 0 <= i < |s| ensures s[i].date != d {
          if i == 0 { LessIrreflexive(d); }
        }
        WithDateNone(s, d);
      }
    } else {
      InsertWithDate(x, s[1..], d);
      assert ([s[0]] + Insert(x, s[1..]))[1..] == Insert(x, s[1..]);
    }
  }

  /** Stability: for every date, the records carrying it appear in the
      listing in their stored order, as Python's sort keeps equal keys in
      place even with `reverse=True`. */
  lemma {:induction false} SortStable(s: seq<Tournament>, d: string)
    ensures WithDate(SortByDate(s), d) == WithDate(s, d)
  {
    if s != [] {
      var init, last := s[..|s| - 1], s[|s| - 1];
      SortStable(init, d);
      SortSorted(init);
      InsertWithDate(last, SortByDate(init), d);
      assert s == init + [last];
      WithDateConcat(init, [last], d);
    }
  }

  /** Where the insertion sort's inner loop stops: when the `k` records
      before the gap are not older than `x` and the rest of the sorted `s`
      is strictly older, `Insert` puts `x` at position `k`. */
  lemma {:induction false} InsertAt(x: Tournament, s: seq<Tournament>, k: nat)
    requires SortedDesc(s) && k <= |s|
    requires k > 0 ==> !Less(s[k - 1].date, x.date)
    requires forall m :: k <= m < |s| ==> Less(s[m].date, x.date)
    ensures Insert(x, s) == s[..k] + [x] + s[k..]
  {
    if k == 0 {
      assert s[k..] == s;
    } else {
      if Less(s[0].date, x.date) {
        if k - 1 > 0 {
          LessTotal(s[k - 1].date, x.date);
          if s[k - 1].date != x.date {
            LessTransitive(s[0].date, x.date, s[k - 1].date);
          }
        }
        assert false;
      }
      var tl := s[1..];
      InsertAt(x, tl, k - 1);
      assert s[..k] + [x] + s[k..] == [s[0]] + (tl[..k - 1] + [x] + tl[k - 1..]);
    }
  }

  /** The sort of a one-longer prefix inserts the next record into the
      sort of the prefix. */
  lemma SortByDatePrefix(s: seq<Tournament>, i: nat)
    requires i < |s|
    ensures SortByDate(s[..i + 1]) == Insert(s[i], SortByDate(s[..i]))
  {
    assert s[..i + 1][..i] == s[..i];
  }

  /** The array picture of `InsertAt`: `r` is `s` with the records from
      position `k` on shifted one place right and `x` written into the gap. */
  lemma InsertShifted(x: Tournament, s: seq<Tournament>, k: nat, r: seq<Tournament>)
    requires SortedDesc(s) && k <= |s| && |r| == |s| + 1
    requires k > 0 ==> !Less(s[k - 1].date, x.date)
    requires forall m :: k <= m < |s| ==> Less(s[m].date, x.date)
    requires forall m :: 0 <= m < k ==> r[m] == s[m]
    requires r[k] == x
    requires forall m :: k < m < |r| ==> r[m] == s[m - 1]
    ensures r == Insert(x, s)
  {
    InsertAt(x, s, k);
    var q := s[..k] + [x] + s[k..];
    forall m | 0 <= m < |r| ensures r[m] == q[m] {
      if m < k {
        assert q[m] == s[m];
      } else if m > k {
        assert q[m] == s[m - 1];
      }
    }
  }
}
