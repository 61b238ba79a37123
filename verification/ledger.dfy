/**
 The table behind the form: a sequence of (date text, total distance) rows,
 kept latest date first. Upsert adds a distance to the row of an existing date
 or appends a new row and then sorts; Delete filters rows out by date text.
 */
module Ledger {
  import opened Dates
  import opened DateText
  import opened Validator

  /** One row: the date text as typed ("DD.MM.YYYY") and the distance summed for it. */
  datatype Step = Step(date: string, distance: real)

  /** The (day, month, year) the sort compares; on the texts a table holds it is Fields (FieldsAtIsFields). */
  function Key(s: Step): Date {
    FieldsAt(s.date)
  }

  /** Latest date first, equal dates allowed. */
  predicate Descending(s: seq<Step>) {
    forall i, j :: 0 <= i < j < |s| ==> !Before(Key(s[i]), Key(s[j]))
  }

  /** Latest date first, no two rows on the same date. */
  predicate StrictlyDescending(s: seq<Step>) {
    forall i, j :: 0 <= i < j < |s| ==> Before(Key(s[j]), Key(s[i]))
  }

  predicate UniqueDates(s: seq<Step>) {
    forall i, j :: 0 <= i < j < |s| ==> s[i].date != s[j].date
  }

  /** What every table the component can show satisfies: accepted date texts, strictly latest first. */
  predicate ValidLedger(s: seq<Step>) {
    && (forall i :: 0 <= i < |s| ==> IsAcceptedDate(s[i].date))
    && StrictlyDescending(s)
  }

  /** `prev.find(step => step.date === date)` finds something. */
  predicate HasDate(s: seq<Step>, date: string) {
    exists i :: 0 <= i < |s| && s[i].date == date
  }

  lemma StrictIsDescending(s: seq<Step>)
    requires StrictlyDescending(s)
    ensures Descending(s)
  {
    forall i, j | 0 <= i < j < |s|
      ensures !Before(Key(s[i]), Key(s[j]))
    {
      BeforeIsStrictTotalOrder(Key(s[j]), Key(s[i]), Key(s[i]));
    }
  }

  lemma TailStrictlyDescending(s: seq<Step>)
    requires 0 < |s| && StrictlyDescending(s)
    ensures StrictlyDescending(s[1..])
  {
    forall i, j | 0 <= i < j < |s| - 1
      ensures Before(Key(s[1..][j]), Key(s[1..][i]))
    {
      assert s[1..][i] == s[i + 1] && s[1..][j] == s[j + 1];
    }
  }

  /** Rows of a valid table never share a date text. */
  lemma ValidLedgerHasUniqueDates(s: seq<Step>)
    requires ValidLedger(s)
    ensures UniqueDates(s)
  {
    forall i, j | 0 <= i < j < |s|
      ensures s[i].date != s[j].date
    {
      BeforeIsStrictTotalOrder(Key(s[j]), Key(s[i]), Key(s[i]));
    }
  }

  // ---------------------------------------------------------------------------
  // The comparator

  /**
   The sort comparator `new Date(y2, m2 - 1, d2).getTime() - new Date(y1, m1 - 1, d1).getTime()`,
   counted in days rather than milliseconds: negative when a is the later date.
   */
  function Compare(a: Step, b: Step): (r: int)
    requires IsAcceptedDate(a.date) && IsAcceptedDate(b.date)
    ensures a.date == b.date ==> r == 0
  {
    IsValidDateIff(a.date);
    IsValidDateIff(b.date);
    var f1 := Fields(a.date);
    var f2 := Fields(b.date);
    DayNumber(NewDate(f2.year, f2.month - 1, f2.day)) - DayNumber(NewDate(f1.year, f1.month - 1, f1.day))
  }

  /** On accepted dates the comparator agrees with the lexicographic order on (year, month, day). */
  lemma CompareMatchesKeyOrder(a: Step, b: Step)
    requires IsAcceptedDate(a.date) && IsAcceptedDate(b.date)
    ensures Compare(a, b) < 0 <==> Before(Key(b), Key(a))
    ensures Compare(a, b) == 0 <==> a.date == b.date
  {
    IsValidDateIff(a.date);
    IsValidDateIff(b.date);
    var f1 := Fields(a.date);
    var f2 := Fields(b.date);
    NewDateRoundTrip(f1);
    NewDateRoundTrip(f2);
    FieldsAtIsFields(a.date);
    FieldsAtIsFields(b.date);
    DayNumberOrder(f2, f1);
    SameTextIffSameFields(a.date, b.date);
  }

  /** A valid table is in the order the comparator asks for: every earlier row compares below every later one. */
  lemma ValidLedgerSortedByCompare(s: seq<Step>)
    requires ValidLedger(s)
    ensures forall i, j :: 0 <= i < j < |s| ==> Compare(s[i], s[j]) < 0
  {
    forall i, j | 0 <= i < j < |s|
      ensures Compare(s[i], s[j]) < 0
    {
      CompareMatchesKeyOrder(s[i], s[j]);
    }
  }

  // ---------------------------------------------------------------------------
  // Sorting

  /** Puts x in front of the first row that is not later than it. */
  function Insert(x: Step, s: seq<Step>): (r: seq<Step>)
    ensures |r| == |s| + 1
    ensures multiset(r) == multiset(s) + multiset{x}
    ensures r[0] == x || (0 < |s| && r[0] == s[0])
  {
    if |s| == 0 || !Before(Key(x), Key(s[0])) then [x] + s
    else
      assert s == [s[0]] + s[1..];
      [s[0]] + Insert(x, s[1..])
  }

  lemma {:induction false} InsertKeepsDescending(x: Step, s: seq<Step>)
    requires Descending(s)
    ensures Descending(Insert(x, s))
  {
    var r := Insert(x, s);
    if |s| == 0 || !Before(Key(x), Key(s[0])) {
      forall i, j | 0 <= i < j < |r|
        ensures !Before(Key(r[i]), Key(r[j]))
      {
        if i == 0 {
          BeforeIsStrictTotalOrder(Key(x), Key(s[0]), Key(s[j - 1]));
          BeforeIsStrictTotalOrder(Key(s[0]), Key(s[j - 1]), Key(x));
        }
      }
    } else {
      var t := Insert(x, s[1..]);
      InsertKeepsDescending(x, s[1..]);
      forall i, j | 0 <= i < j < |r|
        ensures !Before(Key(r[i]), Key(r[j]))
      {
        if i == 0 {
          var e := t[j - 1];
          assert e in multiset(s[1..]) + multiset{x} by {
            assert e in multiset(t);
          }
          if e == x {
            BeforeIsStrictTotalOrder(Key(x), Key(s[0]), Key(s[0]));
          } else {
            assert e in s[1..];
            var k :| 0 <= k < |s[1..]| && s[1..][k] == e;
            assert s[k + 1] == e;
          }
        }
      }
    }
  }

  lemma {:induction false} InsertKeepsStrictlyDescending(x: Step, s: seq<Step>)
    requires StrictlyDescending(s)
    requires forall i :: 0 <= i < |s| ==> Key(s[i]) != Key(x)
    ensures StrictlyDescending(Insert(x, s))
  {
    var r := Insert(x, s);
    if |s| == 0 || !Before(Key(x), Key(s[0])) {
      forall i, j | 0 <= i < j < |r|
        ensures Before(Key(r[j]), Key(r[i]))
      {
        if i == 0 {
          BeforeIsStrictTotalOrder(Key(s[j - 1]), Key(s[0]), Key(x));
          BeforeIsStrictTotalOrder(Key(s[0]), Key(x), Key(x));
        }
      }
    } else {
      var t := Insert(x, s[1..]);
      InsertKeepsStrictlyDescending(x, s[1..]);
      forall i, j | 0 <= i < j < |r|
        ensures Before(Key(r[j]), Key(r[i]))
      {
        if i == 0 {
          var e := t[j - 1];
          assert e in multiset(s[1..]) + multiset{x} by {
            assert e in multiset(t);
          }
          if e != x {
            assert e in s[1..];
            var k :| 0 <= k < |s[1..]| && s[1..][k] == e;
            assert s[k + 1] == e;
          }
        }
      }
    }
  }

  /** Insert keeps the rows it is given in their order and puts x among them. */
  lemma {:induction false} InsertSplits(x: Step, s: seq<Step>)
    ensures exists k :: 0 <= k <= |s| && Insert(x, s) == s[..k] + [x] + s[k..]
  {
    if |s| == 0 || !Before(Key(x), Key(s[0])) {
      assert Insert(x, s) == s[..0] + [x] + s[0..];
    } else {
      InsertSplits(x, s[1..]);
      var k :| 0 <= k <= |s[1..]| && Insert(x, s[1..]) == s[1..][..k] + [x] + s[1..][k..];
      assert Insert(x, s) == s[..k + 1] + [x] + s[k + 1..];
    }
  }

  /** Array.prototype.sort with the date comparator, as an insertion sort: latest date first. */
  function SortByDate(s: seq<Step>): (r: seq<Step>)
    ensures multiset(r) == multiset(s)
    ensures Descending(r)
  {
    if |s| == 0 then []
    else
      var rest := SortByDate(s[1..]);
      InsertKeepsDescending(s[0], rest);
      assert s == [s[0]] + s[1..];
      Insert(s[0], rest)
  }

  /** Sorting a table that is already in order changes nothing. */
  lemma {:induction false} SortSortedIsIdentity(s: seq<Step>)
    requires Descending(s)
    ensures SortByDate(s) == s
  {
    if |s| > 0 {
      SortSortedIsIdentity(s[1..]);
      assert [s[0]] + s[1..] == s;
    }
  }

  lemma InsertSwap(s: seq<Step>, x: Step)
    requires 0 < |s| && Descending(s)
    requires Key(x) != Key(s[0])
    ensures Insert(s[0], Insert(x, s[1..])) == Insert(x, s)
  {
    var a, t := s[0], s[1..];
    BeforeIsStrictTotalOrder(Key(a), Key(x), Key(x));
    if Before(Key(a), Key(x)) {
      if |t| > 0 {
        BeforeIsStrictTotalOrder(Key(t[0]), Key(a), Key(x));
        BeforeIsStrictTotalOrder(Key(x), Key(t[0]), Key(a));
        assert !Before(Key(a), Key(t[0]));
        assert Insert(x, t) == [x] + t;
      }
      assert Insert(a, t) == [a] + t;
      assert Insert(a, [x] + t) == [x] + Insert(a, t);
      assert [a] + t == s;
    } else {
      var u := Insert(x, t);
      if u[0] == x {
        BeforeIsStrictTotalOrder(Key(x), Key(a), Key(a));
      } else {
        assert !Before(Key(a), Key(t[0]));
      }
      assert Insert(a, u) == [a] + u;
    }
  }

  /** Sorting an ordered table with one new date appended is inserting that row into it. */
  lemma {:induction false} SortAppended(s: seq<Step>, x: Step)
    requires Descending(s)
    requires forall i :: 0 <= i < |s| ==> Key(s[i]) != Key(x)
    ensures SortByDate(s + [x]) == Insert(x, s)
  {
    if |s| == 0 {
      assert s + [x] == [x];
    } else {
      var sx := s + [x];
      assert sx[0] == s[0] && sx[1..] == s[1..] + [x];
      SortAppended(s[1..], x);
      InsertSwap(s, x);
    }
  }

  /** Of two tables in strict date order that share their first rows' dates, the first rows agree. */
  lemma SameLatestRow(a: seq<Step>, b: seq<Step>)
    requires StrictlyDescending(a) && StrictlyDescending(b)
    requires 0 < |a| && 0 < |b| && a[0] in b && b[0] in a
    ensures a[0] == b[0]
  {
    var k :| 0 <= k < |b| && b[k] == a[0];
    var m :| 0 <= m < |a| && a[m] == b[0];
    if k != 0 && m != 0 {
      assert Before(Key(a[0]), Key(b[0]));
      BeforeIsStrictTotalOrder(Key(a[0]), Key(b[0]), Key(b[0]));
      assert false;
    }
  }

  /** Two tables in strict date order holding the same rows are the same table. */
  lemma {:induction false} SortedPermutationUnique(a: seq<Step>, b: seq<Step>)
    requires StrictlyDescending(a) && StrictlyDescending(b)
    requires multiset(a) == multiset(b)
    ensures a == b
  {
    assert |a| == |multiset(a)| == |multiset(b)| == |b|;
    if |a| > 0 {
      assert a[0] in b by {
        assert a[0] in multiset(a);
      }
      assert b[0] in a by {
        assert b[0] in multiset(b);
      }
      SameLatestRow(a, b);
      assert multiset(a) == multiset{a[0]} + multiset(a[1..]) by {
        assert a == [a[0]] + a[1..];
      }
      assert multiset(b) == multiset{b[0]} + multiset(b[1..]) by {
        assert b == [b[0]] + b[1..];
      }
      assert multiset(a[1..]) == multiset(a) - multiset{a[0]};
      assert multiset(b[1..]) == multiset(b) - multiset{b[0]};
      TailStrictlyDescending(a);
      TailStrictlyDescending(b);
      SortedPermutationUnique(a[1..], b[1..]);
    }
  }

  // ---------------------------------------------------------------------------
  // Upsert and delete

  /** The map of the existing-date branch: the new distance added to every row of that date. */
  function AddDistance(s: seq<Step>, date: string, distance: real): (r: seq<Step>)
    ensures |r| == |s|
    ensures forall i :: 0 <= i < |s| ==> r[i].date == s[i].date
  {
    seq(|s|, i requires 0 <= i < |s| =>
      if s[i].date == date then s[i].(distance := s[i].distance + distance) else s[i])
  }

  /** Adding to distances moves no row: a valid table stays valid. */
  lemma AddDistanceKeepsOrder(s: seq<Step>, date: string, distance: real)
    requires ValidLedger(s)
    ensures ValidLedger(AddDistance(s, date, distance))
  {
    var m := AddDistance(s, date, distance);
    forall i, j | 0 <= i < j < |m|
      ensures Before(Key(m[j]), Key(m[i]))
    {
      assert Key(m[i]) == Key(s[i]) && Key(m[j]) == Key(s[j]);
    }
  }

  /** What submitting (date, distance) does to the table once both have been checked. */
  function Upsert(s: seq<Step>, date: string, distance: real): (r: seq<Step>)
    ensures |r| == if HasDate(s, date) then |s| else |s| + 1
    ensures HasDate(r, date)
  {
    if HasDate(s, date) then
      var m := AddDistance(s, date, distance);
      var i :| 0 <= i < |s| && s[i].date == date;
      var r := SortByDate(m);
      assert m[i] in multiset(r);
      r
    else
      var x := Step(date, distance);
      var r := SortByDate(s + [x]);
      assert x in multiset(r);
      r
  }

  /** A date already in the table: same rows in the same places, that row's distance grows by the new one. */
  lemma UpsertExisting(s: seq<Step>, date: string, distance: real, i: int)
    requires ValidLedger(s)
    requires 0 <= i < |s| && s[i].date == date
    ensures |Upsert(s, date, distance)| == |s|
    ensures Upsert(s, date, distance)[i] == Step(date, s[i].distance + distance)
    ensures forall j :: 0 <= j < |s| && j != i ==> Upsert(s, date, distance)[j] == s[j]
    ensures ValidLedger(Upsert(s, date, distance))
  {
    ValidLedgerHasUniqueDates(s);
    var m := AddDistance(s, date, distance);
    AddDistanceKeepsOrder(s, date, distance);
    StrictIsDescending(m);
    SortSortedIsIdentity(m);
    assert HasDate(s, date);
    assert Upsert(s, date, distance) == m;
  }

  /** A new date: one more row, the new row plus all the old ones, in order. */
  lemma UpsertNew(s: seq<Step>, date: string, distance: real)
    requires ValidLedger(s)
    requires IsAcceptedDate(date) && !HasDate(s, date)
    ensures |Upsert(s, date, distance)| == |s| + 1
    ensures multiset(Upsert(s, date, distance)) == multiset(s) + multiset{Step(date, distance)}
    ensures exists k :: 0 <= k <= |s| && Upsert(s, date, distance) == s[..k] + [Step(date, distance)] + s[k..]
    ensures ValidLedger(Upsert(s, date, distance))
  {
    var x := Step(date, distance);
    forall i | 0 <= i < |s|
      ensures Key(s[i]) != Key(x)
    {
      SameTextIffSameFields(s[i].date, date);
      FieldsAtIsFields(s[i].date);
      FieldsAtIsFields(date);
    }
    StrictIsDescending(s);
    SortAppended(s, x);
    InsertKeepsStrictlyDescending(x, s);
    InsertSplits(x, s);
    var r := Insert(x, s);
    forall i | 0 <= i < |r|
      ensures IsAcceptedDate(r[i].date)
    {
      assert r[i] in multiset(s) + multiset{x} by {
        assert r[i] in multiset(r);
      }
    }
  }

  /** Upsert of an accepted date keeps the table valid and leaves exactly one row for that date. */
  lemma UpsertKeepsValid(s: seq<Step>, date: string, distance: real)
    requires ValidLedger(s) && IsAcceptedDate(date)
    ensures ValidLedger(Upsert(s, date, distance))
    ensures HasDate(Upsert(s, date, distance), date)
  {
    if HasDate(s, date) {
      var i :| 0 <= i < |s| && s[i].date == date;
      UpsertExisting(s, date, distance, i);
      assert Upsert(s, date, distance)[i].date == date;
    } else {
      UpsertNew(s, date, distance);
      var k :| 0 <= k <= |s| && Upsert(s, date, distance) == s[..k] + [Step(date, distance)] + s[k..];
      assert Upsert(s, date, distance)[k].date == date;
    }
  }

  /** `prev.filter(step => step.date !== date)`. */
  function Delete(s: seq<Step>, date: string): (r: seq<Step>)
    ensures |r| <= |s|
    ensures forall x :: x in r <==> x in s && x.date != date
  {
    if |s| == 0 then []
    else
      assert s == [s[0]] + s[1..];
      (if s[0].date == date then [] else [s[0]]) + Delete(s[1..], date)
  }

  /** Delete works row by row: it keeps the relative order of what it keeps. */
  lemma {:induction false} DeleteAppend(a: seq<Step>, b: seq<Step>, date: string)
    ensures Delete(a + b, date) == Delete(a, date) + Delete(b, date)
  {
    if |a| == 0 {
      assert a + b == b;
    } else {
      assert (a + b)[0] == a[0] && (a + b)[1..] == a[1..] + b;
      DeleteAppend(a[1..], b, date);
    }
  }

  /** Deleting a date that is not in the table changes nothing. */
  lemma {:induction false} DeleteAbsent(s: seq<Step>, date: string)
    requires !HasDate(s, date)
    ensures Delete(s, date) == s
  {
    if |s| > 0 {
      DeleteAbsent(s[1..], date);
      assert [s[0]] + s[1..] == s;
    }
  }

  lemma DeleteIdempotent(s: seq<Step>, date: string)
    ensures Delete(Delete(s, date), date) == Delete(s, date)
  {
    DeleteAbsent(Delete(s, date), date);
  }

  /** With unique dates, no row but row i carries row i's date. */
  lemma OnlyRowWithDate(s: seq<Step>, i: int)
    requires UniqueDates(s) && 0 <= i < |s|
    ensures !HasDate(s[..i], s[i].date) && !HasDate(s[i + 1..], s[i].date)
  {
    forall k | 0 <= k < i
      ensures s[..i][k].date != s[i].date
    {
      assert s[..i][k] == s[k];
    }
    var u := s[i + 1..];
    forall k | 0 <= k < |u|
      ensures u[k].date != s[i].date
    {
      assert u[k] == s[i + 1 + k];
    }
  }

  /** Deleting the date of one row between two stretches without that date leaves the two stretches. */
  lemma DeleteOneRow(t: seq<Step>, x: Step, u: seq<Step>)
    requires !HasDate(t, x.date) && !HasDate(u, x.date)
    ensures Delete(t + [x] + u, x.date) == t + u
  {
    DeleteAppend(t + [x], u, x.date);
    DeleteAppend(t, [x], x.date);
    DeleteAbsent(t, x.date);
    DeleteAbsent(u, x.date);
    assert Delete([x], x.date) == [];
    assert t + [] == t;
  }

  /** With unique dates (as in every valid table), deleting the date of row i removes that row and nothing else. */
  lemma DeletePresent(s: seq<Step>, date: string, i: int)
    requires UniqueDates(s)
    requires 0 <= i < |s| && s[i].date == date
    ensures Delete(s, date) == s[..i] + s[i + 1..]
  {
    OnlyRowWithDate(s, i);
    assert s == s[..i] + [s[i]] + s[i + 1..];
    DeleteOneRow(s[..i], s[i], s[i + 1..]);
  }

  lemma {:induction false} DeleteKeepsStrictlyDescending(s: seq<Step>, date: string)
    requires StrictlyDescending(s)
    ensures StrictlyDescending(Delete(s, date))
  {
    if |s| > 0 {
      var t := s[1..];
      TailStrictlyDescending(s);
      DeleteKeepsStrictlyDescending(t, date);
      var r := Delete(s, date);
      var dt := Delete(t, date);
      if s[0].date != date {
        assert r == [s[0]] + dt;
        forall j | 0 < j < |r|
          ensures Before(Key(r[j]), Key(s[0]))
        {
          assert r[j] == dt[j - 1];
          assert dt[j - 1] in t;
          var k :| 0 <= k < |t| && t[k] == dt[j - 1];
          assert s[k + 1] == r[j];
        }
      }
    }
  }

  /** Deleting keeps a valid table valid. */
  lemma DeleteKeepsValid(s: seq<Step>, date: string)
    requires ValidLedger(s)
    ensures ValidLedger(Delete(s, date))
  {
    DeleteKeepsStrictlyDescending(s, date);
    var r := Delete(s, date);
    forall i | 0 <= i < |r|
      ensures IsAcceptedDate(r[i].date)
    {
      assert r[i] in s;
    }
  }

  // ---------------------------------------------------------------------------
  // The table as per-date totals

  /** The distance the table records for a date text: the sum over its rows with that date. */
  function Total(s: seq<Step>, date: string): real {
    if |s| == 0 then 0.0
    else (if s[0].date == date then s[0].distance else 0.0) + Total(s[1..], date)
  }

  lemma {:induction false} TotalAppend(a: seq<Step>, b: seq<Step>, date: string)
    ensures Total(a + b, date) == Total(a, date) + Total(b, date)
  {
    if |a| > 0 {
      assert (a + b)[0] == a[0] && (a + b)[1..] == a[1..] + b;
      TotalAppend(a[1..], b, date);
    } else {
      assert a + b == b;
    }
  }

  /** Total of a table with row i picked out. */
  lemma TotalAround(s: seq<Step>, i: int, date: string)
    requires 0 <= i < |s|
    ensures Total(s, date) == Total(s[..i], date) + Total([s[i]], date) + Total(s[i + 1..], date)
  {
    assert s == s[..i] + [s[i]] + s[i + 1..];
    TotalAppend(s[..i] + [s[i]], s[i + 1..], date);
    TotalAppend(s[..i], [s[i]], date);
  }

  /** Replacing row i changes the total by the difference of the two rows. */
  lemma ReplaceRowTotal(s: seq<Step>, r: seq<Step>, i: int, date: string)
    requires |r| == |s| && 0 <= i < |s|
    requires forall j :: 0 <= j < |s| && j != i ==> r[j] == s[j]
    ensures Total(r, date) == Total(s, date) - Total([s[i]], date) + Total([r[i]], date)
  {
    assert r[..i] == s[..i] && r[i + 1..] == s[i + 1..];
    TotalAround(s, i, date);
    TotalAround(r, i, date);
  }

  /** Inserting a row adds that row's contribution to the total. */
  lemma InsertRowTotal(s: seq<Step>, k: int, x: Step, date: string)
    requires 0 <= k <= |s|
    ensures Total(s[..k] + [x] + s[k..], date) == Total(s, date) + Total([x], date)
  {
    TotalAppend(s[..k] + [x], s[k..], date);
    TotalAppend(s[..k], [x], date);
    TotalAppend(s[..k], s[k..], date);
    assert s[..k] + s[k..] == s;
  }

  lemma UpsertExistingTotal(s: seq<Step>, date: string, distance: real, i: int, d: string)
    requires ValidLedger(s)
    requires 0 <= i < |s| && s[i].date == date
    ensures Total(Upsert(s, date, distance), d) == Total(s, d) + (if d == date then distance else 0.0)
  {
    var r := Upsert(s, date, distance);
    UpsertExisting(s, date, distance, i);
    ReplaceRowTotal(s, r, i, d);
    assert Total([s[i]], d) == if d == date then s[i].distance else 0.0;
    assert Total([r[i]], d) == if d == date then s[i].distance + distance else 0.0;
  }

  lemma UpsertNewTotal(s: seq<Step>, date: string, distance: real, d: string)
    requires ValidLedger(s)
    requires IsAcceptedDate(date) && !HasDate(s, date)
    ensures Total(Upsert(s, date, distance), d) == Total(s, d) + (if d == date then distance else 0.0)
  {
    var r := Upsert(s, date, distance);
    var x := Step(date, distance);
    UpsertNew(s, date, distance);
    var k :| 0 <= k <= |s| && r == s[..k] + [x] + s[k..];
    InsertRowTotal(s, k, x, d);
    assert Total([x], d) == if d == date then distance else 0.0;
  }

  /** Upsert adds the new distance to the total of its date and leaves every other date's total alone. */
  lemma UpsertAddsToTotal(s: seq<Step>, date: string, distance: real, d: string)
    requires ValidLedger(s) && IsAcceptedDate(date)
    ensures Total(Upsert(s, date, distance), d) == Total(s, d) + (if d == date then distance else 0.0)
  {
    if HasDate(s, date) {
      var i :| 0 <= i < |s| && s[i].date == date;
      UpsertExistingTotal(s, date, distance, i, d);
    } else {
      UpsertNewTotal(s, date, distance, d);
    }
  }

  /** Upserting the same date twice leaves one row for it, holding the sum of what was there and both distances. */
  lemma UpsertAccumulates(s: seq<Step>, date: string, d1: real, d2: real)
    requires ValidLedger(s) && IsAcceptedDate(date)
    ensures HasDate(Upsert(Upsert(s, date, d1), date, d2), date)
    ensures UniqueDates(Upsert(Upsert(s, date, d1), date, d2))
    ensures Total(Upsert(Upsert(s, date, d1), date, d2), date) == Total(s, date) + d1 + d2
  {
    var r1 := Upsert(s, date, d1);
    UpsertKeepsValid(s, date, d1);
    UpsertAddsToTotal(s, date, d1, date);
    var r2 := Upsert(r1, date, d2);
    UpsertKeepsValid(r1, date, d2);
    UpsertAddsToTotal(r1, date, d2, date);
    ValidLedgerHasUniqueDates(r2);
  }

  /** A date with no row has total 0. */
  lemma {:induction false} TotalAbsent(s: seq<Step>, date: string)
    requires !HasDate(s, date)
    ensures Total(s, date) == 0.0
  {
    if |s| > 0 {
      assert !HasDate(s[1..], date) by {
        forall k | 0 <= k < |s[1..]|
          ensures s[1..][k].date != date
        {
          assert s[1..][k] == s[k + 1];
        }
      }
      TotalAbsent(s[1..], date);
    }
  }

  /** Delete zeroes the total of its date and leaves every other date's total alone. */
  lemma {:induction false} DeleteClearsTotal(s: seq<Step>, date: string, d: string)
    ensures Total(Delete(s, date), d) == if d == date then 0.0 else Total(s, d)
  {
    if |s| > 0 {
      DeleteClearsTotal(s[1..], date, d);
      var head := if s[0].date == date then [] else [s[0]];
      TotalAppend(head, Delete(s[1..], date), d);
    }
  }
}
