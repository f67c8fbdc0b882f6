/** The daily totals behind the bank charges: the sales grouped by their
    "MM/DD/YYYY" date key, the groups in ascending order of the key as
    text, each with the sum of its amounts; and from them the 2% charge of
    every day whose rounded charge is not zero. Sums are exact: the model
    does not reproduce the rounding of binary floating point. */
module Totals {
  import opened Text
  import opened Amounts
  import opened Sales

  predicate StrictlySorted(keys: seq<string>) {
    forall i, j :: 0 <= i < j < |keys| ==> StrLess(keys[i], keys[j])
  }

  /** `k` put into its place among sorted keys, unless it is there already. */
  function Insert(keys: seq<string>, k: string): (r: seq<string>)
    requires StrictlySorted(keys)
    ensures StrictlySorted(r)
    ensures forall x :: x in r <==> x in keys || x == k
  {
    if keys == [] then [k]
    else if k == keys[0] then keys
    else if StrLess(k, keys[0]) then
      assert forall j :: 0 <= j < |keys| ==> StrLess(k, keys[j]) by {
        forall j | 0 <= j < |keys| ensures StrLess(k, keys[j]) {
          if j > 0 { StrLessTransitive(k, keys[0], keys[j]); }
        }
      }
      [k] + keys
    else
      StrLessTotal(k, keys[0]);
      var rest := Insert(keys[1..], k);
      assert forall x :: x in rest ==> StrLess(keys[0], x) by {
        forall x | x in rest ensures StrLess(keys[0], x) {
          if x != k {
            var j :| 0 <= j < |keys[1..]| && keys[1..][j] == x;
            assert keys[j + 1] == x;
          }
        }
      }
      assert keys == [keys[0]] + keys[1..];
      [keys[0]] + rest
  }

  /** The keys of grouping the sales by date: each sale date once, in
      ascending order as text. */
  function DayKeys(sales: seq<Sale>): (r: seq<string>)
    ensures StrictlySorted(r)
    ensures forall d :: d in r <==> exists s :: s in sales && s.date == d
  {
    if sales == [] then []
    else
      var init, last := sales[..|sales| - 1], sales[|sales| - 1];
      assert sales == init + [last];
      Insert(DayKeys(init), last.date)
  }

  /** The sum of the amounts of the sales dated `d`. */
  function DayTotal(sales: seq<Sale>, d: string): real
  {
    if sales == [] then 0.0
    else
      var init, last := sales[..|sales| - 1], sales[|sales| - 1];
      DayTotal(init, d) + (if last.date == d then Value(last.amount) else 0.0)
  }

  /** The sum of all the amounts. */
  function SalesTotal(sales: seq<Sale>): real
  {
    if sales == [] then 0.0
    else SalesTotal(sales[..|sales| - 1]) + Value(sales[|sales| - 1].amount)
  }

  /** The amounts summed per date: one (date, total) pair per
      sale date, in key order. */
  function DailyTotals(sales: seq<Sale>): (r: seq<(string, real)>)
    ensures |r| == |DayKeys(sales)|
    ensures forall i :: 0 <= i < |r| ==> r[i] == (DayKeys(sales)[i], DayTotal(sales, DayKeys(sales)[i]))
  {
    TotalsFor(DayKeys(sales), sales)
  }

  function TotalsFor(keys: seq<string>, sales: seq<Sale>): (r: seq<(string, real)>)
    ensures |r| == |keys|
    ensures forall i :: 0 <= i < |r| ==> r[i] == (keys[i], DayTotal(sales, keys[i]))
  {
    if keys == [] then [] else [(keys[0], DayTotal(sales, keys[0]))] + TotalsFor(keys[1..], sales)
  }

  // ---------------------------------------------------------------------
  // Every amount is in exactly one day's total

  /** A date with no sale has a total of zero. */
  lemma {:induction false} DayTotalAbsent(sales: seq<Sale>, d: string)
    requires forall s :: s in sales ==> s.date != d
    ensures DayTotal(sales, d) == 0.0
  {
    if sales != [] {
      DayTotalAbsent(sales[..|sales| - 1], d);
    }
  }

  /** The sum of the day totals of `keys`. */
  function SumOfDays(keys: seq<string>, sales: seq<Sale>): real
  {
    if keys == [] then 0.0 else DayTotal(sales, keys[0]) + SumOfDays(keys[1..], sales)
  }

  /** One more sale adds its amount to the day of its date, if that day is
      among the keys. */
  lemma {:induction false} SumOfDaysSnoc(keys: seq<string>, sales: seq<Sale>, x: Sale)
    requires StrictlySorted(keys)
    ensures SumOfDays(keys, sales + [x])
            == SumOfDays(keys, sales) + (if x.date in keys then Value(x.amount) else 0.0)
  {
    if keys != [] {
      SortedTail(keys);
      SumOfDaysSnoc(keys[1..], sales, x);
      assert (sales + [x])[..|sales + [x]| - 1] == sales;
      assert keys == [keys[0]] + keys[1..];
      if keys[0] == x.date {
        HeadNotInTail(keys);
      }
    }
  }

  /** Strictly sorted keys do not repeat their first key. */
  lemma HeadNotInTail(keys: seq<string>)
    requires StrictlySorted(keys) && keys != []
    ensures keys[0] !in keys[1..]
  {
    forall x | x in keys[1..] ensures x != keys[0] {
      var j :| 0 <= j < |keys[1..]| && keys[1..][j] == x;
      assert StrLess(keys[0], keys[j + 1]);
      StrLessIrreflexive(keys[0]);
    }
  }

  lemma SortedTail(keys: seq<string>)
    requires StrictlySorted(keys) && keys != []
    ensures StrictlySorted(keys[1..])
  {
    forall i, j | 0 <= i < j < |keys[1..]| ensures StrLess(keys[1..][i], keys[1..][j]) {
      assert keys[1..][i] == keys[i + 1] && keys[1..][j] == keys[j + 1];
    }
  }

  /** Adding a key that is new adds its day's total; a key already there adds nothing. */
  lemma {:induction false} SumOfDaysInsert(keys: seq<string>, k: string, sales: seq<Sale>)
    requires StrictlySorted(keys)
    ensures SumOfDays(Insert(keys, k), sales)
            == SumOfDays(keys, sales) + (if k in keys then 0.0 else DayTotal(sales, k))
  {
    if keys == [] {
      assert Insert(keys, k) == [k];
    } else if k == keys[0] {
    } else if StrLess(k, keys[0]) {
      assert Insert(keys, k) == [k] + keys;
      assert ([k] + keys)[1..] == keys;
      forall j | 0 <= j < |keys| ensures keys[j] != k {
        if j > 0 { StrLessTransitive(k, keys[0], keys[j]); }
        StrLessIrreflexive(k);
      }
    } else {
      SortedTail(keys);
      var rest := Insert(keys[1..], k);
      assert Insert(keys, k) == [keys[0]] + rest;
      assert ([keys[0]] + rest)[1..] == rest;
      SumOfDaysInsert(keys[1..], k, sales);
      assert k in keys <==> k in keys[1..] by {
        assert keys == [keys[0]] + keys[1..];
      }
    }
  }

  /** The day totals add up to the total of all sales: grouping by date
      neither loses nor repeats an amount. */
  lemma {:induction false} DailyTotalsSum(sales: seq<Sale>)
    ensures SumOfDays(DayKeys(sales), sales) == SalesTotal(sales)
  {
    if sales != [] {
      var init, last := sales[..|sales| - 1], sales[|sales| - 1];
      assert sales == init + [last];
      var keys := DayKeys(init);
      DailyTotalsSum(init);
      SumOfDaysInsert(keys, last.date, sales);
      SumOfDaysSnoc(keys, init, last);
      if last.date !in keys {
        DayTotalAbsent(init, last.date);
        assert DayTotal(sales, last.date) == Value(last.amount);
      }
    }
  }

  // ---------------------------------------------------------------------
  // The charges: 2% of each day's total rounded to cents, with the days
  // whose charge is zero skipped

  /** The (date, charge in cents) of every day whose charge is not zero,
      in the order of the totals. */
  function Charges(totals: seq<(string, real)>): (r: seq<(string, int)>)
    ensures |r| <= |totals|
    ensures forall i :: 0 <= i < |r| ==> r[i].1 != 0
  {
    if totals == [] then []
    else
      var init, last := totals[..|totals| - 1], totals[|totals| - 1];
      var c := ChargeCents(last.1);
      Charges(init) + (if c == 0 then [] else [(last.0, c)])
  }

  /** One more day adds its charge, unless the charge rounds to zero. */
  lemma ChargesSnoc(totals: seq<(string, real)>, j: int)
    requires 0 <= j < |totals|
    ensures var c := ChargeCents(totals[j].1);
            Charges(totals[..j + 1]) == Charges(totals[..j]) + (if c == 0 then [] else [(totals[j].0, c)])
  {
    var t := totals[..j + 1];
    assert t[..|t| - 1] == totals[..j];
    assert t[|t| - 1] == totals[j];
  }

  /** Each charge is the rounded 2% of one day's total. */
  lemma {:induction false} ChargesFrom(totals: seq<(string, real)>)
    ensures forall c :: c in Charges(totals) ==> exists t :: t in totals && c == (t.0, ChargeCents(t.1))
  {
    if totals != [] {
      var init, last := totals[..|totals| - 1], totals[|totals| - 1];
      assert totals == init + [last];
      ChargesFrom(init);
    }
  }

  /** Every day whose rounded charge is not zero has its charge. */
  lemma {:induction false} ChargesCover(totals: seq<(string, real)>)
    ensures forall t :: t in totals && ChargeCents(t.1) != 0 ==> (t.0, ChargeCents(t.1)) in Charges(totals)
  {
    if totals != [] {
      var init, last := totals[..|totals| - 1], totals[|totals| - 1];
      assert totals == init + [last];
      ChargesCover(init);
    }
  }

  /** When the days ascend, so do the charges. */
  lemma {:induction false} ChargesAscend(totals: seq<(string, real)>)
    requires forall i, j :: 0 <= i < j < |totals| ==> StrLess(totals[i].0, totals[j].0)
    ensures forall i, j :: 0 <= i < j < |Charges(totals)| ==> StrLess(Charges(totals)[i].0, Charges(totals)[j].0)
  {
    if totals != [] {
      var init, last := totals[..|totals| - 1], totals[|totals| - 1];
      assert totals == init + [last];
      ChargesAscend(init);
      ChargesFrom(init);
      var r := Charges(totals);
      var pre := Charges(init);
      forall i, j | 0 <= i < j < |r| ensures StrLess(r[i].0, r[j].0) {
        if j >= |pre| {
          assert r[i] == pre[i] && r[i] in pre;
          var t :| t in init && r[i] == (t.0, ChargeCents(t.1));
          var m :| 0 <= m < |init| && init[m] == t;
          assert totals[m] == t && r[j].0 == totals[|totals| - 1].0;
        } else {
          assert r[i] == pre[i] && r[j] == pre[j];
        }
      }
    }
  }

  /** The charges of the daily totals, by date: a date has a charge exactly
      when some sale has that date and the day's rounded charge is not
      zero; the charge is that rounded 2%; and the dates ascend. */
  lemma DailyCharges(sales: seq<Sale>)
    ensures forall c :: c in Charges(DailyTotals(sales)) ==>
              (exists s :: s in sales && s.date == c.0)
              && c.1 == ChargeCents(DayTotal(sales, c.0)) && c.1 != 0
    ensures forall s :: s in sales && ChargeCents(DayTotal(sales, s.date)) != 0 ==>
              (s.date, ChargeCents(DayTotal(sales, s.date))) in Charges(DailyTotals(sales))
    ensures forall i, j :: 0 <= i < j < |Charges(DailyTotals(sales))| ==>
              StrLess(Charges(DailyTotals(sales))[i].0, Charges(DailyTotals(sales))[j].0)
  {
    var totals := DailyTotals(sales);
    var keys := DayKeys(sales);
    ChargesFrom(totals);
    ChargesCover(totals);
    ChargesAscend(totals);
    forall c | c in Charges(totals)
      ensures (exists s :: s in sales && s.date == c.0) && c.1 == ChargeCents(DayTotal(sales, c.0))
    {
      var t :| t in totals && c == (t.0, ChargeCents(t.1));
      var m :| 0 <= m < |totals| && totals[m] == t;
      assert keys[m] in keys;
    }
    forall s | s in sales && ChargeCents(DayTotal(sales, s.date)) != 0
      ensures (s.date, ChargeCents(DayTotal(sales, s.date))) in Charges(totals)
    {
      assert s.date in keys;
      var m :| 0 <= m < |keys| && keys[m] == s.date;
      assert totals[m] in totals;
    }
  }
}
