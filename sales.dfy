/** The cleaning of the sales report, stage by stage as the script runs it:
    cut the rows at the first blank row, keep the card tills (those whose
    till number contains "MT01"), reformat the date and drop rows whose date
    does not parse, clean and parse the amount and drop rows whose amount is
    not a number, and attach the memo. Each stage is a pure function on the
    sequence of rows; `Admit` says in one place what becomes of a single
    row, and `Convert` is proved to be `Admit` applied row by row. */
module Sales {
  import opened Options
  import opened Text
  import opened Amounts
  import opened Dates

  /** A cell of the sheet: missing (NaN), or the text `str()` gives for it. */
  type Cell = Option<string>

  /** The text of a cell after `astype(str)` or an f-string: NaN shows as "nan". */
  function CellText(c: Cell): (r: string)
    ensures c == Some(r) || (c.None? && r == "nan")
  {
    match c
    case None => "nan"
    case Some(t) => t
  }

  /** The four columns the script keeps: till number, date, bill number, amount. */
  datatype Row = Row(till: Cell, date: Cell, bill: Cell, amount: Cell)

  /** A row whose four cells are all missing; there is only one such row. */
  function IsBlank(row: Row): (b: bool)
    ensures b <==> row == Row(None, None, None, None)
  {
    row.till.None? && row.date.None? && row.bill.None? && row.amount.None?
  }

  /** The results of `f` over `xs` that are present, in order: a stage
      that maps each row and drops the rows that come out missing. */
  function KeepSome<A, B>(f: A -> Option<B>, xs: seq<A>): (r: seq<B>)
    ensures |r| <= |xs|
  {
    if xs == [] then []
    else (match f(xs[0]) case None => [] case Some(y) => [y]) + KeepSome(f, xs[1..])
  }

  /** What such a stage outputs is exactly the present results of `f`. */
  lemma {:induction false} KeepSomeMembers<A, B>(f: A -> Option<B>, xs: seq<A>)
    ensures forall y :: y in KeepSome(f, xs) ==> exists x :: x in xs && f(x) == Some(y)
    ensures forall x :: x in xs && f(x).Some? ==> f(x).value in KeepSome(f, xs)
  {
    if xs != [] {
      KeepSomeMembers(f, xs[1..]);
      var head := match f(xs[0]) case None => [] case Some(y) => [y];
      assert KeepSome(f, xs) == head + KeepSome(f, xs[1..]);
      forall y | y in KeepSome(f, xs)
        ensures exists x :: x in xs && f(x) == Some(y)
      {
        if y in head {
          assert f(xs[0]) == Some(y);
        } else {
          var x :| x in xs[1..] && f(x) == Some(y);
          assert x in xs;
        }
      }
    }
  }

  /** Such a stage works row by row: it keeps the relative order. */
  lemma {:induction false} KeepSomeAppend<A, B>(f: A -> Option<B>, a: seq<A>, b: seq<A>)
    ensures KeepSome(f, a + b) == KeepSome(f, a) + KeepSome(f, b)
  {
    if a == [] {
      assert a + b == b;
    } else {
      assert (a + b)[0] == a[0] && (a + b)[1..] == a[1..] + b;
      KeepSomeAppend(f, a[1..], b);
    }
  }

  // ---------------------------------------------------------------------
  // truncate_at_blank

  /** The position of the first completely blank row, if there is one. */
  function FirstBlank(rows: seq<Row>): (r: Option<nat>)
    ensures r.None? ==> forall i :: 0 <= i < |rows| ==> !IsBlank(rows[i])
    ensures r.Some? ==> r.value < |rows| && IsBlank(rows[r.value])
    ensures r.Some? ==> forall i :: 0 <= i < r.value ==> !IsBlank(rows[i])
  {
    if rows == [] then None
    else if IsBlank(rows[0]) then Some(0)
    else
      match FirstBlank(rows[1..])
      case None => None
      case Some(k) => Some(k + 1)
  }

  /** The rows before the first blank row, or all of them when none is
      blank. The sheet's rows carry the labels 0, 1, 2, ..., so the label
      slice up to "first blank − 1" inclusive is the first `k` rows, and it
      is empty when the very first row is blank. */
  function TruncateAtBlank(rows: seq<Row>): (r: seq<Row>)
    ensures r <= rows
    ensures forall i :: 0 <= i < |r| ==> !IsBlank(r[i])
    ensures |r| < |rows| ==> IsBlank(rows[|r|])
  {
    match FirstBlank(rows)
    case None => rows
    case Some(k) => rows[..k]
  }

  /** Those three properties single out the result: it is the longest
      prefix without a blank row. */
  lemma TruncateAtBlankUnique(rows: seq<Row>, p: seq<Row>)
    requires p <= rows
    requires forall i :: 0 <= i < |p| ==> !IsBlank(p[i])
    requires |p| < |rows| ==> IsBlank(rows[|p|])
    ensures p == TruncateAtBlank(rows)
  {
  }

  /** Truncating twice is truncating once. */
  lemma TruncateAtBlankIdempotent(rows: seq<Row>)
    ensures TruncateAtBlank(TruncateAtBlank(rows)) == TruncateAtBlank(rows)
  {
    var r := TruncateAtBlank(rows);
    TruncateAtBlankUnique(r, r);
  }

  // ---------------------------------------------------------------------
  // Keeping the card tills: rows whose till, read as text, holds "MT01".

  /** A card-till row: its till text contains "MT01" (case-sensitive). */
  function IsCardTill(row: Row): (b: bool)
    ensures b <==> exists i :: OccursAt(CellText(row.till), "MT01", i)
  {
    ContainsIff(CellText(row.till), "MT01");
    Contains(CellText(row.till), "MT01")
  }

  /** The card-till rows, in their original order. */
  function FilterTill(rows: seq<Row>): (r: seq<Row>)
    ensures |r| <= |rows|
    ensures forall x :: x in r <==> x in rows && IsCardTill(x)
  {
    if rows == [] then []
    else (if IsCardTill(rows[0]) then [rows[0]] else []) + FilterTill(rows[1..])
  }

  /** Filtering works row by row: it keeps the relative order. */
  lemma {:induction false} FilterTillAppend(a: seq<Row>, b: seq<Row>)
    ensures FilterTill(a + b) == FilterTill(a) + FilterTill(b)
  {
    if a == [] {
      assert a + b == b;
    } else {
      var head := if IsCardTill(a[0]) then [a[0]] else [];
      assert (a + b)[0] == a[0] && (a + b)[1..] == a[1..] + b;
      assert FilterTill(a + b) == head + FilterTill(a[1..] + b);
      FilterTillAppend(a[1..], b);
      AppendAssoc(head, FilterTill(a[1..]), FilterTill(b));
    }
  }

  /** A row whose till is missing is not a card sale: it reads as "nan". */
  lemma MissingTillDropped(row: Row)
    requires row.till.None?
    ensures !IsCardTill(row)
  {
    ContainsIff("nan", "MT01");
  }

  // ---------------------------------------------------------------------
  // The date stage: each date is read as a time stamp, rows whose date
  // does not read are dropped, and the rest get a month/day/year key.

  /** A row after the date stage: the date is now a "MM/DD/YYYY" key. */
  datatype Dated = Dated(till: Cell, date: string, bill: Cell, amount: Cell)

  /** `key` is the "MM/DD/YYYY" text of `d`. */
  predicate ShowsDate(key: string, d: Date) {
    IsDateKey(key)
    && DigitsValue(key[..2]) == d.month && DigitsValue(key[3..5]) == d.day
    && DigitsValue(key[6..]) == d.year
  }

  /** What the date stage makes of one row: None when the date is missing
      or does not parse (NaT, and the row is dropped). */
  function DateOf(row: Row): (r: Option<Dated>)
    ensures r.Some? <==> row.date.Some? && ParseStamp(row.date.value).Some?
    ensures r.Some? ==> ShowsDate(r.value.date, ParseStamp(row.date.value).value)
    ensures r.Some? ==> r.value.till == row.till && r.value.bill == row.bill
                        && r.value.amount == row.amount
  {
    match row.date
    case None => None
    case Some(t) =>
      match ParseStamp(t)
      case None => None
      case Some(d) => Some(Dated(row.till, FormatDate(d), row.bill, row.amount))
  }

  /** The date stage over all rows, keeping their order. */
  function CleanDates(rows: seq<Row>): (r: seq<Dated>)
    ensures |r| <= |rows|
    ensures forall i :: 0 <= i < |r| ==> IsDateKey(r[i].date)
  {
    var r := KeepSome(DateOf, rows);
    KeepSomeMembers(DateOf, rows);
    assert forall i :: 0 <= i < |r| ==> r[i] in r;
    r
  }

  // ---------------------------------------------------------------------
  // The amount stage: each amount is cleaned and read as a number, and
  // rows whose amount does not read are dropped.

  /** A row after the amount stage: the amount is a number. */
  datatype Priced = Priced(till: Cell, date: string, bill: Cell, amount: Decimal)

  /** The amount stage on one row: None when the cleaned text is not a number. */
  function AmountOf(row: Dated): (r: Option<Priced>)
    ensures r.Some? <==> ParseNumber(CleanAmount(CellText(row.amount))).Some?
    ensures r.Some? ==> r.value.amount == ParseNumber(CleanAmount(CellText(row.amount))).value
    ensures r.Some? ==> r.value.till == row.till && r.value.date == row.date
                        && r.value.bill == row.bill
  {
    match ParseNumber(CleanAmount(CellText(row.amount)))
    case None => None
    case Some(v) => Some(Priced(row.till, row.date, row.bill, v))
  }

  /** A missing amount reads as "nan", which is not a number: the row is dropped. */
  lemma MissingAmountDropped(row: Dated)
    requires row.amount.None?
    ensures AmountOf(row).None?
  {
    LabelledAmountRejected("nan", "");
    assert "nan" + "" == "nan";
  }

  /** The amount stage over all rows, keeping their order. */
  function CleanAmounts(rows: seq<Dated>): (r: seq<Priced>)
    ensures |r| <= |rows|
    ensures forall i :: 0 <= i < |r| ==> exists x :: x in rows && AmountOf(x) == Some(r[i])
  {
    var r := KeepSome(AmountOf, rows);
    KeepSomeMembers(AmountOf, rows);
    assert forall i :: 0 <= i < |r| ==> r[i] in r;
    r
  }

  // ---------------------------------------------------------------------
  // The memo stage: every row gets a memo naming its till and its bill.

  /** A sale ready for the IIF file. */
  datatype Sale = Sale(till: Cell, date: string, bill: Cell, amount: Decimal, memo: string)

  /** "Till <till> | Invoice <bill>", each cell as `str()` shows it. */
  function Memo(till: Cell, bill: Cell): (m: string)
    ensures |m| == 16 + |CellText(till)| + |CellText(bill)|
    ensures m[..5] == "Till " && m[5..5 + |CellText(till)|] == CellText(till)
    ensures m[5 + |CellText(till)|..16 + |CellText(till)|] == " | Invoice "
    ensures m[16 + |CellText(till)|..] == CellText(bill)
  {
    "Till " + CellText(till) + " | Invoice " + CellText(bill)
  }

  function SaleOf(row: Priced): Sale {
    Sale(row.till, row.date, row.bill, row.amount, Memo(row.till, row.bill))
  }

  /** The memo stage: one sale per row, in order, each row's fields kept. */
  function AddMemos(rows: seq<Priced>): (r: seq<Sale>)
    ensures |r| == |rows|
    ensures forall i :: 0 <= i < |r| ==>
              r[i].till == rows[i].till && r[i].date == rows[i].date
              && r[i].bill == rows[i].bill && r[i].amount == rows[i].amount
              && r[i].memo == Memo(rows[i].till, rows[i].bill)
  {
    if rows == [] then [] else [SaleOf(rows[0])] + AddMemos(rows[1..])
  }

  lemma {:induction false} AddMemosAppend(a: seq<Priced>, b: seq<Priced>)
    ensures AddMemos(a + b) == AddMemos(a) + AddMemos(b)
  {
    if a == [] {
      assert a + b == b;
    } else {
      assert (a + b)[0] == a[0] && (a + b)[1..] == a[1..] + b;
      AddMemosAppend(a[1..], b);
    }
  }

  // ---------------------------------------------------------------------
  // The whole cleaning, and what it does to one row

  /** The sales the script turns into IIF transactions, in sheet order. */
  function Convert(rows: seq<Row>): (r: seq<Sale>)
    ensures |r| <= |rows|
    ensures forall i :: 0 <= i < |r| ==> r[i].memo == Memo(r[i].till, r[i].bill)
  {
    AddMemos(CleanAmounts(CleanDates(FilterTill(TruncateAtBlank(rows)))))
  }

  /** The fate of one row: a sale when its till is a card till, its date
      parses and its amount is a number; nothing otherwise. */
  function Admit(row: Row): (r: Option<Sale>)
    ensures r.Some? <==> IsCardTill(row) && DateOf(row).Some?
                         && AmountOf(DateOf(row).value).Some?
    ensures r.Some? ==> r.value.till == row.till && r.value.bill == row.bill
                        && Contains(CellText(r.value.till), "MT01")
                        && ShowsDate(r.value.date, ParseStamp(row.date.value).value)
                        && r.value.amount == ParseNumber(CleanAmount(CellText(row.amount))).value
                        && r.value.memo == Memo(row.till, row.bill)
  {
    if !IsCardTill(row) then None
    else
      match DateOf(row)
      case None => None
      case Some(d) =>
        match AmountOf(d)
        case None => None
        case Some(p) => Some(SaleOf(p))
  }

  /** The stages after truncation, run on one row, do what `Admit` says. */
  lemma StagesOfOne(x: Row)
    ensures AddMemos(CleanAmounts(CleanDates(FilterTill([x]))))
            == match Admit(x) case None => [] case Some(y) => [y]
  {
    assert [x][1..] == [];
    if IsCardTill(x) {
      assert FilterTill([x]) == [x];
      match DateOf(x)
      case None =>
      case Some(d) =>
        assert CleanDates([x]) == [d];
        assert [d][1..] == [];
        match AmountOf(d)
        case None =>
        case Some(p) =>
          assert CleanAmounts([d]) == [p];
          assert [p][1..] == [];
    }
  }

  /** Running the stages one after another over all rows is the same as
      deciding each row on its own with `Admit`. */
  lemma {:induction false} StagesFuse(rows: seq<Row>)
    ensures AddMemos(CleanAmounts(CleanDates(FilterTill(rows)))) == KeepSome(Admit, rows)
  {
    if rows != [] {
      var x, rest := rows[0], rows[1..];
      assert rows == [x] + rest;
      StagesFuse(rest);
      StagesOfOne(x);
      FilterTillAppend([x], rest);
      KeepSomeAppend(DateOf, FilterTill([x]), FilterTill(rest));
      KeepSomeAppend(AmountOf, CleanDates(FilterTill([x])), CleanDates(FilterTill(rest)));
      AddMemosAppend(CleanAmounts(CleanDates(FilterTill([x]))), CleanAmounts(CleanDates(FilterTill(rest))));
    }
  }

  /** The cleaning, stated row by row: the sales are the admitted rows
      before the first blank row, in sheet order. */
  lemma ConvertAdmits(rows: seq<Row>)
    ensures Convert(rows) == KeepSome(Admit, TruncateAtBlank(rows))
  {
    StagesFuse(TruncateAtBlank(rows));
  }

  /** Every sale comes from a card-till row before the first blank row,
      carries a date key and its till and bill unchanged; and every such
      row whose date and amount parse becomes a sale. */
  lemma ConvertSales(rows: seq<Row>)
    ensures forall s :: s in Convert(rows) ==>
              IsDateKey(s.date) && Contains(CellText(s.till), "MT01")
              && exists x :: x in TruncateAtBlank(rows) && Admit(x) == Some(s)
    ensures forall x :: x in TruncateAtBlank(rows) && Admit(x).Some? ==> Admit(x).value in Convert(rows)
  {
    ConvertAdmits(rows);
    KeepSomeMembers(Admit, TruncateAtBlank(rows));
  }

  /** Sheets glued one after another convert to the sales of the first
      followed by the sales of the second, when the first has no blank row. */
  lemma ConvertAppend(a: seq<Row>, b: seq<Row>)
    requires forall i :: 0 <= i < |a| ==> !IsBlank(a[i])
    ensures Convert(a + b) == Convert(a) + Convert(b)
  {
    var t := TruncateAtBlank(b);
    assert TruncateAtBlank(a + b) == a + t by {
      assert (a + b)[..|a + t|] == a + t by {
        assert b[..|t|] == t;
      }
      forall i | 0 <= i < |a + t|
        ensures !IsBlank((a + t)[i])
      {
        if i >= |a| {
          assert (a + t)[i] == t[i - |a|];
        }
      }
      if |a + t| < |a + b| {
        assert (a + b)[|a + t|] == b[|t|];
      }
      TruncateAtBlankUnique(a + b, a + t);
    }
    assert TruncateAtBlank(a) == a by {
      TruncateAtBlankUnique(a, a);
    }
    ConvertAdmits(a + b);
    ConvertAdmits(a);
    ConvertAdmits(b);
    KeepSomeAppend(Admit, a, t);
  }

}
