/** The QuickBooks IIF document the script writes: three header lines
    declaring the TRNS, SPL and ENDTRNS records, then one PAYMENT
    transaction per sale, then one CHECK transaction per day with a
    non-zero 2% bank charge. Every transaction is a TRNS line, an SPL line
    and an ENDTRNS line; fields are separated by tabs and lines end with a
    newline. */
module Iif {
  import opened Options
  import opened Text
  import opened Amounts
  import opened Sales
  import opened Totals

  /** One line of the file. */
  datatype Line =
    | Declaration(text: string)
    | Entry(tag: string, kind: string, date: string, account: string, name: string,
            amount: Decimal, memo: string, docNum: string)
    | EndTrns

  /** The fields of a line as a reader splitting it at the tabs sees them. */
  function Fields(line: Line): seq<string> {
    match line
    case Declaration(text) => Split(text, '\t')
    case Entry(tag, kind, date, account, name, amount, memo, docNum) =>
      [tag, kind, date, account, name, Format(amount), memo, docNum]
    case EndTrns => ["ENDTRNS"]
  }

  /** The text of one line, then a newline: a declaration as it is, a
      record as its fields separated by tabs. */
  function LineText(line: Line): string {
    match line
    case Declaration(text) => text + "\n"
    case _ => Join(Fields(line), '\t') + "\n"
  }

  /** One more field goes after a tab. */
  lemma {:induction false} JoinSnoc(fields: seq<string>, x: string, sep: char)
    requires |fields| >= 1
    ensures Join(fields + [x], sep) == Join(fields, sep) + [sep] + x
  {
    var fx := fields + [x];
    if |fields| > 1 {
      assert fx[1..] == fields[1..] + [x];
      JoinSnoc(fields[1..], x, sep);
    } else {
      assert fx[1..] == [x];
    }
  }

  /** Eight fields joined with tabs. */
  lemma JoinEight(f: seq<string>)
    requires |f| == 8
    ensures Join(f, '\t') == f[0] + "\t" + f[1] + "\t" + f[2] + "\t" + f[3] + "\t" + f[4]
                             + "\t" + f[5] + "\t" + f[6] + "\t" + f[7]
  {
    assert Join(f[..1], '\t') == f[0];
    assert f[..2] == f[..1] + [f[1]];
    JoinSnoc(f[..1], f[1], '\t');
    assert f[..3] == f[..2] + [f[2]];
    JoinSnoc(f[..2], f[2], '\t');
    assert f[..4] == f[..3] + [f[3]];
    JoinSnoc(f[..3], f[3], '\t');
    assert f[..5] == f[..4] + [f[4]];
    JoinSnoc(f[..4], f[4], '\t');
    assert f[..6] == f[..5] + [f[5]];
    JoinSnoc(f[..5], f[5], '\t');
    assert f[..7] == f[..6] + [f[6]];
    JoinSnoc(f[..6], f[6], '\t');
    assert f == f[..7] + [f[7]];
    JoinSnoc(f[..7], f[7], '\t');
  }

  /** An entry line written out field by field, as the script's format
      strings write it. */
  lemma EntryText(e: Line)
    requires e.Entry?
    ensures LineText(e) == e.tag + "\t" + e.kind + "\t" + e.date + "\t" + e.account + "\t" + e.name
                           + "\t" + Format(e.amount) + "\t" + e.memo + "\t" + e.docNum + "\n"
  {
    JoinEight(Fields(e));
  }

  /** Texts written one after another. */
  function Concat(texts: seq<string>): string {
    if texts == [] then "" else Concat(texts[..|texts| - 1]) + texts[|texts| - 1]
  }

  lemma {:induction false} ConcatAppend(a: seq<string>, b: seq<string>)
    ensures Concat(a + b) == Concat(a) + Concat(b)
    decreases |b|
  {
    if b == [] {
      assert a + b == a;
    } else {
      var ab := a + b;
      assert ab[..|ab| - 1] == a + b[..|b| - 1];
      ConcatAppend(a, b[..|b| - 1]);
    }
  }

  /** The text of each line. */
  function Texts(lines: seq<Line>): (r: seq<string>)
    ensures |r| == |lines|
    ensures forall i :: 0 <= i < |lines| ==> r[i] == LineText(lines[i])
  {
    if lines == [] then [] else Texts(lines[..|lines| - 1]) + [LineText(lines[|lines| - 1])]
  }

  /** The lines written one after another. */
  function Render(lines: seq<Line>): string {
    Concat(Texts(lines))
  }

  lemma RenderAppend(a: seq<Line>, b: seq<Line>)
    ensures Render(a + b) == Render(a) + Render(b)
  {
    assert Texts(a + b) == Texts(a) + Texts(b);
    ConcatAppend(Texts(a), Texts(b));
  }

  /** A block of three lines is written as their three texts. */
  lemma RenderThree(b: seq<Line>)
    requires |b| == 3
    ensures Render(b) == LineText(b[0]) + LineText(b[1]) + LineText(b[2])
  {
    var t := Texts(b);
    var t1, t2 := t[..1], t[..2];
    assert t1[..0] == [];
    assert Concat(t1) == t[0];
    assert t2[..1] == t1;
    assert Concat(t2) == t[0] + t[1];
    assert t[..2] == t2;
  }

  // ---------------------------------------------------------------------
  // The document

  /** The declarations of the TRNS and SPL records (the same seven columns)
      and of the ENDTRNS record. */
  function HeaderLines(): (r: seq<Line>)
    ensures |r| == 3 && forall i :: 0 <= i < |r| ==> r[i].Declaration?
  {
    [ Declaration("!TRNS\tTRNSTYPE\tDATE\tACCNT\tNAME\tAMOUNT\tMEMO\tDOCNUM"),
      Declaration("!SPL\tTRNSTYPE\tDATE\tACCNT\tNAME\tAMOUNT\tMEMO\tDOCNUM"),
      Declaration("!ENDTRNS") ]
  }

  /** The bank account the card sales are paid into. */
  const BankAccount := "Pesapal"
  /** The customer every card sale is booked against. */
  const WalkIn := "Walk In"
  const ReceivableAccount := "Accounts Receivable"
  /** The payee of the bank charges, and the expense account they go to. */
  const ChargePayee := "Bank Service Charges"
  const ChargeAccount := "Bank Service Charges:Bank Charges - Pesapal"

  /** The PAYMENT transaction of a sale: the amount into the bank account,
      the same amount out of Accounts Receivable. */
  function SaleBlock(s: Sale): (r: seq<Line>)
    ensures |r| == 3 && r[0].Entry? && r[1].Entry? && r[2] == EndTrns
    ensures r[0].tag == "TRNS" && r[1].tag == "SPL" && r[0].amount == s.amount
    ensures Value(r[0].amount) + Value(r[1].amount) == 0.0
  {
    [ Entry("TRNS", "PAYMENT", s.date, BankAccount, WalkIn, s.amount, s.memo, CellText(s.bill)),
      Entry("SPL", "PAYMENT", s.date, ReceivableAccount, WalkIn, Negate(s.amount), s.memo, ""),
      EndTrns ]
  }

  /** The memo of a day's bank charge. */
  function ChargeMemo(date: string): (r: string)
    ensures |r| == 37 + |date|
  {
    "2% Bank Charges on Credit Card Sales " + date
  }

  /** The document number of a day's bank charge: the date without its
      slashes. */
  function ChargeDocNumber(date: string): (r: string)
    ensures 4 <= |r| <= 4 + |date| && '/' !in r
  {
    "CHG-" + RemoveChar(date, '/')
  }

  /** The memo names the day: it ends with the date key. */
  lemma ChargeMemoDate(date: string)
    ensures ChargeMemo(date)[37..] == date
  {
  }

  /** The document number is "CHG-" and then the date with every slash removed. */
  lemma ChargeDocNumberShape(date: string)
    ensures ChargeDocNumber(date)[..4] == "CHG-"
    ensures ChargeDocNumber(date)[4..] == RemoveChar(date, '/')
  {
  }

  /** The CHECK transaction of a day's bank charge of `cents`. */
  function ChargeBlock(date: string, cents: int): (r: seq<Line>)
    ensures |r| == 3 && r[0].Entry? && r[1].Entry? && r[2] == EndTrns
    ensures r[0].tag == "TRNS" && r[1].tag == "SPL"
    ensures r[0].memo == r[1].memo == ChargeMemo(date) && r[0].docNum == r[1].docNum == ChargeDocNumber(date)
    ensures Value(r[1].amount) == cents as real / 100.0 && Value(r[0].amount) == -Value(r[1].amount)
  {
    var memo, docNum := ChargeMemo(date), ChargeDocNumber(date);
    [ Entry("TRNS", "CHECK", date, BankAccount, ChargePayee, Negate(FromCents(cents)), memo, docNum),
      Entry("SPL", "CHECK", date, ChargeAccount, "", FromCents(cents), memo, docNum),
      EndTrns ]
  }

  /** The sale transactions, one block of three lines per sale, in order. */
  function SaleBlocks(sales: seq<Sale>): (r: seq<Line>)
    ensures |r| == 3 * |sales|
  {
    if sales == [] then []
    else SaleBlocks(sales[..|sales| - 1]) + SaleBlock(sales[|sales| - 1])
  }

  /** Sale `k`'s block is lines 3k to 3k + 2. */
  lemma {:induction false} SaleBlocksAt(sales: seq<Sale>, k: int)
    requires 0 <= k < |sales|
    ensures SaleBlocks(sales)[3 * k..3 * k + 3] == SaleBlock(sales[k])
  {
    var init := sales[..|sales| - 1];
    if k < |init| {
      SaleBlocksAt(init, k);
      assert SaleBlocks(sales)[3 * k..3 * k + 3] == SaleBlocks(init)[3 * k..3 * k + 3];
    }
  }

  /** The charge transactions, one block of three lines per charge, in order. */
  function ChargeBlocks(charges: seq<(string, int)>): (r: seq<Line>)
    ensures |r| == 3 * |charges|
  {
    if charges == [] then []
    else
      var last := charges[|charges| - 1];
      ChargeBlocks(charges[..|charges| - 1]) + ChargeBlock(last.0, last.1)
  }

  /** The `k`-th charge's block is lines 3k to 3k + 2. */
  lemma {:induction false} ChargeBlocksAt(charges: seq<(string, int)>, k: int)
    requires 0 <= k < |charges|
    ensures ChargeBlocks(charges)[3 * k..3 * k + 3] == ChargeBlock(charges[k].0, charges[k].1)
  {
    var init := charges[..|charges| - 1];
    if k < |init| {
      ChargeBlocksAt(init, k);
      assert ChargeBlocks(charges)[3 * k..3 * k + 3] == ChargeBlocks(init)[3 * k..3 * k + 3];
    }
  }

  /** The whole file as lines. */
  function Document(sales: seq<Sale>): (r: seq<Line>)
    ensures |r| == 3 + 3 * |sales| + 3 * |Charges(DailyTotals(sales))|
    ensures r[..3] == HeaderLines()
  {
    HeaderLines() + SaleBlocks(sales) + ChargeBlocks(Charges(DailyTotals(sales)))
  }

  /** The layout of the file: the header, then the sale blocks, then the
      charge blocks, and nothing else. */
  lemma DocumentLayout(sales: seq<Sale>)
    ensures |Document(sales)| == 3 + 3 * |sales| + 3 * |Charges(DailyTotals(sales))|
    ensures Document(sales)[..3] == HeaderLines()
    ensures Document(sales)[3..3 + 3 * |sales|] == SaleBlocks(sales)
    ensures Document(sales)[3 + 3 * |sales|..] == ChargeBlocks(Charges(DailyTotals(sales)))
  {
    PiecesOf(sales, Charges(DailyTotals(sales)));
  }

  lemma PiecesOf(sales: seq<Sale>, charges: seq<(string, int)>)
    ensures var doc := HeaderLines() + SaleBlocks(sales) + ChargeBlocks(charges);
            |doc| == 3 + 3 * |sales| + 3 * |charges| && doc[..3] == HeaderLines()
            && doc[3..3 + 3 * |sales|] == SaleBlocks(sales) && doc[3 + 3 * |sales|..] == ChargeBlocks(charges)
  {
    var h, sb, cb := HeaderLines(), SaleBlocks(sales), ChargeBlocks(charges);
    assert (h + sb + cb)[..3] == h;
    assert (h + sb + cb)[3..3 + |sb|] == sb;
    assert (h + sb + cb)[3 + |sb|..] == cb;
  }

  // ---------------------------------------------------------------------
  // Every transaction balances

  /** The sum of the amounts of the entry lines. */
  function Net(lines: seq<Line>): real {
    if lines == [] then 0.0
    else
      var last := lines[|lines| - 1];
      Net(lines[..|lines| - 1]) + (if last.Entry? then Value(last.amount) else 0.0)
  }

  lemma {:induction false} NetAppend(a: seq<Line>, b: seq<Line>)
    ensures Net(a + b) == Net(a) + Net(b)
    decreases |b|
  {
    if b == [] {
      assert a + b == a;
    } else {
      assert (a + b)[..|a + b| - 1] == a + b[..|b| - 1];
      assert (a + b)[|a + b| - 1] == b[|b| - 1];
      NetAppend(a, b[..|b| - 1]);
    }
  }

  /** A three-line block's net amount. */
  lemma NetOfThree(x: Line, y: Line, z: Line)
    ensures Net([x, y, z]) == (if x.Entry? then Value(x.amount) else 0.0)
                              + (if y.Entry? then Value(y.amount) else 0.0)
                              + (if z.Entry? then Value(z.amount) else 0.0)
  {
    assert [x][..0] == [];
    assert Net([x]) == (if x.Entry? then Value(x.amount) else 0.0);
    assert [x, y][..1] == [x];
    assert Net([x, y]) == Net([x]) + (if y.Entry? then Value(y.amount) else 0.0);
    assert [x, y, z][..2] == [x, y];
  }

  /** A sale's TRNS and SPL amounts cancel. */
  lemma SaleBlockBalances(s: Sale)
    ensures Net(SaleBlock(s)) == 0.0
  {
    var b := SaleBlock(s);
    NetOfThree(b[0], b[1], b[2]);
  }

  /** A charge's TRNS and SPL amounts cancel. */
  lemma ChargeBlockBalances(date: string, cents: int)
    ensures Net(ChargeBlock(date, cents)) == 0.0
  {
    var b := ChargeBlock(date, cents);
    NetOfThree(b[0], b[1], b[2]);
  }

  lemma {:induction false} SaleBlocksBalance(sales: seq<Sale>)
    ensures Net(SaleBlocks(sales)) == 0.0
  {
    if sales != [] {
      var init := sales[..|sales| - 1];
      SaleBlocksBalance(init);
      SaleBlockBalances(sales[|sales| - 1]);
      NetAppend(SaleBlocks(init), SaleBlock(sales[|sales| - 1]));
    }
  }

  lemma {:induction false} ChargeBlocksBalance(charges: seq<(string, int)>)
    ensures Net(ChargeBlocks(charges)) == 0.0
  {
    if charges != [] {
      var init, last := charges[..|charges| - 1], charges[|charges| - 1];
      ChargeBlocksBalance(init);
      ChargeBlockBalances(last.0, last.1);
      NetAppend(ChargeBlocks(init), ChargeBlock(last.0, last.1));
    }
  }

  /** The whole file nets to zero: every debit has its credit. */
  lemma DocumentBalances(sales: seq<Sale>)
    ensures Net(Document(sales)) == 0.0
  {
    var h, sb, cb := HeaderLines(), SaleBlocks(sales), ChargeBlocks(Charges(DailyTotals(sales)));
    NetAppend(h + sb, cb);
    NetAppend(h, sb);
    NetOfThree(h[0], h[1], h[2]);
    SaleBlocksBalance(sales);
    ChargeBlocksBalance(Charges(DailyTotals(sales)));
  }

  /** The bank charges posted on one day: 2% of the day's sales, rounded to
      the cent, as the SPL line's amount and the negative of it as the TRNS line's. */
  lemma ChargeAmounts(date: string, cents: int, total: real)
    requires cents == ChargeCents(total)
    ensures Value(ChargeBlock(date, cents)[1].amount) == cents as real / 100.0
    ensures total * 0.02 - 0.005 <= Value(ChargeBlock(date, cents)[1].amount) <= total * 0.02 + 0.005
    ensures Value(ChargeBlock(date, cents)[0].amount) == -Value(ChargeBlock(date, cents)[1].amount)
  {
  }

  /** The charge's document number is "CHG-" and the eight digits of the
      date key, month first. */
  lemma ChargeDocNum(date: string, cents: int)
    requires Dates.IsDateKey(date)
    ensures var doc := ChargeBlock(date, cents)[0].docNum;
            doc == "CHG-" + date[..2] + date[3..5] + date[6..]
            && |doc| == 12 && AllDigits(doc[4..])
  {
    var mm, dd, yyyy := date[..2], date[3..5], date[6..];
    assert date == mm + ['/'] + (dd + ['/'] + yyyy);
    NoSlashInDigits(mm);
    NoSlashInDigits(dd);
    NoSlashInDigits(yyyy);
    RemoveCharAround(mm, '/', dd + ['/'] + yyyy);
    RemoveCharAround(dd, '/', yyyy);
    assert RemoveChar(date, '/') == mm + (dd + yyyy);
    AllDigitsAppend(dd, yyyy);
    AllDigitsAppend(mm, dd + yyyy);
    assert mm + (dd + yyyy) == mm + dd + yyyy;
  }

  lemma NoSlashInDigits(s: string)
    requires AllDigits(s)
    ensures '/' !in s
  {
  }

  // ---------------------------------------------------------------------
  // Reading the file back

  /** A line, split at its tabs, gives back its fields when none of them
      contains a tab; an entry's amount field reads back as its amount. */
  lemma LineReadBack(line: Line)
    requires !line.Declaration?
    requires forall k :: 0 <= k < |Fields(line)| ==> '\t' !in Fields(line)[k]
    ensures LineText(line)[|LineText(line)| - 1] == '\n'
    ensures Split(LineText(line)[..|LineText(line)| - 1], '\t') == Fields(line)
    ensures line.Entry? ==> ParseNumber(Fields(line)[5]).Some?
                            && Value(ParseNumber(Fields(line)[5]).value) == Value(line.amount)
  {
    var j := Join(Fields(line), '\t');
    assert LineText(line)[..|LineText(line)| - 1] == j;
    SplitJoin(Fields(line), '\t');
    if line.Entry? {
      FormatRoundTrip(line.amount);
    }
  }

  /** The lines of a sale's block carry its date, amount, memo and bill. */
  lemma SaleBlockFields(s: Sale)
    ensures Fields(SaleBlock(s)[0]) == ["TRNS", "PAYMENT", s.date, BankAccount, WalkIn, Format(s.amount), s.memo, CellText(s.bill)]
    ensures Fields(SaleBlock(s)[1]) == ["SPL", "PAYMENT", s.date, ReceivableAccount, WalkIn, Format(Negate(s.amount)), s.memo, ""]
    ensures Value(SaleBlock(s)[1].amount) == -Value(s.amount)
  {
  }

  // ---------------------------------------------------------------------
  // The writer

  /** The in-memory text buffer the file is written into. */
  class IifBuffer {
    var text: string

    constructor()
      ensures text == ""
    {
      text := "";
    }

    /** Appends `s` to what has been written. */
    method Write(s: string)
      modifies this
      ensures text == old(text) + s
    {
      text := text + s;
    }
  }

  /** The header lines as the script writes them. */
  lemma HeaderText(before: string)
    ensures before
            + "!TRNS\tTRNSTYPE\tDATE\tACCNT\tNAME\tAMOUNT\tMEMO\tDOCNUM\n"
            + "!SPL\tTRNSTYPE\tDATE\tACCNT\tNAME\tAMOUNT\tMEMO\tDOCNUM\n"
            + "!ENDTRNS\n"
            == before + Render(HeaderLines())
  {
    var h := HeaderLines();
    assert LineText(h[0]) == "!TRNS\tTRNSTYPE\tDATE\tACCNT\tNAME\tAMOUNT\tMEMO\tDOCNUM\n";
    assert LineText(h[1]) == "!SPL\tTRNSTYPE\tDATE\tACCNT\tNAME\tAMOUNT\tMEMO\tDOCNUM\n";
    assert LineText(h[2]) == "!ENDTRNS\n";
    BlockWritten(before, LineText(h[0]), LineText(h[1]), LineText(h[2]), h);
  }

  /** An entry line with its first two fields run together into `head`,
      as the script's format strings start. */
  lemma EntryLineText(e: Line, head: string)
    requires e.Entry? && head == e.tag + "\t" + e.kind + "\t"
    ensures LineText(e) == head + e.date + "\t" + e.account + "\t" + e.name + "\t" + Format(e.amount)
                           + "\t" + e.memo + "\t" + e.docNum + "\n"
  {
    EntryText(e);
  }

  lemma EndTrnsText()
    ensures LineText(EndTrns) == "ENDTRNS\n"
  {
  }

  /** An empty field between two tabs. */
  lemma EmptyField(p: string)
    ensures p + "\t" + "" + "\t" == p + "\t\t"
    ensures p + "\t" + "" + "\n" == p + "\t\n"
  {
  }

  /** A sale's TRNS line as the script formats it. */
  lemma SaleTrnsText(s: Sale)
    ensures LineText(SaleBlock(s)[0])
            == "TRNS\tPAYMENT\t" + s.date + "\t" + BankAccount + "\t" + WalkIn + "\t" + Format(s.amount)
               + "\t" + s.memo + "\t" + CellText(s.bill) + "\n"
  {
    EntryLineText(SaleBlock(s)[0], "TRNS\tPAYMENT\t");
  }

  /** A sale's SPL line as the script formats it: the document number is
      left empty. */
  lemma SaleSplText(s: Sale)
    ensures LineText(SaleBlock(s)[1])
            == "SPL\tPAYMENT\t" + s.date + "\t" + ReceivableAccount + "\t" + WalkIn + "\t" + Format(Negate(s.amount))
               + "\t" + s.memo + "\t\n"
  {
    EntryLineText(SaleBlock(s)[1], "SPL\tPAYMENT\t");
    EmptyField("SPL\tPAYMENT\t" + s.date + "\t" + ReceivableAccount + "\t" + WalkIn + "\t" + Format(Negate(s.amount))
               + "\t" + s.memo);
  }

  /** A charge's TRNS line as the script formats it. */
  lemma ChargeTrnsText(date: string, charge: int)
    ensures LineText(ChargeBlock(date, charge)[0])
            == "TRNS\tCHECK\t" + date + "\t" + BankAccount + "\t" + ChargePayee + "\t" + Format(Negate(FromCents(charge)))
               + "\t" + ChargeMemo(date) + "\t" + ChargeDocNumber(date) + "\n"
  {
    EntryLineText(ChargeBlock(date, charge)[0], "TRNS\tCHECK\t");
  }

  /** A charge's SPL line as the script formats it: the name is left
      empty. */
  lemma ChargeSplText(date: string, charge: int)
    ensures LineText(ChargeBlock(date, charge)[1])
            == "SPL\tCHECK\t" + date + "\t" + ChargeAccount + "\t\t"
               + Format(FromCents(charge)) + "\t" + ChargeMemo(date) + "\t" + ChargeDocNumber(date) + "\n"
  {
    EntryLineText(ChargeBlock(date, charge)[1], "SPL\tCHECK\t");
    EmptyField("SPL\tCHECK\t" + date + "\t" + ChargeAccount);
  }

  /** Writing the texts of a block's three lines one after another writes
      the block. */
  lemma BlockWritten(before: string, x: string, y: string, z: string, b: seq<Line>)
    requires |b| == 3 && LineText(b[0]) == x && LineText(b[1]) == y && LineText(b[2]) == z
    ensures before + x + y + z == before + Render(b)
  {
    RenderThree(b);
  }

  /** Writes a sale's PAYMENT transaction. */
  method WriteSale(buf: IifBuffer, row: Sale)
    modifies buf
    ensures buf.text == old(buf.text) + Render(SaleBlock(row))
  {
    var trns := "TRNS\tPAYMENT\t" + row.date + "\t" + BankAccount + "\t" + WalkIn + "\t" + Format(row.amount)
                + "\t" + row.memo + "\t" + CellText(row.bill) + "\n";
    var spl := "SPL\tPAYMENT\t" + row.date + "\t" + ReceivableAccount + "\t" + WalkIn + "\t" + Format(Negate(row.amount))
               + "\t" + row.memo + "\t\n";
    buf.Write(trns);
    buf.Write(spl);
    buf.Write("ENDTRNS\n");
    SaleTrnsText(row);
    SaleSplText(row);
    EndTrnsText();
    BlockWritten(old(buf.text), trns, spl, "ENDTRNS\n", SaleBlock(row));
  }

  /** Writes the CHECK transaction of a day's bank charge. */
  method WriteCharge(buf: IifBuffer, date: string, charge: int)
    modifies buf
    ensures buf.text == old(buf.text) + Render(ChargeBlock(date, charge))
  {
    var memo := "2% Bank Charges on Credit Card Sales " + date;
    var docNum := "CHG-" + RemoveChar(date, '/');
    assert memo == ChargeMemo(date) && docNum == ChargeDocNumber(date);
    var trns := "TRNS\tCHECK\t" + date + "\t" + BankAccount + "\t" + ChargePayee + "\t" + Format(Negate(FromCents(charge)))
                + "\t" + memo + "\t" + docNum + "\n";
    var spl := "SPL\tCHECK\t" + date + "\t" + ChargeAccount + "\t\t"
               + Format(FromCents(charge)) + "\t" + memo + "\t" + docNum + "\n";
    buf.Write(trns);
    buf.Write(spl);
    buf.Write("ENDTRNS\n");
    ChargeTrnsText(date, charge);
    ChargeSplText(date, charge);
    EndTrnsText();
    BlockWritten(old(buf.text), trns, spl, "ENDTRNS\n", ChargeBlock(date, charge));
  }

  /** Writes the three header lines. */
  method WriteHeader(buf: IifBuffer)
    modifies buf
    ensures buf.text == old(buf.text) + Render(HeaderLines())
  {
    buf.Write("!TRNS\tTRNSTYPE\tDATE\tACCNT\tNAME\tAMOUNT\tMEMO\tDOCNUM\n");
    buf.Write("!SPL\tTRNSTYPE\tDATE\tACCNT\tNAME\tAMOUNT\tMEMO\tDOCNUM\n");
    buf.Write("!ENDTRNS\n");
    HeaderText(old(buf.text));
  }

  /** Writes the PAYMENT transactions of the sales, in order. */
  method WriteSales(buf: IifBuffer, sales: seq<Sale>)
    modifies buf
    ensures buf.text == old(buf.text) + Render(SaleBlocks(sales))
  {
    assert sales[..0] == [];
    for i := 0 to |sales|
      invariant buf.text == old(buf.text) + Render(SaleBlocks(sales[..i]))
    {
      ghost var done := Render(SaleBlocks(sales[..i]));
      WriteSale(buf, sales[i]);
      SaleBlocksSnoc(sales, i);
      AppendAssoc(old(buf.text), done, Render(SaleBlock(sales[i])));
    }
    assert sales[..|sales|] == sales;
  }

  /** Writes the CHECK transaction of every day whose rounded 2% charge is
      not zero, in the order of the totals. */
  method WriteCharges(buf: IifBuffer, totals: seq<(string, real)>)
    modifies buf
    ensures buf.text == old(buf.text) + Render(ChargeBlocks(Charges(totals)))
  {
    assert totals[..0] == [];
    for j := 0 to |totals|
      invariant buf.text == old(buf.text) + Render(ChargeBlocks(Charges(totals[..j])))
    {
      ghost var done := Render(ChargeBlocks(Charges(totals[..j])));
      var (date, total) := totals[j];
      var charge := ChargeCents(total);
      ChargeBlocksSnoc(totals, j);
      if charge == 0 {
        assert Render(ChargeBlocks(Charges(totals[..j + 1]))) == done;
        continue;
      }
      WriteCharge(buf, date, charge);
      AppendAssoc(old(buf.text), done, Render(ChargeBlock(date, charge)));
    }
    assert totals[..|totals|] == totals;
  }

  /** Writes the IIF file for the cleaned sales: the header, one PAYMENT
      transaction per sale, then one CHECK transaction per day whose
      rounded 2% charge is not zero, the days in ascending order. */
  method GenerateIif(sales: seq<Sale>) returns (iif: string)
    ensures iif == Render(Document(sales))
  {
    var buf := new IifBuffer();
    WriteHeader(buf);
    assert buf.text == Render(HeaderLines());
    WriteSales(buf, sales);
    var dailyTotals := DailyTotals(sales);
    WriteCharges(buf, dailyTotals);
    iif := buf.text;
    DocumentText(sales);
  }

  /** The file's text is the header's, then the sales', then the charges'. */
  lemma DocumentText(sales: seq<Sale>)
    ensures Render(Document(sales))
            == Render(HeaderLines()) + Render(SaleBlocks(sales)) + Render(ChargeBlocks(Charges(DailyTotals(sales))))
  {
    var h, sb, cb := HeaderLines(), SaleBlocks(sales), ChargeBlocks(Charges(DailyTotals(sales)));
    RenderAppend(h, sb);
    RenderAppend(h + sb, cb);
  }

  /** One more sale adds its block's text after the others'. */
  lemma SaleBlocksSnoc(sales: seq<Sale>, i: int)
    requires 0 <= i < |sales|
    ensures Render(SaleBlocks(sales[..i + 1])) == Render(SaleBlocks(sales[..i])) + Render(SaleBlock(sales[i]))
  {
    assert sales[..i + 1][..i] == sales[..i];
    RenderAppend(SaleBlocks(sales[..i]), SaleBlock(sales[i]));
  }

  /** One more day adds its charge block's text after the others', unless
      its charge rounds to zero. */
  lemma ChargeBlocksSnoc(totals: seq<(string, real)>, j: int)
    requires 0 <= j < |totals|
    ensures var c := ChargeCents(totals[j].1);
            c == 0 ==> Render(ChargeBlocks(Charges(totals[..j + 1]))) == Render(ChargeBlocks(Charges(totals[..j])))
    ensures var c := ChargeCents(totals[j].1);
            c != 0 ==> Render(ChargeBlocks(Charges(totals[..j + 1])))
                       == Render(ChargeBlocks(Charges(totals[..j]))) + Render(ChargeBlock(totals[j].0, c))
  {
    ChargesSnoc(totals, j);
    var c := ChargeCents(totals[j].1);
    var pre := Charges(totals[..j]);
    if c != 0 {
      ChargeBlocksAppendOne(pre, (totals[j].0, c));
      RenderAppend(ChargeBlocks(pre), ChargeBlock(totals[j].0, c));
    } else {
      assert pre + [] == pre;
    }
  }

  lemma ChargeBlocksAppendOne(pre: seq<(string, int)>, x: (string, int))
    ensures ChargeBlocks(pre + [x]) == ChargeBlocks(pre) + ChargeBlock(x.0, x.1)
  {
    assert (pre + [x])[..|pre|] == pre;
  }
}
