# Card sales to QuickBooks IIF, modelled in Dafny

`pesapal.py` reads a till report exported from a point-of-sale system and
turns its card-payment rows into a QuickBooks IIF (Intuit Interchange
Format) file. It works in two parts:

- a cleaning pipeline over the rows (till number, date, bill number, amount):
  - cut the table at the first all-blank row;
  - keep the rows whose till text contains `MT01`;
  - read the time stamp with `%d-%b-%Y %I.%M.%S %p` and rewrite it as `MM/DD/YYYY`;
  - strip commas and whitespace from the amount and read it as a number;
  - build the memo `Till <till> | Invoice <bill>`.
  A row whose date or amount does not read is dropped.
- the writing of the IIF text into a string buffer:
  - a three-line header;
  - one `TRNS`/`SPL`/`ENDTRNS` payment block per sale;
  - one `CHECK` block per day for the 2% card charge on that day's total, skipping days whose rounded charge is zero.

The model keeps that shape:

| module (file) | what it holds |
|---|---|
| `Options`, `Text` (text.dfy) | `Option`, and the character and string operations the script relies on: `str.contains`, `str.replace`, `str.strip`, digit runs, tab-separated fields, and Python's code-point order on strings |
| `Amounts` (amounts.dfy) | exact sign-and-magnitude decimals; the amount cleaning; pandas' `to_numeric` reading of a decimal string; the text the file shows for a number; Python's half-to-even `round(x, 2)` for the charge |
| `Dates` (dates.dfy) | the calendar; the `%d-%b-%Y %I.%M.%S %p` time-stamp reader; the `%m/%d/%Y` writer and the order of its keys |
| `Sales` (sales.dfy) | the row pipeline as functions over sequences, each stage with its row-by-row characterisation |
| `Totals` (totals.dfy) | the `groupby("Date")["Amount"].sum()` day totals (sorted distinct keys) and the daily charges |
| `Iif` (iif.dfy) | the IIF lines as data (`Document`) and their text (`Render`); the `IifBuffer` class standing for the `StringIO`; and the methods that write the header, the sale loop and the charge loop with its `continue` |

The writing loops are methods over an `IifBuffer` whose `text` field they
extend. Each loop invariant ties the buffer to `Render` of the blocks
written so far. `GenerateIif` proves that the whole buffer is
`Render(Document(sales))`. The lemmas about `Document` then prove the
file's layout, its read-back and its double-entry balance.

## Model

| member | source | states |
|---|---|---|
| Sales.FirstBlank | pesapal.py:9-10 | the position of the first row whose four cells are all missing, or None exactly when no row is all missing |
| Sales.TruncateAtBlank | pesapal.py:7-12 | the result is a prefix of the rows with no all-blank row, and the row right after it (if any) is all blank |
| Sales.TruncateAtBlankUnique | pesapal.py:9-12 | any prefix with those properties is the truncation: all rows when none is blank, nothing when the first row is blank |
| Sales.TruncateAtBlankIdempotent | pesapal.py:7-12 | truncating twice is truncating once |
| Sales.IsBlank | pesapal.py:9 | a row is blank exactly when it is the row whose four cells are all missing |
| Sales.CellText | pesapal.py:36 | a present cell shows its own text, and a missing cell shows "nan" |
| Sales.IsCardTill | pesapal.py:36 | a row is a card sale exactly when `MT01` occurs at some position of its till text |
| Text.ContainsIff | pesapal.py:36 | `str.contains` is a case-sensitive substring test: true exactly when the pattern occurs at some position |
| Sales.FilterTill | pesapal.py:36 | a row is kept exactly when it is among the input rows and its till text contains `MT01` |
| Sales.FilterTillAppend | pesapal.py:36 | the filter works row by row, so the kept rows stay in their original order |
| Sales.MissingTillDropped | pesapal.py:36 | a missing till is shown as "nan" and is never kept |
| Dates.DaysInMonth | pesapal.py:39-41 | every month has 28 to 31 days |
| Dates.Abbreviation | pesapal.py:40 | each month abbreviation is three letters |
| Dates.DayField | pesapal.py:40 | `%d` reads a day from 1 to 31 |
| Dates.MonthField | pesapal.py:40 | `%b` gives the month whose abbreviation matches in any letter case, and None only when no month matches |
| Dates.FindMonth | pesapal.py:40 | the search over months from `m` on finds a matching month, or finds that none from `m` on matches |
| Dates.HourField | pesapal.py:40 | `%I` reads an hour from 1 to 12 |
| Dates.MinuteField | pesapal.py:40 | `%M` reads a minute from 0 to 59 |
| Dates.SecondField | pesapal.py:40 | `%S` reads a number from 0 to 61 |
| Dates.AbbreviationsDistinct | pesapal.py:40 | no two months' abbreviations match even when letter case is ignored |
| Dates.MonthFieldOf | pesapal.py:40 | each month's abbreviation is read back as that month |
| Dates.TwoDigitField | pesapal.py:40 | two digits in range are accepted by `%d`, `%I`, `%M` and `%S` as their value |
| Dates.NextDay | pesapal.py:39-41 | the day after a real day is a real day later than it. Only 31 December 9999 has none |
| Dates.NextDayIsNext | pesapal.py:39-41 | no real day lies strictly between a day and the day after it |
| Dates.ParseStamp | pesapal.py:39-42 | a time stamp that reads gives a real calendar day, so impossible days such as 31-Feb are dropped |
| Dates.StampRejected | pesapal.py:39-42 | a stamp laid out as the format says whose day does not exist in its month (31-Feb, 29-Feb of a common year) does not read, so the row is dropped |
| Dates.ParseStampShape | pesapal.py:39-41 | a text reads as day `d` exactly when it is a day field, '-', a month abbreviation, '-', four digits and an accepted time, and `d` is the real day they name, or the day after it when the time passes midnight |
| Dates.SecondsTextAccepted | pesapal.py:40 | the seconds 0 to 61 and the AM/PM marker of a report stamp are accepted, and they carry the clock past midnight exactly when the seconds are 60 or 61 and the marker is PM |
| Dates.SecondsDigitsAccepted | pesapal.py:40 | two digits up to 61, a space and AM or PM are accepted as `%S %p`, and they carry the clock past midnight exactly for 60 or 61 seconds with PM |
| Dates.ClockTextAccepted | pesapal.py:40 | a space, the hour, a point, the minute, a point and accepted seconds form an accepted time of day, which passes midnight exactly at 11.59 with seconds that roll over |
| Dates.StampAccepted | pesapal.py:39-41 | a two-digit day, a month abbreviation and a four-digit year naming a real day, followed by a time of day, read as that day, or as the next day when the time passes midnight |
| Dates.ParseStampText | pesapal.py:39-41 | every stamp the report writes for a real day, e.g. "01-Jan-2024 10.00.00 AM", reads back as that day. 11.59.60 PM and 11.59.61 PM read as the next day |
| Dates.FormatDate | pesapal.py:43 | `%m/%d/%Y` gives ten characters: two-digit month, '/', two-digit day, '/', four-digit year, which read back as the day's month, day and year |
| Dates.PadDigitsLess | pesapal.py:43 | zero-padded numbers of one width compare as strings exactly as they compare as numbers |
| Dates.FormatDateOrder | pesapal.py:81 | the keys compare as strings by month, then day, then year, so the daily totals come in that order |
| Sales.DateOf | pesapal.py:39-43 | a row survives the date stage exactly when its date cell is present and reads. It then carries the `MM/DD/YYYY` key of that day and keeps its other cells |
| Sales.CleanDates | pesapal.py:39-43 | the date stage keeps at most as many rows, and every kept date is a `MM/DD/YYYY` key |
| Text.RemoveChar | pesapal.py:48 | `str.replace(c, "")` leaves no `c`, and leaves text without `c` unchanged |
| Text.RemoveCharAppend | pesapal.py:48 | removing a character works piece by piece |
| Text.TrimStart | pesapal.py:49 | what is left is a suffix not starting with whitespace, and all that was cut is whitespace |
| Text.TrimEnd | pesapal.py:49 | what is left is a prefix not ending with whitespace, and all that was cut is whitespace |
| Text.Strip | pesapal.py:49 | `str.strip()` leaves a piece of the text with no whitespace at either end and only whitespace around it |
| Text.StripUnspaced | pesapal.py:49 | text with no whitespace at either end is left unchanged by `strip` |
| Amounts.CleanAmount | pesapal.py:46-50 | the cleaned amount has no comma and no whitespace at either end, and it is the comma-free text with only whitespace cut from around it |
| Amounts.CommaRemoved | pesapal.py:48 | a thousands comma is removed and nothing else |
| Amounts.Scaled | pesapal.py:51 | the exponent moves the decimal point and keeps the sign |
| Amounts.ParseExponent | pesapal.py:51 | no exponent means exponent 0, and anything but `e`/`E` after the digits is not a number |
| Amounts.ParseMantissa | pesapal.py:51 | reading the digits and the point consumes at least one character |
| Amounts.ParseNumber | pesapal.py:51 | empty text is not a number, and a number read is negative exactly when the text starts with '-' |
| Amounts.ExponentIff | pesapal.py:51 | the exponent part is read exactly when it is empty, or `e`/`E` followed by digits with an optional sign |
| Amounts.NumberIff | pesapal.py:51 | a cleaned amount is a number exactly when it is an optional sign, digits with at most one point and at least one digit, and an optional exponent part; any other text is NaN |
| Amounts.NotNumbersTrailing | pesapal.py:51 | "12abc" and "1.2.3" are not numbers |
| Amounts.NotNumbersExponent | pesapal.py:51 | "1e" and "1e+" are not numbers |
| Amounts.NotNumbersMantissa | pesapal.py:51 | "--5" and "." are not numbers |
| Amounts.MantissaWhole | pesapal.py:51 | digits followed by nothing or by an exponent mark read as that whole number with no fraction digits, leaving the exponent part |
| Amounts.MantissaPoint | pesapal.py:51 | digits, a point and digits, with at least one digit in all, read as the digits with the point put back, leaving the exponent part |
| Amounts.ExponentRead | pesapal.py:51 | `e` or `E`, an optional sign and digits read as that signed exponent |
| Amounts.NumberRead | pesapal.py:51 | an optional sign before a mantissa and an exponent gives the decimal with the point moved by the exponent, negative exactly for '-' |
| Amounts.IntegerAmount | pesapal.py:51 | "[+-]digits" reads as that whole number with that sign |
| Amounts.PowerOfTen | pesapal.py:51 | 10^e for any integer exponent: positive, the natural power for e >= 0, and the reciprocal of 10^-e for e < 0 |
| Amounts.ScaledValue | pesapal.py:51 | moving the point by the exponent keeps the value ±m × 10^e / 10^f of a mantissa m with f fraction digits |
| Amounts.NumberValue | pesapal.py:51 | a sign, a mantissa and an exponent read as the number ±m × 10^e / 10^f |
| Amounts.ExponentAmount | pesapal.py:51 | "[+-]digits.digits(e\|E)[+-]digits" reads as the number it spells, e.g. "1.5e3" is 1500 and "-2.5E-1" is -0.25 |
| Amounts.WholeExponentAmount | pesapal.py:51 | "[+-]digits(e\|E)[+-]digits" reads as the number it spells, e.g. "15e2" is 1500 |
| Amounts.MantissaPointed | pesapal.py:51 | "digits.digits" is read as the digits with the point put back, consuming everything |
| Amounts.SignedNumber | pesapal.py:51 | an optional minus sign before a complete mantissa gives that number with that sign |
| Amounts.PointedNumber | pesapal.py:51 | "[-]digits.digits" reads as the exact decimal it spells |
| Amounts.ParsePointed | pesapal.py:51 | "[-]digits.digits" reads as the exact decimal it spells |
| Amounts.GroupedCleaned | pesapal.py:46-50 | cleaning "1,234.50" gives "1234.50" |
| Amounts.GroupedAmount | pesapal.py:46-52 | an amount with a thousands separator, such as "1,000.00", reads as the number without it |
| Amounts.LabelledAmountRejected | pesapal.py:46-52 | an amount with a currency label in front, such as "KES 2,000", is not a number and its row is dropped |
| Sales.AmountOf | pesapal.py:46-52 | a row survives the amount stage exactly when its cleaned amount text reads as a number. It then carries that number and keeps its till, date and bill |
| Sales.MissingAmountDropped | pesapal.py:46-52 | a missing amount is shown as "nan", which is not a number, so the row is dropped |
| Sales.CleanAmounts | pesapal.py:46-52 | every row left after the amount stage comes from an input row whose amount reads |
| Sales.KeepSomeMembers | pesapal.py:42 | dropping the rows that come out missing keeps exactly the results of the rows that come out present |
| Sales.KeepSomeAppend | pesapal.py:52 | dropping works row by row and keeps the order |
| Sales.Memo | pesapal.py:55-58 | the memo is exactly "Till ", the till text, " \| Invoice " and the bill text |
| Sales.AddMemos | pesapal.py:55-58 | every row becomes one sale, in order, with its cells kept and its memo added |
| Sales.AddMemosAppend | pesapal.py:55-58 | the memo stage works row by row |
| Sales.Convert | pesapal.py:30-58 | the cleaning gives at most one sale per row, and each sale's memo is built from its own till and bill |
| Sales.Admit | pesapal.py:36-58 | a row becomes a sale exactly when its till contains `MT01`, its date reads and its amount reads, with the fields listed |
| Sales.StagesOfOne | pesapal.py:36-58 | on a single row the stages give the sale `Admit` gives, or nothing |
| Sales.StagesFuse | pesapal.py:36-58 | the filter and the three stages together are `Admit` applied row by row, in order |
| Sales.ConvertAdmits | pesapal.py:33-58 | the cleaned sales are the admitted rows before the first blank row, in sheet order |
| Sales.ConvertSales | pesapal.py:33-58 | every sale comes from an admitted row before the first blank row, with a date key and an `MT01` till, and every admitted row there gives a sale |
| Sales.ConvertAppend | pesapal.py:33-58 | with no blank row in the first part, cleaning two parts is cleaning each |
| Text.StrLessIrreflexive | pesapal.py:81 | no key sorts before itself |
| Text.StrLessTransitive | pesapal.py:81 | the order of the sorted keys is transitive |
| Text.StrLessTotal | pesapal.py:81 | any two different keys are ordered one way or the other |
| Text.StrLessAppend | pesapal.py:81 | keys of the same length compare by their first differing part |
| Totals.Insert | pesapal.py:81 | a key put into sorted distinct keys keeps them sorted and distinct and adds only that key |
| Totals.DayKeys | pesapal.py:81 | the group keys are sorted, distinct and exactly the dates of the sales |
| Totals.DailyTotals | pesapal.py:81 | one total per key, in key order, each the sum of that day's amounts |
| Totals.TotalsFor | pesapal.py:81 | the totals of the given keys, in their order |
| Totals.DayTotalAbsent | pesapal.py:81 | a date no sale carries has total 0 |
| Totals.SumOfDaysSnoc | pesapal.py:81 | one more sale adds its amount to its day's total only |
| Totals.SumOfDaysInsert | pesapal.py:81 | one more key adds its day's total |
| Totals.DailyTotalsSum | pesapal.py:81 | the day totals add up to the sum of all sale amounts |
| Amounts.RoundHalfEven | pesapal.py:84 | the nearest integer, with ties going to the even one |
| Amounts.RoundHalfEvenUnique | pesapal.py:84 | that integer is the only one with those properties |
| Amounts.ChargeCents | pesapal.py:84 | the charge in cents is within half a cent of 2% of the total |
| Totals.Charges | pesapal.py:83-86 | the charges are no more than the totals, and none is zero |
| Totals.ChargesSnoc | pesapal.py:83-86 | one more day adds its charge, unless that charge rounds to zero |
| Totals.ChargesFrom | pesapal.py:83-86 | every charge is the rounded 2% of some day's total |
| Totals.ChargesCover | pesapal.py:83-86 | every day whose rounded charge is not zero has its charge |
| Totals.ChargesAscend | pesapal.py:83-86 | charges keep the ascending order of the day keys |
| Totals.DailyCharges | pesapal.py:81-86 | the charges are exactly one per sale date whose rounded 2% is not zero, each the rounded 2% of that date's total, in ascending key order |
| Amounts.NegateValue | pesapal.py:76 | negating an amount negates its value, and negating twice changes nothing |
| Amounts.Negate | pesapal.py:76 | negating an amount negates its value and keeps its number of decimal places |
| Amounts.FromCentsValue | pesapal.py:91-94 | a charge in cents is that many hundredths, with its sign |
| Amounts.Normalize | pesapal.py:73-76 | dropping trailing fraction zeros keeps the sign and leaves no trailing zero |
| Amounts.NormalizeValue | pesapal.py:73-76 | dropping trailing fraction zeros keeps the value |
| Amounts.DivModPow10 | pesapal.py:73-76 | the integer part and the fraction digits put together give the magnitude back |
| Amounts.Format | pesapal.py:73-76 | the text of an amount has at least three characters and a point, and starts with '-' exactly when the amount is negative |
| Amounts.FormatRoundTrip | pesapal.py:73-76 | the text written for an amount reads back as the same value with the same sign |
| Iif.JoinEight | pesapal.py:73-94 | an eight-field record is its fields with a tab between each two |
| Iif.EntryText | pesapal.py:73-94 | a TRNS or SPL line is its eight fields with tabs between them, then a newline |
| Iif.Texts | pesapal.py:65-96 | the text of each line, in order |
| Iif.HeaderLines | pesapal.py:66-68 | the header is three declaration lines, none of them a transaction record |
| Iif.RenderAppend | pesapal.py:65-96 | writing two runs of lines one after the other gives their texts one after the other |
| Iif.RenderThree | pesapal.py:72-78 | a block's text is its three lines' texts |
| Iif.SaleBlock | pesapal.py:72-78 | a sale's block is a TRNS entry with the sale's amount, an SPL entry and ENDTRNS, and the two amounts cancel |
| Iif.ChargeMemo | pesapal.py:87 | a charge's memo is 37 characters longer than its date key |
| Iif.ChargeMemoDate | pesapal.py:87 | a charge's memo ends with its date key |
| Iif.ChargeDocNumber | pesapal.py:88 | a charge's document number is at least four characters, at most four longer than the key, and has no '/' |
| Iif.ChargeDocNumberShape | pesapal.py:88 | a charge's document number is "CHG-" followed by the key with every '/' removed |
| Iif.ChargeBlock | pesapal.py:90-96 | a charge's block is a TRNS entry, an SPL entry and ENDTRNS. Both entries carry the day's memo and document number. The SPL amount is the charge in cents over 100 and the TRNS amount is its negation |
| Iif.SaleBlocks | pesapal.py:71-78 | three lines per sale |
| Iif.SaleBlocksAt | pesapal.py:71-78 | lines 3k to 3k+2 of the sale part are the k-th sale's block |
| Iif.ChargeBlocks | pesapal.py:83-96 | three lines per charge |
| Iif.ChargeBlocksAt | pesapal.py:83-96 | lines 3k to 3k+2 of the charge part are the k-th charge's block |
| Iif.ChargeBlocksAppendOne | pesapal.py:83-96 | one more charge adds its block at the end |
| Iif.DocumentLayout | pesapal.py:65-96 | the file is the three header lines, then exactly the sale blocks, then exactly the charge blocks. The header is there even when no sale survives |
| Iif.Document | pesapal.py:65-96 | the file starts with the three header lines and has three lines per sale and three per nonzero daily charge |
| Iif.PiecesOf | pesapal.py:65-96 | where the header, the sale blocks and the charge blocks sit in the file |
| Iif.NetAppend | pesapal.py:71-96 | the net of two runs of lines is the sum of their nets |
| Iif.NetOfThree | pesapal.py:72-78 | the net of a block is the sum of its amounts |
| Iif.SaleBlockBalances | pesapal.py:73-76 | a sale's TRNS and SPL amounts cancel |
| Iif.ChargeBlockBalances | pesapal.py:91-94 | a charge's TRNS and SPL amounts cancel |
| Iif.SaleBlocksBalance | pesapal.py:71-78 | the sale blocks together net to zero |
| Iif.ChargeBlocksBalance | pesapal.py:83-96 | the charge blocks together net to zero |
| Iif.DocumentBalances | pesapal.py:65-96 | the whole file nets to zero |
| Iif.ChargeAmounts | pesapal.py:84-94 | the SPL amount of a charge is the charge in cents over 100, within half a cent of 2% of the day total, and the TRNS amount is its negation |
| Iif.ChargeDocNum | pesapal.py:88 | the document number of a charge is "CHG-" then the key's month, day and year digits: twelve characters, digits after the prefix |
| Iif.LineReadBack | pesapal.py:73-94 | a written TRNS/SPL/ENDTRNS line ends with a newline, splits at its tabs back into its fields, and its amount field reads back as its amount |
| Iif.SaleBlockFields | pesapal.py:73-76 | a sale's TRNS fields are PAYMENT, the date, Pesapal, Walk In, the amount, the memo and the bill. Its SPL fields are the same date, Accounts Receivable, Walk In, the negated amount, the same memo and an empty document number |
| Iif.IifBuffer.constructor | pesapal.py:65 | a new buffer is empty |
| Iif.IifBuffer.Write | pesapal.py:66-96 | a write appends its text to the buffer and changes nothing else |
| Iif.HeaderText | pesapal.py:66-68 | the three header writes put down the header lines' text |
| Iif.WriteHeader | pesapal.py:66-68 | the buffer gains exactly the three header lines |
| Iif.EntryLineText | pesapal.py:73-94 | a record line is its tag and kind, then the other fields separated by tabs, then a newline |
| Iif.SaleTrnsText | pesapal.py:73 | the f-string of a sale's TRNS line is the text of its TRNS record |
| Iif.SaleSplText | pesapal.py:76 | the f-string of a sale's SPL line is the text of its SPL record |
| Iif.ChargeTrnsText | pesapal.py:87-91 | the f-string of a charge's TRNS line is the text of its TRNS record |
| Iif.ChargeSplText | pesapal.py:87-94 | the f-string of a charge's SPL line is the text of its SPL record |
| Iif.BlockWritten | pesapal.py:72-78 | three line writes put down the block's text |
| Iif.WriteSale | pesapal.py:72-78 | one loop pass appends exactly the sale's block |
| Iif.SaleBlocksSnoc | pesapal.py:71-78 | one more sale adds its block's text |
| Iif.WriteSales | pesapal.py:71-78 | the sale loop appends the blocks of all sales, in order |
| Iif.WriteCharge | pesapal.py:87-96 | one loop pass with a nonzero charge appends exactly that day's charge block |
| Iif.ChargeBlocksSnoc | pesapal.py:83-96 | one more day adds nothing when its charge rounds to zero, and its block otherwise |
| Iif.WriteCharges | pesapal.py:83-96 | the charge loop, skipping zero charges, appends the blocks of exactly the nonzero charges, in key order |
| Iif.DocumentText | pesapal.py:65-96 | the file's text is the header's, then the sale blocks', then the charge blocks' |
| Iif.GenerateIif | pesapal.py:65-96 | the buffer at the end holds exactly the text of the document: header, sale blocks, charge blocks |

## Left out

- The Streamlit interface is not modelled: the title, the file uploader, the preview table, the download button and the success and error messages. They are presentation and I/O.
- The reading of the spreadsheet (`read_excel` with 16 rows skipped) and the choice of columns by position are not modelled. The model starts from rows of four cells, each missing (NaN) or holding text.
- Spreadsheet cells that arrive as native dates or numbers, rather than text, are not modelled. Such a cell goes through `astype(str)` or `to_datetime` differently.
- The top-level `try`/`except` is not modelled. It turns any exception into an error message and writes no file.
- Amounts are exact decimals and sums are exact reals. Binary floating point, its rounding in the sum and in `total * 0.02`, and Python's float printing are not modelled.
- Amounts.Format: the text of an amount is the exact decimal without trailing zeros and with at least one fraction digit. This matches Python's float printing for ordinary magnitudes. The exponent notation Python uses for very large or very small floats is not modelled.
- Amounts.Format: `to_numeric` (pesapal.py:51) gives an integer column only when every amount text left after the date filter is written without a point or an exponent and every one of them reads. The file then shows "1000" and "-1000" at lines 73 and 76, where the model writes "1000.0" and "-1000.0". A point anywhere in the column ("1,000.00"), an exponent, or one amount that does not read (it is NaN until the `dropna` at line 52) makes the column float, and then the model's form is the one written. The model always uses the float form.
- Amounts.ChargeCents: the 2% charge is rounded half-to-even on the exact total. Python rounds the binary float `total * 0.02`, which can fall on the other side of a tie.
- Amounts.ParseNumber: the spellings `inf`, `infinity` and `nan`, which pandas also reads as numbers, are not modelled. "nan" is treated as not a number, as it is for a missing cell once `dropna` runs.
- Dates.ParseStamp: the model accepts the years 1 to 9999. pandas' nanosecond time stamps cover 1677-09-21 to 2262-04-11 only, and coerce days outside that range to NaT.
- Dates.ParseStamp: only ASCII digits are recognised as digits, and month names are the English ones of the C locale.
- Currency labels in amounts are not removed. The code strips only commas and the whitespace around the amount, so "KES 2,000" is not a number and its row is dropped, as `Amounts.LabelledAmountRejected` proves.
