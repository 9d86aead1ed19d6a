# Receipt generator — a Dafny model

`script.py` issues one invoice per run. It reads a JSON configuration,
checks that the service prices add up to the stated amount excluding tax,
takes the next invoice number, builds the identifier `N° #DD-MM-YYYY-XX`
from today's date, fetches the European Central Bank's 90-day EUR/USD
reference feed and chooses a rate for today (the exact date, else the
latest earlier date, else the latest date of all, else a failure note),
renders an English and a French PDF whose file names carry a month name,
and writes the incremented invoice number back to the configuration.

This project models that flow and proves what it promises:

- `Text`: Python's string ordering (code-point lexicographic) as a strict
  total order, the maximum of a set of keys, fixed-width digit rendering and
  parsing, `'\n'.join` and `str.count`.
- `Calendar`: proleptic Gregorian dates for years 1 to 9999, a day ordinal,
  `date + timedelta(days=k)` with its overflow, `%d/%m/%Y` parsing and
  formatting, `%Y-%m-%d` keys whose string order is date order, and the due
  date.
- `Numbering`: `generate_invoice_id`, with the identifier parsed back.
- `Configuration`: the configuration keys the run reads or rewrites, as a
  class updated in place.
- `ExchangeRate`: the date-to-rate table built from the feed (the last cube
  with a USD rate wins), the selection rules, the note texts, and
  `fetch_and_update_exchange_rate` as a method on the configuration.
- `Localisation`: the French translation of the exchange-rate note (the
  regular expression match) and the payment-method text of each language.
- `Layout`: the arithmetic of the page layout — row heights, the split
  table, the summary box with its page break, the text baselines inside the
  box, the bank-details heading with its page break.
- `Invoice`: `main` — reconciliation, numbering, rate resolution, output
  paths, persisted number.

The rate itself is a type parameter `R`, and `show: R -> string` stands for
its `:.4f` rendering. The fetched feed is a parameter (`Feed`): either the
cubes in document order, each with a time attribute and an optional USD
rate, or a failure with the text of the exception. Today's date is a
parameter of `Invoice.RunInvoice`.

The month name in the output file names is the one the code computes:
`meses_en` starts with an empty string and is indexed with `month - 1`, so
the files carry the previous month's name, and no name in January.
`Invoice.OutputMonthName` states this outright. The two ways the run stops
are cases of `Invoice.RunError`: Python's `ValueError` on a mismatched total
and its `OverflowError` when the due date leaves years 1 to 9999.

## Model

| member | source | states |
|---|---|---|
| Text.LessIrreflexive | script.py:64 | no key sorts strictly before itself |
| Text.LessAsymmetric | script.py:64 | two keys never sort before each other |
| Text.LessTransitive | script.py:64 | string order is transitive |
| Text.LessTotal | script.py:64 | any two distinct keys are ordered one way or the other, so `sorted` has a last element |
| Text.LessAppend | script.py:64 | comparing two concatenations with equal-length heads compares the heads first, then the tails |
| Text.LessCommonPrefix | script.py:64 | a shared prefix does not change the order of two strings |
| Text.LessIsLexicographic | script.py:64 | string order is the lexicographic order on code points: a proper prefix comes first, otherwise the first differing character decides |
| Text.MaxExists | script.py:64-66 | every non-empty key set has a greatest element |
| Text.MaxUnique | script.py:66 | the greatest element is unique |
| Text.MaxOf | script.py:66 | the chosen key is in the set and no key of the set is greater (the last of `sorted(...)`) |
| Text.DigitChar | script.py:39 | a digit value renders as a decimal digit character |
| Text.DigitValue | script.py:38 | a digit character reads back as the value that renders it |
| Text.Decimal | script.py:39 | the decimal rendering of a natural number is non-empty and all digits |
| Text.Fixed | script.py:38 | a zero-padded field has exactly the requested width and only digits |
| Text.ParseDecimal | script.py:39 | reading back a decimal rendering gives the number |
| Text.DecimalLeadingDigit | script.py:39 | a decimal rendering starts with '0' exactly when the number is 0 |
| Text.DecimalLength | script.py:39 | the rendering has two or more digits exactly from 10 on, three or more exactly from 100 on |
| Text.ParseFixed | script.py:38 | reading back a zero-padded field gives the number when it fits the width |
| Text.FixedParse | script.py:38 | re-padding a parsed digit string gives the same string |
| Text.ParseDigitsBound | script.py:38 | a string of w digits reads as a number below 10^w |
| Text.CountAppend | script.py:273 | newline counts add over concatenation |
| Text.CountAbsent | script.py:273 | a string without the character counts zero of it |
| Text.CountJoin | script.py:105 | joining k newline-free lines with newlines gives k-1 newlines (0 for no lines) |
| Calendar.DaysInMonth | script.py:190 | every month has 28 to 31 days |
| Calendar.YearIsTwelveMonths | script.py:190 | the twelve months fill the year exactly |
| Calendar.MonthsBeforeEnd | script.py:190 | every month ends within its year |
| Calendar.DaysBeforeMonthMonotone | script.py:190 | a later month starts no earlier than an earlier one ends |
| Calendar.DaysBeforeYearMonotone | script.py:190 | a later year starts no earlier than an earlier one ends |
| Calendar.FromMonthDayCorrect | script.py:190 | the month-by-month walk yields a valid date in that year with the given offset |
| Calendar.FromYearDayCorrect | script.py:190 | the year-by-year walk yields a valid date with the given ordinal while within year 9999 |
| Calendar.DayNumberOfFromDayNumber | script.py:190 | civil-from-days (`FromDayNumber`) inverts days-from-civil (`DayNumber`): every ordinal in range is the ordinal of the date computed from it |
| Calendar.FromDayNumberOfDayNumber | script.py:190 | days-from-civil (`DayNumber`) inverts civil-from-days (`FromDayNumber`): every valid date has an ordinal in range and is recovered from it |
| Calendar.DayNumberInjective | script.py:190 | distinct valid dates have distinct ordinals |
| Calendar.AddDays | script.py:190 | adding k days succeeds exactly when the result stays within years 1 to 9999 (else OverflowError), and then moves the ordinal by exactly k |
| Calendar.AddOneDay | script.py:190 | adding one day gives the independently defined next calendar day |
| Calendar.AddZeroDays | script.py:188-190 | adding zero days gives the same date |
| Calendar.AddDaysCompose | script.py:190 | adding a then b days is adding a+b days |
| Calendar.AddDaysWithinMonth | script.py:190 | within a month only the day moves |
| Calendar.AddDaysIntoNextMonth | script.py:190 | passing the month end carries into the next month |
| Calendar.AddDaysIntoNextYear | script.py:190 | passing 31 December carries into January of the next year |
| Calendar.FormatDMY | script.py:38 | a formatted date has ten characters with the separator at positions 2 and 5 |
| Calendar.FormatDMYFields | script.py:38 | day, month and year sit at fixed positions of the rendering, between the two separators |
| Calendar.FormatISO | script.py:56 | a `%Y-%m-%d` key has ten characters with dashes at positions 4 and 7 |
| Calendar.IsoTail | script.py:56 | the `-%m-%d` part of a key has six characters with dashes at positions 0 and 3 |
| Calendar.ParseDMY | script.py:42 | an accepted date string has ten characters with "/" at positions 2 and 5 and names a real date |
| Calendar.ParseFormatDMY | script.py:435-436 | parsing the `%d/%m/%Y` rendering of a valid date gives that date back |
| Calendar.FormatParseDMY | script.py:38 | every accepted date string is the rendering of the date it parses to |
| Calendar.LessFixed | script.py:64 | equal-width zero-padded numbers compare as strings exactly as they compare as numbers |
| Calendar.DayNumberBounds | script.py:190 | a date's ordinal lies within its month and its year |
| Calendar.DayNumberOrder | script.py:64 | a date earlier by year, month, day has a smaller ordinal |
| Calendar.IsoTailOrder | script.py:56-64 | one `-%m-%d` part sorts before another exactly when its month is earlier, or the month is the same and the day earlier |
| Calendar.IsoOrderIsFieldOrder | script.py:56-64 | one `%Y-%m-%d` key sorts before another exactly when its date comes first by year, then month, then day |
| Calendar.IsoOrderIsDateOrder | script.py:57-73 | one `%Y-%m-%d` key sorts before another exactly when its date is earlier |
| Calendar.DueDate | script.py:188-191 | an unparsable emission date gives no due date; a due date is a parsable date exactly `due_days` (default 0) after the emission date |
| Calendar.DueDateDefault | script.py:188 | with `due_days` absent or 0 the due date is the emission date |
| Calendar.DueDateDefined | script.py:189-191 | when the sum stays in range the due date is the rendering of the shifted date |
| Calendar.DueDateExample | script.py:188-191 | 28/01/2025 with 10 due days is due 07/02/2025 |
| Numbering.Format02 | script.py:39 | `{number:02d}` is at least two characters wide and starts with a minus sign exactly for negative numbers |
| Numbering.Format02Shape | script.py:39 | non-negative numbers render as digits only, a single digit after a leading zero, from 10 on the plain decimal |
| Numbering.ParseFormat02 | script.py:39 | the number field reads back as the number |
| Numbering.InvoiceId | script.py:36-39 | an identifier exists exactly for a parsable date; it is the identifier of that date and number, and it parses back to that date and number |
| Numbering.InvoiceIdCopiesDate | script.py:36-39 | the identifier is the prefix, then the day, month and year of the date string joined by dashes, then the padded number |
| Numbering.ParseIdOf | script.py:36-39 | an identifier parses back to its date and number |
| Numbering.IdInjective | script.py:36-39 | two identifiers are equal only for the same date and number |
| Configuration.Config.constructor | script.py:28-30 | the loaded configuration holds exactly the given values |
| Configuration.Config.RecordExchangeRate | script.py:59-81 | writes the rate and the note and nothing else |
| Configuration.Config.RecordInvoiceNumber | script.py:458 | writes the invoice number and nothing else |
| ExchangeRate.TabulatesAppend | script.py:51-55 | one more cube keeps the table equal to "the last cube with a USD rate for each date" |
| ExchangeRate.RateTable | script.py:50-55 | the table maps each date that has a USD cube to the rate of the last such cube, and holds no other date |
| ExchangeRate.BuildRateTable | script.py:50-55 | the loop builds exactly that table |
| ExchangeRate.SelectRate | script.py:56-78 | exact rate exactly when the date is a key; otherwise the greatest earlier key exactly when one exists; otherwise the greatest key of all, every key then being later; the empty table fails with the IndexError text |
| ExchangeRate.RateOf | script.py:62-81 | the stored rate is `None` exactly on failure |
| ExchangeRate.Note | script.py:58-81 | the note starts with the applied-rate sentence, with the chosen rate and date, exactly when a rate was chosen; an exact note is that sentence alone; a fallback note adds "(latest available before invoice date" and a latest-date note "(no rate available for or before invoice date", each with the requested date and nothing after it; a failure note is the fixed failure text followed by the reason |
| ExchangeRate.ResolveMeaning | script.py:45-81 | no rate is stored exactly when the fetch failed or no cube of the feed has a USD rate; the exact rate is chosen exactly when a cube of the invoice date has a USD rate; any chosen rate and date are those of the last cube with a USD rate for that date |
| ExchangeRate.FetchAndUpdateExchangeRate | script.py:41-82 | an unparsable emission date raises with the rate unchanged; otherwise the same configuration comes back with rate and note set from the selection and every other key unchanged |
| ExchangeRate.TwoDatesRules | script.py:56-78 | on a two-date table: the later date itself, a request between the two, one after both, one before both |
| ExchangeRate.ExampleDates | script.py:64 | ISO keys differing in one digit order by that digit |
| ExchangeRate.WorkedExample | script.py:56-78 | with rates for 2025-01-23 and 2025-01-26: requests for 26, 28, 25 and 20 January give exact, fallback, fallback and latest |
| Localisation.FirstIndexOf | script.py:180 | the index of the first occurrence, or the length when there is none |
| Localisation.MatchAppliedNote | script.py:180 | a match yields a rate group, non-empty and free of ')', and a date of the `\d{4}-\d{2}-\d{2}` shape |
| Localisation.MatchAppliedNoteSound | script.py:180 | the matched groups, with the fixed English texts around them, start the note |
| Localisation.MatchAppliedNoteComplete | script.py:180-182 | every note that starts with such a rate and date matches, with those groups, whatever follows |
| Localisation.FrenchNote | script.py:178-185 | a note that does not match is kept as it is |
| Localisation.FrenchNoteOfApplied | script.py:181-183 | a matching note becomes the French sentence on the same rate and date, its suffix dropped |
| Localisation.FrenchNoteOfSelection | script.py:178-185 | every note the rate update writes translates to the French sentence for its rate and date; the failure note stays in English |
| Localisation.IsoShapedFormatISO | script.py:180 | every `%Y-%m-%d` key of a date has the shape of the pattern's date group |
| Localisation.FrenchNoteOfResolved | script.py:178-185 | when the feed's dates are `%Y-%m-%d` keys and the rate rendering has no ")", the note of today's resolution translates to the French sentence on its rate and date, which is today's key for an exact match; a failure note stays in English |
| Localisation.LeadingSpaces | script.py:344 | the count stays within the string and the character after the counted prefix is not whitespace |
| Localisation.LeadingSpacesAreSpace | script.py:344 | the counted prefix is all whitespace |
| Localisation.TrailingSpaces | script.py:344 | the count stays within the string and the character before the counted suffix is not whitespace |
| Localisation.TrailingSpacesAreSpace | script.py:344 | the counted suffix is all whitespace |
| Localisation.Strip | script.py:344 | the result is no longer than the input, and neither end of it is whitespace |
| Localisation.StripRemovesOnlySpace | script.py:344 | the input is the stripped result between a run of whitespace before it and one after it |
| Localisation.StripAround | script.py:344 | a word that starts and ends with non-whitespace strips back to itself from between any two runs of whitespace |
| Localisation.LowerAscii | script.py:344 | lower-casing keeps the length and lower-cases each character in place |
| Localisation.LowerAsciiLowers | script.py:344 | the lower-cased text has no capital letter left, every other character is unchanged, and lower-casing it again changes nothing |
| Localisation.PaymentMethodText | script.py:343-349 | the text is a space followed by the configured value exactly as written, except for a transfer in the French document, which prints "Virement" |
| Localisation.IsTransferMeaning | script.py:344 | a value counts as "transfer" exactly when it is whitespace, then the eight letters of "transfer" in any mix of capitals and small letters, then whitespace |
| Localisation.FrenchPaymentMethod | script.py:344-347 | "transfer" in any case with surrounding whitespace becomes " Virement", anything else gets the English text; the result is " Virement" exactly for those values and for "Virement" itself |
| Localisation.LowerAsciiExample | script.py:344 | "Transfer" lower-cases to "transfer" |
| Localisation.StripExample | script.py:344 | "  Transfer\n" strips to "Transfer" |
| Localisation.TransferExample | script.py:344-345 | "  Transfer\n" is shown as " Virement" in French |
| Layout.RowHeights | script.py:271-275 | a header row of 20, then for each service 11 points per description line plus 10, each at least 21 |
| Layout.RowHeight | script.py:273-274 | every service row is at least 21 points high, a whole number of 11-point lines plus 10 |
| Layout.WrappedRowHeight | script.py:271-275 | a description wrapped to k lines gets a row of 11k+10 points (one line when empty) |
| Layout.SummaryHeight | script.py:315-316 | the summary box is at least 104 points tall |
| Layout.PlaceSummary | script.py:317-325 | the box moves to a new page exactly when its bottom would pass 130 points; staying, it keeps its place above that floor; moving, it hangs from the fresh page's top |
| Layout.SummaryAboveFloor | script.py:317-325 | a box that fits a fresh page never ends below the floor |
| Layout.SummaryBaselines | script.py:329-385 | five label rows then the note lines, strictly top to bottom, all below the box's top; all stay above the box's bottom exactly when 14 per drawn line is less than 16 per measured line plus 18 |
| Layout.PlaceBank | script.py:386-395 | the bank heading moves to a new page exactly when the cursor is below 130 points and never lands below it |
| Layout.TableBottom | script.py:299-310 | with non-negative part heights, a table on one page ends no higher than it started, and a split table ends no higher than the top margin of its last page |
| Layout.PlanDocument | script.py:294-395 | pages, summary position and bank heading position follow the cursor through the table parts and both page-break rules; one page plus one per continuation part and per break |
| Invoice.OutputMonthName | script.py:444-445 | the month name in the file names is the previous month's name, and empty in January |
| Invoice.OutputPaths | script.py:443-453 | the two file names are the configured name (default "Nicolas"), " - ", the listed month and ".pdf" or " fr.pdf"; for a relative name each path is exactly the output directory, "/" and the file name; an absolute name is the whole path |
| Invoice.OutputPathsDistinct | script.py:443-453 | the English path ends in ".pdf", the French path is the same with " fr" before ".pdf", so the two never coincide |
| Invoice.ServicesTotalCents | script.py:429 | services without a price add nothing; when no line is negative, the total is non-negative and at least every single line |
| Invoice.ServicesTotalConcat | script.py:428-429 | the services total is additive over any cut of the service list |
| Invoice.RunInvoice | script.py:425-459 | a mismatched total stops the run with the number and rate unchanged; otherwise the rate keys are today's selection; a due date (today plus `due_days`) outside years 1 to 9999 then stops the run with the number unchanged; otherwise the number is the last plus one, the identifier is that of today's date and that number, the paths are those of the configured name and month, the due date is the rendering of the shifted date, and the new number is stored; other keys are unchanged |
| Invoice.ConsecutiveIdsDiffer | script.py:433-458 | two consecutive runs never issue the same identifier |

## Left out

- PDF drawing (reportlab canvas, colours, fonts, boxes, the table's own
  rendering and `Table.split`): the heights of the split table parts are
  inputs of `Layout.PlanDocument`, and the line counts `textwrap` produces
  are inputs of the layout members.
- `textwrap.wrap` itself: its word-breaking is not modelled; only the joined
  and counted result of its lines is.
- The company, receiver and bank-details blocks (`draw_box`,
  `draw_wrapped_text`): they only draw text, and the cursor moves they make
  after the bank heading decide nothing.
- The label dictionaries, the payment-term text and the `:,.2f` money
  columns: fixed texts and float formatting.
- Reading and writing `config.json` (`read_config`, `write_config`): the
  configuration is a `Configuration.Config` object; the JSON encoding is not
  modelled.
- The HTTP request and the XML parsing: the outcome is the `Feed` parameter.
  Any exception they raise is a `FetchFailed` with its message.
- `date.today()` and the unused `today` in the rate update: today's date is
  a parameter.
- `ECB_API`: the constant is never used by the code.
- `extract_text_from_pdf`: its only call is commented out, and its import
  is commented out.
- Floating point: rates are the abstract type `R`, `:.4f` is the `show`
  parameter, and layout arithmetic is exact `real` arithmetic.
- Invoice.RunInvoice: reconciliation compares integer cents, which stands
  for `round(total, 2) != round(amount_excl_tax, 2)` on floats; float
  rounding effects are not captured.
- Invoice.RunInvoice: of the ways the two renders can fail, only the
  due-date overflow is modelled; a missing configuration key, a file-system
  error or a drawing error stops the real run too, with the same effect on
  the configuration (nothing saved).
- Calendar.ParseDMY: accepts only a two-digit day and month and a
  four-digit year, all in ASCII digits; `strptime` also accepts a one-digit
  day or month, a space-padded day, and other Unicode decimal digits.
  Every date the program itself formats has the canonical shape.
- Calendar.FormatDMY: years are padded to four digits; `strftime` on some
  platforms does not pad years below 1000.
- Calendar.FormatISO: the same four-digit padding of `%Y` is assumed for
  the ISO key.
- Localisation.MatchAppliedNote: `\d` is taken as an ASCII digit, while
  Python's `re` also matches other Unicode decimal digits.
- Localisation.LowerAscii: lower-cases ASCII letters only. For the one
  comparison the program makes this is exact: the only non-ASCII character
  whose lower case is a single ASCII letter is the Kelvin sign (to "k"),
  which is not a letter of "transfer".
- Calendar.DueDate: `due_days` is taken to be an integer; a float or a
  non-number in the configuration is not modelled.
- Configuration.Config: an absent `exchange_rate_note` is the empty string,
  as `config.get` returns it.
- The sizes of the summary box are measured on the configuration's VAT and
  exchange-rate notes while the French document draws its own VAT label and
  the translated note; `Layout.SummaryBaselines` takes both line counts
  separately and states when the drawn text overruns the box.
