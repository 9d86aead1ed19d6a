/**
 * One run of `main`: the reconciliation of the services against the stated
 * total, the next invoice number and identifier, rate resolution, the two
 * output paths, and the persisted increment of the invoice number.
 */
module Invoice {
  import opened Wrappers
  import opened Text
  import opened Calendar
  import opened Numbering
  import opened ExchangeRate
  import opened Configuration

  // ---------------------------------------------------------------------
  // Output file names.
  // ---------------------------------------------------------------------

  /** `meses_en` as the source lists it: an empty string first, then the twelve months. */
  const MonthsAsListed: seq<string> := ["", "January", "February", "March", "April", "May", "June",
    "July", "August", "September", "October", "November", "December"]

  /** The English month names, January first. */
  const EnglishMonths: seq<string> := ["January", "February", "March", "April", "May", "June",
    "July", "August", "September", "October", "November", "December"]

  /**
   * `meses_en[today.month - 1]`: because of the leading empty entry this is
   * the name of the month before `month`, and the empty string in January.
   */
  function OutputMonthName(month: int): (name: string)
    requires 1 <= month <= 12
    ensures month == 1 ==> name == ""
    ensures month > 1 ==> name == EnglishMonths[month - 2]
  {
    MonthsAsListed[month - 1]
  }

  const OutputDir: string := "invoices"
  const DefaultOutputName: string := "Nicolas"

  /** `os.path.join(dir, name)`: an absolute name replaces the directory. */
  function JoinPath(dir: string, name: string): string
  {
    if |name| > 0 && name[0] == '/' then name else dir + "/" + name
  }

  /**
   * The English and the French output paths for a run in `month`: each file
   * is named after the configured name (default "Nicolas") and the listed
   * month, and lies in the output directory unless that name is absolute.
   */
  function OutputPaths(outputName: Option<string>, month: int): (paths: (string, string))
    requires 1 <= month <= 12
    ensures var name := if outputName.Some? then outputName.value else DefaultOutputName;
      && EndsWith(paths.0, name + " - " + OutputMonthName(month) + ".pdf")
      && EndsWith(paths.1, name + " - " + OutputMonthName(month) + " fr.pdf")
      && ((name == [] || name[0] != '/') ==>
            && OutputDir + "/" <= paths.0 && OutputDir + "/" <= paths.1
            && paths.0[|OutputDir| + 1..] == name + " - " + OutputMonthName(month) + ".pdf"
            && paths.1[|OutputDir| + 1..] == name + " - " + OutputMonthName(month) + " fr.pdf")
      && (name != [] && name[0] == '/' ==>
            paths == (name + " - " + OutputMonthName(month) + ".pdf", name + " - " + OutputMonthName(month) + " fr.pdf"))
  {
    var name := if outputName.Some? then outputName.value else DefaultOutputName;
    var stem := name + " - " + OutputMonthName(month);
    (JoinPath(OutputDir, stem + ".pdf"), JoinPath(OutputDir, stem + " fr.pdf"))
  }

  /**
   * The two documents never overwrite each other: the French path is the
   * English one with " fr" before its ".pdf", and both name the month
   * before the run's month.
   */
  lemma OutputPathsDistinct(outputName: Option<string>, month: int)
    requires 1 <= month <= 12
    ensures var (en, fr) := OutputPaths(outputName, month);
      && |en| >= 4 && en[|en| - 4..] == ".pdf"
      && fr == en[..|en| - 4] + " fr.pdf"
      && en != fr
  {
    var name := if outputName.Some? then outputName.value else DefaultOutputName;
    var stem := name + " - " + OutputMonthName(month);
    var base := if |stem| > 0 && stem[0] == '/' then stem else OutputDir + "/" + stem;
    if |stem| > 0 && stem[0] == '/' {
      assert (stem + ".pdf")[0] == '/' && (stem + " fr.pdf")[0] == '/';
    } else {
      assert |stem| > 0 ==> (stem + ".pdf")[0] == stem[0] && (stem + " fr.pdf")[0] == stem[0];
      assert JoinPath(OutputDir, stem + ".pdf") == base + ".pdf";
      assert JoinPath(OutputDir, stem + " fr.pdf") == base + " fr.pdf";
    }
    assert OutputPaths(outputName, month) == (base + ".pdf", base + " fr.pdf");
    PdfPair(base);
  }

  /** Inserting " fr" before ".pdf" changes a file name. */
  lemma PdfPair(base: string)
    ensures var (en, fr) := (base + ".pdf", base + " fr.pdf");
      && |en| >= 4 && en[|en| - 4..] == ".pdf"
      && fr == en[..|en| - 4] + " fr.pdf"
      && en != fr
  {
    var en, fr := base + ".pdf", base + " fr.pdf";
    assert en[..|en| - 4] == base;
    assert |fr| == |en| + 3;
  }

  // ---------------------------------------------------------------------
  // Reconciliation.
  // ---------------------------------------------------------------------

  /** `amount_usd * quantity` for one service, in cents, with the defaults 0 and 1. */
  function LineCents(s: Service): int
  {
    var amount := if s.amountCents.Some? then s.amountCents.value else 0;
    var quantity := if s.quantity.Some? then s.quantity.value else 1;
    amount * quantity
  }

  /**
   * `sum(amount_usd * quantity)` over the services, in cents. Services
   * without a price add nothing; when no line is negative, the total is
   * at least every single line.
   */
  function ServicesTotalCents(services: seq<Service>): (total: int)
    ensures (forall i :: 0 <= i < |services| ==> LineCents(services[i]) == 0) ==> total == 0
    ensures (forall i :: 0 <= i < |services| ==> LineCents(services[i]) >= 0) ==>
      total >= 0 && forall i :: 0 <= i < |services| ==> LineCents(services[i]) <= total
  {
    if services == [] then 0
    else
      var init := services[..|services| - 1];
      assert forall i :: 0 <= i < |init| ==> init[i] == services[i];
      ServicesTotalCents(init) + LineCents(services[|services| - 1])
  }

  /** The total of a service list is the sum of the totals of any two pieces it is cut into. */
  lemma {:induction false} ServicesTotalConcat(a: seq<Service>, b: seq<Service>)
    ensures ServicesTotalCents(a + b) == ServicesTotalCents(a) + ServicesTotalCents(b)
    decreases |b|
  {
    if b != [] {
      var ab, init, last := a + b, b[..|b| - 1], b[|b| - 1];
      assert ab[..|ab| - 1] == a + init;
      assert ab[|ab| - 1] == last;
      assert ServicesTotalCents(ab) == ServicesTotalCents(a + init) + LineCents(last);
      assert ServicesTotalCents(b) == ServicesTotalCents(init) + LineCents(last);
      ServicesTotalConcat(a, init);
    } else {
      assert a + b == a;
    }
  }

  /**
   * Why a run stops before the configuration is saved: the services do not
   * add up to the stated total (`ValueError`), or the due date of the first
   * document falls outside years 1 to 9999 (`OverflowError`).
   */
  datatype RunError =
    | TotalMismatch(servicesCents: int, statedCents: int)
    | DueDateOutOfRange(emission: string, dueDays: int)

  /** What a successful run produces besides the two documents. */
  datatype Issued = Issued(invoiceId: string, number: int, englishPath: string, frenchPath: string, dueDate: string)

  /**
   * `main` on the configuration, today's date and the outcome of the feed
   * fetch. A total that does not reconcile stops the run with nothing
   * changed. Otherwise the invoice gets number `last_invoice_number + 1`
   * and an identifier carrying today's date, and the exchange-rate keys are
   * resolved for today. The first render then computes the due date; when
   * it leaves years 1 to 9999 the run stops there, with the rate keys
   * already rewritten in memory but the number not incremented and nothing
   * saved. Otherwise the new number is recorded and the configuration, as
   * it stands at the end, is what `write_config` saves.
   */
  method RunInvoice<R>(config: Config<R>, today: Date, feed: Feed<R>, show: R -> string)
    returns (outcome: Result<Issued, RunError>)
    requires Valid(today)
    modifies config
    ensures var total := ServicesTotalCents(old(config.services));
      total != old(config.amountExclTaxCents) ==>
        && outcome == Err(TotalMismatch(total, old(config.amountExclTaxCents)))
        && config.lastInvoiceNumber == old(config.lastInvoiceNumber)
        && config.exchangeRate == old(config.exchangeRate)
        && config.exchangeRateNote == old(config.exchangeRateNote)
    ensures var total := ServicesTotalCents(old(config.services));
      var n := old(config.lastInvoiceNumber) + 1;
      var s := Resolve(feed, today);
      total == old(config.amountExclTaxCents) ==>
        && config.exchangeRate == RateOf(s)
        && config.exchangeRateNote == Note(s, show)
    ensures var total := ServicesTotalCents(old(config.services));
      var k := DueDaysOf(old(config.dueDays));
      total == old(config.amountExclTaxCents) && AddDays(today, k).None? ==>
        && outcome == Err(DueDateOutOfRange(FormatDMY(today, '/'), k))
        && config.lastInvoiceNumber == old(config.lastInvoiceNumber)
    ensures var total := ServicesTotalCents(old(config.services));
      var n := old(config.lastInvoiceNumber) + 1;
      var k := DueDaysOf(old(config.dueDays));
      total == old(config.amountExclTaxCents) && AddDays(today, k).Some? ==>
        && outcome.Ok?
        && outcome.value.number == n
        && outcome.value.invoiceId == IdOf(today, n)
        && (outcome.value.englishPath, outcome.value.frenchPath) == OutputPaths(old(config.outputName), today.month)
        && outcome.value.dueDate == FormatDMY(AddDays(today, k).value, '/')
        && config.lastInvoiceNumber == n
    ensures config.dueDays == old(config.dueDays) && config.paymentMethods == old(config.paymentMethods)
    ensures config.outputName == old(config.outputName)
    ensures config.services == old(config.services) && config.amountExclTaxCents == old(config.amountExclTaxCents)
  {
    var total := ServicesTotalCents(config.services);
    if total != config.amountExclTaxCents {
      return Err(TotalMismatch(total, config.amountExclTaxCents));
    }
    var number := config.lastInvoiceNumber + 1;
    var todayStr := FormatDMY(today, '/');
    ParseFormatDMY(today);
    var invoiceId := InvoiceId(todayStr, number);
    var updated := FetchAndUpdateExchangeRate(config, todayStr, feed, show);
    var paths := OutputPaths(config.outputName, today.month);
    var dueDays := DueDaysOf(config.dueDays);
    var due := DueDate(todayStr, config.dueDays);
    if due.None? {
      return Err(DueDateOutOfRange(todayStr, dueDays));
    }
    config.RecordInvoiceNumber(number);
    outcome := Ok(Issued(invoiceId.value, number, paths.0, paths.1, due.value));
  }

  /** Consecutive runs issue different identifiers, whatever their dates. */
  lemma ConsecutiveIdsDiffer(d1: Date, d2: Date, last: int)
    requires Valid(d1) && Valid(d2)
    ensures IdOf(d1, last + 1) != IdOf(d2, last + 2)
  {
    if IdOf(d1, last + 1) == IdOf(d2, last + 2) {
      IdInjective(d1, last + 1, d2, last + 2);
    }
  }
}
