/**
 * The part of `config.json` the invoice script reads and writes, held in
 * memory as one mutable object (the script passes one dict around and
 * updates it in place). Absent optional keys are `None`; the script's
 * defaults are applied where the keys are read.
 */
module Configuration {
  import opened Wrappers

  /** One entry of `services`: quantity (default 1) and unit price in cents (default 0). */
  datatype Service = Service(quantity: Option<int>, amountCents: Option<int>)

  class Config<R> {
    /** `exchange_rate`: the resolved EUR/USD rate, `None` (JSON null) when resolution failed. */
    var exchangeRate: Option<R>
    /** `exchange_rate_note`: the sentence shown under the totals ("" when absent). */
    var exchangeRateNote: string
    /** `invoice.last_invoice_number`. */
    var lastInvoiceNumber: int
    /** `invoice.due_days`, default 0. */
    var dueDays: Option<int>
    /** `payment_methods`, default "". */
    var paymentMethods: string
    /** `output_name`, default "Nicolas". */
    var outputName: Option<string>
    /** `services`. */
    var services: seq<Service>
    /** `amount_excl_tax`, in cents. */
    var amountExclTaxCents: int

    constructor (exchangeRate: Option<R>, exchangeRateNote: string, lastInvoiceNumber: int,
                 dueDays: Option<int>, paymentMethods: string, outputName: Option<string>,
                 services: seq<Service>, amountExclTaxCents: int)
      ensures this.exchangeRate == exchangeRate && this.exchangeRateNote == exchangeRateNote
      ensures this.lastInvoiceNumber == lastInvoiceNumber && this.dueDays == dueDays
      ensures this.paymentMethods == paymentMethods && this.outputName == outputName
      ensures this.services == services && this.amountExclTaxCents == amountExclTaxCents
    {
      this.exchangeRate := exchangeRate;
      this.exchangeRateNote := exchangeRateNote;
      this.lastInvoiceNumber := lastInvoiceNumber;
      this.dueDays := dueDays;
      this.paymentMethods := paymentMethods;
      this.outputName := outputName;
      this.services := services;
      this.amountExclTaxCents := amountExclTaxCents;
    }

    /** Writes `exchange_rate` and `exchange_rate_note`; every other key keeps its value. */
    method RecordExchangeRate(rate: Option<R>, note: string)
      modifies this
      ensures exchangeRate == rate && exchangeRateNote == note
      ensures lastInvoiceNumber == old(lastInvoiceNumber) && dueDays == old(dueDays)
      ensures paymentMethods == old(paymentMethods) && outputName == old(outputName)
      ensures services == old(services) && amountExclTaxCents == old(amountExclTaxCents)
    {
      exchangeRate := rate;
      exchangeRateNote := note;
    }

    /** Writes `invoice.last_invoice_number`; every other key keeps its value. */
    method RecordInvoiceNumber(n: int)
      modifies this
      ensures lastInvoiceNumber == n
      ensures exchangeRate == old(exchangeRate) && exchangeRateNote == old(exchangeRateNote)
      ensures dueDays == old(dueDays)
      ensures paymentMethods == old(paymentMethods) && outputName == old(outputName)
      ensures services == old(services) && amountExclTaxCents == old(amountExclTaxCents)
    {
      lastInvoiceNumber := n;
    }
  }
}
