/**
 * Rate resolution of `fetch_and_update_exchange_rate`: the day cubes of the
 * reference feed become a date-to-rate table, a rate is chosen for the
 * invoice date (exact date, else the latest date not after it, else the
 * latest date of all), and the choice is written into the configuration
 * with an explanatory note. Any exception, including the empty table's
 * `sorted(...)[-1]`, becomes a `None` rate and a failure note.
 *
 * The rate is an opaque value `R`; `show` stands for its `:.4f` rendering.
 */
module ExchangeRate {
  import opened Wrappers
  import opened Text
  import opened Calendar
  import opened Configuration

  /** A `<Cube time=...>` of the feed and the rate of its USD child, if it has one. */
  datatype Cube<R> = Cube(time: string, usd: Option<R>)

  /** What fetching and parsing the feed yields: the day cubes in document order, or the exception's text. */
  datatype Feed<R> = Fetched(cubes: seq<Cube<R>>) | FetchFailed(reason: string)

  /** `t` holds, for every date with a USD rate, the rate of the last cube of that date. */
  ghost predicate Tabulates<R>(cubes: seq<Cube<R>>, t: map<string, R>)
  {
    && (forall i :: 0 <= i < |cubes| && cubes[i].usd.Some? ==> cubes[i].time in t)
    && (forall k :: k in t ==>
          exists i :: 0 <= i < |cubes| && cubes[i].time == k && cubes[i].usd == Some(t[k])
                       && SetLast(cubes, i))
  }

  /** No cube after the `i`th sets a rate for the same date. */
  ghost predicate SetLast<R>(cubes: seq<Cube<R>>, i: int)
    requires 0 <= i < |cubes|
  {
    forall j :: i < j < |cubes| ==> cubes[j].time != cubes[i].time || cubes[j].usd.None?
  }

  /** Appending one cube updates the table as the loop body does. */
  lemma TabulatesAppend<R>(init: seq<Cube<R>>, c: Cube<R>, t: map<string, R>)
    requires Tabulates(init, t)
    ensures Tabulates(init + [c], if c.usd.Some? then t[c.time := c.usd.value] else t)
  {
    var cubes := init + [c];
    var t' := if c.usd.Some? then t[c.time := c.usd.value] else t;
    forall i | 0 <= i < |cubes| && cubes[i].usd.Some? ensures cubes[i].time in t' {
      if i < |init| {
        assert cubes[i] == init[i];
      }
    }
    forall k | k in t' ensures exists i :: 0 <= i < |cubes| && cubes[i].time == k && cubes[i].usd == Some(t'[k]) && SetLast(cubes, i) {
      if c.usd.Some? && k == c.time {
        var i := |cubes| - 1;
        assert cubes[i].time == k && cubes[i].usd == Some(t'[k]) && SetLast(cubes, i);
      } else {
        var i :| 0 <= i < |init| && init[i].time == k && init[i].usd == Some(t[k]) && SetLast(init, i);
        assert cubes[i] == init[i] && t'[k] == t[k];
        forall j | i < j < |cubes| ensures cubes[j].time != cubes[i].time || cubes[j].usd.None? {
          if j < |init| {
            assert cubes[j] == init[j];
          }
        }
        assert SetLast(cubes, i);
      }
    }
  }

  /** The `date_to_rate` dict after the loop over the cubes. */
  function RateTable<R>(cubes: seq<Cube<R>>): (t: map<string, R>)
    ensures Tabulates(cubes, t)
  {
    if cubes == [] then map[]
    else
      var init := cubes[..|cubes| - 1];
      var c := cubes[|cubes| - 1];
      var t := RateTable(init);
      TabulatesAppend(init, c, t);
      assert init + [c] == cubes;
      if c.usd.Some? then t[c.time := c.usd.value] else t
  }

  /** The loop of the source that fills `date_to_rate` from the cubes. */
  method BuildRateTable<R>(cubes: seq<Cube<R>>) returns (table: map<string, R>)
    ensures table == RateTable(cubes)
    ensures Tabulates(cubes, table)
  {
    table := map[];
    var i := 0;
    while i < |cubes|
      invariant 0 <= i <= |cubes|
      invariant table == RateTable(cubes[..i])
    {
      var cube := cubes[i];
      assert cubes[..i + 1][..i] == cubes[..i];
      if cube.usd.Some? {
        table := table[cube.time := cube.usd.value];
      }
      i := i + 1;
    }
    assert cubes[..i] == cubes;
  }

  /** The text of the IndexError that `sorted([])[-1]` raises. */
  const EmptyIndexError: string := "list index out of range"

  /** Which rate was chosen and how, or why none was. */
  datatype Selection<R> =
    | Exact(rate: R, date: string)
    | Fallback(rate: R, date: string, requested: string)
    | Latest(rate: R, date: string, requested: string)
    | Failure(reason: string)

  /** The rate-choosing branches of `fetch_and_update_exchange_rate` for a table and a `%Y-%m-%d` key. */
  function SelectRate<R>(table: map<string, R>, requested: string): (s: Selection<R>)
    ensures s.Exact? <==> requested in table
    ensures s.Exact? ==> s.date == requested && s.rate == table[requested]
    ensures s.Fallback? <==> requested !in table && exists k :: k in table && Less(k, requested)
    ensures s.Fallback? ==>
      && s.requested == requested && s.date in table && s.rate == table[s.date]
      && Less(s.date, requested)
      && forall k :: k in table && Less(k, requested) ==> LessEq(k, s.date)
    ensures s.Latest? ==>
      && s.requested == requested && IsMax(s.date, table.Keys) && s.rate == table[s.date]
      && forall k :: k in table ==> Less(requested, k)
    ensures s.Failure? <==> table == map[]
    ensures s.Failure? ==> s.reason == EmptyIndexError
  {
    if requested in table then Exact(table[requested], requested)
    else
      var notAfter := set k | k in table && LessEq(k, requested);
      if notAfter != {} then
        var d := MaxOf(notAfter);
        assert d in table && Less(d, requested);
        Fallback(table[d], d, requested)
      else if table != map[] then
        var d := MaxOf(table.Keys);
        assert forall k :: k in table ==> Less(requested, k) by {
          forall k | k in table ensures Less(requested, k) {
            assert k !in notAfter;
            LessTotal(k, requested);
          }
        }
        assert !exists k :: k in table && Less(k, requested) by {
          forall k | k in table ensures !Less(k, requested) {
            assert k !in notAfter;
          }
        }
        Latest(table[d], d, requested)
      else
        Failure(EmptyIndexError)
  }

  /** The value written to `exchange_rate`. */
  function RateOf<R>(s: Selection<R>): (r: Option<R>)
    ensures r.None? <==> s.Failure?
  {
    if s.Failure? then None else Some(s.rate)
  }

  const AppliedHead: string := "Applied exchange rate: EUR/USD ("
  const AppliedMiddle: string := "), according to the ECB for "
  const FailureHead: string := "Could not fetch exchange rate from ECB. "
  /** The remark after a rate taken from an earlier date. */
  const FallbackWhy: string := " (latest available before invoice date "
  /** The remark after the latest rate when no date at or before the request has one. */
  const LatestWhy: string := " (no rate available for or before invoice date "

  /**
   * The value written to `exchange_rate_note`. A note starts with the
   * applied-rate sentence, carrying the chosen rate and date, exactly when
   * a rate was chosen. An exact note is that sentence alone; a fallback
   * note adds the earlier-date remark and a latest-date note the
   * no-earlier-rate remark, each naming the requested date; a failure note
   * is the fixed failure text followed by the reason.
   */
  function Note<R>(s: Selection<R>, show: R -> string): (note: string)
    ensures s.Failure? <==> !(AppliedHead <= note)
    ensures !s.Failure? ==> AppliedHead + show(s.rate) + AppliedMiddle + s.date <= note
    ensures s.Exact? ==> |note| == |AppliedHead + show(s.rate) + AppliedMiddle + s.date|
    ensures s.Fallback? ==>
      && EndsWith(note, FallbackWhy + s.requested + ")")
      && |note| == |AppliedHead + show(s.rate) + AppliedMiddle + s.date| + |FallbackWhy + s.requested + ")"|
    ensures s.Latest? ==>
      && EndsWith(note, LatestWhy + s.requested + ")")
      && |note| == |AppliedHead + show(s.rate) + AppliedMiddle + s.date| + |LatestWhy + s.requested + ")"|
    ensures s.Fallback? || s.Latest? ==> EndsWith(note, s.requested + ")")
    ensures s.Failure? ==> FailureHead <= note && EndsWith(note, s.reason) && |note| == |FailureHead| + |s.reason|
  {
    match s
    case Exact(r, d) =>
      var applied := AppliedHead + show(r) + AppliedMiddle + d;
      AppliedIsPrefix(show(r), d, applied);
      applied
    case Fallback(r, d, q) =>
      var applied := AppliedHead + show(r) + AppliedMiddle + d;
      var note := applied + FallbackWhy + q + ")";
      AppliedIsPrefix(show(r), d, applied);
      ExplainedNote(applied, FallbackWhy, q);
      note
    case Latest(r, d, q) =>
      var applied := AppliedHead + show(r) + AppliedMiddle + d;
      var note := applied + LatestWhy + q + ")";
      AppliedIsPrefix(show(r), d, applied);
      ExplainedNote(applied, LatestWhy, q);
      note
    case Failure(e) =>
      var note := FailureHead + e;
      assert note[0] != AppliedHead[0];
      EndsWithAppend(FailureHead, e);
      note
  }

  /** The applied-rate sentence starts with its fixed head. */
  lemma AppliedIsPrefix(rate: string, date: string, applied: string)
    requires applied == AppliedHead + rate + AppliedMiddle + date
    ensures AppliedHead <= applied
  {
    ConcatRegroup(AppliedHead, rate, AppliedMiddle, date);
  }

  /**
   * An explained note keeps the sentence in front and ends with the remark,
   * the requested date and ")", and nothing else.
   */
  lemma ExplainedNote(applied: string, why: string, q: string)
    requires AppliedHead <= applied
    ensures var note := applied + why + q + ")";
      && applied <= note && AppliedHead <= note
      && EndsWith(note, why + q + ")") && EndsWith(note, q + ")")
      && |note| == |applied| + |why + q + ")"|
  {
    var note := applied + why + q + ")";
    assert note == applied + (why + q + ")");
    PrefixTransitive(AppliedHead, applied, note);
    EndsWithAppend(applied, why + q + ")");
    assert note == (applied + why) + (q + ")");
    EndsWithAppend(applied + why, q + ")");
  }

  /** The whole resolution for one invoice date: fetch failures and the empty table both fail softly. */
  function Resolve<R>(feed: Feed<R>, invoiceDate: Date): Selection<R>
    requires Valid(invoiceDate)
  {
    match feed
    case FetchFailed(e) => Failure(e)
    case Fetched(cubes) => SelectRate(RateTable(cubes), FormatISO(invoiceDate))
  }

  /**
   * What the resolution means in terms of the feed itself: no rate exactly
   * when the fetch failed or no cube has a USD rate; the exact rate exactly
   * when a cube of the invoice date has one; and any chosen rate is that of
   * the last cube with a USD rate for the chosen date.
   */
  lemma ResolveMeaning<R>(feed: Feed<R>, invoiceDate: Date)
    requires Valid(invoiceDate)
    ensures var s := Resolve(feed, invoiceDate);
      RateOf(s).None? <==> feed.FetchFailed? || forall i :: 0 <= i < |feed.cubes| ==> feed.cubes[i].usd.None?
    ensures var s := Resolve(feed, invoiceDate);
      s.Exact? <==>
        feed.Fetched? &&
        exists i :: 0 <= i < |feed.cubes| && feed.cubes[i].time == FormatISO(invoiceDate) && feed.cubes[i].usd.Some?
    ensures var s := Resolve(feed, invoiceDate);
      !s.Failure? ==>
        feed.Fetched? &&
        exists i :: 0 <= i < |feed.cubes| && feed.cubes[i].time == s.date && feed.cubes[i].usd == Some(s.rate)
                    && SetLast(feed.cubes, i)
  {
    if feed.Fetched? {
      var cubes, key := feed.cubes, FormatISO(invoiceDate);
      var t := RateTable(cubes);
      var s := SelectRate(t, key);
      assert Resolve(feed, invoiceDate) == s;
      if t != map[] {
        var k :| k in t;
        var i :| 0 <= i < |cubes| && cubes[i].time == k && cubes[i].usd == Some(t[k]) && SetLast(cubes, i);
        assert cubes[i].usd.Some?;
      }
      if key in t {
        var i :| 0 <= i < |cubes| && cubes[i].time == key && cubes[i].usd == Some(t[key]) && SetLast(cubes, i);
        assert cubes[i].usd.Some?;
      }
      if !s.Failure? {
        assert s.date in t && s.rate == t[s.date];
        var i :| 0 <= i < |cubes| && cubes[i].time == s.date && cubes[i].usd == Some(t[s.date]) && SetLast(cubes, i);
      }
    }
  }

  /**
   * `fetch_and_update_exchange_rate(config, emission_date)`. An emission
   * date `strptime` rejects raises before anything is fetched (`None`,
   * nothing written); otherwise the same configuration object is returned
   * with only its two exchange-rate keys rewritten.
   */
  method FetchAndUpdateExchangeRate<R>(config: Config<R>, emissionDate: string, feed: Feed<R>, show: R -> string)
    returns (result: Option<Config<R>>)
    modifies config
    ensures ParseDMY(emissionDate).None? ==> result.None?
    ensures ParseDMY(emissionDate).None? ==>
      config.exchangeRate == old(config.exchangeRate) && config.exchangeRateNote == old(config.exchangeRateNote)
    ensures ParseDMY(emissionDate).Some? ==>
      var s := Resolve(feed, ParseDMY(emissionDate).value);
      result == Some(config) && config.exchangeRate == RateOf(s) && config.exchangeRateNote == Note(s, show)
    ensures config.lastInvoiceNumber == old(config.lastInvoiceNumber) && config.dueDays == old(config.dueDays)
    ensures config.paymentMethods == old(config.paymentMethods) && config.outputName == old(config.outputName)
    ensures config.services == old(config.services) && config.amountExclTaxCents == old(config.amountExclTaxCents)
  {
    var parsed := ParseDMY(emissionDate);
    if parsed.None? {
      return None;
    }
    var invoiceDate := parsed.value;
    var selection: Selection<R>;
    match feed {
      case FetchFailed(e) =>
        selection := Failure(e);
      case Fetched(cubes) =>
        var table := BuildRateTable(cubes);
        selection := SelectRate(table, FormatISO(invoiceDate));
    }
    config.RecordExchangeRate(RateOf(selection), Note(selection, show));
    result := Some(config);
  }

  /**
   * The three rules on a table of two dates: the requested date itself,
   * else the later date not after it, else the latest date of all.
   */
  lemma TwoDatesRules<R>(older: string, newer: string, ro: R, rn: R, q: string)
    requires Less(older, newer)
    ensures var t := map[older := ro, newer := rn];
      && (q == newer ==> SelectRate(t, q) == Exact(rn, newer))
      && (Less(newer, q) ==> SelectRate(t, q) == Fallback(rn, newer, q))
      && (Less(older, q) && Less(q, newer) ==> SelectRate(t, q) == Fallback(ro, older, q))
      && (Less(q, older) ==> SelectRate(t, q) == Latest(rn, newer, q))
  {
    var t := map[older := ro, newer := rn];
    LessIrreflexive(older);
    LessAsymmetric(older, newer);
    var s := SelectRate(t, q);
    if Less(newer, q) {
      LessTransitive(older, newer, q);
      LessIrreflexive(q);
      assert s.Fallback? && LessEq(newer, s.date);
      if s.date == older {
        LessAsymmetric(older, newer);
      }
    }
    if Less(older, q) && Less(q, newer) {
      LessIrreflexive(q);
      LessAsymmetric(q, newer);
      assert s.Fallback?;
      assert s.date == older;
    }
    if Less(q, older) {
      LessTransitive(q, older, newer);
      LessIrreflexive(q);
      LessAsymmetric(q, older);
      LessAsymmetric(q, newer);
      assert s.Latest? && LessEq(older, s.date) && LessEq(newer, s.date);
    }
  }

  /** The dates of the worked example differ only in their last character. */
  lemma ExampleDates(a: char, b: char)
    ensures Less("2025-01-2" + [a], "2025-01-2" + [b]) <==> a < b
  {
    LessCommonPrefix("2025-01-2", [a], [b]);
    assert [a][1..] == [] && [b][1..] == [];
    LessIrreflexive([]);
  }

  /**
   * The worked example: rates on 2025-01-23 and 2025-01-26 (D-5 and D-2
   * for D = 2025-01-28) resolve 2025-01-26 exactly, 2025-01-28 to
   * 2025-01-26, 2025-01-25 to 2025-01-23, and 2025-01-20 to the latest.
   */
  lemma WorkedExample<R>(r23: R, r26: R)
    ensures var t := map["2025-01-23" := r23, "2025-01-26" := r26];
      && SelectRate(t, "2025-01-26") == Exact(r26, "2025-01-26")
      && SelectRate(t, "2025-01-28") == Fallback(r26, "2025-01-26", "2025-01-28")
      && SelectRate(t, "2025-01-25") == Fallback(r23, "2025-01-23", "2025-01-25")
      && SelectRate(t, "2025-01-20") == Latest(r26, "2025-01-26", "2025-01-20")
  {
    assert "2025-01-23" == "2025-01-2" + ['3'] && "2025-01-26" == "2025-01-2" + ['6'];
    assert "2025-01-28" == "2025-01-2" + ['8'] && "2025-01-25" == "2025-01-2" + ['5'];
    assert "2025-01-20" == "2025-01-2" + ['0'];
    ExampleDates('3', '6');
    ExampleDates('6', '8');
    ExampleDates('3', '5');
    ExampleDates('5', '6');
    ExampleDates('0', '3');
    TwoDatesRules("2025-01-23", "2025-01-26", r23, r26, "2025-01-26");
    TwoDatesRules("2025-01-23", "2025-01-26", r23, r26, "2025-01-28");
    TwoDatesRules("2025-01-23", "2025-01-26", r23, r26, "2025-01-25");
    TwoDatesRules("2025-01-23", "2025-01-26", r23, r26, "2025-01-20");
  }
}
