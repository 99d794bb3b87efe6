/** The exchange-rate cache.

    For every supported crypto currency the cache holds a table from block
    height to the fiat rates at that height, plus the height of the
    currency's last block.  It is filled from the `exchange_rates` table of
    the store and read by the value conversions of every other service.
    Fiat rates are only copied, never combined, so they are plain reals. */
module Rates {
  import opened Wrappers

  /** One row of the `exchange_rates` table: its `height` column and the other columns. */
  datatype RateRow = RateRow(height: int, columns: map<string, real>)

  /** `ExchangeRate(height, rates)`, as cached and as returned by `to_dict()`. */
  datatype ExchangeRate = ExchangeRate(height: int, rates: map<string, real>)

  datatype RatesError =
    | UnknownCurrency(currency: string)          // no (or an empty) table for the currency
    | UnknownHeight(height: int, currency: string)
    | NoRowReturned(height: int)                 // a rate query that succeeded with no row

  /** The outcome of one concurrent per-height query of `list_rates`. */
  datatype RateQuery = QueryFailed | QuerySucceeded(rows: seq<RateRow>)

  /** What the store holds for one crypto currency when the cache is loaded:
      the column names of the rates table, `no_blocks` from the statistics,
      and the rows of the table in the order the store yields them. */
  datatype RateSource = RateSource(schemaColumns: seq<string>, noBlocks: int, rows: seq<RateRow>)

  /** The rates served in development mode. */
  const DummyRates: map<string, real> := map["eur" := 0.5, "usd" := 0.5]

  // ---------------------------------------------------------------------
  // Supported fiat currencies

  /** The rates-table columns other than `height`, in schema order. */
  function SupportedFiatCurrencies(columns: seq<string>): (r: seq<string>)
    ensures forall x :: x in r <==> x in columns && x != "height"
    ensures multiset(r) == multiset(columns)["height" := 0]
  {
    if columns == [] then []
    else
      var init := columns[..|columns| - 1];
      var last := columns[|columns| - 1];
      assert columns == init + [last];
      var r0 := SupportedFiatCurrencies(init);
      if last == "height" then r0 else r0 + [last]
  }

  /** Filtering commutes with concatenation: the schema order is kept. */
  lemma {:induction false} SupportedFiatAppend(a: seq<string>, b: seq<string>)
    ensures SupportedFiatCurrencies(a + b) == SupportedFiatCurrencies(a) + SupportedFiatCurrencies(b)
    decreases |b|
  {
    if b == [] {
      assert a + b == a;
    } else {
      var init := b[..|b| - 1];
      assert (a + b)[..|a + b| - 1] == a + init;
      SupportedFiatAppend(a, init);
    }
  }

  /** `load_supported_fiat_currencies`, over the column names the schema query returned. */
  method LoadSupportedFiatCurrencies(columns: seq<string>) returns (currencies: seq<string>)
    ensures currencies == SupportedFiatCurrencies(columns)
  {
    currencies := [];
    var i := 0;
    while i < |columns|
      invariant 0 <= i <= |columns|
      invariant currencies == SupportedFiatCurrencies(columns[..i])
    {
      assert columns[..i + 1][..i] == columns[..i];
      if columns[i] != "height" {
        currencies := currencies + [columns[i]];
      }
      i := i + 1;
    }
    assert columns[..i] == columns;
  }

  // ---------------------------------------------------------------------
  // The cached table of one currency

  /** Every row carries every supported fiat column. */
  predicate Covers(rows: seq<RateRow>, fiats: seq<string>) {
    forall i, f :: 0 <= i < |rows| && f in fiats ==> f in rows[i].columns
  }

  /** The rates record of one row: its supported fiat columns only. */
  function RecordOf(row: RateRow, fiats: seq<string>): (r: map<string, real>)
    requires forall f :: f in fiats ==> f in row.columns
    ensures forall f :: f in r <==> f in fiats
    ensures forall f :: f in r ==> r[f] == row.columns[f]
  {
    map f | f in fiats :: row.columns[f]
  }

  /** Every entry of a table is stored under its own height. */
  predicate KeyedByHeight(t: map<int, ExchangeRate>) {
    forall h :: h in t ==> t[h].height == h
  }

  /** The table built by the loop of `load_rates` on an empty table: later
      rows with the same height overwrite earlier ones. */
  function TableOf(rows: seq<RateRow>, fiats: seq<string>): (t: map<int, ExchangeRate>)
    requires Covers(rows, fiats)
    ensures KeyedByHeight(t)
  {
    if rows == [] then map[]
    else
      var init := rows[..|rows| - 1];
      var last := rows[|rows| - 1];
      assert forall i :: 0 <= i < |init| ==> init[i] == rows[i];
      var t0 := TableOf(init, fiats);
      t0[last.height := ExchangeRate(last.height, RecordOf(last, fiats))]
  }

  /** The table has an entry for exactly the heights the rows carry. */
  lemma {:induction false} TableOfKeys(rows: seq<RateRow>, fiats: seq<string>, h: int)
    requires Covers(rows, fiats)
    ensures h in TableOf(rows, fiats) <==> exists i :: 0 <= i < |rows| && rows[i].height == h
  {
    if rows != [] {
      var init := rows[..|rows| - 1];
      assert forall i :: 0 <= i < |init| ==> init[i] == rows[i];
      TableOfKeys(init, fiats, h);
    }
  }

  /** The entry under a height is built from the last row with that height. */
  lemma {:induction false} LastRowWins(rows: seq<RateRow>, fiats: seq<string>, i: nat)
    requires Covers(rows, fiats)
    requires i < |rows|
    requires forall j :: i < j < |rows| ==> rows[j].height != rows[i].height
    ensures rows[i].height in TableOf(rows, fiats)
    ensures TableOf(rows, fiats)[rows[i].height] == ExchangeRate(rows[i].height, RecordOf(rows[i], fiats))
  {
    if i < |rows| - 1 {
      var init := rows[..|rows| - 1];
      assert init[i] == rows[i];
      LastRowWins(init, fiats, i);
    }
  }

  /** The whole table for a currency after a reload from `source`. */
  function Loaded(source: RateSource): map<int, ExchangeRate>
    requires Covers(source.rows, SupportedFiatCurrencies(source.schemaColumns))
  {
    TableOf(source.rows, SupportedFiatCurrencies(source.schemaColumns))
  }

  predicate SourcesCover(currencies: seq<string>, sources: map<string, RateSource>) {
    forall c :: c in currencies ==>
      c in sources && Covers(sources[c].rows, SupportedFiatCurrencies(sources[c].schemaColumns))
  }

  /** The tables after reloading `currencies` in order, starting from `cached`. */
  function Reloaded(cached: map<string, map<int, ExchangeRate>>, currencies: seq<string>,
                    sources: map<string, RateSource>): (r: map<string, map<int, ExchangeRate>>)
    requires SourcesCover(currencies, sources)
  {
    if currencies == [] then cached
    else
      var init := currencies[..|currencies| - 1];
      var c := currencies[|currencies| - 1];
      assert forall x :: x in init ==> x in currencies;
      Reloaded(cached, init, sources)[c := Loaded(sources[c])]
  }

  /** The last-block heights after reloading `currencies` in order. */
  function LastHeights(lastHeight: map<string, int>, currencies: seq<string>,
                       sources: map<string, RateSource>): (r: map<string, int>)
    requires forall c :: c in currencies ==> c in sources
  {
    if currencies == [] then lastHeight
    else
      var init := currencies[..|currencies| - 1];
      var c := currencies[|currencies| - 1];
      assert forall x :: x in init ==> x in currencies;
      LastHeights(lastHeight, init, sources)[c := sources[c].noBlocks - 1]
  }

  lemma SourcesCoverPrefix(currencies: seq<string>, sources: map<string, RateSource>, i: nat)
    requires SourcesCover(currencies, sources) && i <= |currencies|
    ensures SourcesCover(currencies[..i], sources)
  {
  }

  lemma ReloadedStep(cached: map<string, map<int, ExchangeRate>>, currencies: seq<string>,
                     sources: map<string, RateSource>, i: nat)
    requires SourcesCover(currencies, sources) && i < |currencies|
    ensures SourcesCover(currencies[..i], sources) && SourcesCover(currencies[..i + 1], sources)
    ensures Reloaded(cached, currencies[..i + 1], sources) ==
              Reloaded(cached, currencies[..i], sources)[currencies[i] := Loaded(sources[currencies[i]])]
  {
    SourcesCoverPrefix(currencies, sources, i);
    SourcesCoverPrefix(currencies, sources, i + 1);
    assert currencies[..i + 1][..i] == currencies[..i];
  }

  lemma LastHeightsStep(lastHeight: map<string, int>, currencies: seq<string>,
                        sources: map<string, RateSource>, i: nat)
    requires (forall c :: c in currencies ==> c in sources) && i < |currencies|
    ensures LastHeights(lastHeight, currencies[..i + 1], sources) ==
              LastHeights(lastHeight, currencies[..i], sources)[currencies[i] := sources[currencies[i]].noBlocks - 1]
  {
    assert currencies[..i + 1][..i] == currencies[..i];
  }

  /** A reload replaces the table of every listed currency by the table of
      its source, and leaves every other currency as it was. */
  lemma {:induction false} ReloadedTables(cached: map<string, map<int, ExchangeRate>>, currencies: seq<string>,
                                          sources: map<string, RateSource>, c: string)
    requires SourcesCover(currencies, sources)
    ensures c in currencies ==> c in Reloaded(cached, currencies, sources) &&
                                Reloaded(cached, currencies, sources)[c] == Loaded(sources[c])
    ensures c !in currencies ==> (c in Reloaded(cached, currencies, sources) <==> c in cached) &&
                                 (c in cached ==> Reloaded(cached, currencies, sources)[c] == cached[c])
  {
    if currencies != [] {
      var init := currencies[..|currencies| - 1];
      var last := currencies[|currencies| - 1];
      assert currencies == init + [last];
      assert c in currencies <==> c in init || c == last;
      SourcesCoverPrefix(currencies, sources, |currencies| - 1);
      ReloadedTables(cached, init, sources, c);
      assert Reloaded(cached, currencies, sources) == Reloaded(cached, init, sources)[last := Loaded(sources[last])];
    }
  }

  /** A reload sets the last-block height of every listed currency to `no_blocks - 1`. */
  lemma {:induction false} ReloadedHeights(lastHeight: map<string, int>, currencies: seq<string>,
                                           sources: map<string, RateSource>, c: string)
    requires forall x :: x in currencies ==> x in sources
    ensures c in currencies ==> c in LastHeights(lastHeight, currencies, sources) &&
                                LastHeights(lastHeight, currencies, sources)[c] == sources[c].noBlocks - 1
    ensures c !in currencies ==> (c in LastHeights(lastHeight, currencies, sources) <==> c in lastHeight) &&
                                 (c in lastHeight ==> LastHeights(lastHeight, currencies, sources)[c] == lastHeight[c])
  {
    if currencies != [] {
      var init := currencies[..|currencies| - 1];
      assert forall x :: x in init ==> x in currencies;
      assert currencies == init + [currencies[|currencies| - 1]];
      ReloadedHeights(lastHeight, init, sources, c);
    }
  }

  /** The inner loop of `load_rates`: copy the supported fiat columns of a row. */
  method ProjectRow(row: RateRow, fiats: seq<string>) returns (rates: map<string, real>)
    requires forall f :: f in fiats ==> f in row.columns
    ensures rates == RecordOf(row, fiats)
  {
    rates := map[];
    var j := 0;
    while j < |fiats|
      invariant 0 <= j <= |fiats|
      invariant forall f :: f in rates <==> f in fiats[..j]
      invariant forall f :: f in rates ==> rates[f] == row.columns[f]
    {
      assert forall f :: f in fiats[..j + 1] <==> f in fiats[..j] || f == fiats[j];
      rates := rates[fiats[j] := row.columns[fiats[j]]];
      j := j + 1;
    }
    assert fiats[..j] == fiats;
  }

  /** One more row extends the table by one entry. */
  lemma TableOfStep(rows: seq<RateRow>, fiats: seq<string>, k: nat)
    requires Covers(rows, fiats) && k < |rows|
    ensures Covers(rows[..k], fiats) && Covers(rows[..k + 1], fiats)
    ensures TableOf(rows[..k + 1], fiats) ==
              TableOf(rows[..k], fiats)[rows[k].height := ExchangeRate(rows[k].height, RecordOf(rows[k], fiats))]
  {
    assert rows[..k + 1][..k] == rows[..k];
  }

  lemma UpdateAfterUnion<K, V>(a: map<K, V>, b: map<K, V>, k: K, v: V)
    ensures (a + b)[k := v] == a + b[k := v]
  {
  }

  class RateCache {
    /** `CACHED_EXCHANGE_RATES`: currency -> height -> rates. */
    var cached: map<string, map<int, ExchangeRate>>
    /** `LAST_BLOCK_HEIGHT`: currency -> height of its last block. */
    var lastHeight: map<string, int>

    ghost predicate Valid()
      reads this
    {
      && cached.Keys <= lastHeight.Keys
      && forall c :: c in cached ==> KeyedByHeight(cached[c])
    }

    constructor ()
      ensures Valid()
      ensures cached == map[] && lastHeight == map[]
    {
      cached := map[];
      lastHeight := map[];
    }

    /** `load_rates(currency)`: returns the row counter it logs. */
    method LoadRates(currency: string, source: RateSource) returns (counter: nat)
      requires Valid()
      requires currency in cached
      requires Covers(source.rows, SupportedFiatCurrencies(source.schemaColumns))
      modifies this
      ensures Valid()
      ensures lastHeight == old(lastHeight)[currency := source.noBlocks - 1]
      ensures cached == old(cached)[currency := old(cached)[currency] + Loaded(source)]
      ensures counter == |source.rows|
    {
      var fiats := LoadSupportedFiatCurrencies(source.schemaColumns);
      lastHeight := lastHeight[currency := source.noBlocks - 1];
      var rows := source.rows;
      ghost var before := cached[currency];
      counter := 0;
      assert rows[..0] == [];
      assert before + map[] == before;
      while counter < |rows|
        invariant counter <= |rows|
        invariant lastHeight == old(lastHeight)[currency := source.noBlocks - 1]
        invariant currency in cached
        invariant cached == old(cached)[currency := before + TableOf(rows[..counter], fiats)]
        invariant KeyedByHeight(cached[currency])
      {
        var row := rows[counter];
        TableOfStep(rows, fiats, counter);
        UpdateAfterUnion(before, TableOf(rows[..counter], fiats), row.height,
                         ExchangeRate(row.height, RecordOf(row, fiats)));
        StoreRow(currency, row, fiats);
        counter := counter + 1;
      }
      assert rows[..counter] == rows;
    }

    /** One iteration of the row loop of `load_rates`: the row's record is
        stored under its height, overwriting what was there. */
    method StoreRow(currency: string, row: RateRow, fiats: seq<string>)
      requires currency in cached
      requires forall f :: f in fiats ==> f in row.columns
      modifies this
      ensures lastHeight == old(lastHeight)
      ensures cached == old(cached)[currency := old(cached)[currency][row.height := ExchangeRate(row.height, RecordOf(row, fiats))]]
    {
      var rates := ProjectRow(row, fiats);
      cached := cached[currency := cached[currency][row.height := ExchangeRate(row.height, rates)]];
    }

    /** One iteration of `load_all_rates`: empty the currency's table, zero
        its last height, then `load_rates`. */
    method ResetAndLoad(currency: string, source: RateSource)
      requires Valid()
      requires Covers(source.rows, SupportedFiatCurrencies(source.schemaColumns))
      modifies this
      ensures Valid()
      ensures cached == old(cached)[currency := Loaded(source)]
      ensures lastHeight == old(lastHeight)[currency := source.noBlocks - 1]
    {
      cached := cached[currency := map[]];
      lastHeight := lastHeight[currency := 0];
      var _ := LoadRates(currency, source);
      assert map[] + Loaded(source) == Loaded(source);
    }

    /** `load_all_rates()`: every supported currency is reset and reloaded;
        the others keep what they had. */
    method LoadAllRates(currencies: seq<string>, sources: map<string, RateSource>)
      requires Valid()
      requires SourcesCover(currencies, sources)
      modifies this
      ensures Valid()
      ensures cached == Reloaded(old(cached), currencies, sources)
      ensures lastHeight == LastHeights(old(lastHeight), currencies, sources)
    {
      var i := 0;
      while i < |currencies|
        invariant 0 <= i <= |currencies|
        invariant Valid()
        invariant cached == Reloaded(old(cached), currencies[..i], sources)
        invariant lastHeight == LastHeights(old(lastHeight), currencies[..i], sources)
      {
        ReloadedStep(old(cached), currencies, sources, i);
        LastHeightsStep(old(lastHeight), currencies, sources, i);
        ResetAndLoad(currencies[i], sources[currencies[i]]);
        i := i + 1;
      }
      assert currencies[..i] == currencies;
    }

    /** `get_rates(currency, height)`; `dummy` is the `DUMMY_EXCHANGE_RATES` setting. */
    function GetRates(currency: string, height: int, dummy: bool): (r: Result<ExchangeRate, RatesError>)
      reads this
      requires Valid()
      ensures dummy ==> r == Ok(ExchangeRate(height, DummyRates))
      ensures !dummy && (currency !in cached || cached[currency] == map[]) ==>
                r == Err(UnknownCurrency(currency))
      ensures !dummy && r.Ok? ==>
                r.value.height == (if height == -1 then lastHeight[currency] else height) &&
                r.value.height in cached[currency] &&
                r.value == cached[currency][r.value.height]
      ensures !dummy && currency in cached && cached[currency] != map[] ==>
                (r.Ok? <==> (if height == -1 then lastHeight[currency] else height) in cached[currency])
      ensures r.Err? ==> !dummy
    {
      if dummy then Ok(ExchangeRate(height, DummyRates))
      else if currency !in cached || cached[currency] == map[] then Err(UnknownCurrency(currency))
      else
        var h := if height == -1 then lastHeight[currency] else height;
        if h !in cached[currency] then Err(UnknownHeight(h, currency))
        else Ok(cached[currency][h])
    }
  }

  /** Without the dummy setting, height -1 means the currency's last block. */
  lemma DefaultHeightIsLast(cache: RateCache, currency: string)
    requires cache.Valid()
    requires currency in cache.cached
    ensures cache.GetRates(currency, -1, false) == cache.GetRates(currency, cache.lastHeight[currency], false)
  {
  }

  /** After a load from `source`, a lookup succeeds exactly for the heights
      some row carries (height -1 standing for `no_blocks - 1`), and answers
      with the rates of the last such row. */
  lemma LookupAfterLoad(cache: RateCache, currency: string, source: RateSource, height: int)
    requires cache.Valid()
    requires Covers(source.rows, SupportedFiatCurrencies(source.schemaColumns))
    requires currency in cache.cached && cache.cached[currency] == Loaded(source)
    requires cache.lastHeight[currency] == source.noBlocks - 1
    ensures var h := if height == -1 then source.noBlocks - 1 else height;
            && (cache.GetRates(currency, height, false).Ok? <==>
                 exists i :: 0 <= i < |source.rows| && source.rows[i].height == h)
            && forall i :: (0 <= i < |source.rows| && source.rows[i].height == h &&
                 (forall j :: i < j < |source.rows| ==> source.rows[j].height != h)) ==>
                 cache.GetRates(currency, height, false) ==
                   Ok(ExchangeRate(h, RecordOf(source.rows[i], SupportedFiatCurrencies(source.schemaColumns))))
  {
    var h := if height == -1 then source.noBlocks - 1 else height;
    var fiats := SupportedFiatCurrencies(source.schemaColumns);
    TableOfKeys(source.rows, fiats, h);
    assert cache.GetRates(currency, height, false).Ok? <==> h in Loaded(source);
    forall i | 0 <= i < |source.rows| && source.rows[i].height == h &&
               (forall j :: i < j < |source.rows| ==> source.rows[j].height != h)
      ensures cache.GetRates(currency, height, false) == Ok(ExchangeRate(h, RecordOf(source.rows[i], fiats)))
    {
      LastRowWins(source.rows, fiats, i);
    }
  }

  // ---------------------------------------------------------------------
  // list_rates

  /** The heights `list_rates` queries: the given list, or by default the last block. */
  function RequestedHeights(heights: Option<seq<int>>, noBlocks: int): (r: seq<int>)
    ensures heights.None? ==> r == [noBlocks - 1]
    ensures heights.Some? ==> r == heights.value
  {
    match heights
    case None => [noBlocks - 1]
    case Some(hs) => hs
  }

  /** The `height_rates` dict assembled from the query outcomes, in order:
      failed queries are skipped, a later row for a height overwrites an
      earlier one, and a succeeded query without a row raises. */
  function HeightRates(heights: seq<int>, outcomes: seq<RateQuery>): (r: Result<map<int, map<string, real>>, RatesError>)
    requires |heights| == |outcomes|
    ensures r.Ok? ==> forall k :: k in r.value ==> "height" !in r.value[k]
  {
    if outcomes == [] then Ok(map[])
    else
      var n := |outcomes| - 1;
      match HeightRates(heights[..n], outcomes[..n])
      case Err(e) => Err(e)
      case Ok(m) =>
        match outcomes[n]
        case QueryFailed => Ok(m)
        case QuerySucceeded(rows) =>
          if rows == [] then Err(NoRowReturned(heights[n]))
          else Ok(m[rows[0].height := rows[0].columns - {"height"}])
  }

  /** A raise ends the assembly: no later outcome changes it. */
  lemma {:induction false} HeightRatesErrorSticks(heights: seq<int>, outcomes: seq<RateQuery>, k: nat)
    requires |heights| == |outcomes| && k <= |outcomes|
    requires HeightRates(heights[..k], outcomes[..k]).Err?
    ensures HeightRates(heights, outcomes) == HeightRates(heights[..k], outcomes[..k])
    decreases |outcomes| - k
  {
    if k < |outcomes| {
      var n := |outcomes| - 1;
      assert heights[..n][..k] == heights[..k] && outcomes[..n][..k] == outcomes[..k];
      HeightRatesErrorSticks(heights[..n], outcomes[..n], k);
    } else {
      assert heights[..k] == heights && outcomes[..k] == outcomes;
    }
  }

  /** The store answers a per-height query only with rows of that height. */
  predicate Consistent(heights: seq<int>, outcomes: seq<RateQuery>)
    requires |heights| == |outcomes|
  {
    forall i, j :: 0 <= i < |outcomes| && outcomes[i].QuerySucceeded? && 0 <= j < |outcomes[i].rows| ==>
      outcomes[i].rows[j].height == heights[i]
  }

  /** `list_rates` raises exactly when some query succeeded without a row. */
  lemma {:induction false} HeightRatesFails(heights: seq<int>, outcomes: seq<RateQuery>)
    requires |heights| == |outcomes|
    ensures HeightRates(heights, outcomes).Err? <==>
              exists i :: 0 <= i < |outcomes| && outcomes[i] == QuerySucceeded([])
  {
    if outcomes != [] {
      var n := |outcomes| - 1;
      HeightRatesFails(heights[..n], outcomes[..n]);
      assert forall i :: 0 <= i < n ==> outcomes[..n][i] == outcomes[i];
    }
  }

  /** With a consistent store, the result has a key exactly for the heights
      whose query succeeded: failed queries are silently left out. */
  lemma {:induction false} HeightRatesKeys(heights: seq<int>, outcomes: seq<RateQuery>)
    requires |heights| == |outcomes|
    requires Consistent(heights, outcomes)
    requires HeightRates(heights, outcomes).Ok?
    ensures forall k :: k in HeightRates(heights, outcomes).value <==>
              exists i :: 0 <= i < |outcomes| && heights[i] == k && outcomes[i].QuerySucceeded?
  {
    if outcomes != [] {
      var n := |outcomes| - 1;
      assert forall i :: 0 <= i < n ==> outcomes[..n][i] == outcomes[i] && heights[..n][i] == heights[i];
      HeightRatesKeys(heights[..n], outcomes[..n]);
    }
  }

  /** With a consistent store, the record under a height is the answer row
      of the last succeeded query for that height, without its `height`
      column. */
  lemma {:induction false} HeightRatesValue(heights: seq<int>, outcomes: seq<RateQuery>, j: nat)
    requires |heights| == |outcomes| && j < |outcomes|
    requires Consistent(heights, outcomes)
    requires HeightRates(heights, outcomes).Ok?
    requires outcomes[j].QuerySucceeded?
    requires forall l :: j < l < |outcomes| && heights[l] == heights[j] ==> outcomes[l].QueryFailed?
    ensures outcomes[j].rows != []
    ensures heights[j] in HeightRates(heights, outcomes).value
    ensures HeightRates(heights, outcomes).value[heights[j]] == outcomes[j].rows[0].columns - {"height"}
  {
    var n := |outcomes| - 1;
    var hp, op := heights[..n], outcomes[..n];
    assert HeightRates(hp, op).Ok?;
    if j < n {
      assert forall i :: 0 <= i < n ==> op[i] == outcomes[i] && hp[i] == heights[i];
      HeightRatesValue(hp, op, j);
      if outcomes[n].QuerySucceeded? {
        assert outcomes[n].rows[0].height == heights[n];
      }
    } else {
      assert outcomes[j].rows[0].height == heights[j];
    }
  }

  /** `list_rates(currency, heights)`; `heights == None` is the default `-1`,
      `noBlocks` the statistics' `no_blocks`, `outcomes` the results of the
      concurrent queries in request order. */
  method ListRates(heights: Option<seq<int>>, noBlocks: int, outcomes: seq<RateQuery>)
    returns (r: Result<map<int, map<string, real>>, RatesError>)
    requires |outcomes| == |RequestedHeights(heights, noBlocks)|
    ensures r == HeightRates(RequestedHeights(heights, noBlocks), outcomes)
  {
    var hs := RequestedHeights(heights, noBlocks);
    var heightRates: map<int, map<string, real>> := map[];
    var i := 0;
    while i < |outcomes|
      invariant 0 <= i <= |outcomes|
      invariant HeightRates(hs[..i], outcomes[..i]) == Ok(heightRates)
    {
      assert hs[..i + 1][..i] == hs[..i] && outcomes[..i + 1][..i] == outcomes[..i];
      match outcomes[i] {
        case QueryFailed =>
        case QuerySucceeded(rows) =>
          if rows == [] {
            HeightRatesErrorSticks(hs, outcomes, i + 1);
            return Err(NoRowReturned(hs[i]));
          }
          var d := rows[0];
          heightRates := heightRates[d.height := d.columns - {"height"}];
      }
      i := i + 1;
    }
    assert hs[..i] == hs && outcomes[..i] == outcomes;
    return Ok(heightRates);
  }
}
