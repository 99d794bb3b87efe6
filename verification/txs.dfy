/** The transaction services.

    Transactions are stored under a 5-character prefix of their hash.  A
    hash is a byte string; the search for hashes that start with an
    expression renders each stored hash as the lower-case hexadecimal
    numeral of its big-endian value (no "0x", no leading zeros) after
    `leading_zeros` padding zeros. */
module Txs {
  import opened Wrappers
  import opened Text
  import Rates

  const TX_PREFIX_LENGTH := 5

  newtype byte = x: int | 0 <= x < 256

  /** A row of the `transaction` table. */
  datatype TxRow = TxRow(txPrefix: string, txHash: seq<byte>, height: int, timestamp: int)

  /** `Tx.from_row(row, rates)`; the Tx model is not part of this model, so
      the transaction keeps its row and the rates it was converted with. */
  datatype Tx = Tx(row: TxRow, rates: map<string, real>)

  datatype TxError =
    | InvalidHash                          // bytearray.fromhex raised ValueError
    | RatesUnavailable(cause: Rates.RatesError)
    | MissingRates(height: int)            // KeyError on the list_rates result

  // ---------------------------------------------------------------------
  // Numbers and hexadecimal numerals

  /** `int.from_bytes(b, byteorder="big")`. */
  function BigEndian(b: seq<byte>): nat
  {
    if b == [] then 0 else BigEndian(b[..|b| - 1]) * 256 + b[|b| - 1] as int
  }

  predicate IsLowerHex(c: char) { '0' <= c <= '9' || 'a' <= c <= 'f' }

  predicate IsHexChar(c: char) { IsLowerHex(c) || 'A' <= c <= 'F' }

  predicate LowerHex(s: string) {
    forall i :: 0 <= i < |s| ==> IsLowerHex(s[i])
  }

  function DigitValue(c: char): (d: nat)
    requires IsHexChar(c)
    ensures d < 16
  {
    if '0' <= c <= '9' then c as int - '0' as int
    else if 'a' <= c <= 'f' then c as int - 'a' as int + 10
    else c as int - 'A' as int + 10
  }

  function HexDigit(d: nat): (c: char)
    requires d < 16
    ensures IsLowerHex(c) && DigitValue(c) == d
    ensures c == '0' <==> d == 0
  {
    if d < 10 then ('0' as int + d) as char else ('a' as int + d - 10) as char
  }

  /** The value of a lower-case hexadecimal numeral. */
  function ParseHex(s: string): nat
    requires LowerHex(s)
  {
    if s == [] then 0 else ParseHex(s[..|s| - 1]) * 16 + DigitValue(s[|s| - 1])
  }

  /** The numeral `hex(n)[2:]` prints: lower case, no leading zeros. */
  predicate Canonical(s: string) {
    |s| > 0 && LowerHex(s) && (s[0] == '0' ==> |s| == 1)
  }

  /** `hex(n)[2:]`. */
  function Hex(n: nat): (s: string)
    ensures Canonical(s)
    ensures s[0] == '0' <==> n == 0
  {
    if n < 16 then [HexDigit(n)] else Hex(n / 16) + [HexDigit(n % 16)]
  }

  /** Reading `hex(n)[2:]` back gives `n`. */
  lemma {:induction false} HexRoundTrip(n: nat)
    ensures ParseHex(Hex(n)) == n
  {
    if n >= 16 {
      HexRoundTrip(n / 16);
      assert Hex(n)[..|Hex(n)| - 1] == Hex(n / 16);
    }
  }

  lemma {:induction false} ParseHexLeadingDigit(s: string)
    requires Canonical(s) && s[0] != '0'
    ensures ParseHex(s) > 0
    ensures |s| > 1 ==> ParseHex(s) >= 16
  {
    if |s| > 1 {
      var init := s[..|s| - 1];
      assert init[0] == s[0];
      ParseHexLeadingDigit(init);
    } else {
      assert s[..0] == [];
    }
  }

  /** Every numeral `hex` prints is the one of its own value. */
  lemma {:induction false} CanonicalRoundTrip(s: string)
    requires Canonical(s)
    ensures Hex(ParseHex(s)) == s
  {
    var n := ParseHex(s);
    var init := s[..|s| - 1];
    var last := s[|s| - 1];
    if |s| == 1 {
      assert init == [];
      assert HexDigit(DigitValue(last)) == last;
    } else {
      assert init[0] == s[0];
      ParseHexLeadingDigit(s);
      CanonicalRoundTrip(init);
      assert n / 16 == ParseHex(init) && n % 16 == DigitValue(last);
      assert HexDigit(DigitValue(last)) == last;
      assert s == init + [last];
    }
  }

  // ---------------------------------------------------------------------
  // The search for hashes by prefix

  /** `"0" * k`; empty for `k <= 0`. */
  function Zeros(k: int): (z: string)
    ensures |z| == if k > 0 then k else 0
    ensures forall i :: 0 <= i < |z| ==> z[i] == '0'
  {
    if k <= 0 then [] else seq(k, i => '0')
  }

  /** One candidate of `list_matching_txs` for a stored hash. */
  function Candidate(hash: seq<byte>, leadingZeros: int): string
  {
    Zeros(leadingZeros) + Hex(BigEndian(hash))
  }

  lemma {:induction false} ZerosAreZero(k: int)
    ensures LowerHex(Zeros(k)) && ParseHex(Zeros(k)) == 0
    decreases if k > 0 then k else 0
  {
    if k > 0 {
      ZerosAreZero(k - 1);
      assert Zeros(k)[..k - 1] == Zeros(k - 1);
    }
  }

  lemma {:induction false} ZerosValue(k: int, t: string)
    requires LowerHex(t)
    ensures LowerHex(Zeros(k) + t) && ParseHex(Zeros(k) + t) == ParseHex(t)
    decreases |t|
  {
    var z := Zeros(k) + t;
    if t == [] {
      assert z == Zeros(k);
      ZerosAreZero(k);
    } else {
      var init := t[..|t| - 1];
      assert z[..|z| - 1] == Zeros(k) + init;
      ZerosValue(k, init);
    }
  }

  /** Round trip of a candidate: its numeral part, and the whole padded
      candidate, read back as the big-endian value of the hash. */
  lemma CandidateReadsBack(hash: seq<byte>, leadingZeros: int)
    ensures var c := Candidate(hash, leadingZeros);
            var k := if leadingZeros > 0 then leadingZeros else 0;
            && LowerHex(c)
            && c[k..] == Hex(BigEndian(hash))
            && ParseHex(c[k..]) == BigEndian(hash)
            && ParseHex(c) == BigEndian(hash)
  {
    HexRoundTrip(BigEndian(hash));
    ZerosValue(leadingZeros, Hex(BigEndian(hash)));
  }

  /** `[tx for tx in candidates if tx.startswith(expression)]`, over the
      hashes the prefix query answered. */
  function MatchingCandidates(expression: string, leadingZeros: int, hashes: seq<seq<byte>>): (r: seq<string>)
    ensures |r| <= |hashes|
    ensures forall x :: x in r ==> StartsWith(x, expression)
    ensures forall x :: x in r <==>
              exists i :: 0 <= i < |hashes| && x == Candidate(hashes[i], leadingZeros) && StartsWith(x, expression)
  {
    if hashes == [] then []
    else
      var rest := MatchingCandidates(expression, leadingZeros, hashes[1..]);
      var c := Candidate(hashes[0], leadingZeros);
      assert forall i :: 1 <= i < |hashes| ==> hashes[i] == hashes[1..][i - 1];
      if StartsWith(c, expression) then [c] + rest else rest
  }

  /** The result keeps the row order: the matches of two runs of rows are
      the matches of the first run followed by those of the second. */
  lemma {:induction false} MatchingCandidatesAppend(expression: string, leadingZeros: int, a: seq<seq<byte>>, b: seq<seq<byte>>)
    ensures MatchingCandidates(expression, leadingZeros, a + b) ==
              MatchingCandidates(expression, leadingZeros, a) + MatchingCandidates(expression, leadingZeros, b)
  {
    if a != [] {
      var c := Candidate(a[0], leadingZeros);
      var head := if StartsWith(c, expression) then [c] else [];
      assert (a + b)[0] == a[0] && (a + b)[1..] == a[1..] + b;
      assert MatchingCandidates(expression, leadingZeros, a + b) == head + MatchingCandidates(expression, leadingZeros, a[1..] + b);
      assert MatchingCandidates(expression, leadingZeros, a) == head + MatchingCandidates(expression, leadingZeros, a[1..]);
      MatchingCandidatesAppend(expression, leadingZeros, a[1..], b);
    } else {
      assert a + b == b;
    }
  }

  /** The store key `list_matching_txs` and `get_tx` query with. */
  function TxPrefix(s: string): (p: string)
    ensures |p| == if |s| < TX_PREFIX_LENGTH then |s| else TX_PREFIX_LENGTH
    ensures StartsWith(s, p)
  {
    Take(s, TX_PREFIX_LENGTH)
  }

  // ---------------------------------------------------------------------
  // bytes.hex() and bytearray.fromhex()

  /** `bytes(b).hex()`: two lower-case digits per byte. */
  function BytesHex(b: seq<byte>): (s: string)
    ensures |s| == 2 * |b| && LowerHex(s)
    ensures forall k :: 0 <= k < |b| ==>
              s[2 * k] == HexDigit(b[k] as int / 16) && s[2 * k + 1] == HexDigit(b[k] as int % 16)
  {
    if b == [] then []
    else
      var init := b[..|b| - 1];
      var last := b[|b| - 1] as int;
      assert forall k :: 0 <= k < |init| ==> init[k] == b[k];
      BytesHex(init) + [HexDigit(last / 16), HexDigit(last % 16)]
  }

  /** `bytearray.fromhex(s)`, or None where it raises ValueError. */
  function FromHex(s: string): (r: Option<seq<byte>>)
    ensures r.Some? <==> |s| % 2 == 0 && forall i :: 0 <= i < |s| ==> IsHexChar(s[i])
    ensures r.Some? ==> 2 * |r.value| == |s|
    ensures r.Some? ==> forall k :: 0 <= k < |r.value| ==>
              r.value[k] as int == DigitValue(s[2 * k]) * 16 + DigitValue(s[2 * k + 1])
  {
    if s == [] then Some([])
    else if |s| >= 2 && IsHexChar(s[|s| - 2]) && IsHexChar(s[|s| - 1]) then
      match FromHex(s[..|s| - 2])
      case None => None
      case Some(init) => Some(init + [(DigitValue(s[|s| - 2]) * 16 + DigitValue(s[|s| - 1])) as byte])
    else None
  }

  lemma FromHexBytesHex(b: seq<byte>)
    ensures FromHex(BytesHex(b)) == Some(b)
  {
    var s := BytesHex(b);
    BytesHexParses(b);
    var r := FromHex(s).value;
    assert |r| == |b|;
    forall k | 0 <= k < |b| ensures r[k] == b[k] {
      ByteReadsBack(b[k], s[2 * k], s[2 * k + 1], r[k]);
    }
    assert r == b;
  }

  /** `b.hex()` is a string `fromhex` accepts. */
  lemma BytesHexParses(b: seq<byte>)
    ensures FromHex(BytesHex(b)).Some?
  {
    var s := BytesHex(b);
    assert |s| % 2 == 0 by { assert |s| == 2 * |b|; }
    forall i | 0 <= i < |s| ensures IsHexChar(s[i]) {
      assert IsLowerHex(s[i]);
    }
  }

  /** The two digits `hex()` writes for a byte read back as that byte. */
  lemma ByteReadsBack(x: byte, hi: char, lo: char, y: byte)
    requires hi == HexDigit(x as int / 16) && lo == HexDigit(x as int % 16)
    requires y as int == DigitValue(hi) * 16 + DigitValue(lo)
    ensures y == x
  {
    assert y as int == (x as int / 16) * 16 + x as int % 16 == x as int;
  }

  /** The two renderings of a hash agree on its value. */
  lemma {:induction false} BytesHexValue(b: seq<byte>)
    ensures ParseHex(BytesHex(b)) == BigEndian(b)
  {
    if b != [] {
      var init := b[..|b| - 1];
      var s := BytesHex(b);
      BytesHexValue(init);
      assert s[..|s| - 1][..|s| - 2] == BytesHex(init);
    }
  }

  function LeadingZeroCount(s: string): (k: nat)
    ensures k <= |s|
  {
    if s != [] && s[0] == '0' then 1 + LeadingZeroCount(s[1..]) else 0
  }

  function StripZeros(s: string): (t: string)
    ensures |t| <= |s|
    ensures t != [] ==> t[0] != '0'
  {
    if s != [] && s[0] == '0' then StripZeros(s[1..]) else s
  }

  lemma {:induction false} StripZerosSplit(s: string)
    ensures s == Zeros(LeadingZeroCount(s)) + StripZeros(s)
  {
    if s != [] && s[0] == '0' {
      StripZerosSplit(s[1..]);
      assert Zeros(LeadingZeroCount(s)) == ['0'] + Zeros(LeadingZeroCount(s[1..]));
    }
  }

  /** What `leading_zeros` is for: padding the numeral of a non-zero hash
      with as many zeros as its `hex()` form starts with gives exactly that
      form, the one the client searches with. */
  lemma PaddedCandidateIsBytesHex(hash: seq<byte>)
    requires BigEndian(hash) > 0
    ensures Candidate(hash, LeadingZeroCount(BytesHex(hash))) == BytesHex(hash)
  {
    var s := BytesHex(hash);
    var t := StripZeros(s);
    var k := LeadingZeroCount(s);
    StripZerosSplit(s);
    assert LowerHex(t) by {
      forall i | 0 <= i < |t| ensures IsLowerHex(t[i]) { assert t[i] == s[k + i]; }
    }
    ZerosValue(k, t);
    BytesHexValue(hash);
    CanonicalRoundTrip(t);
  }

  /** `SELECT tx_hash FROM transaction WHERE tx_prefix = prefix`, in table order. */
  function PrefixHashes(table: seq<TxRow>, prefix: string): (r: seq<seq<byte>>)
    ensures |r| <= |table|
    ensures forall h :: h in r <==> exists i :: 0 <= i < |table| && table[i].txPrefix == prefix && table[i].txHash == h
  {
    if table == [] then []
    else
      var rest := PrefixHashes(table[1..], prefix);
      assert forall i :: 1 <= i < |table| ==> table[i] == table[1..][i - 1];
      if table[0].txPrefix == prefix then [table[0].txHash] + rest else rest
  }

  /** The query keeps table order, one hash per matching row. */
  lemma {:induction false} PrefixHashesAppend(a: seq<TxRow>, b: seq<TxRow>, prefix: string)
    ensures PrefixHashes(a + b, prefix) == PrefixHashes(a, prefix) + PrefixHashes(b, prefix)
  {
    if a == [] {
      assert a + b == b;
    } else {
      assert (a + b)[1..] == a[1..] + b;
      PrefixHashesAppend(a[1..], b, prefix);
    }
  }

  /** `list_matching_txs(currency, expression, leading_zeros)`: the padded
      numerals of the hashes stored under the expression's prefix that
      start with the expression. */
  function ListMatchingTxs(expression: string, leadingZeros: int, table: seq<TxRow>): (r: seq<string>)
    ensures |r| <= |table|
    ensures forall x :: x in r <==>
              exists i :: 0 <= i < |table| && table[i].txPrefix == TxPrefix(expression) &&
                          x == Candidate(table[i].txHash, leadingZeros) && StartsWith(x, expression)
  {
    PrefixCandidates(expression, leadingZeros, table);
    MatchingCandidates(expression, leadingZeros, PrefixHashes(table, TxPrefix(expression)))
  }

  lemma PrefixCandidates(expression: string, leadingZeros: int, table: seq<TxRow>)
    ensures var hashes := PrefixHashes(table, TxPrefix(expression));
            forall x :: (exists j :: 0 <= j < |hashes| && x == Candidate(hashes[j], leadingZeros) && StartsWith(x, expression)) <==>
              exists i :: 0 <= i < |table| && table[i].txPrefix == TxPrefix(expression) &&
                          x == Candidate(table[i].txHash, leadingZeros) && StartsWith(x, expression)
  {
    var hashes := PrefixHashes(table, TxPrefix(expression));
    forall x | exists j :: 0 <= j < |hashes| && x == Candidate(hashes[j], leadingZeros) && StartsWith(x, expression)
      ensures exists i :: 0 <= i < |table| && table[i].txPrefix == TxPrefix(expression) &&
                          x == Candidate(table[i].txHash, leadingZeros) && StartsWith(x, expression)
    {
      var j :| 0 <= j < |hashes| && x == Candidate(hashes[j], leadingZeros) && StartsWith(x, expression);
      assert hashes[j] in hashes;
    }
    forall x | exists i :: 0 <= i < |table| && table[i].txPrefix == TxPrefix(expression) &&
                          x == Candidate(table[i].txHash, leadingZeros) && StartsWith(x, expression)
      ensures exists j :: 0 <= j < |hashes| && x == Candidate(hashes[j], leadingZeros) && StartsWith(x, expression)
    {
      var i :| 0 <= i < |table| && table[i].txPrefix == TxPrefix(expression) &&
               x == Candidate(table[i].txHash, leadingZeros) && StartsWith(x, expression);
      assert table[i].txHash in hashes;
    }
  }

  /** End to end: in a table keyed by hash prefix, a search with at least
      `TX_PREFIX_LENGTH` characters of a stored non-zero hash's `hex()` form,
      padded by that form's own leading zeros, returns that form. */
  lemma ListMatchingTxsFindsHash(expression: string, table: seq<TxRow>, k: nat)
    requires KeyedByPrefix(table) && k < |table|
    requires |expression| >= TX_PREFIX_LENGTH
    requires StartsWith(BytesHex(table[k].txHash), expression)
    requires BigEndian(table[k].txHash) > 0
    ensures BytesHex(table[k].txHash) in
              ListMatchingTxs(expression, LeadingZeroCount(BytesHex(table[k].txHash)), table)
  {
    var hash := table[k].txHash;
    TakeOfExtension(BytesHex(hash), expression, TX_PREFIX_LENGTH);
    assert hash in PrefixHashes(table, TxPrefix(expression));
    PaddedCandidateIsBytesHex(hash);
  }

  // ---------------------------------------------------------------------
  // get_tx and list_txs

  /** `WHERE tx_prefix = prefix AND tx_hash = hash`, in table order. */
  function SelectTx(table: seq<TxRow>, prefix: string, hash: seq<byte>): (r: seq<TxRow>)
    ensures |r| <= |table|
    ensures forall x :: x in r <==> x in table && x.txPrefix == prefix && x.txHash == hash
  {
    if table == [] then []
    else
      var rest := SelectTx(table[1..], prefix, hash);
      assert forall x :: x in table <==> x == table[0] || x in table[1..];
      if table[0].txPrefix == prefix && table[0].txHash == hash then [table[0]] + rest else rest
  }

  /** The query keeps table order, and answers each matching row once. */
  lemma {:induction false} SelectTxAppend(a: seq<TxRow>, b: seq<TxRow>, prefix: string, hash: seq<byte>)
    ensures SelectTx(a + b, prefix, hash) == SelectTx(a, prefix, hash) + SelectTx(b, prefix, hash)
  {
    if a == [] {
      assert a + b == b;
    } else {
      assert (a + b)[1..] == a[1..] + b;
      SelectTxAppend(a[1..], b, prefix, hash);
    }
  }

  /** `get_tx(currency, tx_hash)`, reading the rate cache for the row's height. */
  function GetTx(cache: Rates.RateCache, currency: string, txHash: string, table: seq<TxRow>, dummy: bool)
    : (r: Result<Option<Tx>, TxError>)
    reads cache
    requires cache.Valid()
    ensures FromHex(txHash).None? <==> r == Err(InvalidHash)
    ensures FromHex(txHash).Some? ==>
              var rows := SelectTx(table, TxPrefix(txHash), FromHex(txHash).value);
              && (r == Ok(None) <==> rows == [])
              && (r.Ok? && r.value.Some? ==>
                   r.value.value.row == rows[0] &&
                   cache.GetRates(currency, rows[0].height, dummy).Ok? &&
                   r.value.value.rates == cache.GetRates(currency, rows[0].height, dummy).value.rates)
              && (r.Err? ==> (rows != [] && cache.GetRates(currency, rows[0].height, dummy).Err? &&
                   r == Err(RatesUnavailable(cache.GetRates(currency, rows[0].height, dummy).error))))
  {
    match FromHex(txHash)
    case None => Err(InvalidHash)
    case Some(hash) =>
      var rows := SelectTx(table, TxPrefix(txHash), hash);
      if rows == [] then Ok(None)
      else
        match cache.GetRates(currency, rows[0].height, dummy)
        case Err(e) => Err(RatesUnavailable(e))
        case Ok(rate) => Ok(Some(Tx(rows[0], rate.rates)))
  }

  /** Every row is stored under the prefix of its hash's `hex()` form. */
  predicate KeyedByPrefix(table: seq<TxRow>) {
    forall i :: 0 <= i < |table| ==> table[i].txPrefix == TxPrefix(BytesHex(table[i].txHash))
  }

  /** Looking a hash up by its `hex()` form reads exactly the rows of that hash. */
  lemma GetTxReadsHash(table: seq<TxRow>, hash: seq<byte>)
    requires KeyedByPrefix(table)
    ensures FromHex(BytesHex(hash)) == Some(hash)
    ensures forall x :: x in SelectTx(table, TxPrefix(BytesHex(hash)), hash) <==> x in table && x.txHash == hash
  {
    FromHexBytesHex(hash);
    forall x | x in table && x.txHash == hash ensures x.txPrefix == TxPrefix(BytesHex(hash)) {
      var i :| 0 <= i < |table| && table[i] == x;
    }
  }

  function Heights(rows: seq<TxRow>): (hs: seq<int>)
    ensures |hs| == |rows| && forall i :: 0 <= i < |rows| ==> hs[i] == rows[i].height
  {
    seq(|rows|, i requires 0 <= i < |rows| => rows[i].height)
  }

  /** `[Tx.from_row(row, rates[row.height]) for row in rows]`: raises at the
      first row whose height has no rates. */
  function ConvertAll(rows: seq<TxRow>, rates: map<int, map<string, real>>): (r: Result<seq<Tx>, TxError>)
    ensures r.Ok? <==> forall i :: 0 <= i < |rows| ==> rows[i].height in rates
    ensures r.Ok? ==> (|r.value| == |rows| &&
              forall i :: 0 <= i < |rows| ==> r.value[i] == Tx(rows[i], rates[rows[i].height]))
  {
    if rows == [] then Ok([])
    else if rows[0].height !in rates then Err(MissingRates(rows[0].height))
    else
      assert forall i :: 1 <= i < |rows| ==> rows[i] == rows[1..][i - 1];
      match ConvertAll(rows[1..], rates)
      case Err(e) => Err(e)
      case Ok(rest) => Ok([Tx(rows[0], rates[rows[0].height])] + rest)
  }

  /** `list_txs(currency, paging_state)`: `page` holds the current rows of the
      paged query, `next` its paging state, `outcomes` the rate queries of
      `list_rates` for the rows' heights. */
  function ListTxs(page: seq<TxRow>, next: Option<string>, outcomes: seq<Rates.RateQuery>)
    : (r: Result<(Option<string>, seq<Tx>), TxError>)
    requires |outcomes| == |page|
    ensures r.Ok? ==> (r.value.0 == next && |r.value.1| == |page| &&
              forall i :: 0 <= i < |page| ==> r.value.1[i].row == page[i])
    ensures r.Ok? <==> (Rates.HeightRates(Heights(page), outcomes).Ok? &&
              forall i :: 0 <= i < |page| ==> page[i].height in Rates.HeightRates(Heights(page), outcomes).value)
    ensures r.Ok? ==> forall i :: 0 <= i < |page| ==>
              r.value.1[i].rates == Rates.HeightRates(Heights(page), outcomes).value[page[i].height]
  {
    match Rates.HeightRates(Heights(page), outcomes)
    case Err(e) => Err(RatesUnavailable(e))
    case Ok(rates) =>
      match ConvertAll(page, rates)
      case Err(e) => Err(e)
      case Ok(txs) => Ok((next, txs))
  }

  /** When every rate query succeeds, `list_txs` returns the paging token and
      one transaction per row, in row order, converted with the rates the
      store answered for its own height (from the last query for that
      height, when several rows share it). */
  lemma ListTxsComplete(page: seq<TxRow>, next: Option<string>, outcomes: seq<Rates.RateQuery>)
    requires |outcomes| == |page|
    requires Rates.Consistent(Heights(page), outcomes)
    requires forall i :: 0 <= i < |outcomes| ==> outcomes[i].QuerySucceeded? && outcomes[i].rows != []
    ensures ListTxs(page, next, outcomes).Ok?
    ensures var txs := ListTxs(page, next, outcomes).value.1;
            && ListTxs(page, next, outcomes).value.0 == next
            && |txs| == |page|
            && (forall i :: 0 <= i < |page| ==> txs[i].row == page[i])
            && forall i, j :: (0 <= i < |page| && 0 <= j < |page| && page[j].height == page[i].height &&
                 (forall l :: j < l < |page| ==> page[l].height != page[i].height)) ==>
                 txs[i].rates == outcomes[j].rows[0].columns - {"height"}
  {
    var hs := Heights(page);
    Rates.HeightRatesFails(hs, outcomes);
    Rates.HeightRatesKeys(hs, outcomes);
    var rates := Rates.HeightRates(hs, outcomes).value;
    forall i | 0 <= i < |page| ensures page[i].height in rates {
      assert hs[i] == page[i].height;
    }
    var txs := ListTxs(page, next, outcomes).value.1;
    forall i, j | 0 <= i < |page| && 0 <= j < |page| && page[j].height == page[i].height &&
                  (forall l :: j < l < |page| ==> page[l].height != page[i].height)
      ensures txs[i].rates == outcomes[j].rows[0].columns - {"height"}
    {
      Rates.HeightRatesValue(hs, outcomes, j);
    }
  }

  /** A failed rate query is dropped by `list_rates`, and the row that needed
      it then makes `list_txs` raise. */
  lemma ListTxsFailedQuery(page: seq<TxRow>, next: Option<string>, outcomes: seq<Rates.RateQuery>, k: nat)
    requires |outcomes| == |page| && k < |page|
    requires Rates.Consistent(Heights(page), outcomes)
    requires forall i :: 0 <= i < |page| && page[i].height == page[k].height ==> outcomes[i] == Rates.QueryFailed
    ensures ListTxs(page, next, outcomes).Err?
  {
    var hs := Heights(page);
    if Rates.HeightRates(hs, outcomes).Ok? {
      Rates.HeightRatesKeys(hs, outcomes);
      assert page[k].height !in Rates.HeightRates(hs, outcomes).value;
    }
  }
}
