/**
 The direct top-of-book series of scripts/maker/pmxt_archive_pull.py and the coverage figures summed over
 it: one row per non-empty bucket, the last by receipt, and coverage that is a true fraction.
 */
module TopOfBook {
  import opened Prelude
  import opened Sorting
  import B = BookSeries

  datatype Status = QuoteOk | QuoteGap | QuoteExcluded

  datatype Quote<P> = Quote(recvTs: int, bucketTs: int, status: Status, payload: P)

  function BucketOf<P>(q: Quote<P>, step: int): int
    requires step > 0
  {
    q.bucketTs / step
  }

  // ---------------------------------------------------------------- one quote per bucket

  predicate Qualifies<P>(row: B.RawRow<P>, token: B.Token) {
    row.kind == B.PriceChange && row.token == Some(token) && row.recvTs.Some?
  }

  function Built<P>(row: B.RawRow<P>, step: int, extract: P -> Status): Quote<P>
    requires step > 0 && row.recvTs.Some?
  {
    Quote(row.recvTs.value, row.recvTs.value / step * step, extract(row.payload), row.payload)
  }

  /** The quotes a token's rows give, in order of receipt. */
  function Quotes<P>(rows: seq<B.RawRow<P>>, token: B.Token, step: int, extract: P -> Status): seq<Quote<P>>
    requires step > 0
  {
    if rows == [] then []
    else
      var n := |rows| - 1;
      var before := Quotes(rows[..n], token, step, extract);
      if Qualifies(rows[n], token) then before + [Built(rows[n], step, extract)] else before
  }

  /** The quote that wins bucket b: the last one in it. */
  function Winner<P>(quotes: seq<Quote<P>>, b: int, step: int): Option<Quote<P>>
    requires step > 0
  {
    if quotes == [] then None
    else if BucketOf(quotes[|quotes| - 1], step) == b then Some(quotes[|quotes| - 1])
    else Winner(quotes[..|quotes| - 1], b, step)
  }

  /** series holds exactly the winner of every bucket that has a quote, in ascending bucket order. */
  ghost predicate Downsamples<P>(series: seq<Quote<P>>, quotes: seq<Quote<P>>, step: int)
    requires step > 0
  {
    && (forall i, j | 0 <= i < j < |series| :: BucketOf(series[i], step) < BucketOf(series[j], step))
    && (forall i | 0 <= i < |series| :: Winner(quotes, BucketOf(series[i], step), step) == Some(series[i]))
    && forall b | Winner(quotes, b, step).Some? :: Winner(quotes, b, step).value in series
  }

  lemma {:induction false} WinnerInBucket<P>(quotes: seq<Quote<P>>, b: int, step: int)
    requires step > 0 && Winner(quotes, b, step).Some?
    ensures Winner(quotes, b, step).value in quotes && BucketOf(Winner(quotes, b, step).value, step) == b
  {
    if BucketOf(quotes[|quotes| - 1], step) != b {
      WinnerInBucket(quotes[..|quotes| - 1], b, step);
    }
  }

  function WithKey(keys: seq<int>, k: int): seq<int> {
    if keys == [] || keys[|keys| - 1] < k then keys + [k]
    else WithKey(keys[..|keys| - 1], k) + [keys[|keys| - 1]]
  }

  lemma {:induction false} WithKeyHas(keys: seq<int>, k: int, x: int)
    ensures x in WithKey(keys, k) <==> x in keys || x == k
  {
    if keys != [] && keys[|keys| - 1] >= k {
      var n := |keys| - 1;
      WithKeyHas(keys[..n], k, x);
      assert x in keys <==> x in keys[..n] || x == keys[n] by {
        assert keys == keys[..n] + [keys[n]];
      }
    }
  }

  lemma {:induction false} WithKeyAscends(keys: seq<int>, k: int)
    requires StrictlyAscending(keys) && k !in keys
    ensures StrictlyAscending(WithKey(keys, k))
  {
    if keys != [] && keys[|keys| - 1] >= k {
      var n := |keys| - 1;
      WithKeyAscends(keys[..n], k);
      var before := WithKey(keys[..n], k);
      assert keys[n] in keys;
      forall i | 0 <= i < |before|
        ensures before[i] < keys[n]
      {
        WithKeyHas(keys[..n], k, before[i]);
      }
    }
  }

  /** sorted(buckets) */
  method SortedKeys<V>(m: map<int, V>) returns (keys: seq<int>)
    ensures StrictlyAscending(keys) && forall k :: (k in keys <==> k in m)
  {
    keys := [];
    var rest := m.Keys;
    while rest != {}
      invariant rest <= m.Keys && StrictlyAscending(keys)
      invariant forall k :: (k in keys <==> k in m && k !in rest)
      decreases |rest|
    {
      ghost var member := MemberOf(rest);
      var k: int :| k in rest;
      WithKeyAscends(keys, k);
      forall x
        ensures x in WithKey(keys, k) <==> x in keys || x == k
      {
        WithKeyHas(keys, k, x);
      }
      keys := WithKey(keys, k);
      rest := rest - {k};
    }
  }

  // ---------------------------------------------------------------- the whole series

  lemma QuotesSnoc<P>(rows: seq<B.RawRow<P>>, i: nat, token: B.Token, step: int, extract: P -> Status)
    requires step > 0 && i < |rows|
    ensures Quotes(rows[..i + 1], token, step, extract)
         == if Qualifies(rows[i], token) then Quotes(rows[..i], token, step, extract) + [Built(rows[i], step, extract)]
            else Quotes(rows[..i], token, step, extract)
    ensures Qualifies(rows[i], token)
       <==> rows[i].kind == B.PriceChange && rows[i].token == Some(token) && rows[i].recvTs.Some?
  {
    assert rows[..i + 1][..i] == rows[..i];
  }

  lemma WinnerSnoc<P>(quotes: seq<Quote<P>>, q: Quote<P>, b: int, step: int)
    requires step > 0
    ensures Winner(quotes + [q], b, step) == if BucketOf(q, step) == b then Some(q) else Winner(quotes, b, step)
  {
    assert (quotes + [q])[..|quotes|] == quotes;
  }

  lemma {:induction false} BucketOfBuilt(t: int, step: int)
    requires step > 0
    ensures t / step * step / step == t / step
  {
    B.Cancel(t / step * step / step, t / step + 1, step);
    B.Cancel(t / step - 1, t / step * step / step, step);
  }

  /** What the per-token dictionary of winners holds. */
  ghost predicate HoldsWinners<P>(buckets: map<int, Quote<P>>, quotes: seq<Quote<P>>, step: int)
    requires step > 0
  {
    forall b :: Winner(quotes, b, step) == if b in buckets then Some(buckets[b]) else None
  }

  function At<P>(perToken: map<B.Token, map<int, Quote<P>>>, token: B.Token): map<int, Quote<P>> {
    if token in perToken then perToken[token] else map[]
  }

  method BuildTopOfBookSeries<P>(rows: seq<B.RawRow<P>>, intervalMs: int, extract: P -> Status)
    returns (series: map<B.Token, seq<Quote<P>>>)
    ensures forall t :: (t in series <==> Quotes(Sort(rows, B.ByReceipt), t, Max(1, intervalMs), extract) != [])
    ensures forall t | t in series ::
              Downsamples(series[t], Quotes(Sort(rows, B.ByReceipt), t, Max(1, intervalMs), extract),
                          Max(1, intervalMs))
  {
    hide Quotes, Winner, Sort, Downsamples, HoldsWinners;
    var step := Max(1, intervalMs);
    var ordered := Sort(rows, B.ByReceipt);
    var perToken: map<B.Token, map<int, Quote<P>>> := map[];
    NoQuotesYet(ordered, step, extract);
    for i := 0 to |ordered|
      invariant forall t :: (t in perToken <==> Quotes(ordered[..i], t, step, extract) != [])
      invariant forall t :: HoldsWinners(At(perToken, t), Quotes(ordered[..i], t, step, extract), step)
    {
      var row := ordered[i];
      forall t
        ensures Quotes(ordered[..i + 1], t, step, extract)
             == if Qualifies(row, t) then Quotes(ordered[..i], t, step, extract) + [Built(row, step, extract)]
                else Quotes(ordered[..i], t, step, extract)
      {
        QuotesSnoc(ordered, i, t, step, extract);
      }
      if row.kind != B.PriceChange { continue; }
      if row.token.None? { continue; }
      var token := row.token.value;
      if row.recvTs.None? { continue; }
      var bucketId := row.recvTs.value / step;
      var built := Quote(row.recvTs.value, bucketId * step, extract(row.payload), row.payload);
      var buckets := if token in perToken then perToken[token] else map[];
      HoldsWinnersSnoc(buckets, Quotes(ordered[..i], token, step, extract), row, step, extract);
      perToken := perToken[token := buckets[bucketId := built]];
    }
    assert ordered[..|ordered|] == ordered;
    series := map[];
    var tokens := perToken.Keys;
    while tokens != {}
      invariant tokens <= perToken.Keys && series.Keys == perToken.Keys - tokens
      invariant forall t | t in series :: Downsamples(series[t], Quotes(ordered, t, step, extract), step)
      decreases |tokens|
    {
      var token: B.Token :| token in tokens;
      var buckets := perToken[token];
      assert buckets == At(perToken, token);
      var ids := SortedKeys(buckets);
      assert forall i | 0 <= i < |ids| :: ids[i] in ids;
      WinnersDownsample(buckets, ids, Quotes(ordered, token, step, extract), step);
      series := series[token := seq(|ids|, i requires 0 <= i < |ids| => buckets[ids[i]])];
      tokens := tokens - {token};
    }
  }

  lemma NoQuotesYet<P>(rows: seq<B.RawRow<P>>, step: int, extract: P -> Status)
    requires step > 0
    ensures forall t :: Quotes(rows[..0], t, step, extract) == []
    ensures HoldsWinners<P>(map[], [], step)
  {
  }

  lemma {:induction false} HoldsWinnersSnoc<P>(buckets: map<int, Quote<P>>, quotes: seq<Quote<P>>, row: B.RawRow<P>,
                                              step: int, extract: P -> Status)
    requires step > 0 && row.recvTs.Some? && HoldsWinners(buckets, quotes, step)
    ensures var q := Built(row, step, extract);
            HoldsWinners(buckets[row.recvTs.value / step := q], quotes + [q], step)
  {
    hide Winner;
    var q := Built(row, step, extract);
    BucketOfBuilt(row.recvTs.value, step);
    forall b
      ensures Winner(quotes + [q], b, step) == if b == row.recvTs.value / step then Some(q) else Winner(quotes, b, step)
    {
      WinnerSnoc(quotes, q, b, step);
    }
  }

  lemma WinnersDownsample<P>(buckets: map<int, Quote<P>>, ids: seq<int>, quotes: seq<Quote<P>>, step: int)
    requires step > 0 && HoldsWinners(buckets, quotes, step)
    requires StrictlyAscending(ids)
    requires (forall i | 0 <= i < |ids| :: ids[i] in buckets) && forall k | k in buckets :: k in ids
    ensures Downsamples(seq(|ids|, i requires 0 <= i < |ids| => buckets[ids[i]]), quotes, step)
  {
    hide Winner;
    var series := seq(|ids|, i requires 0 <= i < |ids| => buckets[ids[i]]);
    forall i | 0 <= i < |series|
      ensures Winner(quotes, ids[i], step) == Some(series[i]) && BucketOf(series[i], step) == ids[i]
    {
      assert ids[i] in ids;
      WinnerInBucket(quotes, ids[i], step);
    }
    forall b | Winner(quotes, b, step).Some?
      ensures Winner(quotes, b, step).value in series
    {
      var i :| 0 <= i < |ids| && ids[i] == b;
      assert series[i] == Winner(quotes, b, step).value;
    }
  }

  // ---------------------------------------------------------------- what the series shows

  /** A price change of the token, received at t. */
  predicate ReceivedAt<P>(row: B.RawRow<P>, token: B.Token, t: int) {
    row.kind == B.PriceChange && row.token == Some(token) && row.recvTs == Some(t)
  }

  /** Row i is the last price change of the token received in its bucket. */
  ghost predicate LastInBucket<P>(rows: seq<B.RawRow<P>>, token: B.Token, step: int, i: nat, t: int)
    requires step > 0 && i < |rows|
  {
    ReceivedAt(rows[i], token, t)
    && forall j, u | i < j < |rows| && ReceivedAt(rows[j], token, u) :: u / step != t / step
  }

  lemma {:induction false} WinnerIsLast<P>(rows: seq<B.RawRow<P>>, token: B.Token, step: int, extract: P -> Status,
                                          b: int)
    requires step > 0
    ensures match Winner(Quotes(rows, token, step, extract), b, step)
            case None => forall i, t | 0 <= i < |rows| && ReceivedAt(rows[i], token, t) :: t / step != b
            case Some(q) =>
              exists i | 0 <= i < |rows| ::
                && LastInBucket(rows, token, step, i, q.recvTs) && q.recvTs / step == b
                && q == Quote(q.recvTs, b * step, extract(rows[i].payload), rows[i].payload)
  {
    if rows != [] {
      var n := |rows| - 1;
      var front, last := rows[..n], rows[n];
      WinnerIsLast(front, token, step, extract, b);
      QuotesSnoc(rows, n, token, step, extract);
      assert rows[..n + 1] == rows;
      var before := Quotes(front, token, step, extract);
      if Qualifies(last, token) {
        BucketOfBuilt(last.recvTs.value, step);
        WinnerSnoc(before, Built(last, step, extract), b, step);
      }
      if Qualifies(last, token) && last.recvTs.value / step == b {
        assert LastInBucket(rows, token, step, n, last.recvTs.value);
      } else if Winner(before, b, step).Some? {
        var q := Winner(before, b, step).value;
        var i :| 0 <= i < n && LastInBucket(front, token, step, i, q.recvTs) && q.recvTs / step == b
                 && q == Quote(q.recvTs, b * step, extract(front[i].payload), front[i].payload);
        EarlierIsLast(rows, token, step, i, q.recvTs);
      }
    }
  }

  lemma EarlierIsLast<P>(rows: seq<B.RawRow<P>>, token: B.Token, step: int, i: nat, t: int)
    requires step > 0 && i < |rows| - 1 && LastInBucket(rows[..|rows| - 1], token, step, i, t)
    requires forall u | ReceivedAt(rows[|rows| - 1], token, u) :: u / step != t / step
    ensures rows[..|rows| - 1][i] == rows[i] && LastInBucket(rows, token, step, i, t)
  {
    var front := rows[..|rows| - 1];
    assert forall j | 0 <= j < |front| :: front[j] == rows[j];
  }

  /**
   Row by row: a quote of the series is the last price change of the token received in its bucket, stamped with
   that bucket, and every price change of the token has such a quote for its bucket.
   */
  lemma SeriesQuotesRows<P>(series: seq<Quote<P>>, rows: seq<B.RawRow<P>>, token: B.Token, step: int,
                            extract: P -> Status)
    requires step > 0 && Downsamples(series, Quotes(rows, token, step, extract), step)
    ensures forall q | q in series ::
              exists i | 0 <= i < |rows| ::
                && LastInBucket(rows, token, step, i, q.recvTs)
                && q == Quote(q.recvTs, q.recvTs / step * step, extract(rows[i].payload), rows[i].payload)
    ensures forall i, t | 0 <= i < |rows| && ReceivedAt(rows[i], token, t) ::
              exists q | q in series :: q.recvTs / step == t / step
  {
    hide Quotes, Winner, LastInBucket;
    var quotes := Quotes(rows, token, step, extract);
    forall q | q in series
      ensures exists i | 0 <= i < |rows| ::
                LastInBucket(rows, token, step, i, q.recvTs)
                && q == Quote(q.recvTs, q.recvTs / step * step, extract(rows[i].payload), rows[i].payload)
    {
      var k :| 0 <= k < |series| && series[k] == q;
      WinnerIsLast(rows, token, step, extract, BucketOf(q, step));
    }
    forall i, t | 0 <= i < |rows| && ReceivedAt(rows[i], token, t)
      ensures exists q | q in series :: q.recvTs / step == t / step
    {
      WinnerIsLast(rows, token, step, extract, t / step);
      var q := Winner(quotes, t / step, step).value;
      assert q in series;
    }
  }
}
