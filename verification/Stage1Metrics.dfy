/** The latency metrics of one Stage 1 request, after `stage1_metrics.py`, over valid request records. */
module Stage1Metrics {
  import opened Prelude
  import opened StreamContract

  datatype Timing = Timing(dispatch: Nanos, firstToken: Option<Nanos>, lastToken: Option<Nanos>, terminal: Nanos)

  datatype Record = Record(success: bool, timing: Timing, tokens: nat, deltas: seq<int>, offsets: seq<Nanos>,
    perToken: bool)

  predicate TimingIsValid(t: Timing) {
    && t.dispatch <= t.terminal
    && (t.firstToken.Some? <==> t.lastToken.Some?)
    && (t.firstToken.Some? ==> t.dispatch <= t.firstToken.value <= t.lastToken.value <= t.terminal)
  }

  /** The token part of the record's contract. */
  predicate RecordIsValid(r: Record) {
    && TimingIsValid(r.timing)
    && |r.deltas| == |r.offsets| && Sum(r.deltas) == r.tokens
    && (forall i :: 0 <= i < |r.deltas| ==> r.deltas[i] > 0)
    && (r.tokens > 0 ==> r.offsets != [] && r.timing.firstToken == Some(r.offsets[0])
                         && r.timing.lastToken == Some(r.offsets[|r.offsets| - 1]))
    && (r.perToken ==> forall i :: 0 <= i < |r.deltas| ==> r.deltas[i] == 1)
  }

  datatype Metrics = Metrics(endToEnd: Option<int>, ttft: Option<int>, tpot: Option<real>, itl: seq<int>,
    span: Option<real>)

  function Pairwise(offsets: seq<Nanos>): (gaps: seq<int>)
    ensures |gaps| == if offsets == [] then 0 else |offsets| - 1
  {
    if |offsets| <= 1 then [] else [offsets[1] - offsets[0]] + Pairwise(offsets[1..])
  }

  function PerInterval(start: Nanos, end: Nanos, tokens: nat): real
    requires tokens >= 2
  {
    (end - start) as real / (tokens - 1) as real
  }

  function DeriveStage1RequestMetrics(r: Record): Metrics {
    if !r.success then Metrics(None, None, None, [], None)
    else
      var t := r.timing;
      Metrics(
        Some(t.terminal - t.dispatch),
        if t.firstToken.Some? then Some(t.firstToken.value - t.dispatch) else None,
        if r.tokens < 2 || t.firstToken.None? then None
          else Some(PerInterval(t.firstToken.value, t.terminal, r.tokens)),
        if r.tokens >= 2 && r.perToken && |r.offsets| == r.tokens then Pairwise(r.offsets) else [],
        if r.tokens >= 2 && t.firstToken.Some? && t.lastToken.Some?
        then Some(PerInterval(t.firstToken.value, t.lastToken.value, r.tokens))
        else None)
  }

  lemma {:induction false} PairwiseTelescopes(offsets: seq<Nanos>)
    requires offsets != []
    ensures Sum(Pairwise(offsets)) == offsets[|offsets| - 1] as int - offsets[0] as int
  {
    if |offsets| > 1 {
      PairwiseTelescopes(offsets[1..]);
      assert Pairwise(offsets)[1..] == Pairwise(offsets[1..]);
    }
  }

  lemma {:induction false} OnesAddUp(deltas: seq<int>)
    requires forall i :: 0 <= i < |deltas| ==> deltas[i] == 1
    ensures Sum(deltas) == |deltas|
  {
    if deltas != [] {
      OnesAddUp(deltas[1..]);
    }
  }

  lemma IntervalsAdd(a: Nanos, b: Nanos, c: Nanos, tokens: nat)
    requires tokens >= 2
    ensures PerInterval(a, c, tokens) - PerInterval(a, b, tokens) == PerInterval(b, c, tokens)
    ensures b <= c ==> PerInterval(b, c, tokens) >= 0.0 && (PerInterval(b, c, tokens) == 0.0 <==> b == c)
  {
  }

  /** For a valid successful request with two tokens or more: time per output token exceeds the observed
      span per interval by the share of the time after the last token, so the two are equal only when
      the last token comes with the terminal; and where single tokens were observed, there is a gap for
      every interval and their mean is the observed span. */
  lemma MetricsTelescope(r: Record)
    requires RecordIsValid(r) && r.success && r.tokens >= 2
    ensures var m := DeriveStage1RequestMetrics(r);
            && r.timing.lastToken.Some? && m.tpot.Some? && m.span.Some?
            && m.tpot.value - m.span.value == PerInterval(r.timing.lastToken.value, r.timing.terminal, r.tokens)
            && m.tpot.value >= m.span.value
            && (m.tpot.value == m.span.value <==> r.timing.lastToken.value == r.timing.terminal)
            && (r.perToken ==> |m.itl| == r.tokens - 1 && Mean(m.itl) == m.span.value)
  {
    IntervalsAdd(r.timing.firstToken.value, r.timing.lastToken.value, r.timing.terminal, r.tokens);
    if r.perToken {
      OnesAddUp(r.deltas);
      PairwiseTelescopes(r.offsets);
    }
  }

  lemma {:induction false} GapsAre(offsets: seq<Nanos>, k: nat)
    requires k + 1 < |offsets|
    ensures Pairwise(offsets)[k] == offsets[k + 1] as int - offsets[k] as int
  {
    if k > 0 {
      GapsAre(offsets[1..], k - 1);
    }
  }

  /** Where single tokens were observed, and only there, the k-th latency lies between the k-th token and
      the next. */
  lemma GapsLieBetweenTokens(r: Record)
    requires RecordIsValid(r)
    ensures var itl := DeriveStage1RequestMetrics(r).itl;
            && (itl != [] <==> r.success && r.tokens >= 2 && r.perToken)
            && (itl != [] ==> |itl| == r.tokens - 1 && |r.offsets| == r.tokens)
            && forall k: nat :: k < |itl| ==> itl[k] == r.offsets[k + 1] as int - r.offsets[k] as int
  {
    if r.perToken {
      OnesAddUp(r.deltas);
    }
    var itl := DeriveStage1RequestMetrics(r).itl;
    forall k: nat | k < |itl| ensures itl[k] == r.offsets[k + 1] as int - r.offsets[k] as int {
      GapsAre(r.offsets, k);
    }
  }

  lemma IntervalsFill(a: Nanos, b: Nanos, tokens: nat)
    requires tokens >= 2
    ensures (tokens - 1) as real * PerInterval(a, b, tokens) == (b - a) as real
  {
  }

  /** From dispatch to terminal: the time to the first token, if there is one, and behind it the time per
      output token for each interval. A request that failed has no metrics. */
  lemma EndToEndSplits(r: Record)
    requires RecordIsValid(r)
    ensures var m := DeriveStage1RequestMetrics(r);
            && (m.endToEnd.Some? <==> r.success) && (m.ttft.Some? <==> r.success && r.timing.firstToken.Some?)
            && (m.tpot.Some? <==> r.success && r.tokens >= 2) && (m.span.Some? <==> m.tpot.Some?)
            && (m.endToEnd.Some? ==> m.endToEnd.value == r.timing.terminal as int - r.timing.dispatch as int)
            && (m.ttft.Some? ==> 0 <= m.ttft.value <= m.endToEnd.value)
            && (m.ttft.Some? ==> r.timing.dispatch as int + m.ttft.value == r.timing.firstToken.value)
            && (m.tpot.Some? ==>
                  m.ttft.Some? && (r.tokens - 1) as real * m.tpot.value == (m.endToEnd.value - m.ttft.value) as real)
  {
    if r.success && r.tokens >= 2 {
      IntervalsFill(r.timing.firstToken.value, r.timing.terminal, r.tokens);
    }
  }
}
