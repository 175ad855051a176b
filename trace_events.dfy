/** The records of a precomputed decoding trace and the TokenUpdate messages
    that the playback session posts for them (inferdecode/decode_tui.py). */
module TraceEvents {

  /** One ranked candidate of a step. The probability is carried, never computed with. */
  datatype Candidate = Candidate(token: string, prob: real)

  /** One element of a trace: the ranked candidates and the text generated so far. */
  datatype StepRecord = StepRecord(topTokens: seq<Candidate>, currentText: string)

  /** The TokenUpdate message: the record at the cursor, the cursor and the trace
      length. Its two timing fields are not modelled. */
  datatype TokenUpdate = TokenUpdate(stepInfo: StepRecord, curPos: nat, totalSteps: nat)

  /** The message posted when the cursor stands at position `i` of `trace`. */
  function UpdateAt(trace: seq<StepRecord>, i: nat): TokenUpdate
    requires i < |trace|
  {
    TokenUpdate(trace[i], i, |trace|)
  }

  /** The messages for positions lo, lo + 1, ..., hi - 1 of `trace`, in that order. */
  function Emissions(trace: seq<StepRecord>, lo: nat, hi: nat): seq<TokenUpdate>
    requires lo <= hi <= |trace|
    decreases hi - lo
  {
    if lo == hi then [] else [UpdateAt(trace, lo)] + Emissions(trace, lo + 1, hi)
  }

  /** The cursor values carried by a run of messages. */
  function Indices(updates: seq<TokenUpdate>): seq<nat>
  {
    seq(|updates|, i requires 0 <= i < |updates| => updates[i].curPos)
  }

  /** The positions lo, lo + 1, ..., hi - 1. */
  function Range(lo: nat, hi: nat): seq<nat>
    requires lo <= hi
  {
    seq(hi - lo, i requires 0 <= i < hi - lo => lo + i)
  }

  predicate EndsWith<T(==)>(s: seq<T>, suffix: seq<T>)
  {
    |suffix| <= |s| && s[|s| - |suffix|..] == suffix
  }

  /** Element i of the emissions is the message for position lo + i. */
  lemma {:induction false} EmissionsAt(trace: seq<StepRecord>, lo: nat, hi: nat)
    requires lo <= hi <= |trace|
    decreases hi - lo
    ensures |Emissions(trace, lo, hi)| == hi - lo
    ensures forall i :: 0 <= i < hi - lo ==> Emissions(trace, lo, hi)[i] == UpdateAt(trace, lo + i)
  {
    if lo < hi {
      EmissionsAt(trace, lo + 1, hi);
      var rest := Emissions(trace, lo + 1, hi);
      assert Emissions(trace, lo, hi) == [UpdateAt(trace, lo)] + rest;
      forall i | 0 <= i < hi - lo
        ensures Emissions(trace, lo, hi)[i] == UpdateAt(trace, lo + i)
      {
        if i > 0 {
          assert Emissions(trace, lo, hi)[i] == rest[i - 1];
        }
      }
    }
  }

  /** Each position in [lo, hi) is emitted once, in increasing order, and no other is. */
  lemma EmissionIndices(trace: seq<StepRecord>, lo: nat, hi: nat)
    requires lo <= hi <= |trace|
    ensures Indices(Emissions(trace, lo, hi)) == Range(lo, hi)
  {
    EmissionsAt(trace, lo, hi);
    assert |Indices(Emissions(trace, lo, hi))| == hi - lo;
    forall i | 0 <= i < hi - lo
      ensures Indices(Emissions(trace, lo, hi))[i] == Range(lo, hi)[i]
    {
    }
  }

  /** Emitting [lo, mid) and then [mid, hi) is emitting [lo, hi). */
  lemma {:induction false} EmissionsSplit(trace: seq<StepRecord>, lo: nat, mid: nat, hi: nat)
    requires lo <= mid <= hi <= |trace|
    decreases mid - lo
    ensures Emissions(trace, lo, hi) == Emissions(trace, lo, mid) + Emissions(trace, mid, hi)
  {
    if lo < mid {
      EmissionsSplit(trace, lo + 1, mid, hi);
    }
  }

  /** One more step appends exactly the message for the next position. */
  lemma EmissionsSnoc(trace: seq<StepRecord>, lo: nat, hi: nat)
    requires lo <= hi < |trace|
    ensures Emissions(trace, lo, hi + 1) == Emissions(trace, lo, hi) + [UpdateAt(trace, hi)]
  {
    EmissionsSplit(trace, lo, hi, hi + 1);
  }
}
