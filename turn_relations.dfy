/** The turn-window relation scorer (`responsiveness_coherence_detector` in
    src/parameterizer.py). One left-to-right pass over the utterance records
    keeps three id windows -- the current turn so far, the previous turn and
    the turn before that -- and writes, for every record, its best response,
    coherence and repetition match, read from that record's row of the
    similarity matrix. The matrix is an input: embeddings are computed
    elsewhere. */
module TurnRelations {
  import opened Basics

  /** An `(ID, Score)` pair as the detector writes it; `NoMatch` is the pair
      `(None, None)`. */
  datatype Relation = NoMatch | Best(id: nat, score: real)

  /** One record of `parameterize`'s output. The three relation fields are
      `None` until the detector writes them (the record has no such key yet). */
  datatype Utterance = Utterance(
    id: nat, turn: nat, name: string, previous: string, text: string,
    airTime: int, wpm: int, qType: Option<string>, nType: string,
    response: Option<Relation>, coherence: Option<Relation>, repeat: Option<Relation>)

  /** The detector's four loop variables: the last turn seen and the id
      lists of the turn two back, of the previous turn and of this turn. */
  datatype Windows = Windows(lastTurn: int, twoBack: seq<nat>, previous: seq<nat>, current: seq<nat>)

  /** How the pass ended: every record scored, or `max()` raised
      `ValueError` on an empty repetition range at the given record. */
  datatype Completion = Finished | RaisedAt(index: nat)

  const Initial := Windows(0, [], [], [])

  predicate Within(xs: seq<nat>, n: nat) {
    forall i | 0 <= i < |xs| :: xs[i] < n
  }

  predicate WindowsWithin(w: Windows, n: nat) {
    Within(w.twoBack, n) && Within(w.previous, n) && Within(w.current, n)
  }

  /** What the source demands of its input: every id indexes a row of the
      square similarity matrix. */
  predicate SimilarityFits(us: seq<Utterance>, sim: seq<seq<real>>) {
    && (forall k | 0 <= k < |us| :: us[k].id < |sim|)
    && (forall r | 0 <= r < |sim| :: |sim[r]| == |sim|)
  }

  /** On a change of turn the windows shift by one turn and this turn's
      list starts empty. */
  function Rotate(w: Windows, turn: int): Windows {
    if turn != w.lastTurn then Windows(turn, w.previous, w.current, []) else w
  }

  /** The loop variables after the first `k` records were processed. */
  function Before(us: seq<Utterance>, k: nat): Windows
    requires k <= |us|
  {
    if k == 0 then Initial
    else
      var w := Rotate(Before(us, k - 1), us[k - 1].turn);
      w.(current := w.current + [us[k - 1].id])
  }

  /** The windows record `k` is scored against. */
  function At(us: seq<Utterance>, k: nat): Windows
    requires k < |us|
  {
    Rotate(Before(us, k), us[k].turn)
  }

  lemma {:induction false} BeforeWithin(us: seq<Utterance>, k: nat, n: nat)
    requires k <= |us|
    requires forall j | 0 <= j < |us| :: us[j].id < n
    ensures WindowsWithin(Before(us, k), n)
    ensures k < |us| ==> WindowsWithin(At(us, k), n)
  {
    if k > 0 {
      BeforeWithin(us, k - 1, n);
    }
  }

  // ---------------------------------------------------------------------
  // Best match: Python's max(pairs, key=score) keeps the FIRST maximal pair

  /** Position of the first candidate with the largest score: the pair
      Python's `max(pairs, key=score)` returns, since it replaces its best
      pair only on a strictly larger score. */
  function ArgMax(row: seq<real>, cands: seq<nat>): (p: nat)
    requires cands != [] && Within(cands, |row|)
    ensures p < |cands|
  {
    if |cands| == 1 then 0
    else
      var q := ArgMax(row, cands[..|cands| - 1]);
      if row[cands[|cands| - 1]] > row[cands[q]] then |cands| - 1 else q
  }

  /** `ArgMax` picks a largest score, and every candidate before it scores
      strictly less. */
  lemma {:induction false} ArgMaxIsFirstMax(row: seq<real>, cands: seq<nat>)
    requires cands != [] && Within(cands, |row|)
    ensures forall j | 0 <= j < |cands| :: row[cands[j]] <= row[cands[ArgMax(row, cands)]]
    ensures forall j | 0 <= j < ArgMax(row, cands) :: row[cands[j]] < row[cands[ArgMax(row, cands)]]
  {
    if |cands| > 1 {
      var init := cands[..|cands| - 1];
      ArgMaxIsFirstMax(row, init);
      assert forall j | 0 <= j < |init| :: init[j] == cands[j];
    }
  }

  function MaxBy(row: seq<real>, cands: seq<nat>): Relation
    requires cands != [] && Within(cands, |row|)
  {
    var p := ArgMax(row, cands);
    Best(cands[p], row[cands[p]])
  }

  /** `range(n, -1, -1)`: n, n-1, ..., 0, and nothing when n < 0. */
  function Countdown(n: int): (r: seq<nat>)
    ensures |r| == if n < 0 then 0 else n + 1
    ensures forall i | 0 <= i < |r| :: r[i] == n - i
  {
    if n < 0 then [] else [n] + Countdown(n - 1)
  }

  /** Lines 138-146: the best match in the previous turn. */
  function Response(w: Windows, row: seq<real>): Relation
    requires Within(w.previous, |row|)
  {
    if w.previous != [] then MaxBy(row, w.previous) else NoMatch
  }

  /** Lines 148-156: the best match in this turn so far, then the turn two back. */
  function Coherence(w: Windows, row: seq<real>): Relation
    requires Within(w.current, |row|) && Within(w.twoBack, |row|)
  {
    var cands := w.current + w.twoBack;
    if cands != [] then MaxBy(row, cands) else NoMatch
  }

  /** Line 161: every id below `id` minus the three windows' total length. */
  function RepeatCandidates(w: Windows, id: int): seq<nat> {
    Countdown(id - |w.current + w.previous + w.twoBack| - 1)
  }

  /** Lines 158-166: from turn 3 on, the best match among the older ids;
      `max()` of an empty range raises `ValueError`. */
  function Repeat(w: Windows, id: nat, turn: int, row: seq<real>): Result<Relation>
    requires id <= |row|
  {
    if turn > 2 then
      var cands := RepeatCandidates(w, id);
      if cands != [] then Ok(MaxBy(row, cands)) else Err(ValueError)
    else Ok(NoMatch)
  }

  /** Record `k`'s response match, read from its similarity row. */
  function ResponseAt(us: seq<Utterance>, sim: seq<seq<real>>, k: nat): Relation
    requires SimilarityFits(us, sim) && k < |us|
  {
    BeforeWithin(us, k, |sim|);
    Response(At(us, k), sim[us[k].id])
  }

  /** Record `k`'s coherence match. */
  function CoherenceAt(us: seq<Utterance>, sim: seq<seq<real>>, k: nat): Relation
    requires SimilarityFits(us, sim) && k < |us|
  {
    BeforeWithin(us, k, |sim|);
    Coherence(At(us, k), sim[us[k].id])
  }

  /** Record `k`'s repetition match, or the `ValueError` it raises. */
  function RepeatAt(us: seq<Utterance>, sim: seq<seq<real>>, k: nat): Result<Relation>
    requires SimilarityFits(us, sim) && k < |us|
  {
    Repeat(At(us, k), us[k].id, us[k].turn, sim[us[k].id])
  }

  /** Record `k` with the response and coherence fields written. */
  function SelfScored(us: seq<Utterance>, sim: seq<seq<real>>, k: nat): Utterance
    requires SimilarityFits(us, sim) && k < |us|
  {
    us[k].(response := Some(ResponseAt(us, sim, k)), coherence := Some(CoherenceAt(us, sim, k)))
  }

  /** Record `k` fully scored, or the `ValueError` its repetition step raises. */
  function Scored(us: seq<Utterance>, sim: seq<seq<real>>, k: nat): Result<Utterance>
    requires SimilarityFits(us, sim) && k < |us|
  {
    match RepeatAt(us, sim, k)
    case Ok(r) => Ok(SelfScored(us, sim, k).(repeat := Some(r)))
    case Err(e) => Err(e)
  }

  function Stop(c: Completion, n: nat): nat {
    match c
    case Finished => n
    case RaisedAt(k) => k
  }

  /** One pass of the loop body after the rotation (lines 136-166): the
      record with its three relation fields written, or, when `max()`
      raises, with only the first two. */
  method ScoreEntry(entry: Utterance, w: Windows, sim: seq<seq<real>>, ghost us: seq<Utterance>, ghost k: nat)
    returns (scored: Utterance, ok: bool)
    requires SimilarityFits(us, sim) && k < |us| && entry == us[k] && w == At(us, k)
    ensures ok ==> Scored(us, sim, k) == Ok(scored)
    ensures !ok ==> Scored(us, sim, k).Err? && scored == SelfScored(us, sim, k)
  {
    BeforeWithin(us, k, |sim|);
    var row := sim[entry.id];
    scored := entry.(response := Some(Response(w, row)), coherence := Some(Coherence(w, row)));
    var repeat := Repeat(w, entry.id, entry.turn, row);
    ok := repeat.Ok?;
    if ok {
      scored := scored.(repeat := Some(repeat.value));
    }
  }

  /** Every record scored on its own, and every record with only its
      first two fields written (what is left when `max()` raises). */
  function AllScored(us: seq<Utterance>, sim: seq<seq<real>>): (rs: seq<Result<Utterance>>)
    requires SimilarityFits(us, sim)
    ensures |rs| == |us| && forall k | 0 <= k < |us| :: rs[k] == Scored(us, sim, k)
  {
    seq(|us|, k requires 0 <= k < |us| => Scored(us, sim, k))
  }

  function AllSelfScored(us: seq<Utterance>, sim: seq<seq<real>>): (ps: seq<Utterance>)
    requires SimilarityFits(us, sim)
    ensures |ps| == |us| && forall k | 0 <= k < |us| :: ps[k] == SelfScored(us, sim, k)
  {
    seq(|us|, k requires 0 <= k < |us| => SelfScored(us, sim, k))
  }

  /** The pass from record `i` on, given each record's own outcome `rs`
      and its partial scoring `ps`, over the records `vs` as the records
      before `i` left them: how it ends and the records it leaves. */
  function RunFrom(rs: seq<Result<Utterance>>, ps: seq<Utterance>, i: nat, vs: seq<Utterance>): (Completion, seq<Utterance>)
    requires i <= |vs| == |rs| == |ps|
    decreases |vs| - i
  {
    if i == |vs| then (Finished, vs)
    else match rs[i]
      case Ok(u) => RunFrom(rs, ps, i + 1, vs[i := u])
      case Err(_) => (RaisedAt(i), vs[i := ps[i]])
  }

  /** The whole pass over the records `us`. */
  function Detected(us: seq<Utterance>, sim: seq<seq<real>>): (Completion, seq<Utterance>)
    requires SimilarityFits(us, sim)
  {
    RunFrom(AllScored(us, sim), AllSelfScored(us, sim), 0, us)
  }

  /** The detector itself: it updates the records in place, exactly as
      `Detected` describes. */
  method DetectRelations(entries: array<Utterance>, sim: seq<seq<real>>) returns (c: Completion)
    requires SimilarityFits(entries[..], sim)
    modifies entries
    ensures (c, entries[..]) == Detected(old(entries[..]), sim)
  {
    ghost var us := entries[..];
    ghost var rs, ps := AllScored(us, sim), AllSelfScored(us, sim);
    var w := Initial;
    var i := 0;
    while i < entries.Length
      invariant 0 <= i <= entries.Length
      invariant w == Before(us, i)
      invariant entries[i..] == us[i..]
      invariant RunFrom(rs, ps, i, entries[..]) == Detected(us, sim)
    {
      assert entries[i] == entries[i..][0];
      var entry := entries[i];
      var id := entry.id;
      w := Rotate(w, entry.turn);
      var ok;
      entry, ok := ScoreEntry(entry, w, sim, us, i);
      ghost var before := entries[..];
      entries[i] := entry;
      assert entries[..] == before[i := entry];
      assert entries[i + 1..] == before[i + 1..];
      if !ok {
        return RaisedAt(i);
      }
      w := w.(current := w.current + [id]);
      i := i + 1;
    }
    return Finished;
  }

  // ---------------------------------------------------------------------
  // What the pass computes, record by record

  /** The pass from record `i` on leaves as many records as it was given. */
  lemma {:induction false} RunFromLength(rs: seq<Result<Utterance>>, ps: seq<Utterance>, i: nat, vs: seq<Utterance>)
    requires i <= |vs| == |rs| == |ps|
    ensures |RunFrom(rs, ps, i, vs).1| == |vs|
    decreases |vs| - i
  {
    if i < |vs| && rs[i].Ok? {
      RunFromLength(rs, ps, i + 1, vs[i := rs[i].value]);
    }
  }

  /** The pass from record `i` on stops at the first record from `i` on
      whose outcome is an error, and finishes when there is none. */
  lemma {:induction false} RunFromStops(rs: seq<Result<Utterance>>, ps: seq<Utterance>, i: nat, vs: seq<Utterance>)
    requires i <= |vs| == |rs| == |ps|
    ensures RunFrom(rs, ps, i, vs).0.RaisedAt? ==> i <= RunFrom(rs, ps, i, vs).0.index < |vs|
    ensures forall k | i <= k < Stop(RunFrom(rs, ps, i, vs).0, |vs|) :: rs[k].Ok?
    ensures RunFrom(rs, ps, i, vs).0.RaisedAt? ==> rs[RunFrom(rs, ps, i, vs).0.index].Err?
    decreases |vs| - i
  {
    if i < |vs| && rs[i].Ok? {
      RunFromStops(rs, ps, i + 1, vs[i := rs[i].value]);
    }
  }

  /** Record `k` as the pass from `i` on leaves it: scored if the pass got
      past it, partially scored where it stopped, and as given otherwise. */
  lemma {:induction false} RunFromAt(rs: seq<Result<Utterance>>, ps: seq<Utterance>, i: nat, vs: seq<Utterance>, k: nat)
    requires i <= |vs| == |rs| == |ps| && k < |vs|
    ensures |RunFrom(rs, ps, i, vs).1| == |vs|
    ensures k < i || Stop(RunFrom(rs, ps, i, vs).0, |vs|) < k ==> RunFrom(rs, ps, i, vs).1[k] == vs[k]
    ensures k == Stop(RunFrom(rs, ps, i, vs).0, |vs|) ==> RunFrom(rs, ps, i, vs).1[k] == ps[k]
    ensures i <= k < Stop(RunFrom(rs, ps, i, vs).0, |vs|) ==> rs[k] == Ok(RunFrom(rs, ps, i, vs).1[k])
    decreases |vs| - i
  {
    RunFromLength(rs, ps, i, vs);
    RunFromStops(rs, ps, i, vs);
    if i < |vs| && rs[i].Ok? {
      RunFromAt(rs, ps, i + 1, vs[i := rs[i].value], k);
    }
  }

  /** The detector's outcome: it finishes exactly when no record's
      repetition step raises; otherwise it stops at the first record whose
      step raises. Every record before the stopping point is fully scored,
      the record where it stopped has its response and coherence fields
      only, and the records after it are as they were. */
  lemma DetectedSpec(us: seq<Utterance>, sim: seq<seq<real>>)
    requires SimilarityFits(us, sim)
    ensures Detected(us, sim).0 == Finished <==> forall k | 0 <= k < |us| :: Scored(us, sim, k).Ok?
    ensures Detected(us, sim).0.RaisedAt? ==>
      && Detected(us, sim).0.index < |us|
      && Scored(us, sim, Detected(us, sim).0.index).Err?
      && forall k | 0 <= k < Detected(us, sim).0.index :: Scored(us, sim, k).Ok?
    ensures |Detected(us, sim).1| == |us|
    ensures forall k | 0 <= k < |us| ::
      var (c, out) := (Detected(us, sim).0, Detected(us, sim).1);
      if k < Stop(c, |us|) then Ok(out[k]) == Scored(us, sim, k)
      else if k == Stop(c, |us|) then out[k] == SelfScored(us, sim, k)
      else out[k] == us[k]
  {
    var rs, ps := AllScored(us, sim), AllSelfScored(us, sim);
    RunFromLength(rs, ps, 0, us);
    RunFromStops(rs, ps, 0, us);
    forall k | 0 <= k < |us|
      ensures var (c, out) := (Detected(us, sim).0, Detected(us, sim).1);
        if k < Stop(c, |us|) then Ok(out[k]) == Scored(us, sim, k)
        else if k == Stop(c, |us|) then out[k] == SelfScored(us, sim, k)
        else out[k] == us[k]
    {
      RunFromAt(rs, ps, 0, us, k);
    }
  }
}
