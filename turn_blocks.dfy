/** An independent description of the detector's windows. The records
    fall into blocks, maximal runs of records with equal `turn`; the windows
    record `k` is scored against are its own block up to `k`, the block
    before it and the block before that. With the ids `parameterize`
    assigns (0, 1, 2, ...) these are three adjacent ranges of ids, and the
    three matches, their tie-breaks and the `ValueError` of the repetition
    step follow from that. */
module TurnBlocks {
  import opened Basics
  import opened TurnRelations

  /** Index of the first record of the block that holds record `j`. */
  function BlockStart(us: seq<Utterance>, j: nat): (s: nat)
    requires j < |us|
    ensures s <= j
  {
    if j == 0 || us[j - 1].turn != us[j].turn then j else BlockStart(us, j - 1)
  }

  /** Ids of the records `a` to `b - 1`, in record order. */
  function Ids(us: seq<Utterance>, a: nat, b: nat): seq<nat>
    requires a <= b <= |us|
    decreases b
  {
    if a == b then [] else Ids(us, a, b - 1) + [us[b - 1].id]
  }

  /** Start of the block before the one starting at `s` (0 if there is none). */
  function PriorStart(us: seq<Utterance>, s: nat): (p: nat)
    requires s <= |us|
    ensures p <= s
    ensures s > 0 ==> p < s
  {
    if s == 0 then 0 else BlockStart(us, s - 1)
  }

  /** Start of record `k`'s block, of the block before, and of the block
      before that. */
  function ThisStart(us: seq<Utterance>, k: nat): nat
    requires k < |us|
  {
    BlockStart(us, k)
  }

  function PreviousStart(us: seq<Utterance>, k: nat): nat
    requires k < |us|
  {
    PriorStart(us, ThisStart(us, k))
  }

  function TwoBackStart(us: seq<Utterance>, k: nat): nat
    requires k < |us|
  {
    PriorStart(us, PreviousStart(us, k))
  }

  /** The windows of record `k`, described by blocks. */
  function ByBlocks(us: seq<Utterance>, k: nat): Windows
    requires k < |us|
  {
    var s, p, o := ThisStart(us, k), PreviousStart(us, k), TwoBackStart(us, k);
    Windows(us[k].turn, Ids(us, o, p), Ids(us, p, s), Ids(us, s, k))
  }

  /** The detector's rotating windows are exactly the turn blocks. */
  lemma {:induction false} WindowsAreTurnBlocks(us: seq<Utterance>, k: nat)
    requires k < |us|
    ensures At(us, k) == ByBlocks(us, k)
  {
    if k > 0 {
      WindowsAreTurnBlocks(us, k - 1);
      var prev := ByBlocks(us, k - 1);
      assert Before(us, k) == prev.(current := prev.current + [us[k - 1].id]);
    }
  }

  // ---------------------------------------------------------------------
  // Records as `parameterize` produces them: ids 0, 1, 2, ...

  predicate Consecutive(us: seq<Utterance>) {
    forall k | 0 <= k < |us| :: us[k].id == k
  }

  /** The ids `a` to `b - 1`, ascending. */
  function Range(a: nat, b: nat): (r: seq<nat>)
    requires a <= b
    ensures |r| == b - a
    ensures forall i | 0 <= i < |r| :: r[i] == a + i
    decreases b
  {
    if a == b then [] else Range(a, b - 1) + [b - 1]
  }

  lemma {:induction false} IdsAreRange(us: seq<Utterance>, a: nat, b: nat)
    requires Consecutive(us) && a <= b <= |us|
    ensures Ids(us, a, b) == Range(a, b)
    decreases b
  {
    if a < b {
      IdsAreRange(us, a, b - 1);
    }
  }

  /** With consecutive ids the windows of record `k` are the adjacent id
      ranges [o, p), [p, s) and [s, k): pairwise disjoint, and every id in
      them is below `k`, the record's own id. A block other than the first
      is never empty. */
  lemma WindowsAreRanges(us: seq<Utterance>, k: nat)
    requires Consecutive(us) && k < |us|
    ensures var s, p, o := ThisStart(us, k), PreviousStart(us, k), TwoBackStart(us, k);
      && o <= p <= s <= k
      && (s > 0 ==> p < s)
      && (p > 0 ==> o < p)
      && At(us, k) == Windows(us[k].turn, Range(o, p), Range(p, s), Range(s, k))
  {
    var s, p, o := ThisStart(us, k), PreviousStart(us, k), TwoBackStart(us, k);
    WindowsAreTurnBlocks(us, k);
    IdsAreRange(us, o, p);
    IdsAreRange(us, p, s);
    IdsAreRange(us, s, k);
  }

  // ---------------------------------------------------------------------
  // Best match over an ordered candidate list

  /** Python's `max` over the pairs in candidate order: a candidate with
      the largest score, and among equal scores the one listed first. */
  lemma MaxByFirst(row: seq<real>, cands: seq<nat>)
    requires cands != [] && Within(cands, |row|)
    ensures MaxBy(row, cands).Best?
    ensures MaxBy(row, cands).id in cands
    ensures MaxBy(row, cands).score == row[MaxBy(row, cands).id]
    ensures forall j | 0 <= j < |cands| :: row[cands[j]] <= MaxBy(row, cands).score
    ensures forall j | 0 <= j < |cands| && row[cands[j]] == MaxBy(row, cands).score ::
              MaxBy(row, cands).id in cands[..j + 1]
  {
    ArgMaxIsFirstMax(row, cands);
    var p := ArgMax(row, cands);
    forall j | 0 <= j < |cands| && row[cands[j]] == MaxBy(row, cands).score
      ensures MaxBy(row, cands).id in cands[..j + 1]
    {
      assert p <= j;
      assert cands[..j + 1][p] == cands[p];
    }
  }

  /** Best match over ascending ids `a` to `b - 1`: the smallest id wins a tie. */
  lemma MaxOverRange(row: seq<real>, a: nat, b: nat)
    requires a < b <= |row|
    ensures Within(Range(a, b), |row|)
    ensures var r := MaxBy(row, Range(a, b));
      && r.Best? && a <= r.id < b && r.score == row[r.id]
      && (forall j | a <= j < b :: row[j] <= r.score)
      && (forall j | a <= j < b && row[j] == r.score :: r.id <= j)
  {
    var cands := Range(a, b);
    ArgMaxIsFirstMax(row, cands);
    var r := MaxBy(row, cands);
    forall j | a <= j < b
      ensures row[j] <= r.score
      ensures row[j] == r.score ==> r.id <= j
    {
      assert cands[j - a] == j;
    }
  }

  /** Best match over the ids `s` to `k - 1` followed by `o` to `p - 1`:
      an id of the first range wins a tie against the second, and within
      a range the smaller id wins. */
  lemma MaxOverTwoRanges(row: seq<real>, s: nat, k: nat, o: nat, p: nat)
    requires s <= k <= |row| && o <= p <= |row| && (s < k || o < p)
    ensures Within(Range(s, k) + Range(o, p), |row|)
    ensures var r := MaxBy(row, Range(s, k) + Range(o, p));
      && r.Best? && (s <= r.id < k || o <= r.id < p) && r.score == row[r.id]
      && (forall j | s <= j < k || o <= j < p :: row[j] <= r.score)
      && (forall j | s <= j < k && row[j] == r.score :: s <= r.id <= j)
      && (forall j | o <= j < p && row[j] == r.score :: s <= r.id < k || o <= r.id <= j)
  {
    var cands := Range(s, k) + Range(o, p);
    ArgMaxIsFirstMax(row, cands);
    var q := ArgMax(row, cands);
    var r := MaxBy(row, cands);
    assert q < k - s ==> r.id == s + q;
    assert q >= k - s ==> r.id == o + q - (k - s);
    forall j | s <= j < k
      ensures row[j] <= r.score
      ensures row[j] == r.score ==> s <= r.id <= j
    {
      assert cands[j - s] == j;
    }
    forall j | o <= j < p
      ensures row[j] <= r.score
      ensures row[j] == r.score ==> s <= r.id < k || o <= r.id <= j
    {
      assert cands[k - s + j - o] == j;
    }
  }

  /** Best match over the ids `n` down to 0: the larger id wins a tie. */
  lemma MaxOverCountdown(row: seq<real>, n: nat)
    requires n < |row|
    ensures Within(Countdown(n), |row|)
    ensures var r := MaxBy(row, Countdown(n));
      && r.Best? && r.id <= n && r.score == row[r.id]
      && (forall j | 0 <= j <= n :: row[j] <= r.score)
      && (forall j | 0 <= j <= n && row[j] == r.score :: j <= r.id)
  {
    var cands := Countdown(n);
    ArgMaxIsFirstMax(row, cands);
    var r := MaxBy(row, cands);
    forall j | 0 <= j <= n
      ensures row[j] <= r.score
      ensures row[j] == r.score ==> j <= r.id
    {
      assert cands[n - j] == j;
    }
  }

  // ---------------------------------------------------------------------
  // The three matches of a record, with consecutive ids

  /** Response: no match exactly in the first block; otherwise a record of
      the previous block with the largest score, the earliest among equal
      scores. */
  lemma ResponseSpec(us: seq<Utterance>, sim: seq<seq<real>>, k: nat)
    requires SimilarityFits(us, sim) && Consecutive(us) && k < |us|
    ensures var r, s, p := ResponseAt(us, sim, k), ThisStart(us, k), PreviousStart(us, k);
      && (r == NoMatch <==> s == 0)
      && (r.Best? ==> p <= r.id < s && r.score == sim[k][r.id])
      && (r.Best? ==> forall j | p <= j < s :: sim[k][j] <= r.score)
      && (r.Best? ==> forall j | p <= j < s && sim[k][j] == r.score :: r.id <= j)
  {
    var s, p := ThisStart(us, k), PreviousStart(us, k);
    WindowsAreRanges(us, k);
    assert ResponseAt(us, sim, k) == Response(At(us, k), sim[k]);
    if s > 0 {
      MaxOverRange(sim[k], p, s);
    }
  }

  /** Coherence: no match exactly when the record opens its block and no
      block lies two back; otherwise a record of its own block so far or of
      the block two back with the largest score. On equal scores a record
      of its own block wins, and within a block the earliest. */
  lemma CoherenceSpec(us: seq<Utterance>, sim: seq<seq<real>>, k: nat)
    requires SimilarityFits(us, sim) && Consecutive(us) && k < |us|
    ensures var r, s, p, o := CoherenceAt(us, sim, k), ThisStart(us, k), PreviousStart(us, k), TwoBackStart(us, k);
      && (r == NoMatch <==> s == k && p == 0)
      && (r.Best? ==> (s <= r.id < k || o <= r.id < p) && r.score == sim[k][r.id])
      && (r.Best? ==> forall j | s <= j < k || o <= j < p :: sim[k][j] <= r.score)
      && (r.Best? ==> forall j | s <= j < k && sim[k][j] == r.score :: s <= r.id <= j)
      && (r.Best? ==> forall j | o <= j < p && sim[k][j] == r.score :: s <= r.id < k || o <= r.id <= j)
  {
    var s, p, o := ThisStart(us, k), PreviousStart(us, k), TwoBackStart(us, k);
    WindowsAreRanges(us, k);
    assert CoherenceAt(us, sim, k) == Coherence(At(us, k), sim[k]);
    if s < k || o < p {
      MaxOverTwoRanges(sim[k], s, k, o, p);
    } else {
      assert Range(s, k) + Range(o, p) == [];
    }
  }

  /** Repetition: no match up to turn 2. From turn 3 on, `ValueError`
      exactly when no record lies before the block two back; otherwise a
      record before that block with the largest score, the most recent
      among equal scores. */
  lemma RepeatSpec(us: seq<Utterance>, sim: seq<seq<real>>, k: nat)
    requires SimilarityFits(us, sim) && Consecutive(us) && k < |us|
    ensures us[k].turn <= 2 ==> RepeatAt(us, sim, k) == Ok(NoMatch)
    ensures us[k].turn > 2 ==> (RepeatAt(us, sim, k).Err? <==> TwoBackStart(us, k) == 0)
    ensures var r, o := RepeatAt(us, sim, k), TwoBackStart(us, k);
      us[k].turn > 2 && r.Ok? ==>
        && r.value.Best? && r.value.id < o && r.value.score == sim[k][r.value.id]
        && (forall j | 0 <= j < o :: sim[k][j] <= r.value.score)
        && (forall j | 0 <= j < o && sim[k][j] == r.value.score :: j <= r.value.id)
  {
    var s, p, o := ThisStart(us, k), PreviousStart(us, k), TwoBackStart(us, k);
    WindowsAreRanges(us, k);
    var w := At(us, k);
    assert |w.current + w.previous + w.twoBack| == k - o;
    assert RepeatCandidates(w, k) == Countdown(o as int - 1);
    if o > 0 {
      MaxOverCountdown(sim[k], o - 1);
    }
  }

  // ---------------------------------------------------------------------
  // When the repetition step raises

  /** Turns as `parameterize` assigns them when every segment keeps at
      least one sentence: from 0, going up by one at each change. */
  predicate TurnsStepByOne(us: seq<Utterance>) {
    && (us != [] ==> us[0].turn == 0)
    && forall j | 0 < j < |us| :: us[j].turn == us[j - 1].turn || us[j].turn == us[j - 1].turn + 1
  }

  lemma {:induction false} BlockTurn(us: seq<Utterance>, j: nat)
    requires j < |us|
    ensures us[BlockStart(us, j)].turn == us[j].turn
  {
    if j > 0 && us[j - 1].turn == us[j].turn {
      BlockTurn(us, j - 1);
    }
  }

  /** With turns stepping by one, a record with no block before the one
      two back is in turn 0, 1 or 2. */
  lemma EarlyBlocksAreEarlyTurns(us: seq<Utterance>, k: nat)
    requires TurnsStepByOne(us) && k < |us|
    ensures TwoBackStart(us, k) == 0 ==> us[k].turn <= 2
  {
    var s := ThisStart(us, k);
    BlockTurn(us, k);
    if s > 0 {
      var p := PreviousStart(us, k);
      BlockTurn(us, s - 1);
      if p > 0 {
        BlockTurn(us, p - 1);
      }
    }
  }

  /** With consecutive ids and turns stepping by one the detector never
      raises: it scores every record. */
  lemma StepByOneTurnsNeverRaise(us: seq<Utterance>, sim: seq<seq<real>>)
    requires SimilarityFits(us, sim) && Consecutive(us) && TurnsStepByOne(us)
    ensures Detected(us, sim).0 == Finished
  {
    forall k | 0 <= k < |us|
      ensures Scored(us, sim, k).Ok?
    {
      RepeatSpec(us, sim, k);
      EarlyBlocksAreEarlyTurns(us, k);
    }
    DetectedSpec(us, sim);
  }

  // ---------------------------------------------------------------------
  // Worked examples

  /** A record with only an id and a turn. */
  function Rec(id: nat, turn: nat): Utterance {
    Utterance(id, turn, "", "", "", 0, 0, None, "", None, None, None)
  }

  /** Candidates 2 and 5 both scoring 0.7: the pair listed first, id 2, wins. */
  lemma EarlierCandidateWinsTie()
    ensures MaxBy([0.0, 0.0, 0.7, 0.0, 0.0, 0.7], [2, 5]) == Best(2, 0.7)
  {
    assert ArgMax([0.0, 0.0, 0.7, 0.0, 0.0, 0.7], [2]) == 0;
  }

  /** Two speakers, three turns: ids 0 and 1 in turn 0, 2 and 3 in turn 1,
      4 in turn 2; the similarity row of record 4. */
  const Scenario := [Rec(0, 0), Rec(1, 0), Rec(2, 1), Rec(3, 1), Rec(4, 2)]
  const ScenarioRow := [0.8, 0.3, 0.2, 0.5, 1.0]
  const ScenarioSim := [ScenarioRow, ScenarioRow, ScenarioRow, ScenarioRow, ScenarioRow]

  lemma ScenarioBlocks()
    ensures SimilarityFits(Scenario, ScenarioSim) && Consecutive(Scenario)
    ensures ThisStart(Scenario, 4) == 4 && PreviousStart(Scenario, 4) == 2 && TwoBackStart(Scenario, 4) == 0
  {
  }

  /** Record 4 responds to record 3, the better of turn 1's two records. */
  lemma ScenarioResponse()
    ensures SimilarityFits(Scenario, ScenarioSim) && ResponseAt(Scenario, ScenarioSim, 4) == Best(3, 0.5)
  {
    ScenarioBlocks();
    ResponseSpec(Scenario, ScenarioSim, 4);
  }

  /** Record 4 opens turn 2, so its coherence match comes from turn 0: record 0. */
  lemma ScenarioCoherence()
    ensures SimilarityFits(Scenario, ScenarioSim) && CoherenceAt(Scenario, ScenarioSim, 4) == Best(0, 0.8)
  {
    ScenarioBlocks();
    CoherenceSpec(Scenario, ScenarioSim, 4);
  }

  /** Record 4 is in turn 2, not above it: no repetition match. */
  lemma ScenarioRepeat()
    ensures SimilarityFits(Scenario, ScenarioSim) && RepeatAt(Scenario, ScenarioSim, 4) == Ok(NoMatch)
  {
    ScenarioBlocks();
    RepeatSpec(Scenario, ScenarioSim, 4);
  }

  /** Segment 1 kept no sentence, so turns go 0, 2, 3: the record of turn 3
      has no record before the block two back, and `max()` of the empty
      range raises `ValueError` there. */
  lemma SkippedSegmentRaises()
    ensures var us := [Rec(0, 0), Rec(1, 2), Rec(2, 3)];
      var sim := [[1.0, 0.0, 0.0], [0.0, 1.0, 0.0], [0.0, 0.0, 1.0]];
      SimilarityFits(us, sim) && Detected(us, sim).0 == RaisedAt(2)
  {
    var us := [Rec(0, 0), Rec(1, 2), Rec(2, 3)];
    var sim := [[1.0, 0.0, 0.0], [0.0, 1.0, 0.0], [0.0, 0.0, 1.0]];
    assert TwoBackStart(us, 2) == 0;
    RepeatSpec(us, sim, 0);
    RepeatSpec(us, sim, 1);
    RepeatSpec(us, sim, 2);
    DetectedSpec(us, sim);
  }
}
