// Per-speaker statistics over a parameterized transcript: shares of a
// numeric parameter, tallies of a categorical one, averages, best-match
// averages, and the per-speaker merge of all of them.
module SpeakerStats {
  import opened Basics

  /** One utterance record seen through one of its fields: the speaker's
      `name` and the value of the parameter under study. */
  datatype Reading<V> = Reading(name: string, value: V)

  /** The speakers that have at least one reading. */
  function Names<V>(rs: seq<Reading<V>>): set<string> {
    set i | 0 <= i < |rs| :: rs[i].name
  }

  lemma NamesSnoc<V>(rs: seq<Reading<V>>, i: nat)
    requires i < |rs|
    ensures Names(rs[..i + 1]) == Names(rs[..i]) + {rs[i].name}
  {
    var a, b := rs[..i + 1], rs[..i];
    forall k | k in Names(a)
      ensures k in Names(b) + {rs[i].name}
    {
      var j :| 0 <= j < |a| && a[j].name == k;
      if j < i {
        assert b[j] == a[j];
      }
    }
    forall k | k in Names(b) + {rs[i].name}
      ensures k in Names(a)
    {
      if k == rs[i].name {
        assert a[i].name == k;
      } else {
        var j :| 0 <= j < |b| && b[j].name == k;
        assert a[j] == b[j];
      }
    }
  }

  predicate Distinct<T(==)>(xs: seq<T>) {
    forall i, j | 0 <= i < j < |xs| :: xs[i] != xs[j]
  }

  /** The key a share of `c` is stored under: `f"{c}Proportion"`. */
  function Label(c: string): string {
    c + "Proportion"
  }

  /** The speakers in order of first appearance: the iteration order of a
      dictionary filled by the source's loops. */
  function Speakers<V>(rs: seq<Reading<V>>): seq<string> {
    if rs == [] then []
    else
      var order := Speakers(rs[..|rs| - 1]);
      if rs[|rs| - 1].name in order then order else order + [rs[|rs| - 1].name]
  }

  /** The order lists every speaker with a reading exactly once. */
  lemma {:induction false} SpeakersSpec<V>(rs: seq<Reading<V>>)
    ensures forall k :: k in Speakers(rs) <==> k in Names(rs)
    ensures Distinct(Speakers(rs))
  {
    if rs != [] {
      var i := |rs| - 1;
      SpeakersSpec(rs[..i]);
      NamesSnoc(rs, i);
      assert rs[..i + 1] == rs;
    }
  }

  // ---------------------------------------------------------------------
  // `compareSpeakers`

  /** The sum of one speaker's values. */
  function SpeakerSum(rs: seq<Reading<real>>, s: string): real {
    if rs == [] then 0.0
    else SpeakerSum(rs[..|rs| - 1], s) + (if rs[|rs| - 1].name == s then rs[|rs| - 1].value else 0.0)
  }

  /** The sum of all values. */
  function Total(rs: seq<Reading<real>>): real {
    if rs == [] then 0.0 else Total(rs[..|rs| - 1]) + rs[|rs| - 1].value
  }

  /** `value / total if total > 0 else 0.0`. */
  function Proportion(value: real, total: real): (r: real)
    ensures total <= 0.0 ==> r == 0.0
    ensures total > 0.0 ==> r * total == value
  {
    if total > 0.0 then value / total else 0.0
  }

  lemma {:induction false} SpeakerSumAbsent(rs: seq<Reading<real>>, s: string)
    requires s !in Names(rs)
    ensures SpeakerSum(rs, s) == 0.0
  {
    if rs != [] {
      var i := |rs| - 1;
      NamesSnoc(rs, i);
      assert rs[..i + 1] == rs;
      SpeakerSumAbsent(rs[..i], s);
    }
  }

  /** Each speaker's share of the parameter's total, under the key
      `f"{parameter}Proportion"`. */
  function Shares(rs: seq<Reading<real>>, parameter: string): map<string, map<string, real>> {
    map k | k in Names(rs) :: map[Label(parameter) := Proportion(SpeakerSum(rs, k), Total(rs))]
  }

  /** `compareSpeakers`: the shares, summed up in one pass. */
  method CompareSpeakers(rs: seq<Reading<real>>, parameter: string)
    returns (r: map<string, map<string, real>>)
    ensures r == Shares(rs, parameter)
  {
    var counts: map<string, real> := map[];
    var total := 0.0;
    for i := 0 to |rs|
      invariant counts.Keys == Names(rs[..i])
      invariant forall k | k in counts :: counts[k] == SpeakerSum(rs[..i], k)
      invariant total == Total(rs[..i])
    {
      var speaker, value := rs[i].name, rs[i].value;
      NamesSnoc(rs, i);
      assert rs[..i + 1][..i] == rs[..i];
      if speaker !in counts {
        SpeakerSumAbsent(rs[..i], speaker);
      }
      counts := counts[speaker := (if speaker in counts then counts[speaker] else 0.0) + value];
      total := total + value;
    }
    assert rs[..|rs|] == rs;
    r := map k | k in counts :: map[Label(parameter) := Proportion(counts[k], total)];
  }

  /** The speakers' sums, over the speakers in `keys`. */
  function SumBy(keys: seq<string>, rs: seq<Reading<real>>): real {
    if keys == [] then 0.0 else SumBy(keys[..|keys| - 1], rs) + SpeakerSum(rs, keys[|keys| - 1])
  }

  lemma {:induction false} SumBySnoc(keys: seq<string>, rs: seq<Reading<real>>, x: Reading<real>)
    requires Distinct(keys)
    ensures SumBy(keys, rs + [x]) == SumBy(keys, rs) + (if x.name in keys then x.value else 0.0)
  {
    assert (rs + [x])[..|rs|] == rs;
    if keys != [] {
      var init := keys[..|keys| - 1];
      SumBySnoc(init, rs, x);
      assert keys == init + [keys[|keys| - 1]];
      assert x.name in keys <==> x.name in init || x.name == keys[|keys| - 1];
    }
  }

  /** The speakers' sums add up to the total. */
  lemma {:induction false} SumByTotal(rs: seq<Reading<real>>)
    ensures SumBy(Speakers(rs), rs) == Total(rs)
  {
    if rs != [] {
      var i := |rs| - 1;
      var init, x := rs[..i], rs[i];
      assert rs == init + [x];
      SumByTotal(init);
      SpeakersSpec(init);
      var order := Speakers(init);
      SumBySnoc(order, init, x);
      if x.name !in order {
        SpeakerSumAbsent(init, x.name);
        assert Speakers(rs) == order + [x.name];
        assert (order + [x.name])[..|order|] == order;
      }
    }
  }

  /** The speakers' proportions, over the speakers in `keys`. */
  function ProportionSum(keys: seq<string>, rs: seq<Reading<real>>): real {
    if keys == [] then 0.0
    else ProportionSum(keys[..|keys| - 1], rs) + Proportion(SpeakerSum(rs, keys[|keys| - 1]), Total(rs))
  }

  /** Shares of one total add up like the values they are taken of. */
  lemma ProportionAdd(a: real, b: real, t: real)
    ensures Proportion(a, t) + Proportion(b, t) == Proportion(a + b, t)
  {
  }

  lemma ProportionWhole(t: real)
    requires t > 0.0
    ensures Proportion(t, t) == 1.0
  {
  }

  lemma {:induction false} ProportionSumOfSums(keys: seq<string>, rs: seq<Reading<real>>)
    ensures ProportionSum(keys, rs) == Proportion(SumBy(keys, rs), Total(rs))
  {
    if keys == [] {
      ProportionAdd(0.0, 0.0, Total(rs));
    } else {
      var init := keys[..|keys| - 1];
      ProportionSumOfSums(init, rs);
      ProportionAdd(SumBy(init, rs), SpeakerSum(rs, keys[|keys| - 1]), Total(rs));
    }
  }

  /** With a positive total the shares of all speakers add up to 1. */
  lemma ProportionsSumToOne(rs: seq<Reading<real>>)
    requires Total(rs) > 0.0
    ensures ProportionSum(Speakers(rs), rs) == 1.0
  {
    ProportionSumOfSums(Speakers(rs), rs);
    SumByTotal(rs);
    ProportionWhole(Total(rs));
  }

  // ---------------------------------------------------------------------
  // `tallySpeakerParam`

  /** A value the tally counts: one of the categories (`None` never is). */
  predicate Categorised(v: Option<string>, categories: seq<string>) {
    v.Some? && v.value in categories
  }

  /** The speakers with at least one categorised reading. */
  function TalliedNames(rs: seq<Reading<Option<string>>>, categories: seq<string>): set<string> {
    set i | 0 <= i < |rs| && Categorised(rs[i].value, categories) :: rs[i].name
  }

  /** How many of speaker `s`'s readings are `c`. */
  function CategoryCount(rs: seq<Reading<Option<string>>>, s: string, c: string): nat {
    if rs == [] then 0
    else
      var x := rs[|rs| - 1];
      CategoryCount(rs[..|rs| - 1], s, c) + (if x.name == s && x.value == Some(c) then 1 else 0)
  }

  /** How many of speaker `s`'s readings are categorised. */
  function TalliedCount(rs: seq<Reading<Option<string>>>, s: string, categories: seq<string>): nat {
    if rs == [] then 0
    else
      var x := rs[|rs| - 1];
      TalliedCount(rs[..|rs| - 1], s, categories)
        + (if x.name == s && Categorised(x.value, categories) then 1 else 0)
  }

  /** The counter the source keeps under key `c` for speaker `s`: the
      category's count and, under `'total'`, the number of categorised
      readings (a category that is itself named `'total'` is counted twice
      there). */
  function Cell(rs: seq<Reading<Option<string>>>, s: string, c: string, categories: seq<string>): nat {
    (if c in categories then CategoryCount(rs, s, c) else 0)
      + (if c == "total" then TalliedCount(rs, s, categories) else 0)
  }

  /** The counters a speaker starts with: `{c: 0 for c in keys}`. */
  function Zeroes(keys: seq<string>): map<string, nat> {
    map c | c in keys :: 0
  }

  /** The keys of a speaker's counters. */
  predicate CounterKey(c: string, categories: seq<string>) {
    c in categories || c == "total"
  }

  lemma TalliedNamesSnoc(rs: seq<Reading<Option<string>>>, i: nat, categories: seq<string>)
    requires i < |rs|
    ensures TalliedNames(rs[..i + 1], categories)
      == TalliedNames(rs[..i], categories)
         + (if Categorised(rs[i].value, categories) then {rs[i].name} else {})
  {
    var a, b := rs[..i + 1], rs[..i];
    forall k | k in TalliedNames(a, categories)
      ensures k in TalliedNames(b, categories) || (k == rs[i].name && Categorised(rs[i].value, categories))
    {
      var j :| 0 <= j < |a| && Categorised(a[j].value, categories) && a[j].name == k;
      if j < i {
        assert b[j] == a[j];
      }
    }
    forall k | k in TalliedNames(b, categories)
      ensures k in TalliedNames(a, categories)
    {
      var j :| 0 <= j < |b| && Categorised(b[j].value, categories) && b[j].name == k;
      assert a[j] == b[j];
    }
    if Categorised(rs[i].value, categories) {
      assert a[i] == rs[i];
    }
  }

  /** A speaker without categorised readings has all counters at 0. */
  lemma {:induction false} CellAbsent(rs: seq<Reading<Option<string>>>, s: string, categories: seq<string>)
    requires s !in TalliedNames(rs, categories)
    ensures forall c | CounterKey(c, categories) :: Cell(rs, s, c, categories) == 0
  {
    if rs != [] {
      var i := |rs| - 1;
      TalliedNamesSnoc(rs, i, categories);
      assert rs[..i + 1] == rs;
      CellAbsent(rs[..i], s, categories);
    }
  }

  /** A counter, 0 when absent (a speaker's counters always hold every key). */
  function Get(data: map<string, nat>, c: string): nat {
    if c in data then data[c] else 0
  }

  /** `data[v] += 1; data['total'] += 1`. */
  function Bumped(data: map<string, nat>, v: string): map<string, nat> {
    var once := data[v := Get(data, v) + 1];
    once["total" := Get(once, "total") + 1]
  }

  /** What one reading adds to speaker `s`'s counter `c`. */
  function Bump(x: Reading<Option<string>>, s: string, c: string, categories: seq<string>): nat {
    if x.name == s && Categorised(x.value, categories) then
      (if c == x.value.value then 1 else 0) + (if c == "total" then 1 else 0)
    else 0
  }

  lemma CellSnoc(rs: seq<Reading<Option<string>>>, i: nat, k: string, c: string, categories: seq<string>)
    requires i < |rs|
    ensures Cell(rs[..i + 1], k, c, categories) == Cell(rs[..i], k, c, categories) + Bump(rs[i], k, c, categories)
  {
    assert rs[..i + 1][..i] == rs[..i];
  }

  /** `counts` is the tally of `rs`: it holds the speakers with a
      categorised reading, each with a counter per category and one for
      `'total'`, each equal to its `Cell`. */
  ghost predicate Tallies(counts: map<string, map<string, nat>>, rs: seq<Reading<Option<string>>>, categories: seq<string>) {
    && counts.Keys == TalliedNames(rs, categories)
    && CounterDomains(counts, categories)
    && CounterValues(counts, rs, categories)
  }

  /** Every speaker has exactly the counters of the categories and `'total'`. */
  ghost predicate CounterDomains(counts: map<string, map<string, nat>>, categories: seq<string>) {
    forall k | k in counts :: forall c :: c in counts[k] <==> CounterKey(c, categories)
  }

  /** Every counter holds its `Cell`. */
  ghost predicate CounterValues(counts: map<string, map<string, nat>>, rs: seq<Reading<Option<string>>>, categories: seq<string>) {
    forall k, c | k in counts && c in counts[k] :: counts[k][c] == Cell(rs, k, c, categories)
  }

  lemma BumpedAt(data: map<string, nat>, v: string, c: string)
    requires v in data && "total" in data
    ensures c in Bumped(data, v) <==> c in data
    ensures c in data ==>
      Bumped(data, v)[c] == data[c] + (if c == v then 1 else 0) + (if c == "total" then 1 else 0)
  {
  }

  lemma ZeroesAt(keys: seq<string>, c: string)
    ensures c in Zeroes(keys) <==> c in keys
    ensures c in keys ==> Zeroes(keys)[c] == 0
  {
  }

  /** The counters `counts'` gets for speaker `x.name` from a categorised
      reading `x`. */
  lemma TallyStepSpeaker(rs: seq<Reading<Option<string>>>, i: nat, categories: seq<string>,
                         counts: map<string, map<string, nat>>, data: map<string, nat>, c: string)
    requires i < |rs| && Categorised(rs[i].value, categories)
    requires Tallies(counts, rs[..i], categories)
    requires data == if rs[i].name in counts then counts[rs[i].name] else Zeroes(categories + ["total"])
    ensures c in Bumped(data, rs[i].value.value) <==> CounterKey(c, categories)
    ensures c in Bumped(data, rs[i].value.value) ==>
      Bumped(data, rs[i].value.value)[c] == Cell(rs[..i + 1], rs[i].name, c, categories)
  {
    var x := rs[i];
    CellSnoc(rs, i, x.name, c, categories);
    ZeroesAt(categories + ["total"], c);
    ZeroesAt(categories + ["total"], x.value.value);
    ZeroesAt(categories + ["total"], "total");
    if x.name !in counts {
      CellAbsent(rs[..i], x.name, categories);
    }
    BumpedAt(data, x.value.value, c);
  }

  /** One turn of the tally loop keeps the tally. */
  lemma TallyStep(rs: seq<Reading<Option<string>>>, i: nat, categories: seq<string>,
                  counts: map<string, map<string, nat>>, counts': map<string, map<string, nat>>)
    requires i < |rs|
    requires Tallies(counts, rs[..i], categories)
    requires var x := rs[i];
      if Categorised(x.value, categories) then
        counts' == counts[x.name :=
          Bumped(if x.name in counts then counts[x.name] else Zeroes(categories + ["total"]), x.value.value)]
      else counts' == counts
    ensures Tallies(counts', rs[..i + 1], categories)
  {
    var next := rs[..i + 1];
    assert counts'.Keys == TalliedNames(next, categories) by {
      TalliedNamesSnoc(rs, i, categories);
    }
    assert CounterDomains(counts', categories) by {
      forall k | k in counts'
        ensures forall c :: c in counts'[k] <==> CounterKey(c, categories)
      {
        forall c
          ensures c in counts'[k] <==> CounterKey(c, categories)
        {
          TallyStepAt(rs, i, categories, counts, counts', k, c);
        }
      }
    }
    assert CounterValues(counts', next, categories) by {
      forall k, c | k in counts' && c in counts'[k]
        ensures counts'[k][c] == Cell(next, k, c, categories)
      {
        TallyStepAt(rs, i, categories, counts, counts', k, c);
      }
    }
  }

  /** One counter after a turn of the tally loop. */
  lemma TallyStepAt(rs: seq<Reading<Option<string>>>, i: nat, categories: seq<string>,
                    counts: map<string, map<string, nat>>, counts': map<string, map<string, nat>>,
                    k: string, c: string)
    requires i < |rs|
    requires Tallies(counts, rs[..i], categories)
    requires var x := rs[i];
      if Categorised(x.value, categories) then
        counts' == counts[x.name :=
          Bumped(if x.name in counts then counts[x.name] else Zeroes(categories + ["total"]), x.value.value)]
      else counts' == counts
    requires k in counts'
    ensures c in counts'[k] <==> CounterKey(c, categories)
    ensures c in counts'[k] ==> counts'[k][c] == Cell(rs[..i + 1], k, c, categories)
  {
    var x := rs[i];
    if k == x.name && Categorised(x.value, categories) {
      var data := if x.name in counts then counts[x.name] else Zeroes(categories + ["total"]);
      TallyStepSpeaker(rs, i, categories, counts, data, c);
    } else {
      assert counts'[k] == counts[k];
      CellSnoc(rs, i, k, c, categories);
    }
  }


  /** The category a label names. */
  function Unlabel(l: string): string {
    if |l| >= 10 then l[..|l| - 10] else l
  }

  lemma UnlabelLabel(c: string)
    ensures Unlabel(Label(c)) == c
  {
    assert Label(c)[..|c|] == c;
  }

  /** The labels of the categories. */
  function Labels(categories: seq<string>): set<string> {
    set c | c in categories :: Label(c)
  }

  /** `{f"{c}Proportion": data[c] / total if total > 0 else 0.0 for c in
      categories}` with `total = data['total']`. */
  function SharesOf(data: map<string, nat>, categories: seq<string>): map<string, real> {
    map l | l in Labels(categories) :: Proportion(Get(data, Unlabel(l)) as real, Get(data, "total") as real)
  }

  /** The counters a categorised reading bumps are there to bump. */
  lemma CountersReady(counts: map<string, map<string, nat>>, rs: seq<Reading<Option<string>>>,
                      categories: seq<string>, data: map<string, nat>, s: string, v: string)
    requires Tallies(counts, rs, categories) && v in categories
    requires data == if s in counts then counts[s] else Zeroes(categories + ["total"])
    ensures v in data && "total" in data
  {
    ZeroesAt(categories + ["total"], v);
    ZeroesAt(categories + ["total"], "total");
  }

  /** The counting loop of `tallySpeakerParam`. */
  method CountCategories(rs: seq<Reading<Option<string>>>, categories: seq<string>)
    returns (counts: map<string, map<string, nat>>)
    ensures Tallies(counts, rs, categories)
  {
    counts := map[];
    for i := 0 to |rs|
      invariant Tallies(counts, rs[..i], categories)
    {
      var speaker, value := rs[i].name, rs[i].value;
      ghost var before := counts;
      if value.Some? && value.value in categories {
        var data := if speaker in counts then counts[speaker] else Zeroes(categories + ["total"]);
        CountersReady(counts, rs[..i], categories, data, speaker, value.value);
        ghost var start := data;
        data := data[value.value := data[value.value] + 1];
        data := data["total" := data["total"] + 1];
        assert data == Bumped(start, value.value);
        counts := counts[speaker := data];
      }
      TallyStep(rs, i, categories, before, counts);
    }
    assert rs[..|rs|] == rs;
  }

  lemma TalliesAt(counts: map<string, map<string, nat>>, rs: seq<Reading<Option<string>>>,
                  categories: seq<string>, k: string, c: string)
    requires Tallies(counts, rs, categories) && k in counts && CounterKey(c, categories)
    ensures Get(counts[k], c) == Cell(rs, k, c, categories)
  {
  }

  lemma SharesAt(data: map<string, nat>, categories: seq<string>, c: string)
    requires c in categories
    ensures Label(c) in SharesOf(data, categories)
    ensures SharesOf(data, categories)[Label(c)] == Proportion(Get(data, c) as real, Get(data, "total") as real)
  {
    UnlabelLabel(c);
    assert Label(c) in Labels(categories);
  }

  /** How many of speaker `s`'s readings fall in each of `cs`, added up. */
  function CatSum(cs: seq<string>, rs: seq<Reading<Option<string>>>, s: string): nat {
    if cs == [] then 0 else CatSum(cs[..|cs| - 1], rs, s) + CategoryCount(rs, s, cs[|cs| - 1])
  }

  lemma {:induction false} CatSumSnoc(cs: seq<string>, rs: seq<Reading<Option<string>>>,
                                      x: Reading<Option<string>>, s: string)
    requires Distinct(cs)
    ensures CatSum(cs, rs + [x], s)
      == CatSum(cs, rs, s) + (if x.name == s && Categorised(x.value, cs) then 1 else 0)
  {
    assert (rs + [x])[..|rs|] == rs;
    if cs != [] {
      var init := cs[..|cs| - 1];
      CatSumSnoc(init, rs, x, s);
      assert cs == init + [cs[|cs| - 1]];
    }
  }

  /** Over distinct categories, the per-category counts add up to the
      number of categorised readings. */
  lemma {:induction false} CatSumTallied(cs: seq<string>, rs: seq<Reading<Option<string>>>, s: string)
    requires Distinct(cs)
    ensures CatSum(cs, rs, s) == TalliedCount(rs, s, cs)
  {
    if rs == [] {
      CatSumEmpty(cs, s);
    } else {
      var i := |rs| - 1;
      assert rs == rs[..i] + [rs[i]];
      CatSumTallied(cs, rs[..i], s);
      CatSumSnoc(cs, rs[..i], rs[i], s);
    }
  }

  lemma {:induction false} CatSumEmpty(cs: seq<string>, s: string)
    ensures CatSum(cs, [], s) == 0
  {
    if cs != [] {
      CatSumEmpty(cs[..|cs| - 1], s);
    }
  }

  /** A tallied speaker has at least one categorised reading. */
  lemma {:induction false} TalliedCountPositive(rs: seq<Reading<Option<string>>>, s: string, categories: seq<string>)
    requires s in TalliedNames(rs, categories)
    ensures TalliedCount(rs, s, categories) >= 1
  {
    var i := |rs| - 1;
    TalliedNamesSnoc(rs, i, categories);
    assert rs[..i + 1] == rs;
    if !(rs[i].name == s && Categorised(rs[i].value, categories)) {
      TalliedCountPositive(rs[..i], s, categories);
    }
  }

  /** The shares of the categories `cs` in one speaker's row (0 for a
      missing label). */
  function ShareSum(shares: map<string, real>, cs: seq<string>): real {
    if cs == [] then 0.0
    else ShareSum(shares, cs[..|cs| - 1]) + (if Label(cs[|cs| - 1]) in shares then shares[Label(cs[|cs| - 1])] else 0.0)
  }

  lemma {:induction false} ShareSumOfCounts(shares: map<string, real>, cs: seq<string>,
                                            rs: seq<Reading<Option<string>>>, s: string, t: real)
    requires forall c | c in cs ::
      Label(c) in shares && shares[Label(c)] == Proportion(CategoryCount(rs, s, c) as real, t)
    ensures ShareSum(shares, cs) == Proportion(CatSum(cs, rs, s) as real, t)
  {
    if cs == [] {
      ProportionAdd(0.0, 0.0, t);
    } else {
      var init, c := cs[..|cs| - 1], cs[|cs| - 1];
      ShareSumOfCounts(shares, init, rs, s, t);
      ProportionAdd(CatSum(init, rs, s) as real, CategoryCount(rs, s, c) as real, t);
    }
  }

  /** With distinct categories, none of them named `'total'`, a tallied
      speaker's shares add up to 1. */
  lemma TallySharesSumToOne(rs: seq<Reading<Option<string>>>, categories: seq<string>,
                            k: string, shares: map<string, real>)
    requires Distinct(categories) && "total" !in categories
    requires k in TalliedNames(rs, categories)
    requires forall c | c in categories ::
      Label(c) in shares
      && shares[Label(c)]
        == Proportion(Cell(rs, k, c, categories) as real, Cell(rs, k, "total", categories) as real)
    ensures ShareSum(shares, categories) == 1.0
  {
    var t := TalliedCount(rs, k, categories) as real;
    TalliedCountPositive(rs, k, categories);
    assert Cell(rs, k, "total", categories) == TalliedCount(rs, k, categories);
    ShareSumOfCounts(shares, categories, rs, k, t);
    CatSumTallied(categories, rs, k);
    ProportionWhole(t);
  }

  /** Per speaker with a categorised reading, the share of each category
      in that speaker's `'total'` counter, under the category's label. */
  function Tally(rs: seq<Reading<Option<string>>>, categories: seq<string>): map<string, map<string, real>> {
    map k | k in TalliedNames(rs, categories) ::
      map l | l in Labels(categories) ::
        Proportion(Cell(rs, k, Unlabel(l), categories) as real, Cell(rs, k, "total", categories) as real)
  }

  /** A tallied speaker's row holds exactly the labels, each category's
      count over the speaker's `'total'` counter. */
  lemma TallyAt(rs: seq<Reading<Option<string>>>, categories: seq<string>, k: string, c: string)
    requires k in Tally(rs, categories) && c in categories
    ensures Tally(rs, categories)[k].Keys == Labels(categories)
    ensures Label(c) in Tally(rs, categories)[k]
    ensures Tally(rs, categories)[k][Label(c)]
      == Proportion(Cell(rs, k, c, categories) as real, Cell(rs, k, "total", categories) as real)
  {
    UnlabelLabel(c);
    assert Label(c) in Labels(categories);
  }

  /** With distinct categories, none of them named `'total'`, every
      tallied speaker's shares add up to 1. */
  lemma TallySumsToOne(rs: seq<Reading<Option<string>>>, categories: seq<string>, k: string)
    requires Distinct(categories) && "total" !in categories
    requires k in Tally(rs, categories)
    ensures ShareSum(Tally(rs, categories)[k], categories) == 1.0
  {
    forall c | c in categories
      ensures Label(c) in Tally(rs, categories)[k]
      ensures Tally(rs, categories)[k][Label(c)]
        == Proportion(Cell(rs, k, c, categories) as real, Cell(rs, k, "total", categories) as real)
    {
      TallyAt(rs, categories, k, c);
    }
    TallySharesSumToOne(rs, categories, k, Tally(rs, categories)[k]);
  }

  /** A speaker's counters, turned into shares, give the speaker's tally. */
  lemma SharesMatch(data: map<string, nat>, rs: seq<Reading<Option<string>>>, categories: seq<string>, k: string)
    requires k in TalliedNames(rs, categories)
    requires forall i | 0 <= i < |categories| :: Get(data, categories[i]) == Cell(rs, k, categories[i], categories)
    requires Get(data, "total") == Cell(rs, k, "total", categories)
    ensures SharesOf(data, categories) == Tally(rs, categories)[k]
  {
    forall l | l in Labels(categories)
      ensures SharesOf(data, categories)[l] == Tally(rs, categories)[k][l]
    {
      var i :| 0 <= i < |categories| && l == Label(categories[i]);
      SharesAt(data, categories, categories[i]);
      UnlabelLabel(categories[i]);
    }
  }

  /** `tallySpeakerParam`: the tally, counted in one pass and then turned
      into shares. */
  method TallySpeakerParam(rs: seq<Reading<Option<string>>>, categories: seq<string>)
    returns (proportions: map<string, map<string, real>>)
    ensures proportions == Tally(rs, categories)
  {
    var counts := CountCategories(rs, categories);
    proportions := map k | k in counts :: SharesOf(counts[k], categories);
    forall k | k in counts
      ensures SharesOf(counts[k], categories) == Tally(rs, categories)[k]
    {
      forall i | 0 <= i < |categories|
        ensures Get(counts[k], categories[i]) == Cell(rs, k, categories[i], categories)
      {
        TalliesAt(counts, rs, categories, k, categories[i]);
      }
      TalliesAt(counts, rs, categories, k, "total");
      SharesMatch(counts[k], rs, categories, k);
    }
  }

  // ---------------------------------------------------------------------
  // `avgSpeakerParam`, `avgResponsiveness`, `avgSelfSimilarity`

  /** Speaker `s`'s values in reading order: what `rateData[s]` collects. */
  function Values(rs: seq<Reading<real>>, s: string): seq<real> {
    if rs == [] then []
    else Values(rs[..|rs| - 1], s) + (if rs[|rs| - 1].name == s then [rs[|rs| - 1].value] else [])
  }

  /** A speaker has values exactly when it has a reading. */
  lemma {:induction false} ValuesPresent(rs: seq<Reading<real>>, s: string)
    ensures Values(rs, s) != [] <==> s in Names(rs)
  {
    if rs != [] {
      var i := |rs| - 1;
      NamesSnoc(rs, i);
      assert rs[..i + 1] == rs;
      ValuesPresent(rs[..i], s);
    }
  }

  /** `sum(rates) / len(rates)`. */
  function Mean(xs: seq<real>): real
    requires xs != []
  {
    Sum(xs) / |xs| as real
  }

  lemma {:induction false} SumBounds(xs: seq<real>, lo: real, hi: real)
    requires forall i | 0 <= i < |xs| :: lo <= xs[i] <= hi
    ensures lo * |xs| as real <= Sum(xs) <= hi * |xs| as real
  {
    if xs != [] {
      var init := xs[..|xs| - 1];
      SumBounds(init, lo, hi);
      var n := |init| as real;
      assert lo * (n + 1.0) == lo * n + lo;
      assert hi * (n + 1.0) == hi * n + hi;
    }
  }

  /** An average lies between bounds of the values averaged. */
  lemma MeanBounds(xs: seq<real>, lo: real, hi: real)
    requires xs != []
    requires forall i | 0 <= i < |xs| :: lo <= xs[i] <= hi
    ensures lo <= Mean(xs) <= hi
  {
    SumBounds(xs, lo, hi);
    DivBounds(Sum(xs), |xs| as real, lo, hi);
  }

  lemma DivBounds(s: real, n: real, lo: real, hi: real)
    requires n > 0.0 && lo * n <= s <= hi * n
    ensures lo <= s / n <= hi
  {
    var m := s / n;
    assert m * n == s;
    assert (m - lo) * n >= 0.0;
    assert (hi - m) * n >= 0.0;
  }

  /** `rateData` after the readings `xs`: every speaker with its values. */
  ghost predicate Gathered(rateData: map<string, seq<real>>, xs: seq<Reading<real>>) {
    && rateData.Keys == Names(xs)
    && forall k | k in rateData :: rateData[k] == Values(xs, k)
  }

  /** `rateData[speaker].append(value)` keeps `rateData` gathered. */
  lemma GatherStep(rateData: map<string, seq<real>>, xs: seq<Reading<real>>, y: Reading<real>)
    requires Gathered(rateData, xs)
    ensures Gathered(rateData[y.name := (if y.name in rateData then rateData[y.name] else []) + [y.value]], xs + [y])
  {
    var ys := xs + [y];
    assert ys[..|xs|] == xs;
    NamesSnoc(ys, |xs|);
    if y.name !in rateData {
      ValuesPresent(xs, y.name);
    }
  }

  /** A speaker's average value. */
  function Average(rs: seq<Reading<real>>, k: string): real
    requires k in Names(rs)
  {
    ValuesPresent(rs, k);
    Mean(Values(rs, k))
  }

  /** The key an average of `parameter` is stored under: `f"average{parameter}"`. */
  function AverageKey(parameter: string): string {
    "average" + parameter
  }

  /** Each speaker's average value, under its average key. */
  function Averages(rs: seq<Reading<real>>, parameter: string): map<string, map<string, real>> {
    map k | k in Names(rs) :: map[AverageKey(parameter) := Average(rs, k)]
  }

  /** `avgSpeakerParam`: the averages, with the values gathered in one pass. */
  method AvgSpeakerParam(rs: seq<Reading<real>>, parameter: string)
    returns (r: map<string, map<string, real>>)
    ensures r == Averages(rs, parameter)
  {
    var rateData: map<string, seq<real>> := map[];
    for i := 0 to |rs|
      invariant Gathered(rateData, rs[..i])
    {
      var speaker := rs[i].name;
      GatherStep(rateData, rs[..i], rs[i]);
      assert rs[..i] + [rs[i]] == rs[..i + 1];
      rateData := rateData[speaker := (if speaker in rateData then rateData[speaker] else []) + [rs[i].value]];
    }
    assert rs[..|rs|] == rs;
    forall k | k in rateData
      ensures rateData[k] != []
    {
      ValuesPresent(rs, k);
    }
    r := map k | k in rateData :: map[AverageKey(parameter) := Mean(rateData[k])];
  }

  /** `max([i[1] for i in pairs])`: the best score of a non-empty list of
      `(index, score)` matches. */
  function Best(pairs: seq<(int, real)>): (m: real)
    requires pairs != []
    ensures exists i | 0 <= i < |pairs| :: m == pairs[i].1
    ensures forall i | 0 <= i < |pairs| :: pairs[i].1 <= m
  {
    var scores := seq(|pairs|, i requires 0 <= i < |pairs| => pairs[i].1);
    assert forall i | 0 <= i < |pairs| :: scores[i] == pairs[i].1;
    Max(scores)
  }

  /** The best score of every reading with a non-empty match list, in
      reading order. */
  function Scores(rs: seq<Reading<seq<(int, real)>>>): seq<Reading<real>> {
    if rs == [] then []
    else
      var x := rs[|rs| - 1];
      Scores(rs[..|rs| - 1]) + (if x.value != [] then [Reading(x.name, Best(x.value))] else [])
  }

  /** The speakers with at least one non-empty match list. */
  function Matched(rs: seq<Reading<seq<(int, real)>>>): set<string> {
    set i | 0 <= i < |rs| && rs[i].value != [] :: rs[i].name
  }

  lemma {:induction false} ScoresNames(rs: seq<Reading<seq<(int, real)>>>)
    ensures Names(Scores(rs)) == Matched(rs)
  {
    if rs != [] {
      var i := |rs| - 1;
      var init, x := rs[..i], rs[i];
      ScoresNames(init);
      var pre := Scores(init);
      if x.value != [] {
        var y := Reading(x.name, Best(x.value));
        assert Scores(rs) == pre + [y];
        assert (pre + [y])[..|pre|] == pre;
        assert (pre + [y])[..|pre| + 1] == pre + [y];
        NamesSnoc(pre + [y], |pre|);
      } else {
        assert Scores(rs) == pre + [];
        assert pre + [] == pre;
      }
      assert rs[..i + 1] == rs;
      forall k | k in Matched(rs)
        ensures k in Matched(init) || (k == x.name && x.value != [])
      {
        var j :| 0 <= j < |rs| && rs[j].value != [] && rs[j].name == k;
        if j < i {
          assert init[j] == rs[j];
        }
      }
      forall k | k in Matched(init)
        ensures k in Matched(rs)
      {
        var j :| 0 <= j < |init| && init[j].value != [] && init[j].name == k;
        assert rs[j] == init[j];
      }
      if x.value != [] {
        assert rs[i] == x;
      }
    }
  }

  /** Scores within bounds stay within them once reduced to the best. */
  lemma {:induction false} ScoresBounded(rs: seq<Reading<seq<(int, real)>>>, lo: real, hi: real)
    requires forall i, j | 0 <= i < |rs| && 0 <= j < |rs[i].value| :: lo <= rs[i].value[j].1 <= hi
    ensures forall i | 0 <= i < |Scores(rs)| :: lo <= Scores(rs)[i].value <= hi
  {
    if rs != [] {
      var i := |rs| - 1;
      var x := rs[i];
      ScoresBounded(rs[..i], lo, hi);
      assert forall j | 0 <= j < |x.value| :: lo <= x.value[j].1 <= hi;
    }
  }

  lemma {:induction false} ValuesBounded(xs: seq<Reading<real>>, s: string, lo: real, hi: real)
    requires forall i | 0 <= i < |xs| :: lo <= xs[i].value <= hi
    ensures forall i | 0 <= i < |Values(xs, s)| :: lo <= Values(xs, s)[i] <= hi
  {
    if xs != [] {
      ValuesBounded(xs[..|xs| - 1], s, lo, hi);
    }
  }

  /** A speaker's average best score. */
  function BestAverage(rs: seq<Reading<seq<(int, real)>>>, k: string): real
    requires k in Matched(rs)
  {
    ScoresNames(rs);
    Average(Scores(rs), k)
  }

  /** Each speaker's average best score, under `key`. */
  function BestAverages(rs: seq<Reading<seq<(int, real)>>>, key: string): map<string, map<string, real>> {
    map k | k in Matched(rs) :: map[key := BestAverage(rs, k)]
  }

  /** `avgResponsiveness` (with `key` `"average responsiveness"`) and
      `avgSelfSimilarity` (with `key` `"average self repetition"`): each
      speaker's average best match, over the readings that have matches. */
  method AvgBest(rs: seq<Reading<seq<(int, real)>>>, key: string)
    returns (r: map<string, map<string, real>>)
    ensures r == BestAverages(rs, key)
  {
    var rateData: map<string, seq<real>> := map[];
    for i := 0 to |rs|
      invariant Gathered(rateData, Scores(rs[..i]))
    {
      var speaker := rs[i].name;
      assert rs[..i + 1][..i] == rs[..i];
      if rs[i].value != [] {
        var maxScore := Best(rs[i].value);
        GatherStep(rateData, Scores(rs[..i]), Reading(speaker, maxScore));
        assert Scores(rs[..i + 1]) == Scores(rs[..i]) + [Reading(speaker, maxScore)];
        rateData := rateData[speaker := (if speaker in rateData then rateData[speaker] else []) + [maxScore]];
      } else {
        assert Scores(rs[..i + 1]) == Scores(rs[..i]) + [];
        assert Scores(rs[..i]) + [] == Scores(rs[..i]);
      }
    }
    assert rs[..|rs|] == rs;
    ScoresNames(rs);
    forall k | k in rateData
      ensures rateData[k] != []
    {
      ValuesPresent(Scores(rs), k);
    }
    r := map k | k in rateData :: map[key := Mean(rateData[k])];
  }

  /** With every match score in `[lo, hi]`, so is every speaker's average
      best score. */
  lemma BestAverageBounded(rs: seq<Reading<seq<(int, real)>>>, k: string, lo: real, hi: real)
    requires forall i, j | 0 <= i < |rs| && 0 <= j < |rs[i].value| :: lo <= rs[i].value[j].1 <= hi
    requires k in Matched(rs)
    ensures lo <= BestAverage(rs, k) <= hi
  {
    ScoresNames(rs);
    ValuesPresent(Scores(rs), k);
    ScoresBounded(rs, lo, hi);
    ValuesBounded(Scores(rs), k, lo, hi);
    MeanBounds(Values(Scores(rs), k), lo, hi);
  }

  /** A speaker's values add up to the sum `compareSpeakers` takes of them. */
  lemma {:induction false} ValuesSum(rs: seq<Reading<real>>, s: string)
    ensures Sum(Values(rs, s)) == SpeakerSum(rs, s)
  {
    if rs != [] {
      var i := |rs| - 1;
      ValuesSum(rs[..i], s);
      if rs[i].name == s {
        SumAppend(Values(rs[..i], s), rs[i].value);
      } else {
        assert Values(rs, s) == Values(rs[..i], s) + [];
        assert Values(rs[..i], s) + [] == Values(rs[..i], s);
      }
    }
  }

  /** With every value in `[lo, hi]`, so is every speaker's average. */
  lemma AverageBounded(rs: seq<Reading<real>>, k: string, lo: real, hi: real)
    requires forall i | 0 <= i < |rs| :: lo <= rs[i].value <= hi
    requires k in Names(rs)
    ensures lo <= Average(rs, k) <= hi
  {
    ValuesPresent(rs, k);
    ValuesBounded(rs, k, lo, hi);
    MeanBounds(Values(rs, k), lo, hi);
  }

  // ---------------------------------------------------------------------
  // `computeMetrics`

  /** One record of the parameterized transcript, with the fields the
      metrics read; a categorical field is `None` where the source stores
      no category. */
  datatype Entry = Entry(name: string, airTime: real, wordLength: real,
                         qType: Option<string>, nType: Option<string>, emotion: Option<string>,
                         wpm: real, turnRedundancy: real)

  /** The numeric fields, as `entry[parameter]` selects them. */
  datatype NumberField = AirTime | WordLength | Wpm | TurnRedundancy

  /** The categorical fields. */
  datatype LabelField = QType | NType | Emotion

  function NumberOf(e: Entry, f: NumberField): real {
    match f
    case AirTime => e.airTime
    case WordLength => e.wordLength
    case Wpm => e.wpm
    case TurnRedundancy => e.turnRedundancy
  }

  function LabelOf(e: Entry, f: LabelField): Option<string> {
    match f
    case QType => e.qType
    case NType => e.nType
    case Emotion => e.emotion
  }

  /** The records seen through a numeric field. */
  function Numbers(es: seq<Entry>, f: NumberField): (r: seq<Reading<real>>)
    ensures |r| == |es|
    ensures forall i | 0 <= i < |es| :: r[i].name == es[i].name
  {
    seq(|es|, i requires 0 <= i < |es| => Reading(es[i].name, NumberOf(es[i], f)))
  }

  /** The records seen through a categorical field. */
  function Labelled(es: seq<Entry>, f: LabelField): (r: seq<Reading<Option<string>>>)
    ensures |r| == |es|
    ensures forall i | 0 <= i < |es| :: r[i].name == es[i].name
  {
    seq(|es|, i requires 0 <= i < |es| => Reading(es[i].name, LabelOf(es[i], f)))
  }

  /** The speakers of the transcript. */
  function EntryNames(es: seq<Entry>): set<string> {
    set i | 0 <= i < |es| :: es[i].name
  }

  lemma NumbersNames(es: seq<Entry>, f: NumberField)
    ensures Names(Numbers(es, f)) == EntryNames(es)
  {
    var rs := Numbers(es, f);
    assert forall k | k in EntryNames(es) :: k in Names(rs) by {
      forall k | k in EntryNames(es)
        ensures k in Names(rs)
      {
        var i :| 0 <= i < |es| && es[i].name == k;
        assert rs[i].name == k;
      }
    }
  }

  const QuestionTypes: seq<string> := ["openEnded", "closedEnded"]
  const NarrativeTypes: seq<string> := ["first", "second", "third", "passive"]
  const Emotions: seq<string> := ["positive", "neutral", "negative"]

  /** `m.get(s, {})`. */
  function RowOf(m: map<string, map<string, real>>, s: string): map<string, real> {
    if s in m then m[s] else map[]
  }

  /** One speaker's merged metrics: a dictionary display of the eight
      results' rows, where a later row's key wins. */
  function Row(s: string, airTime: map<string, map<string, real>>, wordsSpoken: map<string, map<string, real>>,
               questions: map<string, map<string, real>>, narrative: map<string, map<string, real>>,
               emotions: map<string, map<string, real>>, avgRates: map<string, map<string, real>>,
               avgAirTime: map<string, map<string, real>>, avgRedundancy: map<string, map<string, real>>): map<string, real>
  {
    RowOf(airTime, s) + RowOf(wordsSpoken, s) + RowOf(questions, s) + RowOf(narrative, s)
      + RowOf(emotions, s) + RowOf(avgRates, s) + RowOf(avgAirTime, s) + RowOf(avgRedundancy, s)
  }

  /** Distinct categories have distinct labels. */
  lemma LabelAvoids(x: string, cs: seq<string>)
    requires x !in cs
    ensures Label(x) !in Labels(cs)
  {
    UnlabelLabel(x);
    forall c | c in cs
      ensures Label(c) != Label(x)
    {
      UnlabelLabel(c);
    }
  }

  /** A row without key `l` leaves `l` as it was in a merge. */
  lemma RowLacks(m: map<string, map<string, real>>, keys: set<string>, l: string, s: string,
                 before: map<string, real>)
    requires forall t | t in m :: m[t].Keys == keys
    requires l !in keys && l in before
    ensures l in before + RowOf(m, s) && (before + RowOf(m, s))[l] == before[l]
  {
  }

  /** The `airTime` share survives the merge: no later row has its key. */
  lemma AirTimeShareKept(k: string, airTime: map<string, map<string, real>>, wordsSpoken: map<string, map<string, real>>,
                         questions: map<string, map<string, real>>, narrative: map<string, map<string, real>>,
                         emotions: map<string, map<string, real>>, avgRates: map<string, map<string, real>>,
                         avgAirTime: map<string, map<string, real>>, avgRedundancy: map<string, map<string, real>>)
    requires k in airTime && Label("airTime") in airTime[k]
    requires forall s | s in wordsSpoken :: wordsSpoken[s].Keys == {Label("wordLength")}
    requires forall s | s in questions :: questions[s].Keys == Labels(QuestionTypes)
    requires forall s | s in narrative :: narrative[s].Keys == Labels(NarrativeTypes)
    requires forall s | s in emotions :: emotions[s].Keys == Labels(Emotions)
    requires forall s | s in avgRates :: avgRates[s].Keys == {AverageKey("wpm")}
    requires forall s | s in avgAirTime :: avgAirTime[s].Keys == {AverageKey("airTime")}
    requires forall s | s in avgRedundancy :: avgRedundancy[s].Keys == {AverageKey("turnRedundancy")}
    ensures var row := Row(k, airTime, wordsSpoken, questions, narrative, emotions, avgRates, avgAirTime, avgRedundancy);
      Label("airTime") in row && row[Label("airTime")] == airTime[k][Label("airTime")]
  {
    var l := Label("airTime");
    assert l != Label("wordLength") by {
      UnlabelLabel("airTime");
      UnlabelLabel("wordLength");
    }
    LabelAvoids("airTime", QuestionTypes);
    LabelAvoids("airTime", NarrativeTypes);
    LabelAvoids("airTime", Emotions);
    assert |l| == 17;
    var r1 := RowOf(airTime, k);
    RowLacks(wordsSpoken, {Label("wordLength")}, l, k, r1);
    var r2 := r1 + RowOf(wordsSpoken, k);
    RowLacks(questions, Labels(QuestionTypes), l, k, r2);
    var r3 := r2 + RowOf(questions, k);
    RowLacks(narrative, Labels(NarrativeTypes), l, k, r3);
    var r4 := r3 + RowOf(narrative, k);
    RowLacks(emotions, Labels(Emotions), l, k, r4);
    var r5 := r4 + RowOf(emotions, k);
    RowLacks(avgRates, {AverageKey("wpm")}, l, k, r5);
    var r6 := r5 + RowOf(avgRates, k);
    RowLacks(avgAirTime, {AverageKey("airTime")}, l, k, r6);
    var r7 := r6 + RowOf(avgAirTime, k);
    RowLacks(avgRedundancy, {AverageKey("turnRedundancy")}, l, k, r7);
  }

  /** An emotion share survives the merge: only averages follow it. */
  lemma EmotionShareKept(k: string, c: string, airTime: map<string, map<string, real>>, wordsSpoken: map<string, map<string, real>>,
                         questions: map<string, map<string, real>>, narrative: map<string, map<string, real>>,
                         emotions: map<string, map<string, real>>, avgRates: map<string, map<string, real>>,
                         avgAirTime: map<string, map<string, real>>, avgRedundancy: map<string, map<string, real>>)
    requires c in Emotions && k in emotions && Label(c) in emotions[k]
    requires forall s | s in avgRates :: avgRates[s].Keys == {AverageKey("wpm")}
    requires forall s | s in avgAirTime :: avgAirTime[s].Keys == {AverageKey("airTime")}
    requires forall s | s in avgRedundancy :: avgRedundancy[s].Keys == {AverageKey("turnRedundancy")}
    ensures var row := Row(k, airTime, wordsSpoken, questions, narrative, emotions, avgRates, avgAirTime, avgRedundancy);
      Label(c) in row && row[Label(c)] == emotions[k][Label(c)]
  {
    var l := Label(c);
    assert 17 <= |l| <= 18;
    var r5 := RowOf(airTime, k) + RowOf(wordsSpoken, k) + RowOf(questions, k) + RowOf(narrative, k) + RowOf(emotions, k);
    assert l in r5 && r5[l] == emotions[k][l];
    RowLacks(avgRates, {AverageKey("wpm")}, l, k, r5);
    var r6 := r5 + RowOf(avgRates, k);
    RowLacks(avgAirTime, {AverageKey("airTime")}, l, k, r6);
    var r7 := r6 + RowOf(avgAirTime, k);
    RowLacks(avgRedundancy, {AverageKey("turnRedundancy")}, l, k, r7);
  }

  /** The merged rows of every speaker of `airTime`. */
  function Merged(airTime: map<string, map<string, real>>, wordsSpoken: map<string, map<string, real>>,
                  questions: map<string, map<string, real>>, narrative: map<string, map<string, real>>,
                  emotions: map<string, map<string, real>>, avgRates: map<string, map<string, real>>,
                  avgAirTime: map<string, map<string, real>>, avgRedundancy: map<string, map<string, real>>)
    : map<string, map<string, real>>
  {
    map k | k in airTime :: Row(k, airTime, wordsSpoken, questions, narrative, emotions, avgRates, avgAirTime, avgRedundancy)
  }

  /** The merge loop of `computeMetrics`: one row per speaker of
      `airTime`, visited in any order. */
  method Combine(airTime: map<string, map<string, real>>, wordsSpoken: map<string, map<string, real>>,
                 questions: map<string, map<string, real>>, narrative: map<string, map<string, real>>,
                 emotions: map<string, map<string, real>>, avgRates: map<string, map<string, real>>,
                 avgAirTime: map<string, map<string, real>>, avgRedundancy: map<string, map<string, real>>)
    returns (combined: map<string, map<string, real>>)
    ensures combined == Merged(airTime, wordsSpoken, questions, narrative, emotions, avgRates, avgAirTime, avgRedundancy)
  {
    var speakers := airTime.Keys;
    combined := map[];
    var rest := speakers;
    while rest != {}
      invariant rest <= speakers
      invariant combined.Keys == speakers - rest
      invariant forall k | k in combined ::
        combined[k] == Row(k, airTime, wordsSpoken, questions, narrative, emotions, avgRates, avgAirTime, avgRedundancy)
      decreases |rest|
    {
      var speaker :| speaker in rest;
      combined := combined[speaker :=
        Row(speaker, airTime, wordsSpoken, questions, narrative, emotions, avgRates, avgAirTime, avgRedundancy)];
      rest := rest - {speaker};
    }
  }

  /** What `computeMetrics` returns for a transcript. */
  function Metrics(es: seq<Entry>): map<string, map<string, real>> {
    Merged(Shares(Numbers(es, AirTime), "airTime"), Shares(Numbers(es, WordLength), "wordLength"),
           Tally(Labelled(es, QType), QuestionTypes), Tally(Labelled(es, NType), NarrativeTypes),
           Tally(Labelled(es, Emotion), Emotions), Averages(Numbers(es, Wpm), "wpm"),
           Averages(Numbers(es, AirTime), "airTime"), Averages(Numbers(es, TurnRedundancy), "turnRedundancy"))
  }

  /** `computeMetrics`: the eight statistics, merged per speaker. */
  method ComputeMetrics(es: seq<Entry>) returns (combined: map<string, map<string, real>>)
    ensures combined == Metrics(es)
  {
    var airTime := CompareSpeakers(Numbers(es, AirTime), "airTime");
    var wordsSpoken := CompareSpeakers(Numbers(es, WordLength), "wordLength");
    var questions := TallySpeakerParam(Labelled(es, QType), QuestionTypes);
    var narrative := TallySpeakerParam(Labelled(es, NType), NarrativeTypes);
    var emotions := TallySpeakerParam(Labelled(es, Emotion), Emotions);
    var avgRates := AvgSpeakerParam(Numbers(es, Wpm), "wpm");
    var avgAirTime := AvgSpeakerParam(Numbers(es, AirTime), "airTime");
    var avgRedundancy := AvgSpeakerParam(Numbers(es, TurnRedundancy), "turnRedundancy");
    combined := Combine(airTime, wordsSpoken, questions, narrative, emotions, avgRates, avgAirTime, avgRedundancy);
  }

  lemma SharesKeys(rs: seq<Reading<real>>, parameter: string)
    ensures forall s | s in Shares(rs, parameter) :: Shares(rs, parameter)[s].Keys == {Label(parameter)}
  {
  }

  lemma TallyKeys(rs: seq<Reading<Option<string>>>, categories: seq<string>)
    ensures forall s | s in Tally(rs, categories) :: Tally(rs, categories)[s].Keys == Labels(categories)
  {
  }

  lemma AveragesKeys(rs: seq<Reading<real>>, parameter: string)
    ensures forall s | s in Averages(rs, parameter) :: Averages(rs, parameter)[s].Keys == {AverageKey(parameter)}
  {
  }

  lemma AveragesAt(rs: seq<Reading<real>>, parameter: string, k: string)
    requires k in Names(rs)
    ensures k in Averages(rs, parameter) && AverageKey(parameter) in Averages(rs, parameter)[k]
    ensures Averages(rs, parameter)[k][AverageKey(parameter)] == Average(rs, k)
  {
  }

  /** Every speaker of the transcript gets a row, and no one else. */
  lemma MetricsSpeakers(es: seq<Entry>)
    ensures Metrics(es).Keys == EntryNames(es)
  {
    NumbersNames(es, AirTime);
  }

  /** A speaker's `airTimeProportion` is that speaker's share of the
      total air time: no later statistic overwrites it. */
  lemma MetricsAirTimeShare(es: seq<Entry>, k: string)
    requires k in Metrics(es)
    ensures Label("airTime") in Metrics(es)[k]
    ensures Metrics(es)[k][Label("airTime")]
      == Proportion(SpeakerSum(Numbers(es, AirTime), k), Total(Numbers(es, AirTime)))
  {
    SharesKeys(Numbers(es, WordLength), "wordLength");
    TallyKeys(Labelled(es, QType), QuestionTypes);
    TallyKeys(Labelled(es, NType), NarrativeTypes);
    TallyKeys(Labelled(es, Emotion), Emotions);
    AveragesKeys(Numbers(es, Wpm), "wpm");
    AveragesKeys(Numbers(es, AirTime), "airTime");
    AveragesKeys(Numbers(es, TurnRedundancy), "turnRedundancy");
    AirTimeShareKept(k, Shares(Numbers(es, AirTime), "airTime"), Shares(Numbers(es, WordLength), "wordLength"),
      Tally(Labelled(es, QType), QuestionTypes), Tally(Labelled(es, NType), NarrativeTypes),
      Tally(Labelled(es, Emotion), Emotions), Averages(Numbers(es, Wpm), "wpm"),
      Averages(Numbers(es, AirTime), "airTime"), Averages(Numbers(es, TurnRedundancy), "turnRedundancy"));
  }

  /** Rows that agree on the categories' labels have the same share sum. */
  lemma {:induction false} ShareSumAgree(a: map<string, real>, b: map<string, real>, cs: seq<string>)
    requires forall c | c in cs :: Label(c) in a && Label(c) in b && a[Label(c)] == b[Label(c)]
    ensures ShareSum(a, cs) == ShareSum(b, cs)
  {
    if cs != [] {
      ShareSumAgree(a, b, cs[..|cs| - 1]);
    }
  }

  /** The last row's keys win the merge. */
  lemma LastRowWins(k: string, airTime: map<string, map<string, real>>, wordsSpoken: map<string, map<string, real>>,
                    questions: map<string, map<string, real>>, narrative: map<string, map<string, real>>,
                    emotions: map<string, map<string, real>>, avgRates: map<string, map<string, real>>,
                    avgAirTime: map<string, map<string, real>>, avgRedundancy: map<string, map<string, real>>, l: string)
    requires k in airTime && k in avgRedundancy && l in avgRedundancy[k]
    ensures var merged := Merged(airTime, wordsSpoken, questions, narrative, emotions, avgRates, avgAirTime, avgRedundancy);
      k in merged && l in merged[k] && merged[k][l] == avgRedundancy[k][l]
  {
  }

  /** The emotion categories are distinct and none is `'total'`. */
  lemma EmotionsDistinct()
    ensures Distinct(Emotions) && "total" !in Emotions
  {
    assert Emotions[0][0] != Emotions[2][0];
  }

  /** A speaker with a categorised emotion has that emotion tally in the
      merged row, and its shares add up to 1. */
  lemma MetricsEmotionShares(es: seq<Entry>, k: string)
    requires k in Metrics(es) && k in TalliedNames(Labelled(es, Emotion), Emotions)
    ensures forall c | c in Emotions ::
      && Label(c) in Metrics(es)[k]
      && Metrics(es)[k][Label(c)]
        == Proportion(Cell(Labelled(es, Emotion), k, c, Emotions) as real,
                      Cell(Labelled(es, Emotion), k, "total", Emotions) as real)
    ensures ShareSum(Metrics(es)[k], Emotions) == 1.0
  {
    var rs := Labelled(es, Emotion);
    var emotions := Tally(rs, Emotions);
    AveragesKeys(Numbers(es, Wpm), "wpm");
    AveragesKeys(Numbers(es, AirTime), "airTime");
    AveragesKeys(Numbers(es, TurnRedundancy), "turnRedundancy");
    var row := Metrics(es)[k];
    forall c | c in Emotions
      ensures Label(c) in row && Label(c) in emotions[k] && row[Label(c)] == emotions[k][Label(c)]
      ensures row[Label(c)] == Proportion(Cell(rs, k, c, Emotions) as real, Cell(rs, k, "total", Emotions) as real)
    {
      TallyAt(rs, Emotions, k, c);
      EmotionShareKept(k, c, Shares(Numbers(es, AirTime), "airTime"), Shares(Numbers(es, WordLength), "wordLength"),
        Tally(Labelled(es, QType), QuestionTypes), Tally(Labelled(es, NType), NarrativeTypes),
        emotions, Averages(Numbers(es, Wpm), "wpm"),
        Averages(Numbers(es, AirTime), "airTime"), Averages(Numbers(es, TurnRedundancy), "turnRedundancy"));
    }
    EmotionsDistinct();
    TallySumsToOne(rs, Emotions, k);
    ShareSumAgree(row, emotions[k], Emotions);
  }

  /** A speaker's `averageturnRedundancy`, merged last, is that speaker's
      average turn redundancy. */
  lemma MetricsRedundancy(es: seq<Entry>, k: string)
    requires k in Metrics(es)
    ensures AverageKey("turnRedundancy") in Metrics(es)[k]
    ensures k in Names(Numbers(es, TurnRedundancy))
    ensures Metrics(es)[k][AverageKey("turnRedundancy")] == Average(Numbers(es, TurnRedundancy), k)
  {
    MetricsSpeakers(es);
    NumbersNames(es, TurnRedundancy);
    var a, b := Shares(Numbers(es, AirTime), "airTime"), Shares(Numbers(es, WordLength), "wordLength");
    var q, n, e := Tally(Labelled(es, QType), QuestionTypes), Tally(Labelled(es, NType), NarrativeTypes),
      Tally(Labelled(es, Emotion), Emotions);
    var w, t, d := Averages(Numbers(es, Wpm), "wpm"), Averages(Numbers(es, AirTime), "airTime"),
      Averages(Numbers(es, TurnRedundancy), "turnRedundancy");
    assert Metrics(es) == Merged(a, b, q, n, e, w, t, d);
    AveragesAt(Numbers(es, TurnRedundancy), "turnRedundancy", k);
    LastRowWins(k, a, b, q, n, e, w, t, d, AverageKey("turnRedundancy"));
  }
}
