/** The record producer of src/parameterizer.py (`parameterize`, with its
    speaking-rate helper, also in parameterizer.py): one record per kept
    sentence, numbered 0, 1, 2, ... across the whole transcript, then
    scored by the turn-window relation detector. Sentence splitting and
    sentence similarity are inputs; sentiment and topic fields are not
    part of this model. */
module Parameterize {
  import opened Basics
  import opened Classifiers
  import opened TurnRelations
  import opened TurnBlocks

  // ---------------------------------------------------------------------
  // Word counts

  /** The number of ' ' characters in `s`. */
  function Spaces(s: string): nat
    decreases |s|
  {
    if s == [] then 0 else Spaces(s[..|s| - 1]) + (if s[|s| - 1] == ' ' then 1 else 0)
  }

  /** `len(s.split(" "))`: one piece more than there are spaces. */
  function Pieces(s: string): (n: nat)
    ensures n >= 1
  {
    Spaces(s) + 1
  }

  lemma {:induction false} SpacesConcat(a: string, b: string)
    ensures Spaces(a + b) == Spaces(a) + Spaces(b)
    decreases |b|
  {
    if b == [] {
      assert a + b == a;
    } else {
      assert (a + b)[..|a + b| - 1] == a + b[..|b| - 1];
      SpacesConcat(a, b[..|b| - 1]);
    }
  }

  /** Joining two texts with a space joins their piece lists. */
  lemma PiecesJoin(a: string, b: string)
    ensures Pieces(a + " " + b) == Pieces(a) + Pieces(b)
  {
    SpacesConcat(a, " ");
    SpacesConcat(a + " ", b);
    assert Spaces(" ") == 1 by {
      assert " "[..0] == [];
    }
  }

  /** Position `i` begins a run of non-whitespace. */
  predicate StartsWord(s: string, i: nat)
    requires i < |s|
  {
    !IsSpace(s[i]) && (i == 0 || IsSpace(s[i - 1]))
  }

  /** `len(s.split())`: the number of maximal runs of non-whitespace. */
  function Words(s: string): nat
    decreases |s|
  {
    if s == [] then 0 else Words(s[..|s| - 1]) + (if StartsWord(s, |s| - 1) then 1 else 0)
  }

  predicate Blank(s: string) {
    forall i | 0 <= i < |s| :: IsSpace(s[i])
  }

  /** A text has no words exactly when it is all whitespace. */
  lemma {:induction false} NoWordsIffBlank(s: string)
    ensures Words(s) == 0 <==> Blank(s)
    decreases |s|
  {
    if s != [] {
      var init := s[..|s| - 1];
      NoWordsIffBlank(init);
      assert forall i | 0 <= i < |init| :: init[i] == s[i];
      if Words(s) == 0 && |s| > 1 {
        assert IsSpace(init[|s| - 2]);
      }
    }
  }

  // ---------------------------------------------------------------------
  // Speaking rates

  /** `int(words / t * 60)` in exact arithmetic, with rates of 400 and
      above replaced by 150. */
  function CappedRate(words: nat, t: int): int
    requires t != 0
  {
    var rate := TruncDiv(words * 60, t);
    if rate < 400 then rate else 150
  }

  /** Segment `i` makes the rate loop raise: its transcript is missing
      (`IndexError`) or its time is 0 (`ZeroDivisionError`). */
  predicate RateFault(times: seq<int>, transcripts: seq<string>, i: nat)
    requires i < |times|
  {
    i >= |transcripts| || times[i] == 0
  }

  function FaultError(transcripts: seq<string>, i: nat): PyError {
    if i >= |transcripts| then IndexError else ZeroDivisionError
  }

  /** The first faulting segment from `i` on. */
  function FirstFault(times: seq<int>, transcripts: seq<string>, i: nat): (f: Option<nat>)
    requires i <= |times|
    ensures f.Some? ==> i <= f.value < |times|
    decreases |times| - i
  {
    if i == |times| then None
    else if RateFault(times, transcripts, i) then Some(i)
    else FirstFault(times, transcripts, i + 1)
  }

  lemma {:induction false} FirstFaultSpec(times: seq<int>, transcripts: seq<string>, i: nat)
    requires i <= |times|
    ensures var f := FirstFault(times, transcripts, i);
      && (f.None? ==> forall k | i <= k < |times| :: !RateFault(times, transcripts, k))
      && (f.Some? ==> RateFault(times, transcripts, f.value) && forall k | i <= k < f.value :: !RateFault(times, transcripts, k))
    decreases |times| - i
  {
    if i < |times| && !RateFault(times, transcripts, i) {
      FirstFaultSpec(times, transcripts, i + 1);
    }
  }

  /** `speech_rate_detector` / `speechRateDetector`: one capped rate per
      segment, or the error of the first segment that raises. */
  function SpeechRates(times: seq<int>, transcripts: seq<string>): Result<seq<int>> {
    match FirstFault(times, transcripts, 0)
    case Some(i) => Err(FaultError(transcripts, i))
    case None =>
      FirstFaultSpec(times, transcripts, 0);
      Ok(seq(|times|, i requires 0 <= i < |times| && !RateFault(times, transcripts, i) =>
        CappedRate(Pieces(transcripts[i]), times[i])))
  }

  /** The rate loop fails exactly when a segment lacks a transcript or has
      time 0, and then with the first such segment's error. */
  lemma SpeechRatesFail(times: seq<int>, transcripts: seq<string>)
    ensures SpeechRates(times, transcripts).Ok? <==>
      |times| <= |transcripts| && forall i | 0 <= i < |times| :: times[i] != 0
    ensures SpeechRates(times, transcripts).Err? ==>
      exists i | 0 <= i < |times| ::
        && RateFault(times, transcripts, i)
        && (forall k | 0 <= k < i :: !RateFault(times, transcripts, k))
        && SpeechRates(times, transcripts).error == FaultError(transcripts, i)
  {
    FirstFaultSpec(times, transcripts, 0);
    if |times| > |transcripts| {
      assert RateFault(times, transcripts, |transcripts|);
    }
    if exists i | 0 <= i < |times| :: times[i] == 0 {
      var i :| 0 <= i < |times| && times[i] == 0;
      assert RateFault(times, transcripts, i);
    }
  }

  /** One rate per segment: the exact words-per-minute value when below
      400, and 150 otherwise. */
  lemma SpeechRatesValues(times: seq<int>, transcripts: seq<string>)
    requires SpeechRates(times, transcripts).Ok?
    ensures |SpeechRates(times, transcripts).value| == |times| <= |transcripts|
    ensures forall i | 0 <= i < |times| :: times[i] != 0
    ensures forall i | 0 <= i < |times| ::
      var rate, exact := SpeechRates(times, transcripts).value[i], TruncDiv(Pieces(transcripts[i]) * 60, times[i]);
      && (rate < 400 || rate == 150)
      && (exact < 400 <==> rate == exact)
  {
    SpeechRatesFail(times, transcripts);
    FirstFaultSpec(times, transcripts, 0);
  }

  /** The rate loop itself. */
  method SpeechRateDetector(times: seq<int>, transcripts: seq<string>) returns (r: Result<seq<int>>)
    ensures r == SpeechRates(times, transcripts)
  {
    FirstFaultSpec(times, transcripts, 0);
    var rates: seq<int> := [];
    var i := 0;
    while i < |times|
      invariant 0 <= i <= |times| && |rates| == i
      invariant forall k | 0 <= k < i :: !RateFault(times, transcripts, k) && rates[k] == CappedRate(Pieces(transcripts[k]), times[k])
      invariant FirstFault(times, transcripts, 0) == FirstFault(times, transcripts, i)
    {
      if i >= |transcripts| {
        return Err(IndexError);
      }
      if times[i] == 0 {
        return Err(ZeroDivisionError);
      }
      var rate := TruncDiv(Pieces(transcripts[i]) * 60, times[i]);
      rates := rates + [if rate < 400 then rate else 150];
      i := i + 1;
    }
    assert FirstFault(times, transcripts, |times|) == None;
    ghost var spec := SpeechRates(times, transcripts).value;
    assert |spec| == |rates| && forall k | 0 <= k < |times| :: rates[k] == spec[k];
    assert rates == spec;
    return Ok(rates);
  }

  // ---------------------------------------------------------------------
  // Which sentences are kept

  /** `int(len(sentence.split()) * 60 / rate)` in exact arithmetic. */
  function AirTime(sentence: string, rate: int): int
    requires rate != 0
  {
    TruncDiv(Words(sentence) * 60, rate)
  }

  /** A kept sentence: the segment it came from and its text. */
  datatype Kept = Kept(idx: nat, sentence: string)

  /** The outer loop from segment `idx` on, with the sentences `out` kept
      so far: the segment's transcript must exist (`IndexError`). */
  function Segments(speakers: seq<string>, rates: seq<int>, transcripts: seq<string>,
                    sentencesOf: string -> seq<string>, idx: nat, out: seq<Kept>): Result<seq<Kept>>
    requires idx <= |speakers|
    decreases |speakers| - idx, 1, 0
  {
    if idx == |speakers| then Ok(out)
    else if idx >= |transcripts| then Err(IndexError)
    else Sentences(speakers, rates, transcripts, sentencesOf, idx, sentencesOf(transcripts[idx]), 0, out)
  }

  /** The inner loop over segment `idx`'s sentences from the `j`-th on:
      each sentence reads the segment's rate (`IndexError` when there is
      none, `ZeroDivisionError` when it is 0) and is kept when its air
      time exceeds 1. */
  function Sentences(speakers: seq<string>, rates: seq<int>, transcripts: seq<string>,
                     sentencesOf: string -> seq<string>, idx: nat, ss: seq<string>, j: nat,
                     out: seq<Kept>): Result<seq<Kept>>
    requires idx < |speakers| && j <= |ss|
    decreases |speakers| - idx, 0, |ss| - j
  {
    if j == |ss| then Segments(speakers, rates, transcripts, sentencesOf, idx + 1, out)
    else if idx >= |rates| then Err(IndexError)
    else if rates[idx] == 0 then Err(ZeroDivisionError)
    else if AirTime(ss[j], rates[idx]) <= 1 then Sentences(speakers, rates, transcripts, sentencesOf, idx, ss, j + 1, out)
    else Sentences(speakers, rates, transcripts, sentencesOf, idx, ss, j + 1, out + [Kept(idx, ss[j])])
  }

  /** `k` is a sentence of segment `k.idx` whose air time exceeds 1. */
  predicate KeptFrom(k: Kept, speakers: seq<string>, rates: seq<int>, transcripts: seq<string>,
                     sentencesOf: string -> seq<string>)
  {
    && k.idx < |speakers| && k.idx < |rates| && k.idx < |transcripts| && rates[k.idx] != 0
    && k.sentence in sentencesOf(transcripts[k.idx]) && AirTime(k.sentence, rates[k.idx]) > 1
  }

  /** Every entry kept from its own segment, the segments in order. */
  predicate InOrder(kept: seq<Kept>, speakers: seq<string>, rates: seq<int>, transcripts: seq<string>,
                    sentencesOf: string -> seq<string>)
  {
    && (forall k | 0 <= k < |kept| :: KeptFrom(kept[k], speakers, rates, transcripts, sentencesOf))
    && (forall k | 0 < k < |kept| :: kept[k - 1].idx <= kept[k].idx)
  }

  lemma AppendInOrder(out: seq<Kept>, k: Kept, speakers: seq<string>, rates: seq<int>, transcripts: seq<string>,
                      sentencesOf: string -> seq<string>)
    requires InOrder(out, speakers, rates, transcripts, sentencesOf)
    requires KeptFrom(k, speakers, rates, transcripts, sentencesOf)
    requires out != [] ==> out[|out| - 1].idx <= k.idx
    ensures InOrder(out + [k], speakers, rates, transcripts, sentencesOf)
  {
    var next := out + [k];
    assert forall i | 0 <= i < |out| :: next[i] == out[i];
  }

  /** The loops keep only sentences of the segment at hand, in order. */
  lemma {:induction false} SegmentsInOrder(speakers: seq<string>, rates: seq<int>, transcripts: seq<string>,
                                           sentencesOf: string -> seq<string>, idx: nat, out: seq<Kept>)
    requires idx <= |speakers|
    requires InOrder(out, speakers, rates, transcripts, sentencesOf)
    requires out != [] ==> out[|out| - 1].idx < idx
    ensures var r := Segments(speakers, rates, transcripts, sentencesOf, idx, out);
      r.Ok? ==> InOrder(r.value, speakers, rates, transcripts, sentencesOf)
    decreases |speakers| - idx, 1, 0
  {
    if idx < |speakers| && idx < |transcripts| {
      SentencesInOrder(speakers, rates, transcripts, sentencesOf, idx, sentencesOf(transcripts[idx]), 0, out);
    }
  }

  lemma {:induction false} SentencesInOrder(speakers: seq<string>, rates: seq<int>, transcripts: seq<string>,
                                            sentencesOf: string -> seq<string>, idx: nat, ss: seq<string>, j: nat,
                                            out: seq<Kept>)
    requires idx < |speakers| && idx < |transcripts| && ss == sentencesOf(transcripts[idx]) && j <= |ss|
    requires InOrder(out, speakers, rates, transcripts, sentencesOf)
    requires out != [] ==> out[|out| - 1].idx <= idx
    ensures var r := Sentences(speakers, rates, transcripts, sentencesOf, idx, ss, j, out);
      r.Ok? ==> InOrder(r.value, speakers, rates, transcripts, sentencesOf)
    decreases |speakers| - idx, 0, |ss| - j
  {
    if j == |ss| {
      SegmentsInOrder(speakers, rates, transcripts, sentencesOf, idx + 1, out);
    } else if idx < |rates| && rates[idx] != 0 {
      if AirTime(ss[j], rates[idx]) <= 1 {
        SentencesInOrder(speakers, rates, transcripts, sentencesOf, idx, ss, j + 1, out);
      } else {
        AppendInOrder(out, Kept(idx, ss[j]), speakers, rates, transcripts, sentencesOf);
        SentencesInOrder(speakers, rates, transcripts, sentencesOf, idx, ss, j + 1, out + [Kept(idx, ss[j])]);
      }
    }
  }

  /** The sentences of one segment from the `j`-th on whose air time
      exceeds 1, in the order they are spoken. */
  function KeptIn(ss: seq<string>, rate: int, idx: nat, j: nat): (r: seq<Kept>)
    requires rate != 0 && j <= |ss|
    ensures forall k | 0 <= k < |r| :: r[k].idx == idx
    decreases |ss| - j
  {
    if j == |ss| then []
    else (if AirTime(ss[j], rate) > 1 then [Kept(idx, ss[j])] else []) + KeptIn(ss, rate, idx, j + 1)
  }

  /** Every segment from `idx` on has a transcript and a non-zero rate. */
  predicate Covered(speakers: seq<string>, rates: seq<int>, transcripts: seq<string>) {
    |speakers| <= |transcripts| && |speakers| <= |rates|
    && forall i | 0 <= i < |speakers| :: rates[i] != 0
  }

  /** The kept sentences of the segments from `idx` on, segment by segment. */
  function AllKept(speakers: seq<string>, rates: seq<int>, transcripts: seq<string>,
                   sentencesOf: string -> seq<string>, idx: nat): (r: seq<Kept>)
    requires idx <= |speakers| && Covered(speakers, rates, transcripts)
    ensures forall k | 0 <= k < |r| :: idx <= r[k].idx < |speakers|
    ensures Recordable(r, speakers, rates)
    decreases |speakers| - idx
  {
    if idx == |speakers| then []
    else
      KeptIn(sentencesOf(transcripts[idx]), rates[idx], idx, 0)
      + AllKept(speakers, rates, transcripts, sentencesOf, idx + 1)
  }

  /** When every segment has a transcript and a non-zero rate, the loops
      raise nothing and keep exactly the sentences with air time above 1,
      segment by segment and in spoken order. */
  lemma {:induction false} SegmentsKeepAll(speakers: seq<string>, rates: seq<int>, transcripts: seq<string>,
                                           sentencesOf: string -> seq<string>, idx: nat, out: seq<Kept>)
    requires idx <= |speakers| && Covered(speakers, rates, transcripts)
    ensures Segments(speakers, rates, transcripts, sentencesOf, idx, out)
      == Ok(out + AllKept(speakers, rates, transcripts, sentencesOf, idx))
    decreases |speakers| - idx, 1, 0
  {
    if idx < |speakers| {
      var ss := sentencesOf(transcripts[idx]);
      SentencesKeepAll(speakers, rates, transcripts, sentencesOf, idx, ss, 0, out);
      assert out + KeptIn(ss, rates[idx], idx, 0) + AllKept(speakers, rates, transcripts, sentencesOf, idx + 1)
        == out + AllKept(speakers, rates, transcripts, sentencesOf, idx);
    } else {
      assert out + [] == out;
    }
  }

  lemma {:induction false} SentencesKeepAll(speakers: seq<string>, rates: seq<int>, transcripts: seq<string>,
                                            sentencesOf: string -> seq<string>, idx: nat, ss: seq<string>, j: nat,
                                            out: seq<Kept>)
    requires idx < |speakers| && Covered(speakers, rates, transcripts) && j <= |ss|
    ensures Sentences(speakers, rates, transcripts, sentencesOf, idx, ss, j, out)
      == Ok(out + KeptIn(ss, rates[idx], idx, j) + AllKept(speakers, rates, transcripts, sentencesOf, idx + 1))
    decreases |speakers| - idx, 0, |ss| - j
  {
    var rest := AllKept(speakers, rates, transcripts, sentencesOf, idx + 1);
    if j == |ss| {
      SegmentsKeepAll(speakers, rates, transcripts, sentencesOf, idx + 1, out);
      assert out + [] + rest == out + rest;
    } else {
      var rate := rates[idx];
      var keep := AirTime(ss[j], rate) > 1;
      var here := if keep then [Kept(idx, ss[j])] else [];
      var tail := KeptIn(ss, rate, idx, j + 1);
      assert KeptIn(ss, rate, idx, j) == here + tail;
      if keep {
        assert Sentences(speakers, rates, transcripts, sentencesOf, idx, ss, j, out)
          == Sentences(speakers, rates, transcripts, sentencesOf, idx, ss, j + 1, out + here);
      } else {
        assert out + here == out;
        assert Sentences(speakers, rates, transcripts, sentencesOf, idx, ss, j, out)
          == Sentences(speakers, rates, transcripts, sentencesOf, idx, ss, j + 1, out + here);
      }
      SentencesKeepAll(speakers, rates, transcripts, sentencesOf, idx, ss, j + 1, out + here);
      ConcatRegroup(out, here, tail, rest);
    }
  }

  lemma ConcatRegroup<T>(a: seq<T>, b: seq<T>, c: seq<T>, d: seq<T>)
    ensures a + b + c + d == a + (b + c) + d
  {
  }

  /** A successful run passes every segment, so each one had a transcript. */
  lemma {:induction false} SegmentsReachEnd(speakers: seq<string>, rates: seq<int>, transcripts: seq<string>,
                                            sentencesOf: string -> seq<string>, idx: nat, out: seq<Kept>)
    requires idx <= |speakers|
    ensures Segments(speakers, rates, transcripts, sentencesOf, idx, out).Ok? ==> |speakers| <= |transcripts| || idx == |speakers|
    decreases |speakers| - idx, 1, 0
  {
    if idx < |speakers| && idx < |transcripts| {
      SentencesReachEnd(speakers, rates, transcripts, sentencesOf, idx, sentencesOf(transcripts[idx]), 0, out);
    }
  }

  lemma {:induction false} SentencesReachEnd(speakers: seq<string>, rates: seq<int>, transcripts: seq<string>,
                                             sentencesOf: string -> seq<string>, idx: nat, ss: seq<string>, j: nat,
                                             out: seq<Kept>)
    requires idx < |speakers| && idx < |transcripts| && j <= |ss|
    ensures Sentences(speakers, rates, transcripts, sentencesOf, idx, ss, j, out).Ok? ==> |speakers| <= |transcripts|
    decreases |speakers| - idx, 0, |ss| - j
  {
    if j == |ss| {
      SegmentsReachEnd(speakers, rates, transcripts, sentencesOf, idx + 1, out);
    } else if idx < |rates| && rates[idx] != 0 {
      var next := if AirTime(ss[j], rates[idx]) <= 1 then out else out + [Kept(idx, ss[j])];
      SentencesReachEnd(speakers, rates, transcripts, sentencesOf, idx, ss, j + 1, next);
    }
  }

  /** The loops raise only `IndexError` and `ZeroDivisionError`. */
  lemma {:induction false} SegmentsErrors(speakers: seq<string>, rates: seq<int>, transcripts: seq<string>,
                                          sentencesOf: string -> seq<string>, idx: nat, out: seq<Kept>)
    requires idx <= |speakers|
    ensures var r := Segments(speakers, rates, transcripts, sentencesOf, idx, out);
      r.Err? ==> r.error in {IndexError, ZeroDivisionError}
    decreases |speakers| - idx, 1, 0
  {
    if idx < |speakers| && idx < |transcripts| {
      SentencesErrors(speakers, rates, transcripts, sentencesOf, idx, sentencesOf(transcripts[idx]), 0, out);
    }
  }

  lemma {:induction false} SentencesErrors(speakers: seq<string>, rates: seq<int>, transcripts: seq<string>,
                                           sentencesOf: string -> seq<string>, idx: nat, ss: seq<string>, j: nat,
                                           out: seq<Kept>)
    requires idx < |speakers| && j <= |ss|
    ensures var r := Sentences(speakers, rates, transcripts, sentencesOf, idx, ss, j, out);
      r.Err? ==> r.error in {IndexError, ZeroDivisionError}
    decreases |speakers| - idx, 0, |ss| - j
  {
    if j == |ss| {
      SegmentsErrors(speakers, rates, transcripts, sentencesOf, idx + 1, out);
    } else if idx < |rates| && rates[idx] != 0 {
      var next := if AirTime(ss[j], rates[idx]) <= 1 then out else out + [Kept(idx, ss[j])];
      SentencesErrors(speakers, rates, transcripts, sentencesOf, idx, ss, j + 1, next);
    }
  }

  /** An all-whitespace sentence has air time 0 and is never kept. */
  lemma BlankSentenceSkipped(sentence: string, rate: int)
    requires rate != 0 && Blank(sentence)
    ensures AirTime(sentence, rate) == 0
  {
    NoWordsIffBlank(sentence);
  }

  // ---------------------------------------------------------------------
  // Records, numbered across the transcript

  /** The `previous` field: a single space for the first segment. */
  function Previous(speakers: seq<string>, idx: nat): string
    requires idx < |speakers|
  {
    if idx == 0 then " " else speakers[idx - 1]
  }

  /** The record of a kept sentence, before the detector has scored it. */
  function Record(id: nat, speakers: seq<string>, idx: nat, sentence: string, rate: int): Utterance
    requires idx < |speakers| && rate != 0
  {
    Utterance(id, idx, speakers[idx], Previous(speakers, idx), sentence,
      AirTime(sentence, rate), rate, Question(sentence), Narrative(sentence), None, None, None)
  }

  /** Every kept sentence names a speaker and a non-zero rate. */
  predicate Recordable(kept: seq<Kept>, speakers: seq<string>, rates: seq<int>) {
    forall k | 0 <= k < |kept| :: kept[k].idx < |speakers| && kept[k].idx < |rates| && rates[kept[k].idx] != 0
  }

  /** The records of the kept sentences, numbered from 0 in order. */
  function Records(kept: seq<Kept>, speakers: seq<string>, rates: seq<int>): (us: seq<Utterance>)
    requires Recordable(kept, speakers, rates)
  {
    seq(|kept|, k requires 0 <= k < |kept| =>
      Record(k, speakers, kept[k].idx, kept[k].sentence, rates[kept[k].idx]))
  }

  /** Appending a sentence with a speaker and a non-zero rate keeps the sentences recordable. */
  lemma RecordableAppend(kept: seq<Kept>, k: Kept, speakers: seq<string>, rates: seq<int>)
    requires Recordable(kept, speakers, rates)
    requires k.idx < |speakers| && k.idx < |rates| && rates[k.idx] != 0
    ensures Recordable(kept + [k], speakers, rates)
  {
    var next := kept + [k];
    forall i | 0 <= i < |next|
      ensures next[i].idx < |speakers| && next[i].idx < |rates| && rates[next[i].idx] != 0
    {
      if i < |kept| {
        assert next[i] == kept[i];
      }
    }
  }

  /** The records of a longer list start with the records of the shorter one. */
  lemma RecordsPrefix(kept: seq<Kept>, next: seq<Kept>, speakers: seq<string>, rates: seq<int>)
    requires Recordable(kept, speakers, rates) && Recordable(next, speakers, rates)
    requires |kept| <= |next| && next[..|kept|] == kept
    ensures Records(next, speakers, rates)[..|kept|] == Records(kept, speakers, rates)
  {
    var a := Records(kept, speakers, rates);
    var b := Records(next, speakers, rates);
    forall i | 0 <= i < |kept|
      ensures b[i] == a[i]
    {
      assert next[i] == kept[i];
    }
  }

  lemma RecordsAppend(kept: seq<Kept>, k: Kept, speakers: seq<string>, rates: seq<int>)
    requires Recordable(kept, speakers, rates)
    requires k.idx < |speakers| && k.idx < |rates| && rates[k.idx] != 0
    ensures Recordable(kept + [k], speakers, rates)
    ensures Records(kept + [k], speakers, rates)
      == Records(kept, speakers, rates) + [Record(|kept|, speakers, k.idx, k.sentence, rates[k.idx])]
  {
    var next := kept + [k];
    RecordableAppend(kept, k, speakers, rates);
    assert next[..|kept|] == kept;
    RecordsPrefix(kept, next, speakers, rates);
    var b := Records(next, speakers, rates);
    var r := Record(|kept|, speakers, k.idx, k.sentence, rates[k.idx]);
    assert b[|kept|] == r;
    LastAppended(b, Records(kept, speakers, rates), r);
  }

  /** The record the inner loop appends for a kept sentence is the next record. */
  lemma KeepOne(kept: seq<Kept>, speakers: seq<string>, rates: seq<int>, idx: nat, sentence: string,
                data: Utterance)
    requires Recordable(kept, speakers, rates) && idx < |speakers| && idx < |rates| && rates[idx] != 0
    requires data == Utterance(|kept|, idx, speakers[idx], if idx == 0 then " " else speakers[idx - 1],
      sentence, AirTime(sentence, rates[idx]), rates[idx], Question(sentence), Narrative(sentence),
      None, None, None)
    ensures Recordable(kept + [Kept(idx, sentence)], speakers, rates)
    ensures Records(kept + [Kept(idx, sentence)], speakers, rates) == Records(kept, speakers, rates) + [data]
  {
    RecordsAppend(kept, Kept(idx, sentence), speakers, rates);
  }

  /** A sequence is its prefix with its last element appended. */
  lemma LastAppended<T>(b: seq<T>, a: seq<T>, r: T)
    requires |b| == |a| + 1 && b[..|a|] == a && b[|a|] == r
    ensures b == a + [r]
  {
    assert b == b[..|a|] + [b[|a|]];
  }

  /** The records of the whole transcript, before scoring. */
  function Assigned(speakers: seq<string>, times: seq<int>, transcripts: seq<string>,
                    sentencesOf: string -> seq<string>): Result<seq<Utterance>>
  {
    match SpeechRates(times, transcripts)
    case Err(e) => Err(e)
    case Ok(rates) =>
      match Segments(speakers, rates, transcripts, sentencesOf, 0, [])
      case Err(e) => Err(e)
      case Ok(kept) =>
        SegmentsInOrder(speakers, rates, transcripts, sentencesOf, 0, []);
        Ok(Records(kept, speakers, rates))
  }

  /** The inner loop of `parameterize` over segment `idx1`'s sentences,
      appending to `output`: the records after the segment, or the error
      it raises. `kept` and `kept'` are the sentences the records hold. */
  method KeepSentences(speakers: seq<string>, rates: seq<int>, transcripts: seq<string>,
                       sentencesOf: string -> seq<string>, idx1: nat, transcript: seq<string>,
                       output: seq<Utterance>, ghost kept: seq<Kept>)
    returns (r: Result<seq<Utterance>>, ghost kept': seq<Kept>)
    requires idx1 < |speakers| && Recordable(kept, speakers, rates)
    requires output == Records(kept, speakers, rates)
    ensures r.Err? ==> Sentences(speakers, rates, transcripts, sentencesOf, idx1, transcript, 0, kept) == Err(r.error)
    ensures r.Ok? ==>
      && Recordable(kept', speakers, rates)
      && r.value == Records(kept', speakers, rates)
      && Sentences(speakers, rates, transcripts, sentencesOf, idx1, transcript, 0, kept) ==
         Segments(speakers, rates, transcripts, sentencesOf, idx1 + 1, kept')
  {
    var out := output;
    kept' := kept;
    var count := |output|;
    var j := 0;
    while j < |transcript|
      invariant j <= |transcript| && Recordable(kept', speakers, rates)
      invariant out == Records(kept', speakers, rates) && count == |out|
      invariant Sentences(speakers, rates, transcripts, sentencesOf, idx1, transcript, j, kept')
        == Sentences(speakers, rates, transcripts, sentencesOf, idx1, transcript, 0, kept)
    {
      var sentence := transcript[j];
      ghost var now := Sentences(speakers, rates, transcripts, sentencesOf, idx1, transcript, j, kept');
      if idx1 >= |rates| {
        assert now == Err(IndexError);
        return Err(IndexError), kept';
      }
      if rates[idx1] == 0 {
        assert now == Err(ZeroDivisionError);
        return Err(ZeroDivisionError), kept';
      }
      var time := TruncDiv(Words(sentence) * 60, rates[idx1]);
      assert time == AirTime(sentence, rates[idx1]);
      if time > 1 {
        var previous := if idx1 == 0 then " " else speakers[idx1 - 1];
        var data := Utterance(count, idx1, speakers[idx1], previous, sentence, time, rates[idx1],
          Question(sentence), Narrative(sentence), None, None, None);
        KeepOne(kept', speakers, rates, idx1, sentence, data);
        out := out + [data];
        kept' := kept' + [Kept(idx1, sentence)];
        count := count + 1;
      }
      assert now == Sentences(speakers, rates, transcripts, sentencesOf, idx1, transcript, j + 1, kept');
      j := j + 1;
    }
    return Ok(out), kept';
  }

  /** The id/turn loop of `parameterize`. */
  method AssignRecords(speakers: seq<string>, times: seq<int>, transcripts: seq<string>,
                       sentencesOf: string -> seq<string>) returns (r: Result<seq<Utterance>>)
    ensures r == Assigned(speakers, times, transcripts, sentencesOf)
  {
    var rated := SpeechRateDetector(times, transcripts);
    if rated.Err? {
      return Err(rated.error);
    }
    var rates := rated.value;
    ghost var goal := Segments(speakers, rates, transcripts, sentencesOf, 0, []);
    ghost var kept: seq<Kept> := [];
    var output: seq<Utterance> := [];
    var idx1 := 0;
    while idx1 < |speakers|
      invariant idx1 <= |speakers| && Recordable(kept, speakers, rates)
      invariant output == Records(kept, speakers, rates)
      invariant Segments(speakers, rates, transcripts, sentencesOf, idx1, kept) == goal
    {
      if idx1 >= |transcripts| {
        return Err(IndexError);
      }
      var transcript := sentencesOf(transcripts[idx1]);
      var made;
      made, kept := KeepSentences(speakers, rates, transcripts, sentencesOf, idx1, transcript, output, kept);
      if made.Err? {
        return made;
      }
      output := made.value;
      idx1 := idx1 + 1;
    }
    return Ok(output);
  }

  // ---------------------------------------------------------------------
  // What the records satisfy

  /** `u` is the record of a kept sentence of segment `u.turn`. */
  predicate WellMade(u: Utterance, speakers: seq<string>, rates: seq<int>, transcripts: seq<string>,
                     sentencesOf: string -> seq<string>)
  {
    && u.turn < |speakers| && u.turn < |rates| && u.turn < |transcripts|
    && rates[u.turn] != 0
    && u.text in sentencesOf(transcripts[u.turn])
    && u == Record(u.id, speakers, u.turn, u.text, rates[u.turn])
    && u.airTime > 1
  }

  /** Ids 0, 1, 2, ..., turns never decreasing, every record well made. */
  predicate Numbered(us: seq<Utterance>, speakers: seq<string>, rates: seq<int>, transcripts: seq<string>,
                     sentencesOf: string -> seq<string>)
  {
    && Consecutive(us)
    && (forall k | 0 < k < |us| :: us[k - 1].turn <= us[k].turn)
    && (forall k | 0 <= k < |us| :: WellMade(us[k], speakers, rates, transcripts, sentencesOf))
  }

  lemma RecordsNumbered(kept: seq<Kept>, speakers: seq<string>, rates: seq<int>, transcripts: seq<string>,
                        sentencesOf: string -> seq<string>)
    requires InOrder(kept, speakers, rates, transcripts, sentencesOf)
    ensures Recordable(kept, speakers, rates)
    ensures Numbered(Records(kept, speakers, rates), speakers, rates, transcripts, sentencesOf)
  {
    assert Recordable(kept, speakers, rates) by {
      forall k | 0 <= k < |kept|
        ensures kept[k].idx < |speakers| && kept[k].idx < |rates| && rates[kept[k].idx] != 0
      {
        assert KeptFrom(kept[k], speakers, rates, transcripts, sentencesOf);
      }
    }
    var us := Records(kept, speakers, rates);
    forall k | 0 <= k < |us|
      ensures WellMade(us[k], speakers, rates, transcripts, sentencesOf)
    {
      assert KeptFrom(kept[k], speakers, rates, transcripts, sentencesOf);
    }
  }

  /** `parameterize` numbers the kept sentences 0, 1, 2, ... in order,
      never lowers the turn, and every record is a kept sentence of its
      own segment: its speaker, the speaker before, the segment's rate,
      an air time above 1 and the sentence's question and narrative kinds.
      It needs one transcript per speaker. When every segment has a
      transcript and a non-zero rate it succeeds and keeps every sentence
      with air time above 1, segment by segment in spoken order. */
  lemma AssignedSpec(speakers: seq<string>, times: seq<int>, transcripts: seq<string>,
                     sentencesOf: string -> seq<string>)
    ensures var r := Assigned(speakers, times, transcripts, sentencesOf);
      r.Ok? ==>
        && |speakers| <= |transcripts|
        && SpeechRates(times, transcripts).Ok?
        && Numbered(r.value, speakers, SpeechRates(times, transcripts).value, transcripts, sentencesOf)
    ensures var rated := SpeechRates(times, transcripts);
      rated.Ok? && Covered(speakers, rated.value, transcripts) ==>
        var kept := AllKept(speakers, rated.value, transcripts, sentencesOf, 0);
        && Assigned(speakers, times, transcripts, sentencesOf) == Ok(Records(kept, speakers, rated.value))
        && Texts(Records(kept, speakers, rated.value)) == Spoken(kept)
  {
    var r := Assigned(speakers, times, transcripts, sentencesOf);
    if r.Ok? {
      var rates := SpeechRates(times, transcripts).value;
      var kept := Segments(speakers, rates, transcripts, sentencesOf, 0, []).value;
      SegmentsInOrder(speakers, rates, transcripts, sentencesOf, 0, []);
      SegmentsReachEnd(speakers, rates, transcripts, sentencesOf, 0, []);
      RecordsNumbered(kept, speakers, rates, transcripts, sentencesOf);
    }
    var rated := SpeechRates(times, transcripts);
    if rated.Ok? && Covered(speakers, rated.value, transcripts) {
      var all := AllKept(speakers, rated.value, transcripts, sentencesOf, 0);
      SegmentsKeepAll(speakers, rated.value, transcripts, sentencesOf, 0, []);
      assert [] + all == all;
      RecordsTexts(all, speakers, rated.value);
    }
  }

  /** The texts of the kept sentences, in order. */
  function Spoken(kept: seq<Kept>): (ts: seq<string>)
    ensures |ts| == |kept| && forall k | 0 <= k < |kept| :: ts[k] == kept[k].sentence
  {
    seq(|kept|, k requires 0 <= k < |kept| => kept[k].sentence)
  }

  /** Each record carries the text of its kept sentence. */
  lemma RecordsTexts(kept: seq<Kept>, speakers: seq<string>, rates: seq<int>)
    requires Recordable(kept, speakers, rates)
    ensures Texts(Records(kept, speakers, rates)) == Spoken(kept)
  {
    var us := Records(kept, speakers, rates);
    assert forall k | 0 <= k < |kept| :: us[k].text == kept[k].sentence;
  }

  // ---------------------------------------------------------------------
  // The whole producer

  /** The texts of the records in order: `sentence_list`. */
  function Texts(us: seq<Utterance>): (ts: seq<string>)
    ensures |ts| == |us| && forall k | 0 <= k < |us| :: ts[k] == us[k].text
  {
    seq(|us|, k requires 0 <= k < |us| => us[k].text)
  }

  /** The similarity model returns a square matrix with one row per sentence. */
  predicate SquareFor(sim: seq<seq<real>>, n: nat) {
    |sim| == n && forall r | 0 <= r < |sim| :: |sim[r]| == n
  }

  /** Records numbered 0, 1, 2, ... fit a square matrix of their own size. */
  lemma NumberedFits(us: seq<Utterance>, sim: seq<seq<real>>)
    requires Consecutive(us) && SquareFor(sim, |us|)
    ensures SimilarityFits(us, sim)
  {
  }

  /** `parameterize`: the records, scored by the detector against the
      similarity of their sentences; `ValueError` when the detector's
      repetition step raises. */
  function Parameterized(speakers: seq<string>, times: seq<int>, transcripts: seq<string>,
                         sentencesOf: string -> seq<string>, similarity: seq<string> -> seq<seq<real>>)
    : Result<seq<Utterance>>
    requires forall ss :: SquareFor(similarity(ss), |ss|)
  {
    match Assigned(speakers, times, transcripts, sentencesOf)
    case Err(e) => Err(e)
    case Ok(us) =>
      AssignedSpec(speakers, times, transcripts, sentencesOf);
      var sim := similarity(Texts(us));
      NumberedFits(us, sim);
      var (c, vs) := Detected(us, sim);
      if c == Finished then Ok(vs) else Err(ValueError)
  }

  method Parameterize(speakers: seq<string>, times: seq<int>, transcripts: seq<string>,
                      sentencesOf: string -> seq<string>, similarity: seq<string> -> seq<seq<real>>)
    returns (r: Result<seq<Utterance>>)
    requires forall ss :: SquareFor(similarity(ss), |ss|)
    ensures r == Parameterized(speakers, times, transcripts, sentencesOf, similarity)
  {
    var made := AssignRecords(speakers, times, transcripts, sentencesOf);
    if made.Err? {
      return Err(made.error);
    }
    var output := made.value;
    AssignedSpec(speakers, times, transcripts, sentencesOf);
    var similarities := similarity(Texts(output));
    var entries := new Utterance[|output|](k requires 0 <= k < |output| => output[k]);
    assert entries[..] == output;
    var c := DetectRelations(entries, similarities);
    if c != Finished {
      return Err(ValueError);
    }
    return Ok(entries[..]);
  }

  /** The scored records keep the producer's numbering, and each is scored
      by the detector's rules; the run fails only through a missing
      transcript, a zero time or rate, or the repetition step's empty
      `max()`. */
  lemma ParameterizedSpec(speakers: seq<string>, times: seq<int>, transcripts: seq<string>,
                          sentencesOf: string -> seq<string>, similarity: seq<string> -> seq<seq<real>>)
    requires forall ss :: SquareFor(similarity(ss), |ss|)
    ensures var r := Parameterized(speakers, times, transcripts, sentencesOf, similarity);
      r.Err? ==> r.error in {IndexError, ZeroDivisionError, ValueError}
    ensures var r := Parameterized(speakers, times, transcripts, sentencesOf, similarity);
      r.Ok? ==>
        var us := Assigned(speakers, times, transcripts, sentencesOf).value;
        var sim := similarity(Texts(us));
        && Assigned(speakers, times, transcripts, sentencesOf).Ok?
        && SimilarityFits(us, sim)
        && |r.value| == |us|
        && forall k | 0 <= k < |us| :: Ok(r.value[k]) == Scored(us, sim, k)
  {
    var a := Assigned(speakers, times, transcripts, sentencesOf);
    AssignedSpec(speakers, times, transcripts, sentencesOf);
    if a.Err? {
      var rs := SpeechRates(times, transcripts);
      SpeechRatesFail(times, transcripts);
      if rs.Ok? {
        SegmentsErrors(speakers, rs.value, transcripts, sentencesOf, 0, []);
      }
    } else {
      var us := a.value;
      var sim := similarity(Texts(us));
      DetectedSpec(us, sim);
    }
  }

  // ---------------------------------------------------------------------
  // Segments that all keep a sentence

  /** One of the first `j` sentences is kept at this rate. */
  predicate Speaks(ss: seq<string>, rate: int, j: nat)
    requires rate != 0 && j <= |ss|
  {
    exists k | 0 <= k < j :: AirTime(ss[k], rate) > 1
  }

  /** Segment `idx` has a transcript, a non-zero rate and a kept sentence. */
  predicate SegmentSpeaks(rates: seq<int>, transcripts: seq<string>, sentencesOf: string -> seq<string>, idx: nat) {
    && idx < |rates| && idx < |transcripts| && rates[idx] != 0
    && Speaks(sentencesOf(transcripts[idx]), rates[idx], |sentencesOf(transcripts[idx])|)
  }

  predicate EverySegmentSpeaks(speakers: seq<string>, rates: seq<int>, transcripts: seq<string>,
                               sentencesOf: string -> seq<string>)
  {
    forall idx | 0 <= idx < |speakers| :: SegmentSpeaks(rates, transcripts, sentencesOf, idx)
  }

  /** Segment numbers from 0, going up by at most one at each step. */
  predicate StepByOne(kept: seq<Kept>) {
    && (kept != [] ==> kept[0].idx == 0)
    && forall k | 0 < k < |kept| :: kept[k].idx == kept[k - 1].idx || kept[k].idx == kept[k - 1].idx + 1
  }

  /** Where the kept sentences end before segment `idx` continues: in that
      segment once it has kept one, else in the segment before (or nowhere,
      before the first). */
  predicate Continues(out: seq<Kept>, idx: nat, spoke: bool) {
    if spoke then out != [] && out[|out| - 1].idx == idx
    else if idx == 0 then out == []
    else out != [] && out[|out| - 1].idx + 1 == idx
  }

  /** A sentence of segment `idx` continues the segments by one step. */
  lemma KeepContinues(out: seq<Kept>, k: Kept, idx: nat, spoke: bool)
    requires StepByOne(out) && Continues(out, idx, spoke) && k.idx == idx
    ensures StepByOne(out + [k]) && Continues(out + [k], idx, true)
  {
    var next := out + [k];
    assert forall i | 0 <= i < |out| :: next[i] == out[i];
  }

  lemma SkipKeepsSpeaks(ss: seq<string>, rate: int, j: nat)
    requires rate != 0 && j < |ss| && AirTime(ss[j], rate) <= 1
    ensures Speaks(ss, rate, j + 1) == Speaks(ss, rate, j)
  {
  }

  lemma {:induction false} SegmentsStepByOne(speakers: seq<string>, rates: seq<int>, transcripts: seq<string>,
                                             sentencesOf: string -> seq<string>, idx: nat, out: seq<Kept>)
    requires idx <= |speakers| && EverySegmentSpeaks(speakers, rates, transcripts, sentencesOf)
    requires StepByOne(out) && Continues(out, idx, false)
    ensures var r := Segments(speakers, rates, transcripts, sentencesOf, idx, out);
      r.Ok? && StepByOne(r.value)
    decreases |speakers| - idx, 1, 0
  {
    if idx < |speakers| {
      assert SegmentSpeaks(rates, transcripts, sentencesOf, idx);
      SentencesStepByOne(speakers, rates, transcripts, sentencesOf, idx, sentencesOf(transcripts[idx]), 0, out);
    }
  }

  lemma {:induction false} SentencesStepByOne(speakers: seq<string>, rates: seq<int>, transcripts: seq<string>,
                                              sentencesOf: string -> seq<string>, idx: nat, ss: seq<string>, j: nat,
                                              out: seq<Kept>)
    requires idx < |speakers| && EverySegmentSpeaks(speakers, rates, transcripts, sentencesOf)
    requires SegmentSpeaks(rates, transcripts, sentencesOf, idx)
    requires ss == sentencesOf(transcripts[idx]) && j <= |ss|
    requires StepByOne(out) && Continues(out, idx, Speaks(ss, rates[idx], j))
    ensures var r := Sentences(speakers, rates, transcripts, sentencesOf, idx, ss, j, out);
      r.Ok? && StepByOne(r.value)
    decreases |speakers| - idx, 0, |ss| - j
  {
    var rate := rates[idx];
    if j == |ss| {
      assert Speaks(ss, rate, j);
      SegmentsStepByOne(speakers, rates, transcripts, sentencesOf, idx + 1, out);
    } else if AirTime(ss[j], rate) <= 1 {
      SkipKeepsSpeaks(ss, rate, j);
      SentencesStepByOne(speakers, rates, transcripts, sentencesOf, idx, ss, j + 1, out);
    } else {
      KeepContinues(out, Kept(idx, ss[j]), idx, Speaks(ss, rate, j));
      assert Speaks(ss, rate, j + 1);
      SentencesStepByOne(speakers, rates, transcripts, sentencesOf, idx, ss, j + 1, out + [Kept(idx, ss[j])]);
    }
  }

  lemma RecordsStepByOne(kept: seq<Kept>, speakers: seq<string>, rates: seq<int>)
    requires Recordable(kept, speakers, rates) && StepByOne(kept)
    ensures TurnsStepByOne(Records(kept, speakers, rates))
  {
  }

  /** When every segment keeps at least one sentence the records' turns go
      0, 1, 2, ... without a gap, so the detector's repetition step never
      meets an empty range and `parameterize` succeeds. */
  lemma EverySegmentSpeaksSucceeds(speakers: seq<string>, times: seq<int>, transcripts: seq<string>,
                                   sentencesOf: string -> seq<string>, similarity: seq<string> -> seq<seq<real>>)
    requires forall ss :: SquareFor(similarity(ss), |ss|)
    requires SpeechRates(times, transcripts).Ok?
    requires EverySegmentSpeaks(speakers, SpeechRates(times, transcripts).value, transcripts, sentencesOf)
    ensures Parameterized(speakers, times, transcripts, sentencesOf, similarity).Ok?
  {
    var rates := SpeechRates(times, transcripts).value;
    SegmentsStepByOne(speakers, rates, transcripts, sentencesOf, 0, []);
    SegmentsInOrder(speakers, rates, transcripts, sentencesOf, 0, []);
    var kept := Segments(speakers, rates, transcripts, sentencesOf, 0, []).value;
    RecordsNumbered(kept, speakers, rates, transcripts, sentencesOf);
    RecordsStepByOne(kept, speakers, rates);
    var us := Assigned(speakers, times, transcripts, sentencesOf).value;
    var sim := similarity(Texts(us));
    NumberedFits(us, sim);
    StepByOneTurnsNeverRaise(us, sim);
  }
}
