// The Fathom transcript preprocessor: timestamp parsing and differencing,
// speaker-name normalisation, text cleanup and the three-way split of the
// transcript's pieces.
module Preprocess {
  import opened Basics

  // ---------------------------------------------------------------------
  // `time.strptime(t.strip(), '%M:%S')`

  predicate Digit(c: char) {
    '0' <= c <= '9'
  }

  predicate Digits(s: string) {
    forall i | 0 <= i < |s| :: Digit(s[i])
  }

  /** The decimal value of a digit string. */
  function Val(s: string): (v: nat)
    requires Digits(s)
    ensures |s| == 1 ==> v == s[0] as int - '0' as int
    ensures |s| == 2 ==> v == 10 * (s[0] as int - '0' as int) + (s[1] as int - '0' as int)
  {
    if s == [] then 0 else 10 * Val(s[..|s| - 1]) + (s[|s| - 1] as int - '0' as int)
  }

  /** The `%S` field: `6[0-1]|[0-5]\d|\d`, the first alternative that
      matches at the start of `s`; the length matched, 0 for none. */
  function SecondsAt(s: string): (n: nat)
    ensures n <= 2 && n <= |s|
  {
    if |s| >= 2 && s[0] == '6' && '0' <= s[1] <= '1' then 2
    else if |s| >= 2 && '0' <= s[0] <= '5' && Digit(s[1]) then 2
    else if |s| >= 1 && Digit(s[0]) then 1
    else 0
  }

  /** A minutes field of length `m` followed by `:` and a seconds field:
      where the match ends. */
  function ColonAfter(s: string, m: nat): Option<nat> {
    if m < |s| && s[m] == ':' && SecondsAt(s[m + 1..]) > 0 then Some(m + 1 + SecondsAt(s[m + 1..]))
    else None
  }

  /** The match of `(?P<M>[0-5]\d|\d):(?P<S>6[0-1]|[0-5]\d|\d)` at the start
      of `s`, trying the two-digit minutes first as the regular expression
      engine does: the minutes length and the end of the match. */
  function ClockMatch(s: string): (r: Option<(nat, nat)>)
    ensures r.Some? ==> 1 <= r.value.0 <= 2 && r.value.0 < r.value.1 <= |s|
  {
    if |s| >= 2 && '0' <= s[0] <= '5' && Digit(s[1]) && ColonAfter(s, 2).Some? then Some((2, ColonAfter(s, 2).value))
    else if |s| >= 1 && Digit(s[0]) && ColonAfter(s, 1).Some? then Some((1, ColonAfter(s, 1).value))
    else None
  }

  /** The value of stripped text `u` as `%M:%S`. `ValueError` when `u`
      does not start with the pattern ("does not match format") or has text
      left after it ("unconverted data remains"). */
  function ParseClock(u: string): (r: Result<nat>)
    ensures r.Err? ==> r.error == ValueError
    ensures r.Ok? ==> r.value <= 60 * 59 + 61
  {
    match ClockMatch(u)
    case None => Err(ValueError)
    case Some((m, end)) =>
      if end != |u| then Err(ValueError)
      else Ok(60 * Val(u[..m]) + Val(u[m + 1..]))
  }

  /** A timestamp in seconds, `60 * tm_min + tm_sec`. */
  function ParseMinSec(t: string): (r: Result<nat>)
    ensures r.Err? ==> r.error == ValueError
    ensures r.Ok? ==> r.value <= 60 * 59 + 61
  {
    ParseClock(Strip(t, IsSpace))
  }

  /** The minutes field: one digit, or two digits below 60. */
  predicate MinutesField(s: string) {
    (|s| == 1 && Digit(s[0])) || (|s| == 2 && '0' <= s[0] <= '5' && Digit(s[1]))
  }

  /** The seconds field: one digit, or two digits below 62. */
  predicate SecondsField(s: string) {
    || (|s| == 1 && Digit(s[0]))
    || (|s| == 2 && '0' <= s[0] <= '5' && Digit(s[1]))
    || (|s| == 2 && s[0] == '6' && '0' <= s[1] <= '1')
  }

  /** `u` is a minutes field of length `m`, a colon and a seconds field. */
  predicate ClockAt(u: string, m: nat) {
    m < |u| && u[m] == ':' && MinutesField(u[..m]) && SecondsField(u[m + 1..])
  }

  /** A timestamp parses exactly when its stripped text is `M:S` with the
      fields `%M` and `%S` accept, and its value is then `60 * M + S`. */
  lemma ParseClockSpec(u: string)
    ensures ParseClock(u).Ok? <==> ClockAt(u, 1) || ClockAt(u, 2)
    ensures forall m | 1 <= m <= 2 && ClockAt(u, m) ::
      ParseClock(u) == Ok(60 * Val(u[..m]) + Val(u[m + 1..]))
  {
    if ClockAt(u, 2) {
      assert SecondsAt(u[3..]) == |u| - 3;
    } else if ClockAt(u, 1) {
      assert SecondsAt(u[2..]) == |u| - 2;
    }
    if ParseClock(u).Ok? {
      var (m, end) := ClockMatch(u).value;
      assert MinutesField(u[..m]);
      assert SecondsField(u[m + 1..]);
    }
  }

  // ---------------------------------------------------------------------
  // `convert_time`

  /** Every timestamp parses. */
  predicate AllParse(timeList: seq<string>) {
    forall k | 0 <= k < |timeList| :: ParseMinSec(timeList[k]).Ok?
  }

  /** The timestamps in seconds, parsed first to last; `ValueError` at the
      first one that does not parse. */
  function Stamps(timeList: seq<string>): (r: Result<seq<nat>>)
    ensures r.Ok? ==> |r.value| == |timeList|
    ensures r.Err? ==> r.error == ValueError
  {
    if timeList == [] then Ok([])
    else match ParseMinSec(timeList[0])
      case Err(e) => Err(e)
      case Ok(x) =>
        match Stamps(timeList[1..])
        case Err(e) => Err(e)
        case Ok(xs) => Ok([x] + xs)
  }

  /** The list parses exactly when every timestamp does, each to its own value. */
  lemma StampsSpec(timeList: seq<string>)
    ensures Stamps(timeList).Ok? <==> AllParse(timeList)
    ensures Stamps(timeList).Ok? ==>
      forall k | 0 <= k < |timeList| :: ParseMinSec(timeList[k]) == Ok(Stamps(timeList).value[k])
  {
    StampsParse(timeList);
    StampsValues(timeList);
  }

  lemma {:induction false} StampsParse(timeList: seq<string>)
    ensures Stamps(timeList).Ok? <==> AllParse(timeList)
  {
    if timeList != [] {
      var rest := timeList[1..];
      StampsParse(rest);
      if AllParse(timeList) {
        assert AllParse(rest) by {
          forall k | 0 <= k < |rest|
            ensures ParseMinSec(rest[k]).Ok?
          {
            assert rest[k] == timeList[k + 1];
          }
        }
      } else if ParseMinSec(timeList[0]).Ok? {
        var k :| 0 <= k < |timeList| && ParseMinSec(timeList[k]).Err?;
        assert rest[k - 1] == timeList[k];
      }
    }
  }

  lemma {:induction false} StampsValues(timeList: seq<string>)
    ensures Stamps(timeList).Ok? ==>
      forall k | 0 <= k < |timeList| :: ParseMinSec(timeList[k]) == Ok(Stamps(timeList).value[k])
  {
    if timeList != [] && Stamps(timeList).Ok? {
      var rest := timeList[1..];
      StampsValues(rest);
      var xs := Stamps(timeList).value;
      forall k | 0 <= k < |timeList|
        ensures ParseMinSec(timeList[k]) == Ok(xs[k])
      {
        if k > 0 {
          assert timeList[k] == rest[k - 1];
        }
      }
    }
  }

  /** What the parsed prefix `xs` and the rest of the list make together. */
  function Prepend(xs: seq<nat>, rest: Result<seq<nat>>): Result<seq<nat>> {
    match rest
    case Err(e) => Err(e)
    case Ok(ys) => Ok(xs + ys)
  }

  /** A span of speech: a non-positive difference counts as 1 second. */
  function Clamp(d: int): (r: int)
    ensures r >= 1
    ensures d > 0 ==> r == d
  {
    if d > 0 then d else 1
  }

  /** One more timestamp of the list: its error is the list's, or its value
      joins the parsed prefix. */
  lemma StampsStep(timeList: seq<string>, k: nat, xs: seq<nat>, whole: Result<seq<nat>>)
    requires k < |timeList|
    requires whole == Prepend(xs, Stamps(timeList[k..]))
    ensures ParseMinSec(timeList[k]).Err? ==> whole == Err(ParseMinSec(timeList[k]).error)
    ensures ParseMinSec(timeList[k]).Ok? ==>
      whole == Prepend(xs + [ParseMinSec(timeList[k]).value], Stamps(timeList[k + 1..]))
  {
    var t, rest := timeList[k], timeList[k + 1..];
    assert timeList[k..] == [t] + rest;
    if ParseMinSec(t).Ok? {
      PrependStamp(xs, t, rest, ParseMinSec(t).value);
    } else {
      StampsHeadFails(t, rest);
    }
  }

  /** A timestamp that does not parse fails the whole list. */
  lemma StampsHeadFails(t: string, rest: seq<string>)
    requires ParseMinSec(t).Err?
    ensures Stamps([t] + rest) == Err(ParseMinSec(t).error)
  {
    assert ([t] + rest)[0] == t;
  }

  /** The clamped differences of consecutive elements of `xs`. */
  function Spans(xs: seq<int>): (r: seq<int>)
    requires xs != []
    ensures |r| == |xs| - 1
    ensures forall i | 0 <= i < |xs| - 1 :: r[i] == Clamp(xs[i + 1] - xs[i])
  {
    seq(|xs| - 1, i requires 0 <= i < |xs| - 1 => Clamp(xs[i + 1] - xs[i]))
  }

  lemma SpansSnoc(xs: seq<int>, i: nat)
    requires 1 <= i < |xs|
    ensures Spans(xs[..i + 1]) == Spans(xs[..i]) + [Clamp(xs[i] - xs[i - 1])]
  {
    var a, b := Spans(xs[..i + 1]), Spans(xs[..i]) + [Clamp(xs[i] - xs[i - 1])];
    assert forall j | 0 <= j < |a| :: a[j] == b[j];
  }

  /** `convert_time`: each timestamp's span up to the next one, the last
      one's up to `totalTime`. */
  function TimeSpans(timeList: seq<string>, totalTime: int): Result<seq<int>> {
    match Stamps(timeList)
    case Err(e) => Err(e)
    case Ok(xs) => Ok(Spans(xs + [totalTime]))
  }

  method ConvertTime(timeList: seq<string>, totalTime: int) returns (r: Result<seq<int>>)
    ensures r == TimeSpans(timeList, totalTime)
  {
    var tempList: seq<nat> := [];
    var k := 0;
    assert timeList[k..] == timeList;
    assert Stamps(timeList).Ok? ==> tempList + Stamps(timeList).value == Stamps(timeList).value;
    while k < |timeList|
      invariant k <= |timeList|
      invariant Stamps(timeList) == Prepend(tempList, Stamps(timeList[k..]))
    {
      var x := ParseMinSec(timeList[k]);
      StampsStep(timeList, k, tempList, Stamps(timeList));
      if x.Err? {
        return Err(x.error);
      }
      tempList := tempList + [x.value];
      k := k + 1;
    }
    assert Stamps(timeList) == Ok(tempList) by {
      assert timeList[k..] == [];
      assert tempList + [] == tempList;
    }
    var times: seq<int> := tempList + [totalTime];
    var outputList: seq<int> := [];
    var i := 1;
    while i < |times|
      invariant 1 <= i <= |times|
      invariant outputList == Spans(times[..i])
    {
      SpansSnoc(times, i);
      var diff := times[i] - times[i - 1];
      outputList := outputList + [if diff > 0 then diff else 1];
      i := i + 1;
    }
    assert outputList == Spans(times) by {
      assert times[..i] == times;
    }
    return Ok(outputList);
  }

  /** One span per timestamp, each at least 1; a positive difference to
      the next timestamp (or to `totalTime` for the last) is kept exactly,
      a non-positive one becomes 1. The list fails exactly when a
      timestamp does not parse. */
  lemma TimeSpansSpec(timeList: seq<string>, totalTime: int)
    ensures TimeSpans(timeList, totalTime).Ok? <==> AllParse(timeList)
    ensures var r := TimeSpans(timeList, totalTime);
      r.Ok? ==>
        var xs := Stamps(timeList).value + [totalTime];
        && |r.value| == |timeList|
        && (forall k | 0 <= k < |timeList| :: ParseMinSec(timeList[k]) == Ok(xs[k]))
        && (forall k | 0 <= k < |timeList| :: r.value[k] >= 1)
        && (forall k | 0 <= k < |timeList| && xs[k + 1] > xs[k] :: r.value[k] == xs[k + 1] - xs[k])
        && (forall k | 0 <= k < |timeList| && xs[k + 1] <= xs[k] :: r.value[k] == 1)
  {
    StampsSpec(timeList);
    if AllParse(timeList) {
      var xs := Stamps(timeList).value + [totalTime];
      assert TimeSpans(timeList, totalTime) == Ok(Spans(xs));
    }
  }

  function IntSum(xs: seq<int>): int {
    if xs == [] then 0 else IntSum(xs[..|xs| - 1]) + xs[|xs| - 1]
  }

  /** When the timestamps strictly increase up to `totalTime`, the spans
      add back up to them: each timestamp is the first one plus the spans
      before it, and `totalTime` is the first plus all of them. */
  lemma {:induction false} SpansTelescope(xs: seq<int>, k: nat)
    requires xs != [] && k < |xs|
    requires forall i | 0 < i < |xs| :: xs[i - 1] < xs[i]
    ensures xs[k] == xs[0] + IntSum(Spans(xs)[..k])
  {
    if k > 0 {
      SpansTelescope(xs, k - 1);
      assert Spans(xs)[..k][..k - 1] == Spans(xs)[..k - 1];
    }
  }

  lemma TimeSpansAddUp(timeList: seq<string>, totalTime: int)
    requires Stamps(timeList).Ok? && timeList != []
    requires var xs := Stamps(timeList).value + [totalTime];
      forall i | 0 < i < |xs| :: xs[i - 1] < xs[i]
    ensures var xs := Stamps(timeList).value;
      totalTime == xs[0] + IntSum(TimeSpans(timeList, totalTime).value)
  {
    var xs := Stamps(timeList).value + [totalTime];
    SpansTelescope(xs, |xs| - 1);
    assert Spans(xs)[..|xs| - 1] == Spans(xs);
  }

  /** Text that starts and ends with a non-space is left alone by `strip()`. */
  lemma StripUnspaced(u: string)
    requires u != [] && !IsSpace(u[0]) && !IsSpace(u[|u| - 1])
    ensures Strip(u, IsSpace) == u
  {
  }

  /** An unpadded `M:S` timestamp reads as `60 * M + S`. */
  lemma ParseUnpadded(t: string, m: nat)
    requires 1 <= m <= 2 && ClockAt(t, m) && !IsSpace(t[0]) && !IsSpace(t[|t| - 1])
    ensures ParseMinSec(t) == Ok(60 * Val(t[..m]) + Val(t[m + 1..]))
  {
    StripUnspaced(t);
    ParseClockSpec(t);
  }

  /** A two-digit-minutes timestamp of the examples. */
  lemma StampAt(t: string, m: nat, v: nat)
    requires 1 <= m <= 2 && ClockAt(t, m) && !IsSpace(t[0]) && !IsSpace(t[|t| - 1])
    requires v == 60 * Val(t[..m]) + Val(t[m + 1..])
    ensures ParseMinSec(t) == Ok(v)
  {
    ParseUnpadded(t, m);
  }

  /** The timestamps of the examples. */
  lemma Stamp0000()
    ensures ParseMinSec("00:00") == Ok(0)
  {
    StampAt("00:00", 2, 0);
  }

  lemma Stamp0001()
    ensures ParseMinSec("00:01") == Ok(1)
  {
    StampAt("00:01", 2, 1);
  }

  lemma Stamp0015()
    ensures ParseMinSec("00:15") == Ok(15)
  {
    StampAt("00:15", 2, 15);
  }

  lemma Stamp100()
    ensures ParseMinSec("1:00") == Ok(60)
  {
    StampAt("1:00", 1, 60);
  }

  /** A timestamp that parses, ahead of the rest of the list. */
  lemma StampsCons(t: string, rest: seq<string>, x: nat)
    requires ParseMinSec(t) == Ok(x)
    ensures Stamps([t] + rest) == Prepend([x], Stamps(rest))
  {
    assert ([t] + rest)[0] == t && ([t] + rest)[1..] == rest;
  }

  lemma PrependStamp(xs: seq<nat>, t: string, rest: seq<string>, x: nat)
    requires ParseMinSec(t) == Ok(x)
    ensures Prepend(xs, Stamps([t] + rest)) == Prepend(xs + [x], Stamps(rest))
  {
    StampsCons(t, rest, x);
    if Stamps(rest).Ok? {
      assert xs + ([x] + Stamps(rest).value) == xs + [x] + Stamps(rest).value;
    }
  }

  lemma ThreeStamps(t0: string, t1: string, t2: string, x0: nat, x1: nat, x2: nat)
    requires ParseMinSec(t0) == Ok(x0) && ParseMinSec(t1) == Ok(x1) && ParseMinSec(t2) == Ok(x2)
    ensures Stamps([t0, t1, t2]) == Ok([x0, x1, x2])
  {
    StampsCons(t2, [], x2);
    assert [t2] + [] == [t2] && [x2] + [] == [x2];
    StampsCons(t1, [t2], x1);
    assert [t1] + [t2] == [t1, t2] && [x1] + [x2] == [x1, x2];
    StampsCons(t0, [t1, t2], x0);
    assert [t0] + [t1, t2] == [t0, t1, t2] && [x0] + [x1, x2] == [x0, x1, x2];
  }

  lemma FourSpans(a: int, b: int, c: int, d: int)
    ensures Spans([a, b, c, d]) == [Clamp(b - a), Clamp(c - b), Clamp(d - c)]
  {
    var xs := [a, b, c, d];
    var r := Spans(xs);
    assert xs[0] == a && xs[1] == b && xs[2] == c && xs[3] == d;
    assert |r| == 3 && r[0] == Clamp(b - a) && r[1] == Clamp(c - b) && r[2] == Clamp(d - c);
  }

  /** The spans of three timestamps whose values are known. */
  lemma ThreeSpans(t0: string, t1: string, t2: string, totalTime: int, x0: nat, x1: nat, x2: nat)
    requires ParseMinSec(t0) == Ok(x0) && ParseMinSec(t1) == Ok(x1) && ParseMinSec(t2) == Ok(x2)
    ensures TimeSpans([t0, t1, t2], totalTime)
      == Ok([Clamp(x1 - x0), Clamp(x2 - x1), Clamp(totalTime - x2)])
  {
    ThreeStamps(t0, t1, t2, x0, x1, x2);
    FourSpans(x0, x1, x2, totalTime);
    assert [x0, x1, x2] + [totalTime] == [x0, x1, x2, totalTime];
  }

  /** `convert_time(['00:00', '00:15', '1:00'], 120) == [15, 45, 60]`. */
  lemma ConvertTimeSteady()
    ensures TimeSpans(["00:00", "00:15", "1:00"], 120) == Ok([15, 45, 60])
  {
    Stamp0000();
    Stamp0015();
    Stamp100();
    ThreeSpans("00:00", "00:15", "1:00", 120, 0, 15, 60);
  }

  /** A late first timestamp shortens the first span. */
  lemma ConvertTimeLateStart()
    ensures TimeSpans(["00:01", "00:15", "1:00"], 120) == Ok([14, 45, 60])
  {
    Stamp0001();
    Stamp0015();
    Stamp100();
    ThreeSpans("00:01", "00:15", "1:00", 120, 1, 15, 60);
  }

  /** A repeated timestamp, and a total no later than the last timestamp,
      count as 1 second. */
  lemma ConvertTimeRepeated()
    ensures TimeSpans(["00:00", "00:00", "1:00"], 60) == Ok([1, 60, 1])
  {
    Stamp0000();
    Stamp100();
    ThreeSpans("00:00", "00:00", "1:00", 60, 0, 0, 60);
  }

  // ---------------------------------------------------------------------
  // `process_speaker_names`

  /** The characters `name.strip('- \n\r')` removes. */
  predicate NameJunk(c: char) {
    c == '-' || c == ' ' || c == '\n' || c == '\r'
  }

  /** The characters the older copy's `name.strip('- \n')` removes. */
  predicate NameJunkKeepingCR(c: char) {
    c == '-' || c == ' ' || c == '\n'
  }

  /** `order` lists each distinct name of `names` once: the order in which
      `enumerate(set(names))` visits them. */
  predicate Enumerates(order: seq<string>, names: seq<string>) {
    && (forall i | 0 <= i < |order| :: order[i] in names)
    && (forall n | n in names :: n in order)
    && (forall i, j | 0 <= i < j < |order| :: order[i] != order[j])
  }

  /** What the `idx`-th enumerated name is replaced by: `"Speaker{idx}"`
      when anonymising, the name stripped of `junk` otherwise. */
  function Substitute(order: seq<string>, idx: nat, anonymize: bool, junk: char -> bool): string
    requires idx < |order|
  {
    if anonymize then "Speaker" + NatToString(idx) else Strip(order[idx], junk)
  }

  /** A name after the first `k` rebinding passes, each of which replaces
      every occurrence of one enumerated name inside it. */
  function RenamedAfter(name: string, order: seq<string>, k: nat, anonymize: bool, junk: char -> bool): string
    requires k <= |order|
  {
    if k == 0 then name
    else Replace(RenamedAfter(name, order, k - 1, anonymize, junk), order[k - 1], Substitute(order, k - 1, anonymize, junk))
  }

  /** `process_speaker_names`: the list is rebound once per enumerated
      name. Its length is kept, each output depends only on the name at
      the same place, so equal names come out equal; on separate names it
      anonymises by whole names, or strips each name. */
  method ProcessSpeakerNames(nameList: seq<string>, order: seq<string>, anonymize: bool, junk: char -> bool)
    returns (outputList: seq<string>)
    requires Enumerates(order, nameList)
    ensures |outputList| == |nameList|
    ensures forall i | 0 <= i < |nameList| :: outputList[i] == RenamedAfter(nameList[i], order, |order|, anonymize, junk)
    ensures forall i, j | 0 <= i < |nameList| && 0 <= j < |nameList| && nameList[i] == nameList[j] ::
      outputList[i] == outputList[j]
    ensures Separate(order, anonymize, junk) && anonymize ==> outputList == Anonymized(nameList, order)
    ensures Separate(order, anonymize, junk) && !anonymize ==>
      forall i | 0 <= i < |nameList| :: outputList[i] == Strip(nameList[i], junk)
  {
    outputList := nameList;
    for idx := 0 to |order|
      invariant |outputList| == |nameList|
      invariant forall i | 0 <= i < |nameList| :: outputList[i] == RenamedAfter(nameList[i], order, idx, anonymize, junk)
    {
      var speaker := order[idx];
      var sub := if anonymize then "Speaker" + NatToString(idx) else Strip(speaker, junk);
      outputList := seq(|outputList|, i requires 0 <= i < |outputList| => Replace(outputList[i], speaker, sub));
    }
    SeparateOutputs(nameList, order, anonymize, junk, outputList);
  }

  /** A name that does not hold `pat`'s first character is left alone. */
  lemma ReplaceAbsent(s: string, pat: string, sub: string)
    requires pat != [] && forall k | 0 <= k < |s| :: s[k] != pat[0]
    ensures Replace(s, pat, sub) == s
  {
    SubUnstarted(s, [pat], sub);
  }

  /** Splicing `sub` in for the single character `c` that occurs once in `s`. */
  lemma ReplaceOnce(s: string, pre: string, c: char, post: string, sub: string, r: string)
    requires s == pre + [c] + post && r == pre + sub + post
    requires forall k | 0 <= k < |pre| :: pre[k] != c
    requires forall k | 0 <= k < |post| :: post[k] != c
    ensures Replace(s, [c], sub) == r
  {
    var mid := [c] + post;
    assert s == pre + mid;
    assert SubAlternatives(s, [[c]], sub) == pre + SubAlternatives(mid, [[c]], sub) by {
      SubPassesPrefix(pre, mid, [[c]], sub);
    }
    assert SubAlternatives(mid, [[c]], sub) == sub + post by {
      assert FirstPrefix(mid, [[c]]) == Some(0);
      assert mid[1..] == post;
      SubUnstarted(post, [[c]], sub);
    }
    assert pre + (sub + post) == r;
  }

  lemma LabelZeroOne()
    ensures "Speaker" + NatToString(0) == "Speaker0"
    ensures "Speaker" + NatToString(1) == "Speaker1"
  {
  }

  /** `process_speaker_names(["a", "b", "a", "b"], True)` when the set
      enumerates `"a"` first: `["Speaker0", "Speaker1", "Speaker0", "Speaker1"]`. */
  lemma AnonymizeInOrder()
    ensures RenamedAfter("a", ["a", "b"], 2, true, NameJunk) == "Speaker0"
    ensures RenamedAfter("b", ["a", "b"], 2, true, NameJunk) == "Speaker1"
  {
    LabelZeroOne();
    ReplaceWhole("a", "Speaker0");
    ReplaceAbsent("Speaker0", "b", "Speaker1");
    ReplaceAbsent("b", "a", "Speaker0");
    ReplaceWhole("b", "Speaker1");
  }

  /** The label `"Speaker0"` holds one `"a"`. */
  lemma SpliceIntoLabel()
    ensures Replace("Speaker0", "a", "Speaker1") == "SpeSpeaker1ker0"
  {
    ReplaceOnce("Speaker0", "Spe", 'a', "ker0", "Speaker1", "SpeSpeaker1ker0");
  }

  /** When the set enumerates `"b"` first, the label given to `"b"` holds
      an `"a"`, which the second pass replaces inside it. */
  lemma AnonymizeOtherOrder()
    ensures RenamedAfter("b", ["b", "a"], 2, true, NameJunk) == "SpeSpeaker1ker0"
  {
    LabelZeroOne();
    ReplaceWhole("b", "Speaker0");
    SpliceIntoLabel();
  }

  /** `process_speaker_names([" a\n\r"], False) == ["a"]`; the older copy
      keeps the carriage return. */
  lemma CleanNameExamples()
    ensures RenamedAfter(" a\n\r", [" a\n\r"], 1, false, NameJunk) == "a"
    ensures RenamedAfter(" a\n\r", [" a\n\r"], 1, false, NameJunkKeepingCR) == "a\n\r"
  {
    var name := " a\n\r";
    assert name[1..] == "a\n\r";
    assert StripLeft(name, NameJunk) == "a\n\r";
    assert StripLeft(name, NameJunkKeepingCR) == "a\n\r";
    assert "a\n\r"[..2] == "a\n" && "a\n"[..1] == "a";
    assert StripRight("a\n\r", NameJunk) == "a";
    assert StripRight("a\n\r", NameJunkKeepingCR) == "a\n\r";
    ReplaceWhole(" a\n\r", "a");
    ReplaceWhole(" a\n\r", "a\n\r");
  }

  /** The position of `name` in `order`. */
  function IndexOf(order: seq<string>, name: string): (i: nat)
    requires name in order
    ensures i < |order| && order[i] == name
  {
    if order[0] == name then 0 else 1 + IndexOf(order[1..], name)
  }

  /** Anonymisation by whole names: each name becomes `"Speaker{i}"` for its
      own position `i` in the enumeration. */
  function Anonymized(names: seq<string>, order: seq<string>): (r: seq<string>)
    requires Enumerates(order, names)
    ensures |r| == |names|
  {
    seq(|names|, i requires 0 <= i < |names| && Enumerates(order, names) =>
      "Speaker" + NatToString(IndexOf(order, names[i])))
  }

  /** Whole-name anonymisation keeps names apart: two places get the same
      label exactly when they hold the same name, in every enumeration order. */
  lemma AnonymizedSeparates(names: seq<string>, order: seq<string>, i: nat, j: nat)
    requires Enumerates(order, names) && i < |names| && j < |names|
    ensures Anonymized(names, order)[i] == Anonymized(names, order)[j] <==> names[i] == names[j]
  {
    var r := Anonymized(names, order);
    if r[i] == r[j] {
      var a, b := IndexOf(order, names[i]), IndexOf(order, names[j]);
      assert NatToString(a) == r[i][7..] && NatToString(b) == r[j][7..];
      NatToStringInjective(a, b);
    }
  }

  /** No enumerated name occurs inside another, nor inside the substitute
      an earlier pass gave another: each pass then touches only its own name. */
  predicate Separate(order: seq<string>, anonymize: bool, junk: char -> bool) {
    forall k, m | 0 <= k < |order| && 0 <= m < |order| && k != m :: Apart(order, k, m, anonymize, junk)
  }

  /** The `k`-th name occurs neither inside the `m`-th name nor, when its
      pass comes later, inside the `m`-th name's substitute. */
  predicate Apart(order: seq<string>, k: nat, m: nat, anonymize: bool, junk: char -> bool)
    requires k < |order| && m < |order|
  {
    && !Inside(order[k], order[m])
    && (m < k ==> !Inside(order[k], Substitute(order, m, anonymize, junk)))
  }

  /** On separate names the `m`-th name stays as it is until its own pass,
      which gives it its substitute, and no later pass touches it. */
  lemma {:induction false} RenamedSeparate(order: seq<string>, m: nat, k: nat, anonymize: bool, junk: char -> bool)
    requires Separate(order, anonymize, junk) && m < |order| && k <= |order|
    ensures RenamedAfter(order[m], order, k, anonymize, junk)
      == if k <= m then order[m] else Substitute(order, m, anonymize, junk)
    decreases k
  {
    if k > 0 {
      RenamedSeparate(order, m, k - 1, anonymize, junk);
      var prev := RenamedAfter(order[m], order, k - 1, anonymize, junk);
      var sub := Substitute(order, k - 1, anonymize, junk);
      assert RenamedAfter(order[m], order, k, anonymize, junk) == Replace(prev, order[k - 1], sub);
      var own := Substitute(order, m, anonymize, junk);
      if k - 1 != m {
        assert Apart(order, k - 1, m, anonymize, junk);
      }
      if k - 1 < m {
        assert prev == order[m] && !Inside(order[k - 1], order[m]);
        ReplaceOutside(order[m], order[k - 1], sub);
      } else if k - 1 == m {
        assert prev == order[m] && sub == own;
        ReplaceSelf(order[m], sub);
      } else {
        assert prev == own && !Inside(order[k - 1], own);
        ReplaceOutside(own, order[k - 1], sub);
      }
    }
  }

  /** `name.replace(name, sub)` is `sub`, the empty name included. */
  lemma ReplaceSelf(name: string, sub: string)
    ensures Replace(name, name, sub) == sub
  {
    if name != [] {
      ReplaceWhole(name, sub);
    }
  }

  /** On separate names `process_speaker_names` does what it is meant to:
      each name becomes `"Speaker{i}"` for its place in the enumeration
      when anonymising, and its stripped self otherwise. */
  lemma SeparateNames(names: seq<string>, order: seq<string>, anonymize: bool, junk: char -> bool)
    requires Enumerates(order, names) && Separate(order, anonymize, junk)
    ensures forall i | 0 <= i < |names| ::
      RenamedAfter(names[i], order, |order|, anonymize, junk) == Substitute(order, IndexOf(order, names[i]), anonymize, junk)
    ensures anonymize ==> forall i | 0 <= i < |names| ::
      RenamedAfter(names[i], order, |order|, anonymize, junk) == Anonymized(names, order)[i]
    ensures !anonymize ==> forall i | 0 <= i < |names| ::
      RenamedAfter(names[i], order, |order|, anonymize, junk) == Strip(names[i], junk)
  {
    forall i | 0 <= i < |names|
      ensures RenamedAfter(names[i], order, |order|, anonymize, junk)
        == Substitute(order, IndexOf(order, names[i]), anonymize, junk)
    {
      RenamedSeparate(order, IndexOf(order, names[i]), |order|, anonymize, junk);
    }
  }

  /** The outputs of the passes, on separate names. */
  lemma SeparateOutputs(names: seq<string>, order: seq<string>, anonymize: bool, junk: char -> bool,
                        out: seq<string>)
    requires Enumerates(order, names) && |out| == |names|
    requires forall i | 0 <= i < |names| :: out[i] == RenamedAfter(names[i], order, |order|, anonymize, junk)
    ensures Separate(order, anonymize, junk) && anonymize ==> out == Anonymized(names, order)
    ensures Separate(order, anonymize, junk) && !anonymize ==>
      forall i | 0 <= i < |names| :: out[i] == Strip(names[i], junk)
  {
    if Separate(order, anonymize, junk) {
      SeparateNames(names, order, anonymize, junk);
    }
  }

  // ---------------------------------------------------------------------
  // `clean_text`

  /** No two adjacent whitespace characters. */
  predicate NoDoubleSpace(s: string) {
    forall i | 0 <= i < |s| - 1 :: !(IsSpace(s[i]) && IsSpace(s[i + 1]))
  }

  /** Every character of `r` is a space or comes from `s`. */
  predicate DrawnFrom(r: string, s: string) {
    forall i | 0 <= i < |r| :: r[i] == ' ' || r[i] in s
  }

  /** `t.strip().replace('\n', ' ')`. */
  function Unwrapped(t: string): string {
    Replace(Strip(t, IsSpace), "\n", " ")
  }

  /** The length of the whitespace run `s` starts with. */
  function SpaceRun(s: string): (n: nat)
    ensures n <= |s|
    ensures forall i | 0 <= i < n :: IsSpace(s[i])
    ensures n < |s| ==> !IsSpace(s[n])
  {
    if s != [] && IsSpace(s[0]) then 1 + SpaceRun(s[1..]) else 0
  }

  /** `re.sub(r'\s{2,}', ' ', s)`: a run of two or more whitespace
      characters, taken greedily, becomes one space; a lone whitespace
      character stays as it is. */
  function Collapsed(s: string): string
    decreases |s|
  {
    if s == [] then []
    else if IsSpace(s[0]) then
      var n := SpaceRun(s);
      (if n >= 2 then " " else [s[0]]) + Collapsed(s[n..])
    else [s[0]] + Collapsed(s[1..])
  }

  /** `re.sub(r'(?: like )|(?: like, )', ' ', s)`. */
  function LikeFree(s: string): string {
    SubAlternatives(s, [" like ", " like, "], " ")
  }

  /** One transcript piece, cleaned. */
  function CleanLine(t: string): string {
    LikeFree(Collapsed(Unwrapped(t)))
  }

  /** `clean_text`: every piece cleaned, in order. */
  function CleanText(ts: seq<string>): (r: seq<string>)
    ensures |r| == |ts|
    ensures forall i | 0 <= i < |ts| :: r[i] == CleanLine(ts[i])
  {
    seq(|ts|, i requires 0 <= i < |ts| => CleanLine(ts[i]))
  }

  /** After the strip, no piece has whitespace at its ends, and after the
      newline replacement it has no newline. */
  lemma UnwrappedSpec(t: string)
    ensures var u := Unwrapped(t);
      && '\n' !in u
      && (u != [] ==> !IsSpace(u[0]) && !IsSpace(u[|u| - 1]))
  {
    var s := Strip(t, IsSpace);
    StripSpec(t, IsSpace);
    ReplaceCharSpec(s, '\n', ' ');
  }

  /** The collapse keeps a trailing non-space: a whitespace run before it
      is followed by it. */
  lemma {:induction false} CollapsedEnd(s: string)
    requires s != [] && !IsSpace(s[|s| - 1])
    ensures var c := Collapsed(s);
      c != [] && c[|c| - 1] == s[|s| - 1]
    decreases |s|
  {
    var n := if IsSpace(s[0]) then SpaceRun(s) else 1;
    var head: string := if !IsSpace(s[0]) || n < 2 then [s[0]] else " ";
    assert Collapsed(s) == head + Collapsed(s[n..]);
    if n < |s| {
      var rest := s[n..];
      assert rest[|rest| - 1] == s[|s| - 1];
      CollapsedEnd(rest);
      var tail := Collapsed(rest);
      assert (head + tail)[|head + tail| - 1] == tail[|tail| - 1];
    } else {
      assert s == [s[0]];
    }
  }

  /** The removal of fillers keeps a trailing non-space: every filler ends
      in a space. */
  lemma LikeFreeEnd(s: string)
    requires s != [] && !IsSpace(s[|s| - 1])
    ensures var r := LikeFree(s);
      r != [] && r[|r| - 1] == s[|s| - 1]
  {
    assert IsSpace(' ');
    SubAlternativesLast(s, Fillers, " ");
  }

  /** The collapse keeps a leading non-space and starts with whitespace only
      where the input does. */
  lemma CollapsedHead(s: string)
    ensures s != [] && !IsSpace(s[0]) ==> Collapsed(s) != [] && Collapsed(s)[0] == s[0]
    ensures Collapsed(s) != [] && IsSpace(Collapsed(s)[0]) ==> s != [] && IsSpace(s[0])
  {
    if s != [] && !IsSpace(s[0]) {
      assert Collapsed(s) == [s[0]] + Collapsed(s[1..]);
    }
  }

  /** Every character of the collapse is a space or comes from the input. */
  lemma {:induction false} CollapsedDrawn(s: string)
    ensures DrawnFrom(Collapsed(s), s)
    decreases |s|
  {
    if s != [] {
      var n := if IsSpace(s[0]) then SpaceRun(s) else 1;
      var head: string := if !IsSpace(s[0]) then [s[0]] else if n >= 2 then " " else [s[0]];
      var rest := s[n..];
      var tail := Collapsed(rest);
      CollapsedDrawn(rest);
      assert Collapsed(s) == head + tail;
      forall i | 0 <= i < |head + tail|
        ensures (head + tail)[i] == ' ' || (head + tail)[i] in s
      {
        if i > 0 {
          var c := tail[i - 1];
          if c != ' ' {
            var j :| 0 <= j < |rest| && rest[j] == c;
            assert s[n + j] == c;
          }
        }
      }
    }
  }

  /** The collapse leaves no two adjacent whitespace characters. */
  lemma {:induction false} CollapsedNoDouble(s: string)
    ensures NoDoubleSpace(Collapsed(s))
    decreases |s|
  {
    if s != [] {
      var n := if IsSpace(s[0]) then SpaceRun(s) else 1;
      var head: string := if !IsSpace(s[0]) then [s[0]] else if n >= 2 then " " else [s[0]];
      var rest := s[n..];
      var tail := Collapsed(rest);
      CollapsedNoDouble(rest);
      CollapsedHead(rest);
      assert Collapsed(s) == head + tail;
      assert |head| == 1;
      assert IsSpace(s[0]) && tail != [] ==> !IsSpace(tail[0]) by {
        if IsSpace(s[0]) && tail != [] {
          assert rest != [] && !IsSpace(rest[0]);
        }
      }
    }
  }

  /** The text with its whitespace taken out. */
  function NonSpace(s: string): (r: string)
    ensures |r| <= |s|
  {
    if s == [] then [] else (if IsSpace(s[0]) then [] else [s[0]]) + NonSpace(s[1..])
  }

  lemma {:induction false} NonSpaceAppend(a: string, b: string)
    ensures NonSpace(a + b) == NonSpace(a) + NonSpace(b)
    decreases |a|
  {
    if a == [] {
      assert a + b == b;
    } else {
      assert (a + b)[0] == a[0] && (a + b)[1..] == a[1..] + b;
      NonSpaceAppend(a[1..], b);
    }
  }

  /** A leading run of whitespace carries no text. */
  lemma {:induction false} NonSpaceRun(s: string, n: nat)
    requires n <= |s| && forall i | 0 <= i < n :: IsSpace(s[i])
    ensures NonSpace(s) == NonSpace(s[n..])
    decreases n
  {
    if n > 0 {
      NonSpaceRun(s[1..], n - 1);
      assert s[1..][n - 1..] == s[n..];
    }
  }

  /** The collapse only shortens whitespace: the text between it survives. */
  lemma {:induction false} CollapsedKeepsText(s: string)
    ensures NonSpace(Collapsed(s)) == NonSpace(s)
    decreases |s|
  {
    if s != [] {
      var n := if IsSpace(s[0]) then SpaceRun(s) else 1;
      var head: string := if !IsSpace(s[0]) then [s[0]] else if n >= 2 then " " else [s[0]];
      var rest := s[n..];
      CollapsedKeepsText(rest);
      assert Collapsed(s) == head + Collapsed(rest);
      NonSpaceAppend(head, Collapsed(rest));
      if IsSpace(s[0]) {
        assert NonSpace(head) == [];
        NonSpaceRun(s, n);
      } else {
        assert NonSpace(head) == [s[0]];
      }
    }
  }

  /** The collapse leaves no two adjacent whitespace characters, adds no
      character other than a space, keeps a leading non-space and loses
      none of the text between the whitespace. */
  lemma CollapsedSpec(s: string)
    ensures NoDoubleSpace(Collapsed(s))
    ensures DrawnFrom(Collapsed(s), s)
    ensures s != [] && !IsSpace(s[0]) ==> Collapsed(s) != [] && Collapsed(s)[0] == s[0]
    ensures Collapsed(s) != [] && IsSpace(Collapsed(s)[0]) ==> s != [] && IsSpace(s[0])
    ensures NonSpace(Collapsed(s)) == NonSpace(s)
  {
    CollapsedKeepsText(s);
    CollapsedNoDouble(s);
    CollapsedDrawn(s);
    CollapsedHead(s);
  }

  /** The filler patterns, in the order the alternation tries them. */
  const Fillers: seq<string> := [" like ", " like, "]

  /** Removing fillers keeps text free of adjacent whitespace: each filler
      starts and ends with a space, so the space put in its place sits
      between non-spaces. */
  lemma {:induction false} LikeFreeSpec(s: string)
    requires NoDoubleSpace(s)
    ensures NoDoubleSpace(LikeFree(s))
    ensures DrawnFrom(LikeFree(s), s)
    ensures LikeFree(s) != [] && IsSpace(LikeFree(s)[0]) ==> s != [] && IsSpace(s[0])
    decreases |s|
  {
    if s != [] {
      var f := FirstPrefix(s, Fillers);
      var n := if f.Some? then |Fillers[f.value]| else 1;
      var head: string := if f.Some? then " " else [s[0]];
      assert n <= |s|;
      var rest := s[n..];
      assert NoDoubleSpace(rest) by {
        forall i | 0 <= i < |rest| - 1
          ensures !(IsSpace(rest[i]) && IsSpace(rest[i + 1]))
        {
          assert rest[i] == s[n + i] && rest[i + 1] == s[n + i + 1];
        }
      }
      LikeFreeSpec(rest);
      var tail := LikeFree(rest);
      assert LikeFree(s) == head + tail;
      assert IsSpace(head[0]) && tail != [] ==> !IsSpace(tail[0]) by {
        if IsSpace(head[0]) && tail != [] {
          if f.Some? {
            assert Fillers[f.value] <= s;
            assert s[n - 1] == Fillers[f.value][n - 1] == ' ';
          }
          assert IsSpace(s[n - 1]);
          assert !IsSpace(s[n]);
        }
      }
      if f.Some? {
        assert Fillers[f.value] <= s;
        assert s[0] == ' ';
      }
      assert DrawnFrom(LikeFree(s), s) by {
        forall i | 0 <= i < |head + tail|
          ensures (head + tail)[i] == ' ' || (head + tail)[i] in s
        {
          if i > 0 {
            var c := tail[i - 1];
            if c != ' ' {
              var j :| 0 <= j < |rest| && rest[j] == c;
              assert s[n + j] == c;
            }
          }
        }
      }
    }
  }

  /** After `clean_text` a piece has no newline, no two adjacent whitespace
      characters and no whitespace at either end. */
  lemma CleanLineSpec(t: string)
    ensures var r := CleanLine(t);
      && '\n' !in r
      && NoDoubleSpace(r)
      && (r != [] ==> !IsSpace(r[0]))
      && (r != [] ==> !IsSpace(r[|r| - 1]))
  {
    var u := Unwrapped(t);
    UnwrappedSpec(t);
    var c := Collapsed(u);
    CollapsedSpec(u);
    assert '\n' !in c by {
      forall i | 0 <= i < |c|
        ensures c[i] != '\n'
      {
        assert c[i] == ' ' || c[i] in u;
      }
    }
    LikeFreeSpec(c);
    var r := LikeFree(c);
    assert '\n' !in r by {
      forall i | 0 <= i < |r|
        ensures r[i] != '\n'
      {
        assert r[i] == ' ' || r[i] in c;
      }
    }
    if u != [] {
      CollapsedEnd(u);
      LikeFreeEnd(c);
    }
  }

  lemma CleanTextSpec(ts: seq<string>)
    ensures forall i | 0 <= i < |ts| ::
      var r := CleanText(ts)[i];
      && '\n' !in r
      && NoDoubleSpace(r)
      && (r != [] ==> !IsSpace(r[0]) && !IsSpace(r[|r| - 1]))
  {
    forall i | 0 <= i < |ts| {
      CleanLineSpec(ts[i]);
    }
  }

  /** No filler starts inside text without spaces. */
  lemma LikeFreeUnspaced(a: string)
    requires ' ' !in a
    ensures LikeFree(a) == a
  {
    SubUnstarted(a, Fillers, " ");
  }

  /** Text without spaces passes through, and the scan goes on after it. */
  lemma LikeFreePrefix(a: string, b: string)
    requires ' ' !in a
    ensures LikeFree(a + b) == a + LikeFree(b)
  {
    SubPassesPrefix(a, b, Fillers, " ");
  }

  /** A filler at the start is replaced and the scan goes on after it. */
  lemma DropFiller(i: nat, rest: string)
    requires i < |Fillers|
    ensures LikeFree(Fillers[i] + rest) == " " + LikeFree(rest)
  {
    var p := Fillers[i];
    assert FirstPrefix(p + rest, Fillers) == Some(i) by {
      assert p <= p + rest;
      if i == 1 {
        assert (p + rest)[5] == ',';
      }
    }
    assert (p + rest)[|p|..] == rest;
  }

  /** A lone space before text without spaces starts no filler. */
  lemma SpaceBeforeUnspaced(b: string)
    requires ' ' !in b
    ensures LikeFree(" " + b) == " " + b
  {
    LikeFreeUnspaced(b);
    var s := " " + b;
    forall i | 0 <= i < |Fillers|
      ensures !(Fillers[i] <= s)
    {
      var p := Fillers[i];
      assert p[|p| - 1] == ' ';
      if |p| <= |s| {
        assert s[|p| - 1] == b[|p| - 2] != ' ';
      }
    }
    assert s[1..] == b;
  }

  /** `"a like b"` and `"a like, b"` lose their filler. */
  lemma LikeBetweenWords(a: string, b: string, i: nat)
    requires ' ' !in a && ' ' !in b && i < |Fillers|
    ensures LikeFree(a + Fillers[i] + b) == a + " " + b
  {
    assert a + Fillers[i] + b == a + (Fillers[i] + b);
    LikeFreePrefix(a, Fillers[i] + b);
    DropFiller(i, b);
    LikeFreeUnspaced(b);
  }

  /** After a filler, the scan resumes past its closing space: a word and
      the space after it are kept even when they would complete another
      filler. */
  lemma FillerThenWord(a: string, w: string, b: string)
    requires ' ' !in a && ' ' !in w && ' ' !in b
    ensures LikeFree(a + Fillers[0] + w + " " + b) == a + " " + w + " " + b
  {
    var rest := w + (" " + b);
    calc {
      LikeFree(a + Fillers[0] + w + " " + b);
      { assert a + Fillers[0] + w + " " + b == a + (Fillers[0] + rest); }
      LikeFree(a + (Fillers[0] + rest));
      { LikeFreePrefix(a, Fillers[0] + rest); }
      a + LikeFree(Fillers[0] + rest);
      { DropFiller(0, rest); }
      a + (" " + LikeFree(rest));
      { LikeFreePrefix(w, " " + b); }
      a + (" " + (w + LikeFree(" " + b)));
      { SpaceBeforeUnspaced(b); }
      a + (" " + (w + (" " + b)));
      { assert a + (" " + (w + (" " + b))) == a + " " + w + " " + b; }
      a + " " + w + " " + b;
    }
  }

  /** `" like like "` keeps one `" like "`. */
  lemma LikeLikeKeepsOne(a: string, b: string)
    requires ' ' !in a && ' ' !in b
    ensures LikeFree(a + " like like " + b) == a + " like " + b
  {
    FillerThenWord(a, "like", b);
    assert a + " like like " + b == a + Fillers[0] + "like" + " " + b;
    assert a + " " + "like" + " " + b == a + " like " + b;
  }

  // ---------------------------------------------------------------------
  // The three-way split in `prep_file`

  /** Items `c`, `c + 3`, `c + 6`, ... of `xs`. */
  function Column<T>(xs: seq<T>, c: nat): (r: seq<T>)
    requires c < 3
    ensures |r| == (|xs| + 2 - c) / 3
    ensures forall j | 0 <= j < |r| :: r[j] == xs[3 * j + c]
  {
    seq((|xs| + 2 - c) / 3, j requires 0 <= j < (|xs| + 2 - c) / 3 => xs[3 * j + c])
  }

  /** Item `idx` of the content lands in list `idx % 3`, at position `idx / 3`. */
  lemma ColumnPlacement<T>(xs: seq<T>, idx: nat)
    requires idx < |xs|
    ensures idx / 3 < |Column(xs, idx % 3)|
    ensures Column(xs, idx % 3)[idx / 3] == xs[idx]
  {
    assert 3 * (idx / 3) + idx % 3 == idx;
  }

  /** The three lists differ in length by at most one, the first being the longest. */
  lemma ColumnLengths<T>(xs: seq<T>)
    ensures |Column(xs, 2)| <= |Column(xs, 1)| <= |Column(xs, 0)| <= |Column(xs, 2)| + 1
    ensures |Column(xs, 0)| + |Column(xs, 1)| + |Column(xs, 2)| == |xs|
  {
    var n := |xs|;
    assert n == 3 * (n / 3) + n % 3;
  }

  /** One more item grows only its own list. */
  lemma ColumnSnoc<T>(xs: seq<T>, i: nat, c: nat)
    requires i < |xs| && c < 3
    ensures Column(xs[..i + 1], c)
      == if c == i % 3 then Column(xs[..i], c) + [xs[i]] else Column(xs[..i], c)
  {
    var a, b := Column(xs[..i + 1], c), Column(xs[..i], c);
    if c == i % 3 {
      assert |a| == |b| + 1;
      assert a[|b|] == xs[i] by {
        assert 3 * |b| + c == i;
      }
      assert a == b + [xs[i]];
    } else {
      assert a == b;
    }
  }

  /** `prep_file`'s split: item `idx` is appended to `[timestamps, speakers,
      transcripts][idx % 3]`. */
  method SplitThree<T>(content: seq<T>) returns (timestamps: seq<T>, speakers: seq<T>, transcripts: seq<T>)
    ensures timestamps == Column(content, 0)
    ensures speakers == Column(content, 1)
    ensures transcripts == Column(content, 2)
  {
    timestamps, speakers, transcripts := [], [], [];
    for idx := 0 to |content|
      invariant timestamps == Column(content[..idx], 0)
      invariant speakers == Column(content[..idx], 1)
      invariant transcripts == Column(content[..idx], 2)
    {
      ColumnSnoc(content, idx, 0);
      ColumnSnoc(content, idx, 1);
      ColumnSnoc(content, idx, 2);
      var which := idx % 3;
      if which == 0 {
        timestamps := timestamps + [content[idx]];
      } else if which == 1 {
        speakers := speakers + [content[idx]];
      } else {
        transcripts := transcripts + [content[idx]];
      }
    }
    assert content[..|content|] == content;
  }

  /** Lists dealt round-robin: the first is the longest and none is more
      than one item shorter than it. */
  predicate Dealt<T>(a: seq<T>, b: seq<T>, c: seq<T>) {
    |a| >= |b| >= |c| >= |a| - 1
  }

  /** The content read back from its three lists, taking one item from each
      in turn. */
  function Merge<T>(a: seq<T>, b: seq<T>, c: seq<T>): (r: seq<T>)
    requires Dealt(a, b, c)
    ensures |r| == |a| + |b| + |c|
  {
    seq(|a| + |b| + |c|, k requires 0 <= k < |a| + |b| + |c| =>
      if k % 3 == 0 then a[k / 3] else if k % 3 == 1 then b[k / 3] else c[k / 3])
  }

  /** The split is dealt round-robin and loses nothing: merging the three
      lists gives the content back. */
  lemma SplitRestores<T>(xs: seq<T>)
    ensures Dealt(Column(xs, 0), Column(xs, 1), Column(xs, 2))
    ensures Merge(Column(xs, 0), Column(xs, 1), Column(xs, 2)) == xs
  {
    var a, b, c := Column(xs, 0), Column(xs, 1), Column(xs, 2);
    var m := Merge(a, b, c);
    forall k | 0 <= k < |xs|
      ensures m[k] == xs[k]
    {
      ColumnPlacement(xs, k);
    }
  }

  /** Conversely, any three dealt lists are what the split makes of their
      merge. */
  lemma MergeSplits<T>(a: seq<T>, b: seq<T>, c: seq<T>)
    requires Dealt(a, b, c)
    ensures Column(Merge(a, b, c), 0) == a
    ensures Column(Merge(a, b, c), 1) == b
    ensures Column(Merge(a, b, c), 2) == c
  {
    var m := Merge(a, b, c);
    forall j | 0 <= j < |a|
      ensures Column(m, 0)[j] == a[j]
    {
      assert (3 * j) % 3 == 0 && (3 * j) / 3 == j;
    }
    forall j | 0 <= j < |b|
      ensures Column(m, 1)[j] == b[j]
    {
      assert (3 * j + 1) % 3 == 1 && (3 * j + 1) / 3 == j;
    }
    forall j | 0 <= j < |c|
      ensures Column(m, 2)[j] == c[j]
    {
      assert (3 * j + 2) % 3 == 2 && (3 * j + 2) / 3 == j;
    }
  }
}
