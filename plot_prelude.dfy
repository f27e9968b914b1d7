/**
 * The prelude shared by the line-plot helpers (`plotSpeech`, `plotTime`,
 * `plotFeeling` and, in one copy, `plotCongruence`): find the length of the longest
 * series, pad every shorter series with `None` in place so that all series line up,
 * and label the x-axis 1..size.
 */
module PlotPrelude {
  import opened Basics

  type Series = seq<Option<real>>

  /** `size` is the length of the longest series, and 0 when there is none. */
  predicate Longest(lists: map<string, Series>, size: nat)
  {
    && (forall k | k in lists :: |lists[k]| <= size)
    && (lists == map[] ==> size == 0)
    && (lists != map[] ==> exists k | k in lists :: |lists[k]| == size)
  }

  /** Only one size is the longest. */
  lemma LongestUnique(lists: map<string, Series>, a: nat, b: nat)
    requires Longest(lists, a) && Longest(lists, b)
    ensures a == b
  {
    if lists != map[] {
      var ka :| ka in lists && |lists[ka]| == a;
      var kb :| kb in lists && |lists[kb]| == b;
      assert |lists[kb]| <= a && |lists[ka]| <= b;
    }
  }

  /** `n` missing points. */
  function Nones(n: nat): (r: Series)
    ensures |r| == n
  {
    seq(n, _ => None)
  }

  /** A series after `while len(value) < size: value.append(None)`. */
  function Padded(xs: Series, size: nat): (r: Series)
    ensures |r| == if |xs| < size then size else |xs|
    ensures r[..|xs|] == xs
    ensures forall i | |xs| <= i < |r| :: r[i] == None
  {
    if |xs| < size then xs + Nones(size - |xs|) else xs
  }

  /** Padding to the longest length levels every series and is undone by cutting back. */
  lemma PaddedLevels(lists: map<string, Series>, size: nat, k: string)
    requires Longest(lists, size) && k in lists
    ensures |Padded(lists[k], size)| == size
    ensures Padded(lists[k], size)[..|lists[k]|] == lists[k]
    ensures |lists[k]| == size ==> Padded(lists[k], size) == lists[k]
  {
  }

  /** Padding twice to the same size pads once. */
  lemma PaddedIdempotent(xs: Series, size: nat)
    ensures Padded(Padded(xs, size), size) == Padded(xs, size)
  {
  }

  /** The x-axis `[prefix + str(i+1) for i in range(0, size)]`. */
  function Axis(prefix: string, size: nat): (r: seq<string>)
    ensures |r| == size
  {
    seq(size, i requires 0 <= i < size => prefix + NatToString(i + 1))
  }

  /** The x-axis labels name the rounds 1..size and no two are alike. */
  lemma AxisLabels(prefix: string, size: nat)
    ensures forall i | 0 <= i < size :: Axis(prefix, size)[i] == prefix + NatToString(i + 1)
    ensures forall i, j | 0 <= i < size && 0 <= j < size && Axis(prefix, size)[i] == Axis(prefix, size)[j] :: i == j
  {
    var r := Axis(prefix, size);
    forall i, j | 0 <= i < size && 0 <= j < size && r[i] == r[j]
      ensures i == j
    {
      assert r[i][|prefix|..] == NatToString(i + 1);
      assert r[j][|prefix|..] == NatToString(j + 1);
      NatToStringInjective(i + 1, j + 1);
    }
  }

  /** The labels of visualizer.py: "1", "2", ... */
  function PlainAxis(size: nat): (r: seq<string>)
    ensures |r| == size
  {
    Axis("", size)
  }

  /** The labels of plotter.py: "Round 1", "Round 2", ... */
  function RoundAxis(size: nat): (r: seq<string>)
    ensures |r| == size
  {
    Axis("Round ", size)
  }

  /**
   * plotter.py's `plotCongruence`: no padding; the axis is "Turn 1".."Turn n" for the
   * `Speakers` series, and a dict without that key raises KeyError.
   */
  function CongruenceAxis(lists: map<string, Series>): (r: Result<seq<string>>)
    ensures r.Err? <==> "Speakers" !in lists
    ensures r.Err? ==> r.error == KeyError
    ensures r.Ok? ==> r.value == Axis("Turn ", |lists["Speakers"]|)
  {
    if "Speakers" in lists then Ok(Axis("Turn ", |lists["Speakers"]|)) else Err(KeyError)
  }

  /** The caller's `dataDict`, whose lists the prelude extends in place. */
  class DataDict {
    var lists: map<string, Series>

    constructor(lists: map<string, Series>)
      ensures this.lists == lists
    {
      this.lists := lists;
    }

    /** The running maximum of `len(dataDict[key])` over the keys. */
    method LongestSize() returns (size: nat)
      ensures Longest(lists, size)
    {
      size := 0;
      var rest := lists.Keys;
      while rest != {}
        invariant rest <= lists.Keys
        invariant forall k | k in lists && k !in rest :: |lists[k]| <= size
        invariant size != 0 ==> exists k | k in lists && k !in rest :: |lists[k]| == size
        decreases |rest|
      {
        var key :| key in rest;
        var compare := |lists[key]|;
        if size == 0 {
          size := compare;
        } else if size < compare {
          size := compare;
        }
        rest := rest - {key};
      }
      if size == 0 && lists != map[] {
        var k :| k in lists;
        assert |lists[k]| == 0;
      }
    }

    /** `for value in dataDict.values(): while len(value) < size: value.append(None)`. */
    method PadTo(size: nat)
      modifies this
      ensures lists.Keys == old(lists).Keys
      ensures forall k | k in lists :: lists[k] == Padded(old(lists)[k], size)
    {
      var rest := lists.Keys;
      while rest != {}
        invariant rest <= lists.Keys == old(lists).Keys
        invariant forall k | k in lists :: lists[k] == if k in rest then old(lists)[k] else Padded(old(lists)[k], size)
        decreases |rest|
      {
        var key :| key in rest;
        var value := lists[key];
        while |value| < size
          invariant |old(lists)[key]| <= |value|
          invariant |old(lists)[key]| < size ==> |value| <= size
          invariant size <= |old(lists)[key]| ==> value == old(lists)[key]
          invariant value == old(lists)[key] + Nones(|value| - |old(lists)[key]|)
          decreases size - |value|
        {
          value := value + [None];
        }
        assert value == Padded(old(lists)[key], size);
        lists := lists[key := value];
        rest := rest - {key};
      }
    }

    /** The whole prelude: afterwards every series has the longest length. */
    method Equalize() returns (size: nat)
      modifies this
      ensures Longest(old(lists), size)
      ensures lists.Keys == old(lists).Keys
      ensures forall k | k in lists :: lists[k] == Padded(old(lists)[k], size)
      ensures forall k | k in lists :: |lists[k]| == size
    {
      size := LongestSize();
      PadTo(size);
    }
  }
}
