/** Lines 34-48 of scripts/invalid.py: turning the counter into the parallel lists the
    scatter plot is drawn from. Every key gives a point (`x_vals`, `y_vals`); only the
    counts 1, 2 and 3 give a colour, and `count_to_numeric` turns the colours back into
    numbers. */
module Colours {
  import opened Errors
  import opened InvalidCounts

  datatype Colour = Yellow | Orange | Red

  /** `count_to_numeric`, line 47. */
  function Numeric(c: Colour): (n: int)
    ensures 1 <= n <= 3
  {
    match c
    case Yellow => 1
    case Orange => 2
    case Red => 3
  }

  /** The `if`/`elif` chain of lines 40-45: the colour appended for a count, or `None`
      when no branch matches and nothing is appended. Exactly the counts 1 to 3 get a
      colour, and `Numeric` gives the count back. */
  function ColourOf(count: int): (c: Option<Colour>)
    ensures c.Some? <==> 1 <= count <= 3
    ensures c.Some? ==> Numeric(c.value) == count
  {
    if count == 3 then Some(Red)
    else if count == 2 then Some(Orange)
    else if count == 1 then Some(Yellow)
    else None
  }

  /** The other way round: every colour is the colour of its number. */
  lemma ColourOfNumeric(c: Colour)
    ensures ColourOf(Numeric(c)) == Some(c)
  {
  }

  /** The counts of a dict, in its key order. */
  function CountsInOrder<K>(d: Counter<K>): (counts: seq<int>)
    ensures |counts| == |d.order|
  {
    seq(|d.order|, i requires 0 <= i < |d.order| =>
      if d.order[i] in d.counts then d.counts[d.order[i]] else 0)
  }

  /** The colours lines 40-45 append for `counts`, in order. */
  function ColoursFor(counts: seq<int>): seq<Colour>
    decreases |counts|
  {
    if counts == [] then []
    else
      ColoursFor(counts[..|counts| - 1])
      + match ColourOf(counts[|counts| - 1])
        case Some(c) => [c]
        case None => []
  }

  /** The counts from 1 to 3, in order. */
  function InRange(counts: seq<int>): (kept: seq<int>)
    decreases |counts|
  {
    if counts == [] then []
    else InRange(counts[..|counts| - 1])
         + if 1 <= counts[|counts| - 1] <= 3 then [counts[|counts| - 1]] else []
  }

  /** The loop of lines 37-45: one point per key of the dict, in insertion order, and a
      colour for each key whose count is 1, 2 or 3. */
  method Classify<F(==)>(d: Dict<(F, F)>) returns (xVals: seq<F>, yVals: seq<F>, colours: seq<Colour>)
    ensures |xVals| == |d.order| && |yVals| == |d.order|
    ensures forall i :: 0 <= i < |d.order| ==> xVals[i] == d.order[i].0 && yVals[i] == d.order[i].1
    ensures colours == ColoursFor(CountsInOrder(d))
  {
    xVals, yVals, colours := [], [], [];
    var i := 0;
    while i < |d.order|
      invariant 0 <= i <= |d.order|
      invariant |xVals| == i && |yVals| == i
      invariant forall n :: 0 <= n < i ==> xVals[n] == d.order[n].0 && yVals[n] == d.order[n].1
      invariant colours == ColoursFor(CountsInOrder(d)[..i])
    {
      var key := d.order[i];
      var count := d.counts[key];
      xVals := xVals + [key.0];
      yVals := yVals + [key.1];
      assert CountsInOrder(d)[..i + 1][..i] == CountsInOrder(d)[..i];
      if count == 3 {
        colours := colours + [Red];
      } else if count == 2 {
        colours := colours + [Orange];
      } else if count == 1 {
        colours := colours + [Yellow];
      }
      i := i + 1;
    }
    assert CountsInOrder(d)[..i] == CountsInOrder(d);
  }

  /** Line 48: each colour replaced by its number, which the colour rule maps back to
      the same colour. */
  function NumericCounts(colours: seq<Colour>): (numbers: seq<int>)
    ensures |numbers| == |colours|
    ensures forall i :: 0 <= i < |numbers| ==> ColourOf(numbers[i]) == Some(colours[i])
  {
    seq(|colours|, i requires 0 <= i < |colours| => Numeric(colours[i]))
  }

  /** `numeric_counts` is the sequence of counts, filtered to those from 1 to 3. */
  lemma {:induction false} NumericCountsInRange(counts: seq<int>)
    ensures NumericCounts(ColoursFor(counts)) == InRange(counts)
    decreases |counts|
  {
    if counts != [] {
      var init, last := counts[..|counts| - 1], counts[|counts| - 1];
      NumericCountsInRange(init);
      var prev := ColoursFor(init);
      if 1 <= last <= 3 {
        var c := ColourOf(last).value;
        assert ColoursFor(counts) == prev + [c];
        assert NumericCounts(prev + [c]) == NumericCounts(prev) + [last];
      }
    }
  }

  /** Every count gets a colour exactly when all counts are from 1 to 3; otherwise there
      are fewer colours than counts. */
  lemma {:induction false} ColoursForLength(counts: seq<int>)
    ensures |ColoursFor(counts)| <= |counts|
    ensures |ColoursFor(counts)| == |counts| <==> forall i :: 0 <= i < |counts| ==> 1 <= counts[i] <= 3
    decreases |counts|
  {
    if counts != [] {
      var init := counts[..|counts| - 1];
      ColoursForLength(init);
      assert forall i :: 0 <= i < |init| ==> init[i] == counts[i];
    }
  }

  /** Every count in a tally is positive and is the number of times its key occurs. */
  lemma TallyCountsInOrder<K>(keys: seq<K>, i: nat)
    requires i < |Tally(keys).order|
    ensures CountsInOrder(Tally(keys))[i] == multiset(keys)[Tally(keys).order[i]] >= 1
  {
    var d := Tally(keys);
    TallyKeys(keys);
    TallyCounts(keys);
    assert d.order[i] in d.order;
  }

  /** The count at each place of the dict is the number of invalid records at its key. */
  lemma CountIsNumInvalid<F>(data: seq<seq<string>>, float: string -> Option<F>, i: nat)
    requires InvalidKeys(data, float).Ok?
    requires i < |Tally(InvalidKeys(data, float).value).order|
    ensures var d := Tally(InvalidKeys(data, float).value);
            CountsInOrder(d)[i] == NumInvalidAt(data, float, d.order[i]) >= 1
  {
    var keys := InvalidKeys(data, float).value;
    var d := Tally(keys);
    TallyKeys(keys);
    assert d.order[i] in d.order;
    TallyOfRecords(data, float, d.order[i]);
  }

  /** No position with more than three invalid records: every count is from 1 to 3. */
  lemma AtMostThreeInRange<F(!new)>(data: seq<seq<string>>, float: string -> Option<F>)
    requires InvalidKeys(data, float).Ok?
    requires AtMostThreeEach(data, float)
    ensures var counts := CountsInOrder(Tally(InvalidKeys(data, float).value));
            forall i :: 0 <= i < |counts| ==> 1 <= counts[i] <= 3
  {
    var counts := CountsInOrder(Tally(InvalidKeys(data, float).value));
    forall i | 0 <= i < |counts|
      ensures 1 <= counts[i] <= 3
    {
      CountIsNumInvalid(data, float, i);
    }
  }

  /** Every count from 1 to 3: no position has more than three invalid records. */
  lemma InRangeAtMostThree<F>(data: seq<seq<string>>, float: string -> Option<F>, key: (F, F))
    requires InvalidKeys(data, float).Ok?
    requires var counts := CountsInOrder(Tally(InvalidKeys(data, float).value));
             forall i :: 0 <= i < |counts| ==> counts[i] <= 3
    ensures NumInvalidAt(data, float, key) <= 3
  {
    var d := Tally(InvalidKeys(data, float).value);
    TallyOfRecords(data, float, key);
    if key in d.counts {
      TallyKeys(InvalidKeys(data, float).value);
      var i := FirstIndex(d.order, key);
      CountIsNumInvalid(data, float, i);
    }
  }

  /** No position holds more than three invalid records. */
  ghost predicate AtMostThreeEach<F(!new)>(data: seq<seq<string>>, float: string -> Option<F>)
  {
    forall key :: NumInvalidAt(data, float, key) <= 3
  }

  /** The colours of a count over the records line up with the points exactly when no
      position holds more than three invalid records. */
  lemma AlignedIffAtMostThree<F(!new)>(data: seq<seq<string>>, float: string -> Option<F>)
    requires InvalidKeys(data, float).Ok?
    ensures var d := Tally(InvalidKeys(data, float).value);
            |ColoursFor(CountsInOrder(d))| == |d.order| <==> AtMostThreeEach(data, float)
  {
    var counts := CountsInOrder(Tally(InvalidKeys(data, float).value));
    ColoursForLength(counts);
    if |ColoursFor(counts)| == |counts| {
      forall key
        ensures NumInvalidAt(data, float, key) <= 3
      {
        InRangeAtMostThree(data, float, key);
      }
    }
    if AtMostThreeEach(data, float) {
      AtMostThreeInRange(data, float);
    }
  }

  /** `n` copies of a record that passes the test of line 28 give `n` equal keys. */
  lemma {:induction false} RepeatedRecordKeys<F>(rec: seq<string>, float: string -> Option<F>, n: nat)
    requires |rec| == 7 && IsInvalid(Unpack(rec).value)
    requires float(rec[1]).Some? && float(rec[2]).Some?
    ensures InvalidKeys(seq(n, _ => rec), float)
            == Ok(seq(n, _ => (float(rec[1]).value, float(rec[2]).value)))
  {
    if n == 0 {
      assert seq(n, _ => rec) == [];
    } else {
      RepeatedRecordKeys(rec, float, n - 1);
      InvalidRecordAppended(seq(n - 1, _ => rec), rec, float);
      assert seq(n - 1, _ => rec) + [rec] == seq(n, _ => rec);
      assert seq(n - 1, _ => (float(rec[1]).value, float(rec[2]).value))
             + [(float(rec[1]).value, float(rec[2]).value)]
             == seq(n, _ => (float(rec[1]).value, float(rec[2]).value));
    }
  }

  /** `n` equal keys make one entry with count `n`. */
  lemma {:induction false} RepeatedKeyTally<K>(k: K, n: nat)
    requires n >= 1
    ensures Tally(seq(n, _ => k)) == Counter(map[k := n], [k])
  {
    var keys := seq(n, _ => k);
    assert keys[..n - 1] == seq(n - 1, _ => k);
    if n > 1 {
      RepeatedKeyTally(k, n - 1);
    }
  }

  /** More than three invalid records at one position: the dict has a single key, and
      lines 37-45 give it a point but no colour, so `numeric_counts` is shorter than
      `x_vals`. */
  lemma MoreThanThreeAtOnePosition<F>(rec: seq<string>, float: string -> Option<F>, n: nat)
    requires |rec| == 7 && IsInvalid(Unpack(rec).value)
    requires float(rec[1]).Some? && float(rec[2]).Some?
    requires n > 3
    ensures InvalidKeys(seq(n, _ => rec), float).Ok?
    ensures var d := Tally(InvalidKeys(seq(n, _ => rec), float).value);
            |d.order| == 1 && CountsInOrder(d) == [n] && NumericCounts(ColoursFor(CountsInOrder(d))) == []
  {
    var k := (float(rec[1]).value, float(rec[2]).value);
    RepeatedRecordKeys(rec, float, n);
    RepeatedKeyTally(k, n);
    var d := Counter(map[k := n], [k]);
    assert CountsInOrder(d) == [n];
    assert [n][..0] == [];
  }

  /** The smallest such file: a timestamp line and four identical results lines at the
      position (1, 2), each answered while the subject was not looking at the stimulus. */
  lemma FourAtOnePosition<F>(float: string -> Option<F>)
    requires float("1").Some? && float("2").Some?
    ensures var rec := ["0", "1", "2", "True", "5.0", "0.5", "False"];
            && InvalidKeys([rec, rec, rec, rec], float).Ok?
            && var d := Tally(InvalidKeys([rec, rec, rec, rec], float).value);
               |d.order| == 1 && NumericCounts(ColoursFor(CountsInOrder(d))) == []
  {
    var rec := ["0", "1", "2", "True", "5.0", "0.5", "False"];
    assert rec[1] == "1" && rec[2] == "2";
    MoreThanThreeAtOnePosition(rec, float, 4);
    assert seq(4, _ => rec) == [rec, rec, rec, rec];
  }

  /** Lines 40-45 with the last branch widened to every count of three or more, so that
      every point gets a colour and the top colour stands for "3 or more". */
  function CappedColourOf(count: int): (c: Option<Colour>)
    ensures c.Some? <==> count >= 1
    ensures c.Some? ==> Numeric(c.value) == if count >= 3 then 3 else count
  {
    if count >= 3 then Some(Red)
    else if count == 2 then Some(Orange)
    else if count == 1 then Some(Yellow)
    else None
  }

  /** The colours of `counts` under the widened rule. */
  function CappedColoursFor(counts: seq<int>): seq<Colour>
    decreases |counts|
  {
    if counts == [] then []
    else
      CappedColoursFor(counts[..|counts| - 1])
      + match CappedColourOf(counts[|counts| - 1])
        case Some(c) => [c]
        case None => []
  }

  /** Under the widened rule positive counts each get a colour, in order, whose number
      is the count capped at 3. */
  lemma {:induction false} CappedColoursAligned(counts: seq<int>)
    requires forall i :: 0 <= i < |counts| ==> counts[i] >= 1
    ensures |CappedColoursFor(counts)| == |counts|
    ensures forall i :: 0 <= i < |counts| ==>
              Numeric(CappedColoursFor(counts)[i]) == if counts[i] >= 3 then 3 else counts[i]
    decreases |counts|
  {
    if counts != [] {
      var init := counts[..|counts| - 1];
      assert forall i :: 0 <= i < |init| ==> init[i] == counts[i];
      CappedColoursAligned(init);
    }
  }

  /** Whatever the records, the widened rule gives one colour per point. */
  lemma CappedAlignedForRecords<F>(data: seq<seq<string>>, float: string -> Option<F>)
    requires InvalidKeys(data, float).Ok?
    ensures var d := Tally(InvalidKeys(data, float).value);
            |CappedColoursFor(CountsInOrder(d))| == |d.order|
  {
    var keys := InvalidKeys(data, float).value;
    forall i | 0 <= i < |Tally(keys).order|
      ensures CountsInOrder(Tally(keys))[i] >= 1
    {
      TallyCountsInOrder(keys, i);
    }
    CappedColoursAligned(CountsInOrder(Tally(keys)));
  }
}
