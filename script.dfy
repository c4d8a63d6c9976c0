/** Lines 15-48 of scripts/invalid.py end to end: from the lines of
    `stimulus_results.txt` to the three lists the scatter plot of line 60 is drawn from. */
module Script {
  import opened Errors
  import opened ResultsFile
  import opened InvalidCounts
  import opened Colours

  /** The data handed to `ax.scatter` on line 60. */
  datatype Plot<F> = Plot(xVals: seq<F>, yVals: seq<F>, numericCounts: seq<int>)

  /** The plot data of a dict: its keys split into the two coordinates, and the numbers
      of the colours of its counts. */
  function PlotOfDict<F(==)>(d: Counter<(F, F)>): Plot<F>
  {
    Plot(seq(|d.order|, i requires 0 <= i < |d.order| => d.order[i].0),
         seq(|d.order|, i requires 0 <= i < |d.order| => d.order[i].1),
         NumericCounts(ColoursFor(CountsInOrder(d))))
  }

  /** What lines 15-48 make of the file: the plot data, or the first exception. */
  function PlotOf<F(==)>(lines: seq<string>, float: string -> Option<F>): Result<Plot<F>>
  {
    match ReadAll(lines)
    case Err(e) => Err(e)
    case Ok(data) =>
      match InvalidKeys(data, float)
      case Err(e) => Err(e)
      case Ok(keys) => Ok(PlotOfDict(Tally(keys)))
  }

  /** The script from reading the file to line 48. */
  method Run<F(==)>(lines: seq<string>, float: string -> Option<F>) returns (res: Result<Plot<F>>)
    ensures res == PlotOf(lines, float)
  {
    var data := ReadRecords(lines);
    if data.Err? {
      return Err(data.error);
    }
    var counts := CountInvalid(data.value, float);
    if counts.Err? {
      return Err(counts.error);
    }
    var xVals, yVals, colours := Classify(counts.value);
    var numericCounts := NumericCounts(colours);
    ghost var plot := PlotOfDict(counts.value);
    assert xVals == plot.xVals by {
      assert forall i :: 0 <= i < |xVals| ==> xVals[i] == plot.xVals[i];
    }
    assert yVals == plot.yVals by {
      assert forall i :: 0 <= i < |yVals| ==> yVals[i] == plot.yVals[i];
    }
    return Ok(Plot(xVals, yVals, numericCounts));
  }

  /** A position with an invalid record is the point at the place of its key in the
      dict's order. */
  lemma PointOfPosition<F>(data: seq<seq<string>>, float: string -> Option<F>, key: (F, F))
    requires InvalidKeys(data, float).Ok? && NumInvalidAt(data, float, key) >= 1
    ensures var p := PlotOfDict(Tally(InvalidKeys(data, float).value));
            var i := FirstIndex(Tally(InvalidKeys(data, float).value).order, key);
            i < |p.xVals| && (p.xVals[i], p.yVals[i]) == key
  {
    TallyOfRecords(data, float, key);
    TallyKeys(InvalidKeys(data, float).value);
  }

  /** The points of the dict counted from `data`: a point for every position with an
      invalid record and for no other. */
  lemma PlotPoints<F(!new)>(data: seq<seq<string>>, float: string -> Option<F>)
    requires InvalidKeys(data, float).Ok?
    ensures var keys := InvalidKeys(data, float).value;
            var p := PlotOfDict(Tally(keys));
            && |p.xVals| == |p.yVals|
            && (forall i :: 0 <= i < |p.xVals| ==> NumInvalidAt(data, float, (p.xVals[i], p.yVals[i])) >= 1)
            && (forall key :: NumInvalidAt(data, float, key) >= 1 ==>
                  exists i :: 0 <= i < |p.xVals| && (p.xVals[i], p.yVals[i]) == key)
  {
    var keys := InvalidKeys(data, float).value;
    var d := Tally(keys);
    var p := PlotOfDict(d);
    assert forall i :: 0 <= i < |p.xVals| ==> (p.xVals[i], p.yVals[i]) == d.order[i];
    forall i | 0 <= i < |p.xVals|
      ensures NumInvalidAt(data, float, (p.xVals[i], p.yVals[i])) >= 1
    {
      CountIsNumInvalid(data, float, i);
    }
    forall key | NumInvalidAt(data, float, key) >= 1
      ensures exists i :: 0 <= i < |p.xVals| && (p.xVals[i], p.yVals[i]) == key
    {
      PointOfPosition(data, float, key);
    }
  }

  /** The points of the dict counted from `data` are distinct, in the order of the first
      invalid record at each position. */
  lemma PlotOrder<F(!new)>(data: seq<seq<string>>, float: string -> Option<F>)
    requires InvalidKeys(data, float).Ok?
    ensures var keys := InvalidKeys(data, float).value;
            var p := PlotOfDict(Tally(keys));
            && (forall i, j :: 0 <= i < j < |p.xVals| ==> (p.xVals[i], p.yVals[i]) != (p.xVals[j], p.yVals[j]))
            && (forall i, j :: 0 <= i < j < |p.xVals| ==>
                  FirstIndex(keys, (p.xVals[i], p.yVals[i])) < FirstIndex(keys, (p.xVals[j], p.yVals[j])))
  {
    var keys := InvalidKeys(data, float).value;
    var d := Tally(keys);
    var p := PlotOfDict(d);
    assert forall i :: 0 <= i < |p.xVals| ==> (p.xVals[i], p.yVals[i]) == d.order[i];
    TallyNoRepeats(keys);
    TallyOrder(keys);
  }

  /** What the plot shows when the script gets that far: a point for every position with
      an invalid record and for no other, each at most once and in the order of the first
      invalid record at each position; the numbers are the counts from 1 to 3 in that order;
      and there is a number for every point exactly when no position holds more than
      three invalid records. */
  lemma PlotMeaning<F(!new)>(lines: seq<string>, float: string -> Option<F>)
    requires PlotOf(lines, float).Ok?
    ensures ReadAll(lines).Ok? && InvalidKeys(ReadAll(lines).value, float).Ok?
    ensures var data := ReadAll(lines).value;
            var p := PlotOf(lines, float).value;
            && |p.xVals| == |p.yVals|
            && (forall i :: 0 <= i < |p.xVals| ==> NumInvalidAt(data, float, (p.xVals[i], p.yVals[i])) >= 1)
            && (forall key :: NumInvalidAt(data, float, key) >= 1 ==>
                  exists i :: 0 <= i < |p.xVals| && (p.xVals[i], p.yVals[i]) == key)
            && (forall i, j :: 0 <= i < j < |p.xVals| ==> (p.xVals[i], p.yVals[i]) != (p.xVals[j], p.yVals[j]))
            && (forall i, j :: 0 <= i < j < |p.xVals| ==>
                  FirstIndex(InvalidKeys(data, float).value, (p.xVals[i], p.yVals[i]))
                  < FirstIndex(InvalidKeys(data, float).value, (p.xVals[j], p.yVals[j])))
            && p.numericCounts == InRange(CountsInOrder(Tally(InvalidKeys(data, float).value)))
            && (|p.numericCounts| == |p.xVals| <==> AtMostThreeEach(data, float))
  {
    var data := ReadAll(lines).value;
    var d := Tally(InvalidKeys(data, float).value);
    PlotPoints(data, float);
    PlotOrder(data, float);
    NumericCountsInRange(CountsInOrder(d));
    AlignedIffAtMostThree(data, float);
  }
}
