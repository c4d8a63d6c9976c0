/** Lines 24-32 of scripts/invalid.py: counting, per position, the trials the subject
    answered without looking at the stimulus.

    `float` is passed in as a parameter: it stands for Python's `float(...)`, `None` being
    the ValueError it raises. Two positions are the same dictionary key exactly when
    their converted coordinates are equal values of `F`. */
module InvalidCounts {
  import opened Errors

  /** A record unpacked into the seven names of line 27. The last is the writer's flag of
      whether the subject was looking at the stimulus; the script calls it
      `was_looking_at_centre`. */
  datatype Row = Row(index: string, x: string, y: string, seenStimulus: string,
                     timeSinceTestStart: string, reactionTime: string, wasLookingAtCentre: string)

  function Fields(row: Row): seq<string>
  {
    [row.index, row.x, row.y, row.seenStimulus, row.timeSinceTestStart, row.reactionTime,
     row.wasLookingAtCentre]
  }

  /** The tuple unpacking of line 27: it succeeds exactly on seven-field records, and then
      gives back the same fields under their names. */
  function Unpack(rec: seq<string>): (row: Option<Row>)
    ensures row.Some? <==> |rec| == 7
    ensures row.Some? ==> Fields(row.value) == rec
  {
    if |rec| == 7 then Some(Row(rec[0], rec[1], rec[2], rec[3], rec[4], rec[5], rec[6]))
    else None
  }

  /** The test of line 28: a response was recorded while the subject was not looking at
      the stimulus. */
  predicate IsInvalid(row: Row)
  {
    row.wasLookingAtCentre == "False" && row.seenStimulus == "True"
  }

  /** What the record at position `n` of `data` does in the loop of lines 27-29: fail to
      unpack, be skipped (`None`), fail in `float`, or add one to a key. */
  function Contribution<F>(n: nat, rec: seq<string>, float: string -> Option<F>): Result<Option<(F, F)>>
  {
    match Unpack(rec)
    case None => Err(UnpackError(n, |rec|))
    case Some(row) =>
      if !IsInvalid(row) then Ok(None)
      else match float(row.x)
        case None => Err(FloatError(n, row.x))
        case Some(x) => match float(row.y)
          case None => Err(FloatError(n, row.y))
          case Some(y) => Ok(Some((x, y)))
  }

  /** The keys the loop counts, one per invalid record, in file order; or the first
      error the loop raises. */
  function InvalidKeys<F>(data: seq<seq<string>>, float: string -> Option<F>): Result<seq<(F, F)>>
    decreases |data|
  {
    if data == [] then Ok([])
    else match InvalidKeys(data[..|data| - 1], float)
      case Err(e) => Err(e)
      case Ok(keys) => match Contribution(|data| - 1, data[|data| - 1], float)
        case Err(e) => Err(e)
        case Ok(None) => Ok(keys)
        case Ok(Some(key)) => Ok(keys + [key])
  }

  /** The number of records in `data` that unpack and pass the test of line 28. */
  function NumInvalid(data: seq<seq<string>>): nat
    decreases |data|
  {
    if data == [] then 0
    else
      var last := Unpack(data[|data| - 1]);
      NumInvalid(data[..|data| - 1]) + if last.Some? && IsInvalid(last.value) then 1 else 0
  }

  /** The number of records in `data` that pass the test of line 28 at the position `key`. */
  ghost function NumInvalidAt<F>(data: seq<seq<string>>, float: string -> Option<F>, key: (F, F)): nat
    decreases |data|
  {
    if data == [] then 0
    else
      NumInvalidAt(data[..|data| - 1], float, key)
      + if Contribution(|data| - 1, data[|data| - 1], float) == Ok(Some(key)) then 1 else 0
  }

  /** A successful count has one key per invalid record, and each key occurs once for
      every invalid record at that position. */
  lemma {:induction false} InvalidKeysCounted<F>(data: seq<seq<string>>, float: string -> Option<F>)
    requires InvalidKeys(data, float).Ok?
    ensures |InvalidKeys(data, float).value| == NumInvalid(data)
    ensures forall key :: multiset(InvalidKeys(data, float).value)[key] == NumInvalidAt(data, float, key)
    decreases |data|
  {
    if data != [] {
      InvalidKeysCounted(data[..|data| - 1], float);
    }
  }

  /** A record that unpacks but fails the test of line 28 changes nothing. */
  lemma ValidRecordIgnored<F>(data: seq<seq<string>>, rec: seq<string>, float: string -> Option<F>)
    requires |rec| == 7 && !IsInvalid(Unpack(rec).value)
    ensures InvalidKeys(data + [rec], float) == InvalidKeys(data, float)
  {
    assert (data + [rec])[..|data|] == data;
  }

  /** A record that passes the test of line 28 and converts adds its key at the end. */
  lemma InvalidRecordAppended<F>(data: seq<seq<string>>, rec: seq<string>, float: string -> Option<F>)
    requires InvalidKeys(data, float).Ok?
    requires |rec| == 7 && IsInvalid(Unpack(rec).value)
    requires float(rec[1]).Some? && float(rec[2]).Some?
    ensures InvalidKeys(data + [rec], float)
            == Ok(InvalidKeys(data, float).value + [(float(rec[1]).value, float(rec[2]).value)])
  {
    assert (data + [rec])[..|data|] == data;
  }

  /** A record without exactly seven fields stops the loop with the unpacking error. */
  lemma WrongLengthRaises<F>(data: seq<seq<string>>, rec: seq<string>, float: string -> Option<F>)
    requires InvalidKeys(data, float).Ok? && |rec| != 7
    ensures InvalidKeys(data + [rec], float) == Err(UnpackError(|data|, |rec|))
  {
    assert (data + [rec])[..|data|] == data;
  }

  /** Once a prefix of the records raises, the whole loop raises the same error. */
  lemma {:induction false} ErrorPersists<F>(data: seq<seq<string>>, n: nat, float: string -> Option<F>)
    requires n <= |data| && InvalidKeys(data[..n], float).Err?
    ensures InvalidKeys(data, float) == InvalidKeys(data[..n], float)
    decreases |data|
  {
    if n < |data| {
      var init := data[..|data| - 1];
      assert init[..n] == data[..n];
      ErrorPersists(init, n, float);
    } else {
      assert data[..n] == data;
    }
  }

  /** The first index of `k` in `s`, or `|s|` when `k` does not occur. */
  ghost function FirstIndex<K>(s: seq<K>, k: K): (i: nat)
    ensures i <= |s|
    ensures i < |s| <==> k in s
    ensures i < |s| ==> s[i] == k
    ensures forall m :: 0 <= m < i ==> s[m] != k
  {
    if s == [] then 0
    else if s[0] == k then 0
    else 1 + FirstIndex(s[1..], k)
  }

  /** Appending to a sequence leaves the first index of an element already in it alone. */
  lemma FirstIndexAppend<K>(s: seq<K>, y: K, x: K)
    ensures FirstIndex(s + [y], x) == if x in s then FirstIndex(s, x) else if x == y then |s| else |s| + 1
  {
    var i, j := FirstIndex(s + [y], x), FirstIndex(s, x);
    if j < |s| {
      assert (s + [y])[j] == x;
      if i < j { assert false; }
      if j < i { assert false; }
    } else if x == y {
      if i < |s| { assert false; }
    } else {
      if i <= |s| { assert false; }
    }
  }

  ghost predicate NoRepeats<K>(s: seq<K>)
  {
    forall i, j :: 0 <= i < j < |s| ==> s[i] != s[j]
  }

  /** Python's dict, as far as the script uses it: values by key, and the order in which
      the keys were first inserted. */
  datatype Counter<K> = Counter(counts: map<K, int>, order: seq<K>)
  {
    /** Every key is in the order exactly once, and the order holds nothing else. */
    ghost predicate Valid()
    {
      && NoRepeats(order)
      && (forall k :: k in counts ==> k in order)
      && (forall i :: 0 <= i < |order| ==> order[i] in counts)
    }
  }

  type Dict<K> = d: Counter<K> | d.Valid() witness Counter(map[], [])

  /** Lines 30-32 for one key: a new key is first inserted (at the end of the order) with
      count 0, then the key's count goes up by one. */
  function Increment<K>(d: Counter<K>, key: K): Counter<K>
  {
    var d' := if key in d.counts then d else Counter(d.counts[key := 0], d.order + [key]);
    Counter(d'.counts[key := d'.counts[key] + 1], d'.order)
  }

  /** The dict `invalid_counts` after lines 30-32 have run for each of `keys` in turn,
      starting from the empty dict of line 24. */
  function Tally<K>(keys: seq<K>): Counter<K>
    decreases |keys|
  {
    if keys == [] then Counter(map[], [])
    else Increment(Tally(keys[..|keys| - 1]), keys[|keys| - 1])
  }

  /** The tally has an entry for exactly the keys that occur, and its order holds
      exactly the same keys. */
  lemma {:induction false} TallyKeys<K>(keys: seq<K>)
    ensures forall k :: k in Tally(keys).counts <==> k in keys
    ensures forall k :: k in Tally(keys).order <==> k in keys
    decreases |keys|
  {
    if keys != [] {
      var init, k := keys[..|keys| - 1], keys[|keys| - 1];
      TallyKeys(init);
      assert keys == init + [k];
    }
  }

  /** Each key's count is its number of occurrences. */
  lemma {:induction false} TallyCounts<K>(keys: seq<K>)
    ensures forall k :: k in Tally(keys).counts ==> Tally(keys).counts[k] == multiset(keys)[k]
    decreases |keys|
  {
    if keys != [] {
      var init, k := keys[..|keys| - 1], keys[|keys| - 1];
      TallyCounts(init);
      TallyKeys(init);
      assert keys == init + [k];
      assert multiset(keys) == multiset(init) + multiset{k};
    }
  }

  /** The order lists each key once. */
  lemma {:induction false} TallyNoRepeats<K>(keys: seq<K>)
    ensures NoRepeats(Tally(keys).order)
    decreases |keys|
  {
    if keys != [] {
      var init, k := keys[..|keys| - 1], keys[|keys| - 1];
      TallyNoRepeats(init);
      TallyKeys(init);
      var prev := Tally(init).order;
      if k !in init {
        assert forall i :: 0 <= i < |prev| ==> prev[i] != k;
        assert Tally(keys).order == prev + [k];
      }
    }
  }

  /** The tally is a well-formed dict. */
  lemma TallyValid<K>(keys: seq<K>)
    ensures Tally(keys).Valid()
  {
    TallyKeys(keys);
    TallyNoRepeats(keys);
  }

  /** The keys of `order` appear in it by their first occurrence in `keys`. */
  ghost predicate InFirstOccurrenceOrder<K>(order: seq<K>, keys: seq<K>)
  {
    forall i, j :: 0 <= i < j < |order| ==> FirstIndex(keys, order[i]) < FirstIndex(keys, order[j])
  }

  /** One more key adds that key at the end of the order if it is new, and nothing
      otherwise. */
  lemma TallyAppendOrder<K>(init: seq<K>, k: K)
    ensures Tally(init + [k]).order
            == if k in init then Tally(init).order else Tally(init).order + [k]
  {
    assert (init + [k])[..|init|] == init;
    TallyKeys(init);
  }

  lemma TallyOrderMembers<K>(keys: seq<K>)
    ensures forall i :: 0 <= i < |Tally(keys).order| ==> Tally(keys).order[i] in keys
  {
    TallyKeys(keys);
  }

  lemma TallyOrderStep<K>(init: seq<K>, k: K)
    requires InFirstOccurrenceOrder(Tally(init).order, init)
    ensures InFirstOccurrenceOrder(Tally(init + [k]).order, init + [k])
  {
    var keys := init + [k];
    var prev := Tally(init).order;
    TallyAppendOrder(init, k);
    TallyOrderMembers(init);
    var order := Tally(keys).order;
    forall i, j | 0 <= i < j < |order|
      ensures FirstIndex(keys, order[i]) < FirstIndex(keys, order[j])
    {
      FirstIndexAppend(init, k, prev[i]);
      if j < |prev| {
        FirstIndexAppend(init, k, prev[j]);
        assert order[i] == prev[i] && order[j] == prev[j];
      } else {
        FirstIndexAppend(init, k, k);
        assert order[i] == prev[i] && order[j] == k;
      }
    }
  }

  /** The order lists the keys by their first occurrence in `keys`. */
  lemma {:induction false} TallyOrder<K>(keys: seq<K>)
    ensures InFirstOccurrenceOrder(Tally(keys).order, keys)
    decreases |keys|
  {
    if keys != [] {
      var init := keys[..|keys| - 1];
      TallyOrder(init);
      TallyOrderStep(init, keys[|keys| - 1]);
      assert init + [keys[|keys| - 1]] == keys;
    }
  }

  /** The sum of the counts of the keys in `order`. */
  ghost function Sum<K>(counts: map<K, int>, order: seq<K>): int
    decreases |order|
  {
    if order == [] then 0
    else
      var k := order[|order| - 1];
      Sum(counts, order[..|order| - 1]) + if k in counts then counts[k] else 0
  }

  lemma {:induction false} SumOther<K>(counts: map<K, int>, order: seq<K>, k: K, v: int)
    requires k !in order
    ensures Sum(counts[k := v], order) == Sum(counts, order)
    decreases |order|
  {
    if order != [] {
      SumOther(counts, order[..|order| - 1], k, v);
    }
  }

  lemma {:induction false} SumIncrement<K>(counts: map<K, int>, order: seq<K>, k: K)
    requires NoRepeats(order) && k in order && k in counts
    ensures Sum(counts[k := counts[k] + 1], order) == Sum(counts, order) + 1
    decreases |order|
  {
    var init, last := order[..|order| - 1], order[|order| - 1];
    if last == k {
      assert k !in init;
      SumOther(counts, init, k, counts[k] + 1);
    } else {
      assert k in init;
      SumIncrement(counts, init, k);
    }
  }

  /** Lines 30-32 add one to the total of a well-formed dict. */
  lemma IncrementTotal<K>(d: Counter<K>, k: K)
    requires NoRepeats(d.order) && (k in d.counts <==> k in d.order)
    ensures Sum(Increment(d, k).counts, Increment(d, k).order) == Sum(d.counts, d.order) + 1
  {
    if k in d.counts {
      SumIncrement(d.counts, d.order, k);
    } else {
      var counts := d.counts[k := 0];
      var order := d.order + [k];
      SumOther(d.counts, d.order, k, 0);
      assert order[..|order| - 1] == d.order;
      assert NoRepeats(order);
      SumIncrement(counts, order, k);
    }
  }

  /** Every key occurrence is counted once: the counts add up to the number of keys. */
  lemma {:induction false} TallyTotal<K>(keys: seq<K>)
    ensures Sum(Tally(keys).counts, Tally(keys).order) == |keys|
    decreases |keys|
  {
    if keys != [] {
      var init, k := keys[..|keys| - 1], keys[|keys| - 1];
      TallyTotal(init);
      TallyKeys(init);
      TallyNoRepeats(init);
      IncrementTotal(Tally(init), k);
    }
  }

  /** What the dict means for the records: a position is a key exactly when some invalid
      record lies there, and its count is the number of such records. */
  lemma TallyOfRecords<F>(data: seq<seq<string>>, float: string -> Option<F>, key: (F, F))
    requires InvalidKeys(data, float).Ok?
    ensures key in Tally(InvalidKeys(data, float).value).counts <==> NumInvalidAt(data, float, key) > 0
    ensures key in Tally(InvalidKeys(data, float).value).counts ==>
              Tally(InvalidKeys(data, float).value).counts[key] == NumInvalidAt(data, float, key)
  {
    var keys := InvalidKeys(data, float).value;
    InvalidKeysCounted(data, float);
    TallyKeys(keys);
    TallyCounts(keys);
    assert key in keys <==> multiset(keys)[key] > 0;
  }

  /** The counts add up to the number of invalid records. */
  lemma TallyOfRecordsTotal<F>(data: seq<seq<string>>, float: string -> Option<F>)
    requires InvalidKeys(data, float).Ok?
    ensures Sum(Tally(InvalidKeys(data, float).value).counts, Tally(InvalidKeys(data, float).value).order)
            == NumInvalid(data)
  {
    InvalidKeysCounted(data, float);
    TallyTotal(InvalidKeys(data, float).value);
  }

  /** The loop of lines 27-32. Every record is unpacked; a record that passes the test
      of line 28 has its position converted with `float` and the count of that key
      raised by one. The first error stops the script. */
  method CountInvalid<F(==)>(data: seq<seq<string>>, float: string -> Option<F>)
    returns (res: Result<Dict<(F, F)>>)
    ensures res.Err? <==> InvalidKeys(data, float).Err?
    ensures res.Err? ==> res.error == InvalidKeys(data, float).error
    ensures res.Ok? ==> res.value == Tally(InvalidKeys(data, float).value)
  {
    var invalidCounts: map<(F, F), int> := map[];
    var order: seq<(F, F)> := [];
    ghost var keys: seq<(F, F)> := [];
    var i := 0;
    while i < |data|
      invariant 0 <= i <= |data|
      invariant InvalidKeys(data[..i], float) == Ok(keys)
      invariant Counter(invalidCounts, order) == Tally(keys)
    {
      assert data[..i + 1][..i] == data[..i];
      var row := Unpack(data[i]);
      if row.None? {
        ErrorPersists(data, i + 1, float);
        return Err(UnpackError(i, |data[i]|));
      }
      if row.value.wasLookingAtCentre == "False" && row.value.seenStimulus == "True" {
        var x := float(row.value.x);
        if x.None? {
          ErrorPersists(data, i + 1, float);
          return Err(FloatError(i, row.value.x));
        }
        var y := float(row.value.y);
        if y.None? {
          ErrorPersists(data, i + 1, float);
          return Err(FloatError(i, row.value.y));
        }
        var key := (x.value, y.value);
        if key !in invalidCounts {
          invalidCounts := invalidCounts[key := 0];
          order := order + [key];
        }
        invalidCounts := invalidCounts[key := invalidCounts[key] + 1];
        assert (keys + [key])[..|keys|] == keys;
        keys := keys + [key];
      }
      i := i + 1;
    }
    assert data[..i] == data;
    TallyValid(keys);
    return Ok(Counter(invalidCounts, order));
  }
}
