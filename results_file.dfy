/** Lines 15-22 of scripts/invalid.py: reading `stimulus_results.txt` into `data`.

    The file is written one trial per line as `index,(x, y, z),responded,time,latency,looking`,
    after a first line holding a timestamp. Splitting on commas also splits the position,
    so the parser trims the brackets off the first and last coordinate and drops the
    middle one (`fields[2]`). The file's lines are given as a sequence of strings. */
module ResultsFile {
  import opened PyStr
  import opened Errors

  /** `line.strip().split(',')`, line 19. */
  function SplitLine(line: string): (fields: seq<string>)
    ensures |fields| >= 1
  {
    Split(Strip(line, IsSpace), ',')
  }

  /** The characters line 20 trims off the first and the last coordinate. */
  predicate OpenParen(c: char) { c == '(' }
  predicate CloseParen(c: char) { c == ' ' || c == ')' }

  /** The record a line with at least four fields becomes (lines 20-21): field 0 kept,
      field 1 stripped of `(`, the old field 2 gone, the old field 3 stripped of spaces
      and `)`, and the remaining fields kept in order. */
  function Record(fields: seq<string>): (rec: seq<string>)
    requires |fields| >= 4
    ensures |rec| == |fields| - 1
  {
    [fields[0], Strip(fields[1], OpenParen), Strip(fields[3], CloseParen)] + fields[4..]
  }

  /** The record keeps field 0, has field 1 with every `(` gone from both ends, has
      field 3 in place of field 2 with every space and `)` gone from both ends, and keeps
      fields 4 onwards in order. */
  lemma RecordFields(fields: seq<string>)
    requires |fields| >= 4
    ensures Record(fields)[0] == fields[0]
    ensures IsStripOf(Record(fields)[1], fields[1], OpenParen)
    ensures IsStripOf(Record(fields)[2], fields[3], CloseParen)
    ensures Record(fields)[3..] == fields[4..]
  {
    StripSpec(fields[1], OpenParen);
    StripSpec(fields[3], CloseParen);
  }

  /** What lines 19-21 make of one line: its record, or `None` for the IndexError that
      `fields[1]` and `fields[3]` raise on a line with fewer than four fields. */
  function Parse(line: string): (rec: Option<seq<string>>)
  {
    var fields := SplitLine(line);
    if |fields| < 4 then None else Some(Record(fields))
  }

  /** Lines 19-21 for one line, as the script does them: split it, then, in place,
      overwrite `fields[1]` and `fields[3]` with their trimmed forms and delete `fields[2]`. */
  method ParseLine(line: string) returns (rec: Option<seq<string>>)
    ensures rec == Parse(line)
  {
    var fields := SplitLine(line);
    if |fields| < 4 {
      return None;
    }
    ghost var original := fields;
    fields := fields[1 := Strip(fields[1], OpenParen)][3 := Strip(fields[3], CloseParen)];
    fields := fields[..2] + fields[3..];
    assert fields == Record(original) by {
      assert |fields| == |original| - 1;
      assert forall k :: 3 <= k < |fields| ==> fields[k] == original[k + 1];
    }
    return Some(fields);
  }

  /** The outcome of the loop of lines 15-22 on `lines`: line 0 is skipped, every later
      line is parsed in turn, and the first line that does not parse raises. */
  function ReadAll(lines: seq<string>): Result<seq<seq<string>>>
    decreases |lines|
  {
    if |lines| <= 1 then Ok([])
    else match ReadAll(lines[..|lines| - 1])
      case Err(e) => Err(e)
      case Ok(data) => match Parse(lines[|lines| - 1])
        case None => Err(IndexError(|lines| - 1))
        case Some(rec) => Ok(data + [rec])
  }

  /** The loop of lines 15-22: `data` collects the record of every line after the first. */
  method ReadRecords(lines: seq<string>) returns (res: Result<seq<seq<string>>>)
    ensures res == ReadAll(lines)
  {
    if lines == [] {
      return Ok([]);
    }
    var data: seq<seq<string>> := [];
    var i := 1;
    while i < |lines|
      invariant 1 <= i <= |lines|
      invariant ReadAll(lines[..i]) == Ok(data)
    {
      assert lines[..i + 1][..i] == lines[..i];
      var rec := ParseLine(lines[i]);
      if rec.None? {
        ReadAllErrorPersists(lines, i + 1);
        return Err(IndexError(i));
      }
      data := data + [rec.value];
      i := i + 1;
    }
    assert lines[..i] == lines;
    return Ok(data);
  }

  /** Once a prefix of the lines raises, the whole file raises the same error. */
  lemma {:induction false} ReadAllErrorPersists(lines: seq<string>, n: nat)
    requires n <= |lines| && ReadAll(lines[..n]).Err?
    ensures ReadAll(lines) == ReadAll(lines[..n])
    decreases |lines|
  {
    if n < |lines| {
      var init := lines[..|lines| - 1];
      assert init[..n] == lines[..n];
      ReadAllErrorPersists(init, n);
    } else {
      assert lines[..n] == lines;
    }
  }

  /** The file is read exactly when every line after the first parses. */
  lemma {:induction false} ReadAllSucceeds(lines: seq<string>)
    ensures ReadAll(lines).Ok? <==> forall n :: 1 <= n < |lines| ==> Parse(lines[n]).Some?
    decreases |lines|
  {
    if |lines| > 1 {
      var init := lines[..|lines| - 1];
      ReadAllSucceeds(init);
      assert forall n :: 1 <= n < |init| ==> init[n] == lines[n];
    }
  }

  /** A file that is read gives one record per line after the first, in file order. */
  lemma {:induction false} ReadAllRecords(lines: seq<string>)
    requires ReadAll(lines).Ok?
    ensures |ReadAll(lines).value| == (if lines == [] then 0 else |lines| - 1)
    ensures forall k :: 0 <= k < |ReadAll(lines).value| ==>
              Parse(lines[k + 1]) == Some(ReadAll(lines).value[k])
    decreases |lines|
  {
    if |lines| > 1 {
      var init := lines[..|lines| - 1];
      ReadAllRecords(init);
      var data := ReadAll(init).value;
      var last := Parse(lines[|lines| - 1]).value;
      assert ReadAll(lines).value == data + [last];
      assert forall k :: 1 <= k <= |data| ==> lines[k] == init[k];
    }
  }

  /** A file that is not read stops at the first line after the first that does not
      parse, with IndexError for that line. */
  lemma {:induction false} ReadAllFirstError(lines: seq<string>)
    requires ReadAll(lines).Err?
    ensures ReadAll(lines).error.IndexError?
    ensures 1 <= ReadAll(lines).error.line < |lines|
    ensures Parse(lines[ReadAll(lines).error.line]).None?
    ensures forall m :: 1 <= m < ReadAll(lines).error.line ==> Parse(lines[m]).Some?
    decreases |lines|
  {
    var init := lines[..|lines| - 1];
    if ReadAll(init).Err? {
      ReadAllFirstError(init);
      assert forall m :: 1 <= m < |init| ==> init[m] == lines[m];
    } else {
      ReadAllSucceeds(init);
      assert forall m :: 1 <= m < |init| ==> init[m] == lines[m];
    }
  }

  /** A field as the experiment writes it: a number or a C# boolean, so no comma, no
      bracket and no white space. */
  predicate Plain(s: string)
  {
    forall k :: 0 <= k < |s| ==> s[k] != ',' && s[k] != '(' && s[k] != ')' && !IsSpace(s[k])
  }

  /** A position as Unity prints a `Vector3`: `(x, y, z)`. */
  function Coordinates(x: string, y: string, z: string): string
  {
    "(" + x + ", " + y + ", " + z + ")"
  }

  /** One results line as `RecordResults` writes it: the index, the position, the
      response, the two times and whether the subject was looking at the stimulus,
      separated by commas. */
  function WrittenLine(index: string, x: string, y: string, z: string, response: string,
                       sinceStart: string, sinceShown: string, looking: string): string
  {
    Join([index, Coordinates(x, y, z), response, sinceStart, sinceShown, looking], ',')
  }

  /** The comma-separated fields of a written line: the position falls apart into
      three of them. */
  function WrittenFields(index: string, x: string, y: string, z: string, response: string,
                         sinceStart: string, sinceShown: string, looking: string): seq<string>
  {
    [index, "(" + x, " " + y, " " + z + ")", response, sinceStart, sinceShown, looking]
  }

  lemma JoinWrittenFields(index: string, x: string, y: string, z: string, response: string,
                          sinceStart: string, sinceShown: string, looking: string)
    ensures Join(WrittenFields(index, x, y, z, response, sinceStart, sinceShown, looking), ',')
            == WrittenLine(index, x, y, z, response, sinceStart, sinceShown, looking)
  {
    var tail := [response, sinceStart, sinceShown, looking];
    var j := Join(tail, ',');
    var p3 := [" " + z + ")"] + tail;
    var p2 := [" " + y] + p3;
    var p1 := ["(" + x] + p2;
    JoinCons(" " + z + ")", tail, ',');
    JoinCons(" " + y, p3, ',');
    JoinCons("(" + x, p2, ',');
    JoinCons(index, p1, ',');
    assert WrittenFields(index, x, y, z, response, sinceStart, sinceShown, looking) == [index] + p1;
    assert ", " == [','] + " ";
    assert Join(p1, ',') == Coordinates(x, y, z) + [','] + j;
    JoinCons(Coordinates(x, y, z), tail, ',');
    JoinCons(index, [Coordinates(x, y, z)] + tail, ',');
    assert [index, Coordinates(x, y, z), response, sinceStart, sinceShown, looking]
           == [index] + ([Coordinates(x, y, z)] + tail);
  }

  /** Line 19 on a written line: `strip()` leaves it alone and `split(',')` gives back
      the fields it was written from. */
  lemma SplitWrittenLine(index: string, x: string, y: string, z: string, response: string,
                         sinceStart: string, sinceShown: string, looking: string)
    requires Plain(index) && Plain(x) && Plain(y) && Plain(z) && Plain(response)
    requires Plain(sinceStart) && Plain(sinceShown) && Plain(looking)
    ensures SplitLine(WrittenLine(index, x, y, z, response, sinceStart, sinceShown, looking))
            == WrittenFields(index, x, y, z, response, sinceStart, sinceShown, looking)
  {
    var line := WrittenLine(index, x, y, z, response, sinceStart, sinceShown, looking);
    var pieces := WrittenFields(index, x, y, z, response, sinceStart, sinceShown, looking);
    JoinWrittenFields(index, x, y, z, response, sinceStart, sinceShown, looking);
    assert line != [] && !IsSpace(line[0]) && !IsSpace(line[|line| - 1]) by {
      JoinHead(pieces, ',');
      JoinLast(pieces, ',');
      assert line[0] == if index == [] then ',' else index[0];
      assert line[|line| - 1] == if looking == [] then ',' else looking[|looking| - 1];
    }
    StripPadded([], line, [], IsSpace);
    assert [] + line + [] == line;
    assert forall k :: 0 <= k < |pieces| ==> ',' !in pieces[k] by {
      assert ',' !in x && ',' !in y && ',' !in z;
    }
    SplitJoin(pieces, ',');
  }

  /** Lines 19-21 undo the writer: a written line parses into seven fields, the position
      reduced to its first and last coordinates and every other field unchanged. */
  lemma ParseWrittenLine(index: string, x: string, y: string, z: string, response: string,
                         sinceStart: string, sinceShown: string, looking: string)
    requires Plain(index) && Plain(x) && Plain(y) && Plain(z) && Plain(response)
    requires Plain(sinceStart) && Plain(sinceShown) && Plain(looking)
    ensures Parse(WrittenLine(index, x, y, z, response, sinceStart, sinceShown, looking))
            == Some([index, x, z, response, sinceStart, sinceShown, looking])
  {
    var pieces := WrittenFields(index, x, y, z, response, sinceStart, sinceShown, looking);
    SplitWrittenLine(index, x, y, z, response, sinceStart, sinceShown, looking);
    StripPadded("(", x, [], OpenParen);
    assert "(" + x + [] == "(" + x;
    StripPadded(" ", z, ")", CloseParen);
    assert Strip(pieces[1], OpenParen) == x;
    assert Strip(pieces[3], CloseParen) == z;
    assert pieces[4..] == [response, sinceStart, sinceShown, looking];
    assert Record(pieces) == [index, x, z] + pieces[4..];
    var line := WrittenLine(index, x, y, z, response, sinceStart, sinceShown, looking);
    assert SplitLine(line) == pieces;
    assert Parse(line) == Some(Record(pieces));
    assert [index, x, z] + [response, sinceStart, sinceShown, looking]
           == [index, x, z, response, sinceStart, sinceShown, looking];
  }
}
