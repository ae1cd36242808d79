/** The text of one result box (main.py's `upload_csv`): a header naming the
    sensor and its dates, then the table of daily averages. The table is
    rendered by pandas, which is not part of this model; it is a parameter. */
module ResultText {
  import opened Wrappers
  import opened CharClasses
  import opened TextLines
  import opened SensorFilename
  import opened ClipboardCopy

  /** The header line of a result box (the source concatenates left to right;
      the grouping below builds the same string). */
  function Header(m: SensorMetadata): string {
    "Sensor = " + (m.sensor + ("    Dates = " + (m.dateFrom + (" to " + m.dateTo))))
  }

  /** The text shown for a file with base name `baseName` whose averages
      rendered as `table`: only files whose name carries all three metadata
      fields get a box. */
  function ResultBoxText(baseName: string, table: string): (r: Option<string>)
    ensures r.Some? <==> Extract(baseName).Some?
    ensures r.Some? ==> SplitLines(r.value) == [Header(Extract(baseName).value)] + SplitLines(table)
    ensures r.Some? ==> |r.value| > |table| && r.value[|r.value| - |table|..] == table
  {
    var (sensor, dateFrom, dateTo) := ExtractFields(baseName);
    if sensor.Some? && dateFrom.Some? && dateTo.Some? then
      var m := SensorMetadata(sensor.value, dateFrom.value, dateTo.value);
      var text := Header(m) + "\n" + table;
      assert text[|text| - |table|..] == table;
      ExtractedAreFields(baseName);
      HeaderIsOneLine(m);
      SplitLineThenRest(Header(m), table);
      Some(text)
    else None
  }

  /** Every metadata field that the parser returns is a single whitespace-free
      field. */
  lemma ExtractedAreFields(name: string)
    requires Extract(name).Some?
    ensures var m := Extract(name).value;
            IsField(m.sensor) && IsField(m.dateFrom) && IsField(m.dateTo)
  {
    var m := Extract(name).value;
    assert forall k :: 0 <= k < 10 ==> m.dateFrom[k] == '/' || IsDigit(m.dateFrom[k]);
    assert forall k :: 0 <= k < 10 ==> m.dateTo[k] == '/' || IsDigit(m.dateTo[k]);
  }

  lemma FieldSpaceRest(a: string, w: string, rest: string)
    requires IsField(a) && |w| > 0 && AllSpace(w)
    ensures Fields(a + w + rest) == [a] + Fields(rest)
  {
    assert a + w + rest == a + (w + rest);
    FieldThenRest(a, w + rest);
    FieldsAfterSpace(w, rest);
  }

  lemma LiteralFields()
    ensures IsField("Sensor") && IsField("=") && IsField("Dates") && IsField("to")
    ensures AllSpace(" ") && AllSpace("    ")
  {
  }

  // Sequence displays with one or two elements put in front, stated for an
  // arbitrary element type so that no string is unfolded.

  lemma PrependToOne<T>(x: T, a: T)
    ensures [x] + [a] == [x, a]
  {
  }

  lemma PrependToTwo<T>(x: T, a: T, b: T)
    ensures [x] + [a, b] == [x, a, b]
  {
  }

  lemma PrependTwoToThree<T>(x: T, y: T, a: T, b: T, c: T)
    ensures [x] + ([y] + [a, b, c]) == [x, y, a, b, c]
  {
  }

  lemma PrependToFive<T>(x: T, a: T, b: T, c: T, d: T, e: T)
    ensures [x] + [a, b, c, d, e] == [x, a, b, c, d, e]
  {
  }

  lemma PrependTwoToSix<T>(x: T, y: T, a: T, b: T, c: T, d: T, e: T, f: T)
    ensures [x] + ([y] + [a, b, c, d, e, f]) == [x, y, a, b, c, d, e, f]
  {
  }

  /** The header's literal pieces, split at their blanks. */
  lemma SensorLiteral(rest: string)
    ensures "Sensor = " + rest == "Sensor" + " " + ("=" + " " + rest)
  {
  }

  lemma DatesLiteral(rest: string)
    ensures "    Dates = " + rest == "    " + ("Dates" + " " + ("=" + " " + rest))
  {
  }

  lemma ToLiteral(rest: string)
    ensures " to " + rest == " " + ("to" + " " + rest)
  {
  }

  /** `"= " + rest` splits into `=` and the fields of `rest`. */
  lemma EqualsFields(rest: string)
    requires rest != [] && !IsSpace(rest[0])
    ensures Fields("=" + " " + rest) == ["="] + Fields(rest)
  {
    LiteralFields();
    FieldSpaceRest("=", " ", rest);
  }

  /** The header always tokenises into eight fields, so the copy filter,
      which keeps two-field lines only, never keeps it. */
  lemma HeaderFields(m: SensorMetadata)
    requires IsField(m.sensor) && IsField(m.dateFrom) && IsField(m.dateTo)
    ensures Fields(Header(m)) == ["Sensor", "=", m.sensor, "Dates", "=", m.dateFrom, "to", m.dateTo]
  {
    LiteralFields();
    var t5 := " to " + m.dateTo;
    var t4 := m.dateFrom + t5;
    var t3 := "    Dates = " + t4;
    var t2 := m.sensor + t3;
    // " to " + dateTo
    ToLiteral(m.dateTo);
    FieldThenRest(m.dateTo, "");
    assert m.dateTo + "" == m.dateTo;
    FieldSpaceRest("to", " ", m.dateTo);
    FieldsAfterSpace(" ", "to" + " " + m.dateTo);
    PrependToOne("to", m.dateTo);
    assert Fields(t5) == ["to", m.dateTo];
    // dateFrom + ...
    FieldThenRest(m.dateFrom, t5);
    PrependToTwo(m.dateFrom, "to", m.dateTo);
    assert Fields(t4) == [m.dateFrom, "to", m.dateTo];
    // "    Dates = " + ...
    DatesLiteral(t4);
    EqualsFields(t4);
    FieldSpaceRest("Dates", " ", "=" + " " + t4);
    FieldsAfterSpace("    ", "Dates" + " " + ("=" + " " + t4));
    PrependTwoToThree("Dates", "=", m.dateFrom, "to", m.dateTo);
    assert Fields(t3) == ["Dates", "=", m.dateFrom, "to", m.dateTo];
    // sensor + ...
    FieldThenRest(m.sensor, t3);
    PrependToFive(m.sensor, "Dates", "=", m.dateFrom, "to", m.dateTo);
    assert Fields(t2) == [m.sensor, "Dates", "=", m.dateFrom, "to", m.dateTo];
    // "Sensor = " + ...
    SensorLiteral(t2);
    EqualsFields(t2);
    FieldSpaceRest("Sensor", " ", "=" + " " + t2);
    PrependTwoToSix("Sensor", "=", m.sensor, "Dates", "=", m.dateFrom, "to", m.dateTo);
  }

  /** The header of a box holds no newline, and starts and ends with a
      non-space character. */
  lemma HeaderIsOneLine(m: SensorMetadata)
    requires IsField(m.sensor) && IsField(m.dateFrom) && IsField(m.dateTo)
    ensures NoNewline(Header(m))
    ensures Header(m)[0] == 'S' && !IsSpace(Header(m)[|Header(m)| - 1])
  {
    FieldHasNoNewline(m.sensor);
    FieldHasNoNewline(m.dateFrom);
    FieldHasNoNewline(m.dateTo);
    var h := Header(m);
    assert h[|h| - 1] == m.dateTo[|m.dateTo| - 1];
  }

  /** The header line of a result box never reaches the clipboard: copying
      the box gives what copying the table alone gives. */
  lemma HeaderNeverCopied(baseName: string, table: string)
    requires Extract(baseName).Some?
    ensures CopyText(ResultBoxText(baseName, table).value) == CopyText(table)
  {
    var m := Extract(baseName).value;
    ExtractedAreFields(baseName);
    HeaderFields(m);
    HeaderIsOneLine(m);
    assert !IsSpace('S');
    CopySkipsFirstLine(Header(m), table);
  }

  /** Round trip through a result box: a table whose lines are (date, value)
      pairs, each line with its own run of blanks between the two, comes back
      from the clipboard as the same pairs, in the same order, tab-separated,
      without the header. */
  lemma CopyRecoversTable(baseName: string, ps: seq<Pair>, seps: seq<string>)
    requires Extract(baseName).Some?
    requires AreFieldPairs(ps)
    requires |seps| == |ps| && AreSeparators(seps)
    ensures CopyText(ResultBoxText(baseName, JoinLines(SpacedRows(ps, seps))).value)
            == JoinLines(Rows(ps, "\t"))
  {
    HeaderNeverCopied(baseName, JoinLines(SpacedRows(ps, seps)));
    CopyOfRows(ps, seps);
  }
}
