/** The text-to-clipboard transformation of main.py's `copy_results`:
      lines = text.strip().split('\n')
      keep, in order, the lines that `str.split()` cuts into exactly two
      fields, each rendered as `field1 + "\t" + field2`
      join the kept lines with '\n'
    Reading the Text widget and writing the clipboard are not modelled; this
    is the string function between them. */
module ClipboardCopy {
  import opened CharClasses
  import opened TextLines

  /** The two fields of a kept line. */
  type Pair = (string, string)

  predicate AreFieldPairs(ps: seq<Pair>) {
    forall k :: 0 <= k < |ps| ==> IsField(ps[k].0) && IsField(ps[k].1)
  }

  /** Each pair rendered as first field, separator, second field. */
  function Rows(ps: seq<Pair>, sep: string): (r: seq<string>)
    ensures |r| == |ps|
    ensures forall k :: 0 <= k < |ps| ==> r[k] == ps[k].0 + sep + ps[k].1
  {
    SpacedRows(ps, Repeat(sep, |ps|))
  }

  /** `n` copies of `x`. */
  function Repeat<T>(x: T, n: nat): (r: seq<T>)
    ensures |r| == n && forall k :: 0 <= k < n ==> r[k] == x
  {
    if n == 0 then [] else [x] + Repeat(x, n - 1)
  }

  /** The fields of every line that has exactly two, in line order. */
  function TwoFieldLines(lines: seq<string>): (r: seq<Pair>)
    ensures |r| <= |lines|
    ensures AreFieldPairs(r)
  {
    if |lines| == 0 then []
    else
      var f := Fields(lines[0]);
      (if |f| == 2 then [(f[0], f[1])] else []) + TwoFieldLines(lines[1..])
  }

  /** The clipboard text for the contents `text` of a result box. It never
      begins or ends with whitespace, so in particular it has no trailing
      newline. */
  function CopyText(text: string): (r: string)
    ensures r == [] || (!IsSpace(r[0]) && !IsSpace(r[|r| - 1]))
  {
    var ps := TwoFieldLines(SplitLines(Strip(text)));
    TabRowsTrimmed(ps);
    JoinLines(Rows(ps, "\t"))
  }

  /** Rows of fields joined into text begin and end with a field character. */
  lemma TabRowsTrimmed(ps: seq<Pair>)
    requires AreFieldPairs(ps)
    ensures var r := JoinLines(Rows(ps, "\t"));
            r == [] || (!IsSpace(r[0]) && !IsSpace(r[|r| - 1]))
  {
    var rows := Rows(ps, "\t");
    var r := JoinLines(rows);
    if |ps| > 0 {
      var last := ps[|ps| - 1].1;
      assert r[0] == rows[0][0] == ps[0].0[0];
      assert r[|r| - 1] == rows[|ps| - 1][|rows[|ps| - 1]| - 1] == last[|last| - 1];
    }
  }

  // ---------------------------------------------------------------------
  // Which lines are kept
  // ---------------------------------------------------------------------

  /** `idx` lists, in increasing order, the positions in `lines` that `ps`
      came from, and every line with exactly two fields is among them. */
  ghost predicate Selects(lines: seq<string>, ps: seq<Pair>, idx: seq<nat>) {
    && |idx| == |ps|
    && (forall k :: 0 <= k < |idx| ==> idx[k] < |lines| && Fields(lines[idx[k]]) == [ps[k].0, ps[k].1])
    && (forall k, l :: 0 <= k < l < |idx| ==> idx[k] < idx[l])
    && (forall j :: 0 <= j < |lines| && |Fields(lines[j])| == 2 ==> j in idx)
  }

  function Shift(idx: seq<nat>): (r: seq<nat>)
    ensures |r| == |idx|
    ensures forall k :: 0 <= k < |idx| ==> r[k] == idx[k] + 1
  {
    seq(|idx|, k requires 0 <= k < |idx| => idx[k] + 1)
  }

  lemma TwoFieldLinesCons(l: string, ls: seq<string>)
    ensures var f := Fields(l);
            TwoFieldLines([l] + ls) == (if |f| == 2 then [(f[0], f[1])] else []) + TwoFieldLines(ls)
  {
    assert ([l] + ls)[1..] == ls;
  }

  /** The positions that a line contributes in front of the rest. */
  function HeadIndex(l: string): seq<nat> {
    if |Fields(l)| == 2 then [0] else []
  }

  /** The pair that a line contributes in front of the rest. */
  function HeadPair(l: string): seq<Pair> {
    var f := Fields(l);
    if |f| == 2 then [(f[0], f[1])] else []
  }

  lemma SelectsConsFields(l: string, rest: seq<string>, ps: seq<Pair>, idx: seq<nat>)
    requires Selects(rest, ps, idx)
    ensures var lines, idx2, ps2 := [l] + rest, HeadIndex(l) + Shift(idx), HeadPair(l) + ps;
            forall k :: 0 <= k < |idx2| ==>
              idx2[k] < |lines| && Fields(lines[idx2[k]]) == [ps2[k].0, ps2[k].1]
  {
    var lines, idx2, ps2 := [l] + rest, HeadIndex(l) + Shift(idx), HeadPair(l) + ps;
    var n := |HeadIndex(l)|;
    forall k | 0 <= k < |idx2|
      ensures idx2[k] < |lines| && Fields(lines[idx2[k]]) == [ps2[k].0, ps2[k].1]
    {
      if k >= n {
        assert idx2[k] == idx[k - n] + 1;
        assert lines[idx2[k]] == rest[idx[k - n]];
        assert ps2[k] == ps[k - n];
      }
    }
  }

  lemma SelectsConsOrdered(l: string, idx: seq<nat>)
    requires forall k, m :: 0 <= k < m < |idx| ==> idx[k] < idx[m]
    ensures var idx2 := HeadIndex(l) + Shift(idx);
            forall k, m :: 0 <= k < m < |idx2| ==> idx2[k] < idx2[m]
  {
    var idx2 := HeadIndex(l) + Shift(idx);
    var n := |HeadIndex(l)|;
    forall k, m | 0 <= k < m < |idx2| ensures idx2[k] < idx2[m] {
      if k >= n {
        assert idx2[k] == idx[k - n] + 1;
      }
      assert idx2[m] == idx[m - n] + 1;
    }
  }

  lemma SelectsConsComplete(l: string, rest: seq<string>, idx: seq<nat>)
    requires forall j :: 0 <= j < |rest| && |Fields(rest[j])| == 2 ==> j in idx
    ensures var lines, idx2 := [l] + rest, HeadIndex(l) + Shift(idx);
            forall j :: 0 <= j < |lines| && |Fields(lines[j])| == 2 ==> j in idx2
  {
    var lines, idx2 := [l] + rest, HeadIndex(l) + Shift(idx);
    var n := |HeadIndex(l)|;
    forall j | 0 <= j < |lines| && |Fields(lines[j])| == 2 ensures j in idx2 {
      if j > 0 {
        assert lines[j] == rest[j - 1];
        var k :| 0 <= k < |idx| && idx[k] == j - 1;
        assert idx2[n + k] == j;
      } else {
        assert idx2[0] == 0;
      }
    }
  }

  /** The kept pairs are exactly the two-field lines, in their original order,
      with their fields; every other line is dropped. */
  lemma {:induction false} TwoFieldLinesSelect(lines: seq<string>)
    ensures exists idx :: Selects(lines, TwoFieldLines(lines), idx)
    decreases |lines|
  {
    if |lines| == 0 {
      assert Selects(lines, TwoFieldLines(lines), []);
    } else {
      var l, rest := lines[0], lines[1..];
      TwoFieldLinesSelect(rest);
      var ps := TwoFieldLines(rest);
      var idx :| Selects(rest, ps, idx);
      assert lines == [l] + rest;
      assert TwoFieldLines(lines) == HeadPair(l) + ps;
      SelectsConsFields(l, rest, ps, idx);
      SelectsConsOrdered(l, idx);
      SelectsConsComplete(l, rest, idx);
      assert Selects(lines, TwoFieldLines(lines), HeadIndex(l) + Shift(idx));
    }
  }

  /** Separators between the two fields of each row: non-empty whitespace
      without a newline, possibly different on every row (as when a table
      right-aligns its values). */
  predicate AreSeparators(seps: seq<string>) {
    forall k :: 0 <= k < |seps| ==> |seps[k]| > 0 && AllSpace(seps[k]) && NoNewline(seps[k])
  }

  /** Each pair rendered as first field, that row's separator, second field. */
  function SpacedRows(ps: seq<Pair>, seps: seq<string>): (r: seq<string>)
    requires |seps| == |ps|
    ensures |r| == |ps|
    ensures forall k :: 0 <= k < |ps| ==> r[k] == ps[k].0 + seps[k] + ps[k].1
  {
    seq(|ps|, k requires 0 <= k < |ps| => ps[k].0 + seps[k] + ps[k].1)
  }

  /** Rows of two fields separated by whitespace are kept, field for field,
      whatever whitespace each row uses. */
  lemma {:induction false} TwoFieldLinesOfRows(ps: seq<Pair>, seps: seq<string>)
    requires AreFieldPairs(ps)
    requires |seps| == |ps| && AreSeparators(seps)
    ensures TwoFieldLines(SpacedRows(ps, seps)) == ps
    decreases |ps|
  {
    if |ps| > 0 {
      var rows := SpacedRows(ps, seps);
      FieldsOfPair(ps[0].0, seps[0], ps[0].1);
      assert rows[1..] == SpacedRows(ps[1..], seps[1..]);
      TwoFieldLinesOfRows(ps[1..], seps[1..]);
      assert ps == [ps[0]] + ps[1..];
    }
  }

  /** A leading whitespace character either ends an empty first line or
      pads the first line; it never changes what is kept. */
  lemma TwoFieldLinesDropSpace(x: string)
    requires |x| > 0 && IsSpace(x[0])
    ensures TwoFieldLines(SplitLines(x)) == TwoFieldLines(SplitLines(x[1..]))
  {
    if x[0] == '\n' {
      DropEmptyLine(x);
    } else {
      DropPadding(x);
    }
  }

  lemma DropEmptyLine(x: string)
    requires |x| > 0 && x[0] == '\n'
    ensures TwoFieldLines(SplitLines(x)) == TwoFieldLines(SplitLines(x[1..]))
  {
    var rest := SplitLines(x[1..]);
    assert SplitLines(x) == [""] + rest;
    TwoFieldLinesCons("", rest);
  }

  lemma DropPadding(x: string)
    requires |x| > 0 && IsSpace(x[0]) && x[0] != '\n'
    ensures TwoFieldLines(SplitLines(x)) == TwoFieldLines(SplitLines(x[1..]))
  {
    var rest := SplitLines(x[1..]);
    assert SplitLines(x) == [[x[0]] + rest[0]] + rest[1..];
    assert Fields([x[0]] + rest[0]) == Fields(rest[0]) by {
      FieldsAfterSpace([x[0]], rest[0]);
    }
    TwoFieldLinesCons([x[0]] + rest[0], rest[1..]);
    TwoFieldLinesCons(rest[0], rest[1..]);
    assert rest == [rest[0]] + rest[1..];
  }

  /** Whitespace at the start of the text only removes lines without fields
      and leading blanks of the first line, so it never changes what is kept. */
  lemma {:induction false} TwoFieldLinesTrimStart(x: string)
    ensures TwoFieldLines(SplitLines(TrimStart(x))) == TwoFieldLines(SplitLines(x))
    decreases |x|
  {
    if |x| > 0 && IsSpace(x[0]) {
      TwoFieldLinesTrimStart(x[1..]);
      TwoFieldLinesDropSpace(x);
    }
  }

  // ---------------------------------------------------------------------
  // Properties of the clipboard text
  // ---------------------------------------------------------------------

  lemma FieldHasNoNewline(s: string)
    requires IsField(s)
    ensures NoNewline(s)
  {
    assert forall k :: 0 <= k < |s| ==> s[k] != '\n' by {
      assert IsSpace('\n');
    }
  }

  /** Text made of rows of two fields (separated on each row by whitespace
      that is not a newline) is copied as the same rows with a tab between
      the fields. */
  lemma CopyOfRows(ps: seq<Pair>, seps: seq<string>)
    requires AreFieldPairs(ps)
    requires |seps| == |ps| && AreSeparators(seps)
    ensures CopyText(JoinLines(SpacedRows(ps, seps))) == JoinLines(Rows(ps, "\t"))
  {
    if |ps| > 0 {
      RowsTextTrimmed(ps, seps);
      SpacedRowsAreLines(ps, seps);
      SplitJoinLines(SpacedRows(ps, seps));
      TwoFieldLinesOfRows(ps, seps);
    }
  }

  /** Rows of fields, joined into text, begin and end with a field
      character, so `strip()` leaves them alone. */
  lemma RowsTextTrimmed(ps: seq<Pair>, seps: seq<string>)
    requires AreFieldPairs(ps) && |ps| > 0 && |seps| == |ps|
    ensures Strip(JoinLines(SpacedRows(ps, seps))) == JoinLines(SpacedRows(ps, seps))
  {
    var rows := SpacedRows(ps, seps);
    var text := JoinLines(rows);
    var last := |ps| - 1;
    assert text[0] == rows[0][0] == ps[0].0[0];
    assert text[|text| - 1] == rows[last][|rows[last]| - 1] == ps[last].1[|ps[last].1| - 1];
    StripTrimmed(text);
  }

  /** Copying what was copied changes nothing. */
  lemma CopyIdempotent(text: string)
    ensures CopyText(CopyText(text)) == CopyText(text)
  {
    var ps := TwoFieldLines(SplitLines(Strip(text)));
    var tabs := Repeat("\t", |ps|);
    assert AllSpace("\t") && NoNewline("\t");
    assert SpacedRows(ps, tabs) == Rows(ps, "\t");
    CopyOfRows(ps, tabs);
  }

  /** Rows of fields, separated by whitespace without a newline, are lines. */
  lemma SpacedRowsAreLines(ps: seq<Pair>, seps: seq<string>)
    requires AreFieldPairs(ps) && |seps| == |ps| && AreSeparators(seps)
    ensures forall k :: 0 <= k < |ps| ==> NoNewline(SpacedRows(ps, seps)[k])
  {
    forall k | 0 <= k < |ps| ensures NoNewline(SpacedRows(ps, seps)[k]) {
      FieldHasNoNewline(ps[k].0);
      FieldHasNoNewline(ps[k].1);
    }
  }

  /** The lines of the clipboard text are, in order, the two-field lines of
      the stripped text (as selected by `TwoFieldLinesSelect`) rendered with a
      tab; when there are none the clipboard text is empty. */
  lemma CopyOutputLines(text: string)
    ensures var ps := TwoFieldLines(SplitLines(Strip(text)));
            && (|ps| == 0 ==> CopyText(text) == "")
            && (|ps| > 0 ==> SplitLines(CopyText(text)) == Rows(ps, "\t"))
  {
    var ps := TwoFieldLines(SplitLines(Strip(text)));
    if |ps| > 0 {
      TabRowsSplit(ps);
    }
  }

  /** Tab-separated rows of fields split back into the same rows. */
  lemma TabRowsSplit(ps: seq<Pair>)
    requires AreFieldPairs(ps) && |ps| > 0
    ensures SplitLines(JoinLines(Rows(ps, "\t"))) == Rows(ps, "\t")
  {
    var tabs := Repeat("\t", |ps|);
    assert AllSpace("\t") && NoNewline("\t");
    assert AreSeparators(tabs);
    SpacedRowsAreLines(ps, tabs);
    SplitJoinLines(SpacedRows(ps, tabs));
  }

  /** A first line that does not have exactly two fields, and that neither
      begins nor ends with whitespace, contributes nothing: the clipboard
      text is that of the rest. */
  lemma CopySkipsFirstLine(h: string, body: string)
    requires |h| > 0 && !IsSpace(h[0]) && !IsSpace(h[|h| - 1])
    requires NoNewline(h) && |Fields(h)| != 2
    ensures CopyText(h + "\n" + body) == CopyText(body)
  {
    if AllSpace(body) {
      SkipFirstLineBlankRest(h, body);
    } else {
      SkipFirstLineTextRest(h, body);
    }
  }

  /** Whitespace after a trimmed line, newline included, is all cut. */
  lemma StripBlankTail(h: string, body: string)
    requires |h| > 0 && !IsSpace(h[0]) && !IsSpace(h[|h| - 1])
    requires AllSpace(body)
    ensures Strip(h + "\n" + body) == h
  {
    var w := "\n" + body;
    assert h + "\n" + body == h + w;
    assert AllSpace(w) by {
      assert IsSpace(w[0]);
      assert forall k :: 1 <= k < |w| ==> w[k] == body[k - 1];
    }
    TrimEndAllSpace(h, w);
    StripTrimmed(h);
  }

  lemma StripAllSpace(body: string)
    requires AllSpace(body)
    ensures Strip(body) == ""
  {
    TrimEndAllSpace("", body);
    assert "" + body == body;
  }

  lemma SkipFirstLineBlankRest(h: string, body: string)
    requires |h| > 0 && !IsSpace(h[0]) && !IsSpace(h[|h| - 1])
    requires NoNewline(h) && |Fields(h)| != 2
    requires AllSpace(body)
    ensures TwoFieldLines(SplitLines(Strip(h + "\n" + body))) == []
    ensures TwoFieldLines(SplitLines(Strip(body))) == []
  {
    StripBlankTail(h, body);
    SplitNoNewline(h);
    TwoFieldLinesCons(h, []);
    assert [h] + [] == [h];
    StripAllSpace(body);
  }

  /** Text after a newline-ended first line keeps the first line whole and
      loses only its own trailing whitespace. */
  lemma StripTextTail(h: string, body: string)
    requires |h| > 0 && !IsSpace(h[0])
    requires !AllSpace(body)
    ensures Strip(h + "\n" + body) == h + "\n" + TrimEnd(body)
  {
    TrimEndAfterLine(h, body);
    var t := h + "\n" + TrimEnd(body);
    assert t[0] == h[0];
    TrimStartNoLeadingSpace(t);
  }

  lemma TrimEndAfterLine(h: string, body: string)
    requires !AllSpace(body)
    ensures TrimEnd(h + "\n" + body) == h + "\n" + TrimEnd(body)
  {
    var w := "\n" + body;
    assert !AllSpace(w) by {
      var k :| 0 <= k < |body| && !IsSpace(body[k]);
      assert w[k + 1] == body[k];
    }
    assert h + "\n" + body == h + w;
    TrimEndAppend(h, w);
    TrimEndAppend("\n", body);
    assert h + ("\n" + TrimEnd(body)) == h + "\n" + TrimEnd(body);
  }

  lemma SkipFirstLineTextRest(h: string, body: string)
    requires |h| > 0 && !IsSpace(h[0])
    requires NoNewline(h) && |Fields(h)| != 2
    requires !AllSpace(body)
    ensures TwoFieldLines(SplitLines(Strip(h + "\n" + body)))
            == TwoFieldLines(SplitLines(Strip(body)))
  {
    var e := TrimEnd(body);
    StripTextTail(h, body);
    SplitLineThenRest(h, e);
    TwoFieldLinesCons(h, SplitLines(e));
    TwoFieldLinesTrimStart(e);
  }
}
