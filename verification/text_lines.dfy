/** The three Python string primitives the clipboard filter is built from:
    `str.strip()`, `str.split('\n')` with `'\n'.join(...)`, and the
    whitespace tokeniser `str.split()`. */
module TextLines {
  import opened CharClasses

  // ---------------------------------------------------------------------
  // str.strip()
  // ---------------------------------------------------------------------

  /** Drops leading whitespace. */
  function TrimStart(s: string): (r: string)
    ensures |r| <= |s| && r == s[|s| - |r|..]
    ensures AllSpace(s[..|s| - |r|])
    ensures r == [] || !IsSpace(r[0])
    decreases |s|
  {
    if |s| > 0 && IsSpace(s[0]) then
      var r := TrimStart(s[1..]);
      assert s[1..][|s| - 1 - |r|..] == s[|s| - |r|..];
      assert forall k :: 1 <= k < |s| - |r| ==> s[k] == s[1..][..|s| - 1 - |r|][k - 1];
      r
    else s
  }

  /** Drops trailing whitespace. */
  function TrimEnd(s: string): (r: string)
    ensures |r| <= |s| && r == s[..|r|]
    ensures AllSpace(s[|r|..])
    ensures r == [] || !IsSpace(r[|r| - 1])
    decreases |s|
  {
    if |s| > 0 && IsSpace(s[|s| - 1]) then
      var t := s[..|s| - 1];
      var r := TrimEnd(t);
      assert t[..|r|] == s[..|r|];
      assert forall k :: |r| <= k < |s| - 1 ==> s[k] == t[|r|..][k - |r|];
      r
    else s
  }

  /** Python's `str.strip()`: the result neither starts nor ends with
      whitespace. */
  function Strip(s: string): (r: string)
    ensures |r| <= |s|
    ensures r == [] || (!IsSpace(r[0]) && !IsSpace(r[|r| - 1]))
  {
    TrimStart(TrimEnd(s))
  }

  lemma SlicesOfPrefix<T>(s: seq<T>, n: nat, i: nat)
    requires i <= n <= |s|
    ensures s[..n][..i] == s[..i] && s[..n][i..] == s[i..n]
  {
  }

  /** `strip()` cuts only whitespace, and only at the two ends: its result is
      a slice of the text with nothing but whitespace on either side. */
  lemma StripCutsOnlySpace(s: string)
    ensures var r := Strip(s);
            exists i :: 0 <= i <= |s| - |r| && r == s[i..i + |r|]
                        && AllSpace(s[..i]) && AllSpace(s[i + |r|..])
  {
    var e := TrimEnd(s);
    var r := TrimStart(e);
    var i := |e| - |r|;
    SlicesOfPrefix(s, |e|, i);
    assert r == s[i..i + |r|];
    assert AllSpace(s[..i]);
    assert AllSpace(s[i + |r|..]);
  }

  lemma TrimStartNoLeadingSpace(s: string)
    requires s == [] || !IsSpace(s[0])
    ensures TrimStart(s) == s
  {
  }

  /** Text that already starts and ends with a non-space is left alone. */
  lemma StripTrimmed(s: string)
    requires s == [] || (!IsSpace(s[0]) && !IsSpace(s[|s| - 1]))
    ensures Strip(s) == s
  {
  }

  /** Trailing whitespace is cut from the last non-space character on, so a
      prefix that is followed by real text is never touched. */
  lemma {:induction false} TrimEndAppend(x: string, y: string)
    requires !AllSpace(y)
    ensures TrimEnd(x + y) == x + TrimEnd(y)
    decreases |y|
  {
    var n := |y| - 1;
    assert (x + y)[|x + y| - 1] == y[n];
    if IsSpace(y[n]) {
      assert (x + y)[..|x + y| - 1] == x + y[..n];
      assert !AllSpace(y[..n]) by {
        var k :| 0 <= k < |y| && !IsSpace(y[k]);
        assert y[..n][k] == y[k];
      }
      TrimEndAppend(x, y[..n]);
    }
  }

  /** Whitespace that ends the text disappears entirely. */
  lemma {:induction false} TrimEndAllSpace(x: string, y: string)
    requires AllSpace(y)
    ensures TrimEnd(x + y) == TrimEnd(x)
    decreases |y|
  {
    if |y| > 0 {
      var n := |y| - 1;
      assert (x + y)[|x + y| - 1] == y[n];
      assert (x + y)[..|x + y| - 1] == x + y[..n];
      TrimEndAllSpace(x, y[..n]);
    } else {
      assert x + y == x;
    }
  }

  // ---------------------------------------------------------------------
  // str.split('\n') and '\n'.join(...)
  // ---------------------------------------------------------------------

  predicate NoNewline(s: string) {
    '\n' !in s
  }

  /** Python's `s.split('\n')`: cut at every newline, keeping empty pieces.
      There is always at least one piece, and no piece holds a newline. */
  function SplitLines(s: string): (r: seq<string>)
    ensures |r| >= 1
    ensures forall k :: 0 <= k < |r| ==> NoNewline(r[k])
    decreases |s|
  {
    if |s| == 0 then [""]
    else
      var rest := SplitLines(s[1..]);
      if s[0] == '\n' then [""] + rest
      else [[s[0]] + rest[0]] + rest[1..]
  }

  /** Python's `sep.join(ws)`: it starts with the first piece's first
      character and ends with the last piece's last character. */
  function JoinWith(ws: seq<string>, sep: string): (r: string)
    ensures |ws| == 0 ==> r == ""
    ensures |ws| > 0 && |ws[0]| > 0 ==> |r| > 0 && r[0] == ws[0][0]
    ensures var n := |ws| - 1;
            |ws| > 0 && |ws[n]| > 0 ==> |r| > 0 && r[|r| - 1] == ws[n][|ws[n]| - 1]
  {
    if |ws| == 0 then ""
    else if |ws| == 1 then ws[0]
    else ws[0] + sep + JoinWith(ws[1..], sep)
  }

  /** Python's `'\n'.join(lines)`. */
  function JoinLines(lines: seq<string>): (r: string)
    ensures |lines| == 0 ==> r == ""
    ensures |lines| > 0 && |lines[0]| > 0 ==> |r| > 0 && r[0] == lines[0][0]
    ensures var n := |lines| - 1;
            |lines| > 0 && |lines[n]| > 0 ==> |r| > 0 && r[|r| - 1] == lines[n][|lines[n]| - 1]
  {
    JoinWith(lines, "\n")
  }

  lemma JoinLinesCons(l: string, ls: seq<string>)
    requires |ls| > 0
    ensures JoinLines([l] + ls) == l + "\n" + JoinLines(ls)
  {
    assert ([l] + ls)[1..] == ls;
  }

  lemma ConsAssoc<T>(x: T, a: seq<T>, b: seq<T>, c: seq<T>)
    ensures [x] + a + b + c == [x] + (a + b + c)
  {
  }

  /** Putting a character in front of the first line puts it in front of the join. */
  lemma JoinLinesPrepend(c: char, ls: seq<string>)
    requires |ls| > 0
    ensures JoinLines([[c] + ls[0]] + ls[1..]) == [c] + JoinLines(ls)
  {
    var first := [c] + ls[0];
    if |ls| == 1 {
      assert [first] + ls[1..] == [first];
    } else {
      var tail := JoinLines(ls[1..]);
      JoinLinesCons(first, ls[1..]);
      JoinLinesCons(ls[0], ls[1..]);
      assert [ls[0]] + ls[1..] == ls;
      ConsAssoc(c, ls[0], "\n", tail);
    }
  }

  /** Joining the pieces of a split gives back the text. */
  lemma {:induction false} JoinSplitLines(s: string)
    ensures JoinLines(SplitLines(s)) == s
    decreases |s|
  {
    if |s| > 0 {
      var rest := SplitLines(s[1..]);
      JoinSplitLines(s[1..]);
      if s[0] == '\n' {
        JoinLinesCons("", rest);
      } else {
        JoinLinesPrepend(s[0], rest);
      }
      assert s == [s[0]] + s[1..];
    }
  }

  /** Splitting the join of newline-free lines gives back the lines; with no
      lines at all the join is empty and splits into one empty line. */
  lemma {:induction false} SplitJoinLines(lines: seq<string>)
    requires |lines| > 0
    requires forall k :: 0 <= k < |lines| ==> NoNewline(lines[k])
    ensures SplitLines(JoinLines(lines)) == lines
    decreases |lines|
  {
    if |lines| == 1 {
      SplitNoNewline(lines[0]);
    } else {
      SplitJoinLines(lines[1..]);
      SplitLineThenRest(lines[0], JoinLines(lines[1..]));
      assert lines == [lines[0]] + lines[1..];
    }
  }

  lemma {:induction false} SplitNoNewline(s: string)
    requires NoNewline(s)
    ensures SplitLines(s) == [s]
    decreases |s|
  {
    if |s| > 0 {
      assert NoNewline(s[1..]) by {
        forall k | 0 <= k < |s[1..]| ensures s[1..][k] != '\n' {
          assert s[1..][k] == s[k + 1];
        }
      }
      SplitNoNewline(s[1..]);
      assert s == [s[0]] + s[1..];
    }
  }

  /** A newline-free line followed by a newline splits off as one piece. */
  lemma {:induction false} SplitLineThenRest(a: string, b: string)
    requires NoNewline(a)
    ensures SplitLines(a + "\n" + b) == [a] + SplitLines(b)
    decreases |a|
  {
    var t := a + "\n" + b;
    if |a| == 0 {
      assert t[1..] == b;
    } else {
      assert NoNewline(a[1..]) by {
        forall k | 0 <= k < |a[1..]| ensures a[1..][k] != '\n' {
          assert a[1..][k] == a[k + 1];
        }
      }
      SplitLineThenRest(a[1..], b);
      assert t[1..] == a[1..] + "\n" + b;
      assert a == [a[0]] + a[1..];
    }
  }

  // ---------------------------------------------------------------------
  // str.split() with no argument
  // ---------------------------------------------------------------------

  /** Length of the run of non-space characters that starts `s`. */
  function FieldLength(s: string): (n: nat)
    ensures n <= |s|
    ensures NoSpace(s[..n])
    ensures n == |s| || IsSpace(s[n])
    decreases |s|
  {
    if |s| == 0 || IsSpace(s[0]) then 0
    else
      var m := FieldLength(s[1..]);
      assert s[..1 + m] == [s[0]] + s[1..][..m];
      1 + m
  }

  /** Python's `s.split()`: the maximal runs of non-space characters, in
      order; runs of whitespace separate them and empty pieces are dropped. */
  function Fields(s: string): (r: seq<string>)
    ensures forall k :: 0 <= k < |r| ==> IsField(r[k])
    decreases |s|
  {
    if |s| == 0 then []
    else if IsSpace(s[0]) then Fields(s[1..])
    else
      var n := FieldLength(s);
      [s[..n]] + Fields(s[n..])
  }

  /** Leading whitespace never changes the fields. */
  lemma {:induction false} FieldsAfterSpace(w: string, s: string)
    requires AllSpace(w)
    ensures Fields(w + s) == Fields(s)
    decreases |w|
  {
    if |w| > 0 {
      assert (w + s)[1..] == w[1..] + s;
      FieldsAfterSpace(w[1..], s);
    } else {
      assert w + s == s;
    }
  }

  /** The run length is pinned down by where the first space is. */
  lemma FieldLengthIs(s: string, m: nat)
    requires m <= |s| && NoSpace(s[..m])
    requires m == |s| || IsSpace(s[m])
    ensures FieldLength(s) == m
  {
    var n := FieldLength(s);
    assert forall k :: 0 <= k < m ==> s[..m][k] == s[k];
    assert forall k :: 0 <= k < n ==> s[..n][k] == s[k];
  }

  /** A field followed by whitespace (or by nothing) is split off whole. */
  lemma FieldThenRest(a: string, s: string)
    requires IsField(a)
    requires s == [] || IsSpace(s[0])
    ensures Fields(a + s) == [a] + Fields(s)
  {
    var t := a + s;
    assert t[..|a|] == a;
    FieldLengthIs(t, |a|);
    assert t[|a|..] == s;
  }

  /** The clipboard row shape: two fields joined by whitespace tokenise back
      into exactly those two fields. */
  lemma FieldsOfPair(a: string, sep: string, b: string)
    requires IsField(a) && IsField(b)
    requires |sep| > 0 && AllSpace(sep)
    ensures Fields(a + sep + b) == [a, b]
  {
    FieldThenRest(a, sep + b);
    assert a + sep + b == a + (sep + b);
    FieldsAfterSpace(sep, b);
    FieldThenRest(b, "");
    assert b + "" == b;
  }

  /** Python's `''.join(ws)`. */
  function Concat(ws: seq<string>): string {
    if |ws| == 0 then "" else ws[0] + Concat(ws[1..])
  }

  /** The text with every whitespace character deleted. */
  function RemoveSpace(s: string): string {
    if |s| == 0 then "" else (if IsSpace(s[0]) then "" else [s[0]]) + RemoveSpace(s[1..])
  }

  lemma {:induction false} RemoveSpaceAppend(a: string, b: string)
    ensures RemoveSpace(a + b) == RemoveSpace(a) + RemoveSpace(b)
    decreases |a|
  {
    if |a| == 0 {
      assert a + b == b;
    } else {
      assert (a + b)[1..] == a[1..] + b;
      RemoveSpaceAppend(a[1..], b);
    }
  }

  lemma {:induction false} RemoveSpaceOfNoSpace(a: string)
    requires NoSpace(a)
    ensures RemoveSpace(a) == a
    decreases |a|
  {
    if |a| > 0 {
      assert NoSpace(a[1..]) by {
        forall k | 0 <= k < |a[1..]| ensures !IsSpace(a[1..][k]) {
          assert a[1..][k] == a[k + 1];
        }
      }
      RemoveSpaceOfNoSpace(a[1..]);
      assert a == [a[0]] + a[1..];
    }
  }

  /** Tokenising loses nothing but whitespace: the fields, put back together,
      are the text with its whitespace deleted. */
  lemma {:induction false} FieldsKeepAllText(s: string)
    ensures Concat(Fields(s)) == RemoveSpace(s)
    decreases |s|
  {
    if |s| > 0 {
      if IsSpace(s[0]) {
        FieldsKeepAllText(s[1..]);
      } else {
        var n := FieldLength(s);
        var f := Fields(s);
        assert f == [s[..n]] + Fields(s[n..]);
        assert f[1..] == Fields(s[n..]);
        FieldsKeepAllText(s[n..]);
        assert s == s[..n] + s[n..];
        RemoveSpaceAppend(s[..n], s[n..]);
        RemoveSpaceOfNoSpace(s[..n]);
      }
    }
  }

  /** Tokenising undoes joining fields with whitespace. */
  lemma {:induction false} FieldsOfJoin(ws: seq<string>, sep: string)
    requires forall k :: 0 <= k < |ws| ==> IsField(ws[k])
    requires |sep| > 0 && AllSpace(sep)
    ensures Fields(JoinWith(ws, sep)) == ws
    decreases |ws|
  {
    if |ws| == 1 {
      FieldThenRest(ws[0], "");
      assert ws[0] + "" == ws[0];
    } else if |ws| > 1 {
      var rest := JoinWith(ws[1..], sep);
      FieldsOfJoin(ws[1..], sep);
      assert ws[0] + sep + rest == ws[0] + (sep + rest);
      FieldThenRest(ws[0], sep + rest);
      FieldsAfterSpace(sep, rest);
      assert ws == [ws[0]] + ws[1..];
    }
  }

  // ---------------------------------------------------------------------
  // str.split() characterised: fields separated by whitespace gaps
  // ---------------------------------------------------------------------

  predicate AreFields(ws: seq<string>) {
    forall k :: 0 <= k < |ws| ==> IsField(ws[k])
  }

  /** `gaps` can surround `n` fields: one gap before each field and one after
      the last, all whitespace, and those between two fields non-empty. */
  predicate AreGaps(n: nat, gaps: seq<string>) {
    && |gaps| == n + 1
    && (forall k :: 0 <= k < |gaps| ==> AllSpace(gaps[k]))
    && (forall k :: 0 < k < n ==> |gaps[k]| > 0)
  }

  /** `gaps[0] + ws[0] + gaps[1] + ... + ws[n - 1] + gaps[n]`. */
  function Spaced(ws: seq<string>, gaps: seq<string>): string
    requires |gaps| == |ws| + 1
    decreases |ws|
  {
    if |ws| == 0 then gaps[0] else gaps[0] + ws[0] + Spaced(ws[1..], gaps[1..])
  }

  lemma FieldsOfAllSpace(w: string)
    requires AllSpace(w)
    ensures Fields(w) == []
  {
    FieldsAfterSpace(w, "");
    assert w + "" == w;
  }

  /** Fields laid out between whitespace gaps split back into exactly those
      fields, whatever the gaps. */
  lemma {:induction false} FieldsOfSpaced(ws: seq<string>, gaps: seq<string>)
    requires AreFields(ws) && AreGaps(|ws|, gaps)
    ensures Fields(Spaced(ws, gaps)) == ws
    decreases |ws|
  {
    if |ws| == 0 {
      FieldsOfAllSpace(gaps[0]);
    } else {
      var rest := Spaced(ws[1..], gaps[1..]);
      assert AreGaps(|ws| - 1, gaps[1..]) by {
        assert forall k :: 0 < k < |ws| - 1 ==> gaps[1..][k] == gaps[k + 1];
      }
      FieldsOfSpaced(ws[1..], gaps[1..]);
      assert rest == [] || IsSpace(rest[0]) by {
        if |ws| > 1 {
          assert rest == gaps[1] + ws[1] + Spaced(ws[2..], gaps[2..]);
          assert rest[0] == gaps[1][0];
        } else {
          assert rest == gaps[1];
        }
      }
      assert gaps[0] + ws[0] + rest == gaps[0] + (ws[0] + rest);
      FieldsAfterSpace(gaps[0], ws[0] + rest);
      FieldThenRest(ws[0], rest);
      assert ws == [ws[0]] + ws[1..];
    }
  }

  /** Every text is its own fields laid out between whitespace gaps. With
      `FieldsOfSpaced` this pins `Fields` down on every input: the fields are
      the maximal runs of non-whitespace characters, in order. */
  lemma SpacedFields(s: string)
    ensures exists gaps :: AreGaps(|Fields(s)|, gaps) && s == Spaced(Fields(s), gaps)
  {
    var gaps := GapsOf(s);
  }

  /** The gaps around the fields of `s`. */
  lemma {:induction false} GapsOf(s: string) returns (gaps: seq<string>)
    ensures AreGaps(|Fields(s)|, gaps) && s == Spaced(Fields(s), gaps)
    decreases |s|
  {
    if |s| == 0 {
      gaps := [""];
      assert Fields(s) == [];
    } else if IsSpace(s[0]) {
      var g := GapsOf(s[1..]);
      gaps := GapsSpaceStep(s, g);
    } else {
      var n := FieldLength(s);
      var g := GapsOf(s[n..]);
      gaps := GapsFieldStep(s, g);
    }
  }

  /** A leading whitespace character joins the first gap. */
  lemma GapsSpaceStep(s: string, g: seq<string>) returns (gaps: seq<string>)
    requires |s| > 0 && IsSpace(s[0])
    requires AreGaps(|Fields(s[1..])|, g) && s[1..] == Spaced(Fields(s[1..]), g)
    ensures AreGaps(|Fields(s)|, gaps) && s == Spaced(Fields(s), gaps)
  {
    var ws := Fields(s[1..]);
    assert Fields(s) == ws;
    gaps := [[s[0]] + g[0]] + g[1..];
    assert AllSpace(gaps[0]) by {
      assert forall k :: 1 <= k < |gaps[0]| ==> gaps[0][k] == g[0][k - 1];
    }
    assert forall k :: 0 < k < |gaps| ==> gaps[k] == g[k];
    SpacedConsGap(s[0], ws, g);
    assert s == [s[0]] + s[1..];
  }

  /** A leading field becomes the first field, after an empty gap. */
  lemma GapsFieldStep(s: string, g: seq<string>) returns (gaps: seq<string>)
    requires |s| > 0 && !IsSpace(s[0])
    requires var n := FieldLength(s);
             AreGaps(|Fields(s[n..])|, g) && s[n..] == Spaced(Fields(s[n..]), g)
    ensures AreGaps(|Fields(s)|, gaps) && s == Spaced(Fields(s), gaps)
  {
    var n := FieldLength(s);
    var ws := Fields(s[n..]);
    assert Fields(s) == [s[..n]] + ws;
    gaps := [""] + g;
    FieldGapsValid(s, g);
    SpacedConsField(s[..n], ws, g);
    assert s == s[..n] + s[n..];
  }

  /** The gaps after a leading field: the one between it and the next field
      is not empty, because the field ends at whitespace. */
  lemma FieldGapsValid(s: string, g: seq<string>)
    requires |s| > 0 && !IsSpace(s[0])
    requires var n := FieldLength(s);
             AreGaps(|Fields(s[n..])|, g) && s[n..] == Spaced(Fields(s[n..]), g)
    ensures AreGaps(|Fields(s[FieldLength(s)..])| + 1, [""] + g)
  {
    var n := FieldLength(s);
    var ws := Fields(s[n..]);
    if |ws| > 0 {
      SpacedStart(ws, g);
      assert IsSpace(s[n..][0]);
    }
    assert forall k :: 0 < k < |g| + 1 ==> ([""] + g)[k] == g[k - 1];
  }

  /** A field in front of the text, after an empty first gap. */
  lemma SpacedConsField(f: string, ws: seq<string>, g: seq<string>)
    requires |g| == |ws| + 1
    ensures Spaced([f] + ws, [""] + g) == f + Spaced(ws, g)
  {
    assert ([f] + ws)[1..] == ws;
    assert ([""] + g)[1..] == g;
    assert "" + f == f;
  }

  /** Laid out between gaps, fields start with whitespace only when the
      first gap is not empty. */
  lemma SpacedStart(ws: seq<string>, g: seq<string>)
    requires |ws| > 0 && AreFields(ws) && |g| == |ws| + 1
    ensures |Spaced(ws, g)| > 0
    ensures IsSpace(Spaced(ws, g)[0]) ==> |g[0]| > 0
  {
    var t := Spaced(ws, g);
    assert t == g[0] + ws[0] + Spaced(ws[1..], g[1..]);
    if |g[0]| == 0 {
      assert t[0] == ws[0][0];
    }
  }

  /** A whitespace character in front of the text joins the first gap. */
  lemma SpacedConsGap(c: char, ws: seq<string>, gaps: seq<string>)
    requires |gaps| == |ws| + 1
    ensures Spaced(ws, [[c] + gaps[0]] + gaps[1..]) == [c] + Spaced(ws, gaps)
  {
    var g' := [[c] + gaps[0]] + gaps[1..];
    assert g'[1..] == gaps[1..];
    if |ws| > 0 {
      ConsAssoc(c, gaps[0], ws[0], Spaced(ws[1..], gaps[1..]));
    }
  }
}
