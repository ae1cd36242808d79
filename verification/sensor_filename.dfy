/** The filename metadata parser of main.py: a search for
      MOCREO_ST4_(\w+)_\((\d{2}_\d{2}_\d{4}), (\d{2}_\d{2}_\d{4})\)_record
    anywhere in a file's base name, returning the sensor token and the two
    dates with `_` rewritten to `/`.

    `MatchesAt` says declaratively what an occurrence of the pattern is;
    `MatchAt` is a hand-written matcher for one start position and `Search`
    tries the start positions left to right, as Python's `re.search` does. */
module SensorFilename {
  import opened Wrappers
  import opened CharClasses

  const Prefix: string := "MOCREO_ST4_"
  const Open: string := "_("
  const DateSep: string := ", "
  const Suffix: string := ")_record"

  /** Sensor identity and claimed date range, as shown in the result header. */
  datatype SensorMetadata = SensorMetadata(sensor: string, dateFrom: string, dateTo: string)

  /** An occurrence of the pattern: its start and the three raw groups. */
  datatype Hit = Hit(start: nat, token: string, rawFrom: string, rawTo: string)

  /** Group 1, `\w+`. */
  predicate IsToken(t: string) {
    |t| > 0 && forall k :: 0 <= k < |t| ==> IsWordChar(t[k])
  }

  /** Ten characters: two digits, `sep`, two digits, `sep`, four digits. */
  predicate DateShape(d: string, sep: char) {
    |d| == 10 && forall k :: 0 <= k < 10 ==> (if k == 2 || k == 5 then d[k] == sep else IsDigit(d[k]))
  }

  /** Groups 2 and 3, `\d{2}_\d{2}_\d{4}`. */
  predicate IsRawDate(d: string) {
    DateShape(d, '_')
  }

  /** A date as returned to the caller, `DD/DD/DDDD`. */
  predicate IsSlashDate(d: string) {
    DateShape(d, '/')
  }

  /** The text the pattern matches for given groups. */
  function PatternText(tok: string, d1: string, d2: string): string {
    Prefix + tok + Open + d1 + DateSep + d2 + Suffix
  }

  /** The pattern occurs in `s` at position `i` with these three groups. */
  predicate MatchesAt(s: string, i: nat, tok: string, d1: string, d2: string) {
    && IsToken(tok) && IsRawDate(d1) && IsRawDate(d2)
    && i + |PatternText(tok, d1, d2)| <= |s|
    && s[i..i + |PatternText(tok, d1, d2)|] == PatternText(tok, d1, d2)
  }

  /** The pattern occurs somewhere in `s`. */
  ghost predicate Occurs(s: string) {
    exists j: nat, tok, d1, d2 :: MatchesAt(s, j, tok, d1, d2)
  }

  /** The pattern occurs somewhere before position `i`. */
  ghost predicate OccursBefore(s: string, i: nat) {
    exists j: nat, tok, d1, d2 :: j < i && MatchesAt(s, j, tok, d1, d2)
  }

  /** Python's `str.replace(a, b)` for single characters. */
  function ReplaceChar(s: string, a: char, b: char): (r: string)
    ensures |r| == |s|
    ensures forall k :: 0 <= k < |s| ==> r[k] == (if s[k] == a then b else s[k])
  {
    seq(|s|, k requires 0 <= k < |s| => if s[k] == a then b else s[k])
  }

  /** main.py's `replace('_', '/')` on a date: every underscore becomes a
      slash and nothing else changes. */
  function Slashed(d: string): (r: string)
    ensures |r| == |d| && '_' !in r
    ensures forall k :: 0 <= k < |d| && d[k] == '_' ==> r[k] == '/'
    ensures forall k :: 0 <= k < |d| && d[k] != '_' ==> r[k] == d[k]
  {
    ReplaceChar(d, '_', '/')
  }

  /** A raw date becomes a `DD/DD/DDDD` date, and no information is lost:
      turning the slashes back into underscores gives the raw date. */
  lemma SlashedDate(d: string)
    requires IsRawDate(d)
    ensures IsSlashDate(Slashed(d))
    ensures ReplaceChar(Slashed(d), '/', '_') == d
  {
  }

  // ---------------------------------------------------------------------
  // The matcher
  // ---------------------------------------------------------------------

  /** End of the run of word characters starting at `j`: where greedy `\w+`
      stops before it gives anything back. */
  function WordRunEnd(s: string, j: nat): (e: nat)
    requires j <= |s|
    ensures j <= e <= |s|
    ensures forall k :: j <= k < e ==> IsWordChar(s[k])
    ensures e == |s| || !IsWordChar(s[e])
    decreases |s| - j
  {
    if j < |s| && IsWordChar(s[j]) then WordRunEnd(s, j + 1) else j
  }

  /** Matches `_\((DATE), (DATE)\)_record` at position `t`. */
  function TailAt(s: string, t: nat): Option<(string, string)> {
    if t + 32 <= |s| && s[t..t + 2] == Open && IsRawDate(s[t + 2..t + 12])
       && s[t + 12..t + 14] == DateSep && IsRawDate(s[t + 14..t + 24])
       && s[t + 24..t + 32] == Suffix
    then Some((s[t + 2..t + 12], s[t + 14..t + 24]))
    else None
  }

  /** The pattern tried at start position `i`. Greedy `\w+` first takes the
      whole run of word characters and then gives characters back one at a
      time until `_(` follows; `(` is not a word character, so the only place
      where `_(` can follow is with the run's last character, which must be
      `_`, given back. Matching at one position is therefore deterministic. */
  function MatchAt(s: string, i: nat): (r: Option<Hit>)
    ensures r.Some? ==> r.value.start == i
  {
    if !(i + |Prefix| <= |s| && s[i..i + |Prefix|] == Prefix) then None
    else
      var a := i + |Prefix|;
      var e := WordRunEnd(s, a);
      if e < a + 2 then None
      else
        match TailAt(s, e - 1)
        case None => None
        case Some((d1, d2)) =>
          Some(Hit(i, s[a..e - 1], d1, d2))
  }

  /** `s` holds `a + b` at `i` exactly when it holds `a` at `i` and `b` right
      after it. */
  lemma SliceOfConcat<T>(s: seq<T>, i: nat, a: seq<T>, b: seq<T>)
    requires i + |a| + |b| <= |s|
    ensures s[i..i + |a + b|] == a + b
            <==> s[i..i + |a|] == a && s[i + |a|..i + |a| + |b|] == b
  {
    assert s[i..i + |a| + |b|] == s[i..i + |a|] + s[i + |a|..i + |a| + |b|];
    if s[i..i + |a + b|] == a + b {
      assert (a + b)[..|a|] == a && (a + b)[|a|..] == b;
    }
  }

  /** `s` holds the pattern text at `i` exactly when it holds each piece of it
      at the matching offset. */
  lemma PatternSlices(s: string, i: nat, tok: string, d1: string, d2: string)
    requires |d1| == 10 && |d2| == 10
    requires i + 11 + |tok| + 32 <= |s|
    ensures var t := i + 11 + |tok|;
            s[i..i + |PatternText(tok, d1, d2)|] == PatternText(tok, d1, d2)
            <==> (&& s[i..i + 11] == Prefix && s[i + 11..t] == tok
                  && s[t..t + 2] == Open && s[t + 2..t + 12] == d1
                  && s[t + 12..t + 14] == DateSep && s[t + 14..t + 24] == d2
                  && s[t + 24..t + 32] == Suffix)
  {
    var p1 := Prefix + tok;
    var p2 := p1 + Open;
    var p3 := p2 + d1;
    var p4 := p3 + DateSep;
    var p5 := p4 + d2;
    SliceOfConcat(s, i, Prefix, tok);
    SliceOfConcat(s, i, p1, Open);
    SliceOfConcat(s, i, p2, d1);
    SliceOfConcat(s, i, p3, DateSep);
    SliceOfConcat(s, i, p4, d2);
    SliceOfConcat(s, i, p5, Suffix);
  }

  /** The run of word characters is pinned down by its first non-word character. */
  lemma WordRunEndIs(s: string, j: nat, e: nat)
    requires j <= e <= |s|
    requires forall k :: j <= k < e ==> IsWordChar(s[k])
    requires e == |s| || !IsWordChar(s[e])
    ensures WordRunEnd(s, j) == e
    decreases e - j
  {
    if j < e {
      WordRunEndIs(s, j + 1, e);
    }
  }

  /** The matcher at `i` when each piece of the pattern text is in place. */
  lemma MatchAtOfPieces(s: string, i: nat, tok: string, d1: string, d2: string)
    requires IsToken(tok) && IsRawDate(d1) && IsRawDate(d2)
    requires i + 11 + |tok| + 32 <= |s|
    requires var t := i + 11 + |tok|;
             && s[i..i + 11] == Prefix && s[i + 11..t] == tok
             && s[t..t + 2] == Open && s[t + 2..t + 12] == d1
             && s[t + 12..t + 14] == DateSep && s[t + 14..t + 24] == d2
             && s[t + 24..t + 32] == Suffix
    ensures MatchAt(s, i) == Some(Hit(i, tok, d1, d2))
  {
    var a := i + 11;
    var t := a + |tok|;
    assert forall k :: a <= k < t ==> s[k] == s[a..t][k - a];
    assert s[t] == s[t..t + 2][0] && s[t + 1] == s[t..t + 2][1];
    WordRunEndIs(s, a, t + 1);
    assert TailAt(s, t) == Some((d1, d2));
  }

  /** Every occurrence of the pattern at `i` is found by the matcher. */
  lemma MatchAtComplete(s: string, i: nat, tok: string, d1: string, d2: string)
    requires MatchesAt(s, i, tok, d1, d2)
    ensures MatchAt(s, i) == Some(Hit(i, tok, d1, d2))
  {
    PatternSlices(s, i, tok, d1, d2);
    MatchAtOfPieces(s, i, tok, d1, d2);
  }

  /** What a successful tail match says about the text. */
  lemma TailAtPieces(s: string, t: nat)
    requires TailAt(s, t).Some?
    ensures var (d1, d2) := TailAt(s, t).value;
            && t + 32 <= |s| && IsRawDate(d1) && IsRawDate(d2)
            && s[t..t + 2] == Open && s[t + 2..t + 12] == d1
            && s[t + 12..t + 14] == DateSep && s[t + 14..t + 24] == d2
            && s[t + 24..t + 32] == Suffix
  {
  }

  /** A hit of the matcher has each piece of the pattern text in place. */
  lemma MatchAtPieces(s: string, i: nat)
    requires MatchAt(s, i).Some?
    ensures var h := MatchAt(s, i).value;
            var t := i + 11 + |h.token|;
            && IsToken(h.token) && IsRawDate(h.rawFrom) && IsRawDate(h.rawTo)
            && t + 32 <= |s|
            && s[i..i + 11] == Prefix && s[i + 11..t] == h.token
            && s[t..t + 2] == Open && s[t + 2..t + 12] == h.rawFrom
            && s[t + 12..t + 14] == DateSep && s[t + 14..t + 24] == h.rawTo
            && s[t + 24..t + 32] == Suffix
  {
    var h := MatchAt(s, i).value;
    var a := i + 11;
    var e := WordRunEnd(s, a);
    var t := e - 1;
    assert h.token == s[a..t];
    assert TailAt(s, t) == Some((h.rawFrom, h.rawTo));
    TailAtPieces(s, t);
    assert IsToken(h.token) by {
      forall k | 0 <= k < |h.token| ensures IsWordChar(h.token[k]) {
        assert h.token[k] == s[a + k];
      }
    }
  }

  /** The pieces in place make an occurrence. */
  lemma OccurrenceOfPieces(s: string, i: nat, tok: string, d1: string, d2: string)
    requires IsToken(tok) && IsRawDate(d1) && IsRawDate(d2)
    requires i + 11 + |tok| + 32 <= |s|
    requires var t := i + 11 + |tok|;
             && s[i..i + 11] == Prefix && s[i + 11..t] == tok
             && s[t..t + 2] == Open && s[t + 2..t + 12] == d1
             && s[t + 12..t + 14] == DateSep && s[t + 14..t + 24] == d2
             && s[t + 24..t + 32] == Suffix
    ensures MatchesAt(s, i, tok, d1, d2)
  {
    PatternSlices(s, i, tok, d1, d2);
  }

  /** Whatever the matcher returns is an occurrence of the pattern. */
  lemma MatchAtSound(s: string, i: nat)
    requires MatchAt(s, i).Some?
    ensures var h := MatchAt(s, i).value;
            MatchesAt(s, i, h.token, h.rawFrom, h.rawTo)
  {
    var h := MatchAt(s, i).value;
    MatchAtPieces(s, i);
    OccurrenceOfPieces(s, i, h.token, h.rawFrom, h.rawTo);
  }

  /** The matcher accepts at `i` exactly the occurrences of the pattern at `i`,
      with their groups: an occurrence's groups are determined by its start. */
  lemma MatchAtIsPattern(s: string, i: nat, tok: string, d1: string, d2: string)
    ensures MatchAt(s, i) == Some(Hit(i, tok, d1, d2)) <==> MatchesAt(s, i, tok, d1, d2)
  {
    if MatchesAt(s, i, tok, d1, d2) {
      MatchAtComplete(s, i, tok, d1, d2);
    }
    if MatchAt(s, i) == Some(Hit(i, tok, d1, d2)) {
      MatchAtSound(s, i);
    }
  }

  /** Greedy `\w+`: two occurrences at the same start have the same groups. */
  lemma OccurrenceUnique(s: string, i: nat, tok: string, d1: string, d2: string,
                         tok': string, d1': string, d2': string)
    requires MatchesAt(s, i, tok, d1, d2) && MatchesAt(s, i, tok', d1', d2')
    ensures tok == tok' && d1 == d1' && d2 == d2'
  {
    MatchAtIsPattern(s, i, tok, d1, d2);
    MatchAtIsPattern(s, i, tok', d1', d2');
  }

  // ---------------------------------------------------------------------
  // re.search
  // ---------------------------------------------------------------------

  /** Tries start positions `i`, `i + 1`, ... up to `|s|` and returns the
      first hit: no position between `i` and the hit matches, and when there
      is no hit no position from `i` on matches. */
  function Search(s: string, i: nat): (r: Option<Hit>)
    ensures r.Some? ==> i <= r.value.start && MatchAt(s, r.value.start) == r
    ensures r.Some? ==> forall j :: i <= j < r.value.start ==> MatchAt(s, j).None?
    ensures r.None? ==> forall j :: i <= j ==> MatchAt(s, j).None?
    decreases |s| + 1 - i
  {
    if i > |s| then None
    else
      match MatchAt(s, i)
      case Some(h) => Some(h)
      case None => Search(s, i + 1)
  }

  /** main.py's `extract_sensor_name_and_dates`: the sensor token and both
      dates of the leftmost occurrence, dates rewritten with `/`, or `None`. */
  function Extract(name: string): (r: Option<SensorMetadata>)
    ensures r.Some? ==> IsToken(r.value.sensor)
    ensures r.Some? ==> IsSlashDate(r.value.dateFrom) && IsSlashDate(r.value.dateTo)
    ensures r.Some? ==> '_' !in r.value.dateFrom && '_' !in r.value.dateTo
  {
    match Search(name, 0)
    case None => None
    case Some(h) => Some(SensorMetadata(h.token, Slashed(h.rawFrom), Slashed(h.rawTo)))
  }

  /** The function exactly as main.py returns it: three values that are
      either all present or all `None`. */
  function ExtractFields(name: string): (r: (Option<string>, Option<string>, Option<string>))
    ensures r.0.Some? == r.1.Some? == r.2.Some?
    ensures r.0.Some? <==> Extract(name).Some?
    ensures r.0.Some? ==> SensorMetadata(r.0.value, r.1.value, r.2.value) == Extract(name).value
  {
    match Extract(name)
    case None => (None, None, None)
    case Some(m) => (Some(m.sensor), Some(m.dateFrom), Some(m.dateTo))
  }

  // ---------------------------------------------------------------------
  // What the search computes
  // ---------------------------------------------------------------------

  /** A result is the leftmost occurrence of the pattern, with its groups. */
  lemma ExtractSound(name: string)
    requires Extract(name).Some?
    ensures var m := Extract(name).value;
            exists i: nat, d1, d2 :: MatchesAt(name, i, m.sensor, d1, d2)
              && m.dateFrom == Slashed(d1) && m.dateTo == Slashed(d2)
              && !OccursBefore(name, i)
  {
    var h := Search(name, 0).value;
    MatchAtIsPattern(name, h.start, h.token, h.rawFrom, h.rawTo);
    assert MatchesAt(name, h.start, h.token, h.rawFrom, h.rawTo);
    forall j: nat, tok, d1, d2 | j < h.start ensures !MatchesAt(name, j, tok, d1, d2) {
      MatchAtIsPattern(name, j, tok, d1, d2);
    }
  }

  /** The leftmost occurrence is what is returned. */
  lemma ExtractFindsLeftmost(name: string, i: nat, tok: string, d1: string, d2: string)
    requires MatchesAt(name, i, tok, d1, d2)
    requires !OccursBefore(name, i)
    ensures Extract(name) == Some(SensorMetadata(tok, Slashed(d1), Slashed(d2)))
  {
    MatchAtIsPattern(name, i, tok, d1, d2);
    var r := Search(name, 0);
    assert r.Some?;
    var h := r.value;
    MatchAtIsPattern(name, h.start, h.token, h.rawFrom, h.rawTo);
    assert h.start == i;
  }

  /** No result exactly when the pattern occurs nowhere. */
  lemma ExtractNoneIff(name: string)
    ensures Extract(name).None? <==> !Occurs(name)
  {
    if Extract(name).Some? {
      ExtractSound(name);
    } else {
      forall j: nat, tok, d1, d2 ensures !MatchesAt(name, j, tok, d1, d2) {
        MatchAtIsPattern(name, j, tok, d1, d2);
      }
    }
  }
}

module SensorFilenameFacts {
  import opened Wrappers
  import opened SensorFilename

  /** Any occurrence of the pattern, wherever it is, yields a result. */
  lemma OccurrenceGivesResult(name: string, i: nat, tok: string, d1: string, d2: string)
    requires MatchesAt(name, i, tok, d1, d2)
    ensures Extract(name).Some?
  {
    ExtractNoneIff(name);
  }

  /** The search is unanchored: text around a matching name cannot make the
      pattern disappear. */
  lemma ExtractInContext(p: string, name: string, q: string)
    requires Extract(name).Some?
    ensures Extract(p + name + q).Some?
  {
    var m := Extract(name).value;
    ExtractSound(name);
    var i: nat, d1, d2 :| MatchesAt(name, i, m.sensor, d1, d2);
    var t := PatternText(m.sensor, d1, d2);
    SliceInContext(p, name, q, i, i + |t|);
    OccurrenceGivesResult(p + name + q, |p| + i, m.sensor, d1, d2);
  }

  lemma SliceInContext<T>(p: seq<T>, name: seq<T>, q: seq<T>, i: nat, j: nat)
    requires i <= j <= |name|
    ensures (p + name + q)[|p| + i..|p| + j] == name[i..j]
  {
  }

  /** The literal `MOCREO_ST4_` starts at position `i`. */
  predicate PrefixAt(name: string, i: nat) {
    i + |Prefix| <= |name| && name[i..i + |Prefix|] == Prefix
  }

  lemma OccurrenceStartsWithPrefix(name: string, j: nat, tok: string, d1: string, d2: string)
    ensures MatchesAt(name, j, tok, d1, d2) ==> PrefixAt(name, j)
  {
    if MatchesAt(name, j, tok, d1, d2) {
      var t := PatternText(tok, d1, d2);
      assert name[j..j + |Prefix|] == name[j..j + |t|][..|Prefix|];
    }
  }

  /** Without the literal `MOCREO_ST4_` anywhere in the name there is no result. */
  lemma NoPrefixNoMatch(name: string)
    requires forall i: nat :: !PrefixAt(name, i)
    ensures Extract(name) == None
  {
    forall j: nat, tok, d1, d2 ensures !MatchesAt(name, j, tok, d1, d2) {
      OccurrenceStartsWithPrefix(name, j, tok, d1, d2);
    }
    ExtractNoneIff(name);
  }

  lemma RawDateExample()
    ensures IsRawDate("01_02_2023") && IsRawDate("03_04_2023")
    ensures Slashed("01_02_2023") == "01/02/2023" && Slashed("03_04_2023") == "03/04/2023"
  {
    var a, b := "01_02_2023", "03_04_2023";
    assert a[0] == '0' && a[1] == '1' && a[2] == '_' && a[3] == '0' && a[4] == '2';
    assert a[5] == '_' && a[6] == '2' && a[7] == '0' && a[8] == '2' && a[9] == '3';
    assert b[0] == '0' && b[1] == '3' && b[2] == '_' && b[3] == '0' && b[4] == '4';
    assert b[5] == '_' && b[6] == '2' && b[7] == '0' && b[8] == '2' && b[9] == '3';
  }

  /** A name that starts with the pattern text gives that text's groups,
      whatever follows it. */
  lemma ExtractOfPatternText(tok: string, d1: string, d2: string, rest: string)
    requires IsToken(tok) && IsRawDate(d1) && IsRawDate(d2)
    ensures Extract(PatternText(tok, d1, d2) + rest)
            == Some(SensorMetadata(tok, Slashed(d1), Slashed(d2)))
  {
    var t := PatternText(tok, d1, d2);
    var name := t + rest;
    assert name[0..|t|] == t;
    assert MatchesAt(name, 0, tok, d1, d2);
    ExtractFindsLeftmost(name, 0, tok, d1, d2);
  }

  /** The example names, spelled out as pattern text one piece at a time. */
  lemma SpelledA1()
    ensures PatternText("A1", "01_02_2023", "03_04_2023") + "_extra"
            == "MOCREO_ST4_A1_(01_02_2023, 03_04_2023)_record_extra"
  {
    assert Prefix + "A1" == "MOCREO_ST4_A1";
    assert "MOCREO_ST4_A1" + Open == "MOCREO_ST4_A1_(";
    assert "MOCREO_ST4_A1_(" + "01_02_2023" == "MOCREO_ST4_A1_(01_02_2023";
    assert "MOCREO_ST4_A1_(01_02_2023" + DateSep == "MOCREO_ST4_A1_(01_02_2023, ";
    assert "MOCREO_ST4_A1_(01_02_2023, " + "03_04_2023" == "MOCREO_ST4_A1_(01_02_2023, 03_04_2023";
    assert "MOCREO_ST4_A1_(01_02_2023, 03_04_2023" + Suffix == "MOCREO_ST4_A1_(01_02_2023, 03_04_2023)_record";
  }

  lemma SpelledAB()
    ensures PatternText("A_B", "01_02_2023", "03_04_2023") + ""
            == "MOCREO_ST4_A_B_(01_02_2023, 03_04_2023)_record"
  {
    assert Prefix + "A_B" == "MOCREO_ST4_A_B";
    assert "MOCREO_ST4_A_B" + Open == "MOCREO_ST4_A_B_(";
    assert "MOCREO_ST4_A_B_(" + "01_02_2023" == "MOCREO_ST4_A_B_(01_02_2023";
    assert "MOCREO_ST4_A_B_(01_02_2023" + DateSep == "MOCREO_ST4_A_B_(01_02_2023, ";
    assert "MOCREO_ST4_A_B_(01_02_2023, " + "03_04_2023" == "MOCREO_ST4_A_B_(01_02_2023, 03_04_2023";
    assert "MOCREO_ST4_A_B_(01_02_2023, 03_04_2023" + Suffix == "MOCREO_ST4_A_B_(01_02_2023, 03_04_2023)_record";
  }

  lemma IsTokenExample()
    ensures IsToken("A1") && IsToken("A_B")
  {
  }

  /** The worked example: the three groups, with `/` in the dates; the
      trailing `_extra` is simply not part of the match. */
  lemma ExampleRecordName(name: string)
    requires name == "MOCREO_ST4_A1_(01_02_2023, 03_04_2023)_record_extra"
    ensures Extract(name) == Some(SensorMetadata("A1", "01/02/2023", "03/04/2023"))
  {
    SpelledA1();
    RawDateExample();
    IsTokenExample();
    ExtractOfPatternText("A1", "01_02_2023", "03_04_2023", "_extra");
  }

  /** `\w` includes `_`, so the token may hold underscores; greedy matching
      keeps all of them up to the `_(` that opens the dates. */
  lemma ExampleUnderscoreToken(name: string)
    requires name == "MOCREO_ST4_A_B_(01_02_2023, 03_04_2023)_record"
    ensures Extract(name) == Some(SensorMetadata("A_B", "01/02/2023", "03/04/2023"))
  {
    SpelledAB();
    RawDateExample();
    IsTokenExample();
    ExtractOfPatternText("A_B", "01_02_2023", "03_04_2023", "");
  }

  /** A name without the pattern gives no result. */
  lemma ExampleNoMatch(name: string)
    requires name == "random_file_name"
    ensures Extract(name) == None
  {
    forall i: nat ensures !PrefixAt(name, i) {
      if i + |Prefix| <= |name| {
        assert name[i..i + |Prefix|][0] == name[i];
      }
    }
    NoPrefixNoMatch(name);
  }
}
