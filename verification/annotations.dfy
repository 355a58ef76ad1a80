/**
 * `load_sentences`: parsing a BenchIE gold-annotation file into an ordered
 * mapping from sentence id to sentence text.
 *
 * The file is given as its lines. Each line is stripped; every stripped line
 * that contains `sent_id:` is split on tabs, the id is the piece of the first
 * tab-field after `sent_id:`, the text is the second tab-field, and a repeated
 * id is an error. Python's dict keeps insertion order, so the mapping is
 * modelled as the sequence of its records in file order.
 */
module Annotations {
  import opened Results
  import opened PyStr

  const Marker: String := "sent_id:"
  const Tab: String := "\t"

  datatype SentenceRecord = SentenceRecord(id: String, text: String)

  /** The dict `sentences`: its (id, text) items in insertion order. */
  type AnnotationIndex = seq<SentenceRecord>

  /** What `load_sentences` raises. */
  datatype ParseError =
    | MarkerNotInFirstField  // IndexError from `.split("sent_id:")[1]`: the first tab-field lacks the marker
    | NoTabField             // IndexError from `.split("\t")[1]`: the line has no tab
    | DuplicateSentenceId    // the bare `raise Exception` for an id seen before

  function Ids(m: AnnotationIndex): (ids: seq<String>)
    ensures |ids| == |m|
  {
    seq(|m|, k requires 0 <= k < |m| => m[k].id)
  }

  /** No id is repeated, as a dict's keys are not. */
  ghost predicate DistinctIds(m: AnnotationIndex) {
    forall i, j :: 0 <= i < j < |m| ==> m[i].id != m[j].id
  }

  /** `sentences.get(id)`: the text of the first record with that id. */
  function Lookup(m: AnnotationIndex, id: String): Option<String> {
    if |m| == 0 then None
    else if m[0].id == id then Some(m[0].text)
    else Lookup(m[1..], id)
  }

  /** `"sent_id:" in line.strip()`: the lines the parser does not skip. */
  predicate IsMarked(line: String) {
    Contains(Strip(line), Marker)
  }

  /** The first tab-field: everything before the first tab. */
  function FirstField(line: String): String {
    line[..PieceEnd(line, Tab, 0)]
  }

  /** The id and text of one stripped line, as read at lines 38-39. */
  function ParseMarked(line: String): Result<SentenceRecord, ParseError> {
    var fields := Split(line, Tab);
    var keyParts := Split(fields[0], Marker);
    if |keyParts| < 2 then Err(MarkerNotInFirstField)
    else if |fields| < 2 then Err(NoTabField)
    else Ok(SentenceRecord(keyParts[1], fields[1]))
  }

  /** The loop of lines 34-42, continuing with the records `acc` already read. */
  function LoadFrom(lines: seq<String>, acc: AnnotationIndex): Result<AnnotationIndex, ParseError>
    decreases |lines|
  {
    if |lines| == 0 then Ok(acc)
    else
      var line := Strip(lines[0]);
      if !Contains(line, Marker) then LoadFrom(lines[1..], acc)
      else
        match ParseMarked(line)
        case Err(e) => Err(e)
        case Ok(rec) =>
          if rec.id in Ids(acc) then Err(DuplicateSentenceId)
          else LoadFrom(lines[1..], acc + [rec])
  }

  /** `load_sentences` applied to a file with these lines. */
  function LoadSentences(lines: seq<String>): Result<AnnotationIndex, ParseError> {
    LoadFrom(lines, [])
  }

  // ---------------------------------------------------------------------
  // Reference reading of the file
  // ---------------------------------------------------------------------

  /** The stripped marked lines, in file order. */
  function MarkedLines(lines: seq<String>): (ms: seq<String>)
    ensures |ms| <= |lines|
    ensures forall k :: 0 <= k < |ms| ==> Contains(ms[k], Marker)
  {
    if |lines| == 0 then []
    else (if IsMarked(lines[0]) then [Strip(lines[0])] else []) + MarkedLines(lines[1..])
  }

  ghost predicate AllWellFormed(ms: seq<String>) {
    forall k :: 0 <= k < |ms| ==> ParseMarked(ms[k]).Ok?
  }

  /** One record per marked line, in order. */
  function RecordsOf(ms: seq<String>): (rs: AnnotationIndex)
    requires AllWellFormed(ms)
    ensures |rs| == |ms|
  {
    if |ms| == 0 then [] else [ParseMarked(ms[0]).value] + RecordsOf(ms[1..])
  }

  // ---------------------------------------------------------------------
  // One line
  // ---------------------------------------------------------------------

  /** The marker holds no tab, so an occurrence of it before the first tab
      also ends before that tab. */
  lemma MarkerAvoidsTab(line: String, j: int)
    requires OccursAt(line, Marker, j) && j < PieceEnd(line, Tab, 0)
    ensures j + |Marker| <= PieceEnd(line, Tab, 0)
  {
    var t := PieceEnd(line, Tab, 0);
    assert '\t' !in Marker;
    forall p | j <= p < j + |Marker| ensures line[p] != '\t' {
      assert line[p] == line[j..j + |Marker|][p - j];
    }
    if t < |line| {
      assert OccursAt(line, Tab, t);
      assert line[t] == line[t..t + 1][0];
    }
  }

  /** Searching the first tab-field for the marker is searching the whole
      line for an occurrence that starts before the first tab. */
  lemma FindMarkerInFirstField(line: String, from: nat)
    requires from <= PieceEnd(line, Tab, 0)
    ensures var t := PieceEnd(line, Tab, 0);
            var f := FindFrom(FirstField(line), Marker, from);
            var g := FindFrom(line, Marker, from);
            && (f.Some? <==> g.Some? && g.value < t)
            && (f.Some? ==> f == g)
  {
    var t := PieceEnd(line, Tab, 0);
    var head := FirstField(line);
    forall j | j < t ensures OccursAt(head, Marker, j) <==> OccursAt(line, Marker, j) {
      OccursInFirstField(line, j);
    }
    var f := FindFrom(head, Marker, from);
    var g := FindFrom(line, Marker, from);
    if f.Some? {
      assert FirstFrom(line, Marker, from, f.value);
      FindFromFirst(line, Marker, from, f.value);
    }
    if g.Some? && g.value < t {
      assert FirstFrom(head, Marker, from, g.value);
      FindFromFirst(head, Marker, from, g.value);
    }
  }

  /** Before the first tab, the marker occurs in the first tab-field exactly
      where it occurs in the line. */
  lemma OccursInFirstField(line: String, j: int)
    requires j < PieceEnd(line, Tab, 0)
    ensures OccursAt(FirstField(line), Marker, j) <==> OccursAt(line, Marker, j)
  {
    var t := PieceEnd(line, Tab, 0);
    var head := FirstField(line);
    if OccursAt(head, Marker, j) {
      OccursInPrefix(line, t, Marker, j);
    }
    if OccursAt(line, Marker, j) {
      MarkerAvoidsTab(line, j);
      SliceOfPrefix(line, t, j, j + |Marker|);
    }
  }

  /** When lines 38-39 raise on one line: the first tab-field lacks the
      marker, or else the line has no tab. */
  lemma ParseMarkedErrors(line: String)
    ensures ParseMarked(line) == Err(MarkerNotInFirstField) <==> !Contains(FirstField(line), Marker)
    ensures ParseMarked(line) == Err(NoTabField) <==>
              Contains(FirstField(line), Marker) && !Contains(line, Tab)
    ensures ParseMarked(line).Err? ==> ParseMarked(line) != Err(DuplicateSentenceId)
  {
    SplitFirstPiece(line, Tab);
    SplitHasSecondPiece(line, Tab);
    SplitHasSecondPiece(FirstField(line), Marker);
  }

  /** The piece of the first tab-field that starts at `from` ends at the
      next marker or at the first tab, whichever comes first. */
  lemma FirstFieldPieceEnd(line: String, from: nat)
    requires from <= PieceEnd(line, Tab, 0)
    ensures var t := PieceEnd(line, Tab, 0);
            var e := PieceEnd(line, Marker, from);
            PieceEnd(FirstField(line), Marker, from) == if e < t then e else t
  {
    FindMarkerInFirstField(line, from);
  }

  /** What lines 38-39 read from one line. The id runs from just after the
      first `sent_id:` up to the next `sent_id:` or the first tab, whichever
      comes first; the text runs from the first tab up to the second tab or
      the end of the line. */
  lemma ParseMarkedFields(line: String)
    requires ParseMarked(line).Ok?
    ensures FindFrom(line, Tab, 0).Some? && FindFrom(line, Marker, 0).Some?
    ensures var t := FindFrom(line, Tab, 0).value;
            var m := FindFrom(line, Marker, 0).value;
            var idEnd := PieceEnd(line, Marker, m + |Marker|);
            && m + |Marker| <= t < |line|
            && ParseMarked(line).value.id == line[m + |Marker|..if idEnd < t then idEnd else t]
            && ParseMarked(line).value.text == line[t + 1..PieceEnd(line, Tab, t + 1)]
  {
    ParseMarkedErrors(line);
    TextField(line);
    IdField(line);
    SplitFirstPiece(line, Tab);
  }

  lemma TextField(line: String)
    requires Contains(line, Tab)
    ensures FindFrom(line, Tab, 0).Some?
    ensures var t := FindFrom(line, Tab, 0).value;
            t < |line| && Split(line, Tab)[1] == line[t + 1..PieceEnd(line, Tab, t + 1)]
  {
    var f := FindFrom(line, Tab, 0);
    assert f.Some? by {
      ContainsIffFind(line, Tab);
    }
    SplitSecondPiece(line, Tab, f.value);
  }

  lemma IdField(line: String)
    requires Contains(FirstField(line), Marker)
    ensures FindFrom(line, Marker, 0).Some?
    ensures var t := PieceEnd(line, Tab, 0);
            var m := FindFrom(line, Marker, 0).value;
            var idEnd := PieceEnd(line, Marker, m + |Marker|);
            && m + |Marker| <= t
            && Split(FirstField(line), Marker)[1] == line[m + |Marker|..if idEnd < t then idEnd else t]
  {
    var head := FirstField(line);
    var t := PieceEnd(line, Tab, 0);
    var f := FindFrom(head, Marker, 0);
    assert f.Some? by {
      ContainsIffFind(head, Marker);
    }
    SplitSecondPiece(head, Marker, f.value);
    FindMarkerInFirstField(line, 0);
    var m := FindFrom(line, Marker, 0).value;
    MarkerAvoidsTab(line, m);
    FirstFieldPieceEnd(line, m + |Marker|);
    var e := PieceEnd(head, Marker, m + |Marker|);
    assert Split(head, Marker)[1] == head[m + |Marker|..e];
    SliceOfPrefix(line, t, m + |Marker|, e);
  }

  // ---------------------------------------------------------------------
  // The whole file
  // ---------------------------------------------------------------------

  lemma AppendDistinct(acc: AnnotationIndex, rec: SentenceRecord)
    requires DistinctIds(acc) && rec.id !in Ids(acc)
    ensures DistinctIds(acc + [rec])
  {
    forall i, j | 0 <= i < j < |acc| + 1 ensures (acc + [rec])[i].id != (acc + [rec])[j].id {
      if j == |acc| {
        assert Ids(acc)[i] == acc[i].id;
      }
    }
  }

  /** The parser's result, characterised against the marked lines: it
      succeeds exactly when every marked line is well formed and the ids are
      distinct, it then holds one record per marked line in file order, and
      when every marked line is well formed the only possible error is the
      duplicate id. */
  ghost predicate LoadMatches(lines: seq<String>, acc: AnnotationIndex) {
    var ms := MarkedLines(lines);
    var r := LoadFrom(lines, acc);
    && (r.Ok? <==> AllWellFormed(ms) && DistinctIds(acc + RecordsOf(ms)))
    && (r.Ok? ==> AllWellFormed(ms) && r.value == acc + RecordsOf(ms))
    && (AllWellFormed(ms) && r.Err? ==> r.error == DuplicateSentenceId)
  }

  lemma {:induction false} LoadFromCorrect(lines: seq<String>, acc: AnnotationIndex)
    requires DistinctIds(acc)
    ensures LoadMatches(lines, acc)
    decreases |lines|, 1
  {
    if |lines| == 0 {
      assert acc + RecordsOf([]) == acc;
    } else if !IsMarked(lines[0]) {
      assert MarkedLines(lines) == MarkedLines(lines[1..]);
      LoadFromCorrect(lines[1..], acc);
    } else {
      LoadFromCorrectMarked(lines, acc);
    }
  }

  lemma {:induction false} LoadFromCorrectMarked(lines: seq<String>, acc: AnnotationIndex)
    requires DistinctIds(acc) && |lines| > 0 && IsMarked(lines[0])
    ensures LoadMatches(lines, acc)
    decreases |lines|, 0
  {
    var line := Strip(lines[0]);
    var ms' := MarkedLines(lines[1..]);
    assert MarkedLines(lines) == [line] + ms';
    RecordsOfCons(line, ms');
    if ParseMarked(line).Err? {
      ParseMarkedErrors(line);
    } else if ParseMarked(line).value.id in Ids(acc) {
      DuplicateStep(lines, acc);
    } else {
      var rec := ParseMarked(line).value;
      AppendDistinct(acc, rec);
      LoadFromCorrect(lines[1..], acc + [rec]);
      FreshStep(lines, acc);
    }
  }

  /** A marked line whose id was already read stops the parse. */
  lemma DuplicateStep(lines: seq<String>, acc: AnnotationIndex)
    requires |lines| > 0 && IsMarked(lines[0])
    requires ParseMarked(Strip(lines[0])).Ok? && ParseMarked(Strip(lines[0])).value.id in Ids(acc)
    ensures LoadFrom(lines, acc) == Err(DuplicateSentenceId)
    ensures AllWellFormed(MarkedLines(lines)) ==> !DistinctIds(acc + RecordsOf(MarkedLines(lines)))
  {
    var line := Strip(lines[0]);
    var rec := ParseMarked(line).value;
    var ms := MarkedLines(lines);
    var ms' := MarkedLines(lines[1..]);
    assert ms == [line] + ms';
    RecordsOfCons(line, ms');
    var i :| 0 <= i < |acc| && Ids(acc)[i] == rec.id;
    if AllWellFormed(ms) {
      assert (acc + RecordsOf(ms))[i].id == (acc + RecordsOf(ms))[|acc|].id;
    }
  }

  /** A marked line with a new id adds its record and the parse goes on. */
  lemma FreshStep(lines: seq<String>, acc: AnnotationIndex)
    requires |lines| > 0 && IsMarked(lines[0])
    requires ParseMarked(Strip(lines[0])).Ok? && ParseMarked(Strip(lines[0])).value.id !in Ids(acc)
    ensures var rec := ParseMarked(Strip(lines[0])).value;
            && LoadFrom(lines, acc) == LoadFrom(lines[1..], acc + [rec])
            && (AllWellFormed(MarkedLines(lines)) <==> AllWellFormed(MarkedLines(lines[1..])))
            && (AllWellFormed(MarkedLines(lines)) ==>
                  acc + RecordsOf(MarkedLines(lines)) == acc + [rec] + RecordsOf(MarkedLines(lines[1..])))
  {
    var line := Strip(lines[0]);
    var rec := ParseMarked(line).value;
    var ms' := MarkedLines(lines[1..]);
    assert MarkedLines(lines) == [line] + ms';
    RecordsOfCons(line, ms');
    if AllWellFormed(ms') {
      var rs' := RecordsOf(ms');
      assert acc + [rec] + rs' == acc + ([rec] + rs');
    }
  }

  /** A well-formed marked line in front adds its record in front. */
  lemma RecordsOfCons(line: String, ms: seq<String>)
    ensures AllWellFormed([line] + ms) <==> ParseMarked(line).Ok? && AllWellFormed(ms)
    ensures AllWellFormed([line] + ms) ==>
              RecordsOf([line] + ms) == [ParseMarked(line).value] + RecordsOf(ms)
  {
    var l := [line] + ms;
    assert l[0] == line && l[1..] == ms;
    if ParseMarked(line).Ok? && AllWellFormed(ms) {
      forall k | 0 <= k < |l| ensures ParseMarked(l[k]).Ok? {
        if k > 0 { assert l[k] == ms[k - 1]; }
      }
    }
    if AllWellFormed(l) {
      forall k | 0 <= k < |ms| ensures ParseMarked(ms[k]).Ok? {
        assert ms[k] == l[k + 1];
      }
    }
  }

  /** `load_sentences` succeeds exactly when every marked line is well formed
      and no id repeats; the mapping then has one entry per marked line, in
      file order, and `mapping[id] == text` for each of them. */
  lemma LoadSentencesCorrect(lines: seq<String>)
    ensures var ms := MarkedLines(lines);
            LoadSentences(lines).Ok? <==> AllWellFormed(ms) && DistinctIds(RecordsOf(ms))
    ensures var ms := MarkedLines(lines);
            LoadSentences(lines).Ok? ==>
              && AllWellFormed(ms)
              && LoadSentences(lines).value == RecordsOf(ms)
              && |LoadSentences(lines).value| == |ms|
              && forall k :: 0 <= k < |ms| ==>
                   Lookup(LoadSentences(lines).value, RecordsOf(ms)[k].id) == Some(RecordsOf(ms)[k].text)
  {
    LoadFromCorrect(lines, []);
    var ms := MarkedLines(lines);
    if AllWellFormed(ms) {
      assert [] + RecordsOf(ms) == RecordsOf(ms);
    }
    if LoadSentences(lines).Ok? {
      LookupDistinct(LoadSentences(lines).value);
    }
  }

  /** In a mapping without repeated ids every record is found by its id. */
  lemma {:induction false} LookupDistinct(m: AnnotationIndex)
    requires DistinctIds(m)
    ensures forall k :: 0 <= k < |m| ==> Lookup(m, m[k].id) == Some(m[k].text)
  {
    if |m| > 0 {
      LookupDistinct(m[1..]);
      forall k | 0 <= k < |m| ensures Lookup(m, m[k].id) == Some(m[k].text) {
        if k > 0 {
          assert m[1..][k - 1] == m[k];
        }
      }
    }
  }

  /** Two marked lines of the file with the same id make the parse raise
      the duplicate-id error, whatever follows the second of them, as long
      as every marked line up to it is well formed. */
  lemma DuplicateIdFails(lines: seq<String>, i: nat, j: nat)
    requires i < j < |lines| && IsMarked(lines[i]) && IsMarked(lines[j])
    requires AllWellFormed(MarkedLines(lines[..j])) && ParseMarked(Strip(lines[j])).Ok?
    requires ParseMarked(Strip(lines[i])).Ok?
    requires ParseMarked(Strip(lines[i])).value.id == ParseMarked(Strip(lines[j])).value.id
    ensures LoadSentences(lines) == Err(DuplicateSentenceId)
  {
    var a, b := lines[..j], lines[j..];
    assert lines == a + b;
    assert b[0] == lines[j];
    assert a[i] == lines[i];
    LoadAppend(a, b, []);
    LoadFromCorrect(a, []);
    assert LoadMatches(a, []);
    if LoadFrom(a, []).Ok? {
      LoadedLineRecorded(a, i);
      DuplicateStep(b, LoadFrom(a, []).value);
    }
  }

  /** When the parse returns, every marked line's id is in the mapping. */
  lemma LoadedLineRecorded(lines: seq<String>, i: nat)
    requires i < |lines| && IsMarked(lines[i]) && ParseMarked(Strip(lines[i])).Ok?
    ensures LoadSentences(lines).Ok? ==>
              ParseMarked(Strip(lines[i])).value.id in Ids(LoadSentences(lines).value)
  {
    var a, c := lines[..i], lines[i..];
    assert lines == a + c;
    assert c[0] == lines[i];
    LoadAppend(a, c, []);
    LoadFromCorrect(a, []);
    assert LoadMatches(a, []);
    if LoadFrom(a, []).Ok? {
      var m1 := LoadFrom(a, []).value;
      var rec := ParseMarked(Strip(lines[i])).value;
      if rec.id !in Ids(m1) {
        FreshStep(c, m1);
        AppendDistinct(m1, rec);
        LoadFromCorrect(c[1..], m1 + [rec]);
        assert LoadMatches(c[1..], m1 + [rec]);
        if LoadSentences(lines).Ok? {
          assert Ids(LoadSentences(lines).value)[|m1|] == rec.id;
        }
      } else {
        DuplicateStep(c, m1);
      }
    }
  }

  /** Lines without the marker never affect the result: parsing only the
      marked lines gives the same mapping or the same error. */
  lemma {:induction false} LoadFromIgnoresUnmarked(lines: seq<String>, acc: AnnotationIndex)
    ensures LoadFrom(lines, acc) == LoadFrom(MarkedLines(lines), acc)
    decreases |lines|
  {
    if |lines| > 0 {
      var ms := MarkedLines(lines);
      var ms' := MarkedLines(lines[1..]);
      if IsMarked(lines[0]) {
        var line := Strip(lines[0]);
        StripIdempotent(lines[0]);
        assert ms == [line] + ms';
        assert ms[0] == line && ms[1..] == ms';
        assert Strip(ms[0]) == line;
        match ParseMarked(line)
        case Err(e) =>
        case Ok(rec) =>
          if rec.id !in Ids(acc) {
            LoadFromIgnoresUnmarked(lines[1..], acc + [rec]);
          }
      } else {
        assert ms == ms';
        LoadFromIgnoresUnmarked(lines[1..], acc);
      }
    }
  }

  lemma LoadSentencesIgnoresUnmarked(lines: seq<String>)
    ensures LoadSentences(lines) == LoadSentences(MarkedLines(lines))
  {
    LoadFromIgnoresUnmarked(lines, []);
  }

  /** Lines are stripped before anything else: files whose lines strip to
      the same text parse alike. */
  lemma {:induction false} StripFirst(a: seq<String>, b: seq<String>)
    requires |a| == |b|
    requires forall k :: 0 <= k < |a| ==> Strip(a[k]) == Strip(b[k])
    ensures LoadSentences(a) == LoadSentences(b)
  {
    MarkedLinesAlike(a, b);
    LoadSentencesIgnoresUnmarked(a);
    LoadSentencesIgnoresUnmarked(b);
  }

  lemma {:induction false} MarkedLinesAlike(a: seq<String>, b: seq<String>)
    requires |a| == |b|
    requires forall k :: 0 <= k < |a| ==> Strip(a[k]) == Strip(b[k])
    ensures MarkedLines(a) == MarkedLines(b)
    decreases |a|
  {
    if |a| > 0 {
      MarkedLinesAlike(a[1..], b[1..]);
    }
  }

  /** Leading and trailing whitespace on a line, tabs included, is removed
      before the line is split, so it changes nothing. */
  lemma PaddingIgnored(lines: seq<String>, k: nat, pre: String, post: String)
    requires k < |lines| && AllSpace(pre) && AllSpace(post)
    ensures LoadSentences(lines[k := pre + lines[k] + post]) == LoadSentences(lines)
  {
    StripPadding(pre, lines[k], post);
    StripFirst(lines[k := pre + lines[k] + post], lines);
  }

  /** The first line that fails decides the error: once the lines before a
      malformed marked line have parsed, the parse raises that line's error. */
  lemma {:induction false} MalformedLineFails(lines: seq<String>, k: nat)
    requires k < |lines| && IsMarked(lines[k]) && ParseMarked(Strip(lines[k])).Err?
    ensures LoadSentences(lines).Err?
    ensures LoadSentences(lines[..k]).Ok? ==>
              LoadSentences(lines) == Err(ParseMarked(Strip(lines[k])).error)
  {
    var a, b := lines[..k], lines[k..];
    assert lines == a + b;
    assert b[0] == lines[k];
    LoadAppend(a, b, []);
    if LoadFrom(a, []).Ok? {
      MalformedStep(b, LoadFrom(a, []).value);
    }
  }

  /** A malformed marked line raises its own error. */
  lemma MalformedStep(lines: seq<String>, acc: AnnotationIndex)
    requires |lines| > 0 && IsMarked(lines[0]) && ParseMarked(Strip(lines[0])).Err?
    ensures LoadFrom(lines, acc) == Err(ParseMarked(Strip(lines[0])).error)
  {
  }

  /** Parsing a file in two parts is parsing the second part with the
      mapping the first part built. */
  lemma {:induction false} LoadAppend(a: seq<String>, b: seq<String>, acc: AnnotationIndex)
    ensures LoadFrom(a + b, acc) == match LoadFrom(a, acc) case Ok(m) => LoadFrom(b, m) case Err(e) => Err(e)
    decreases |a|
  {
    if |a| > 0 {
      assert (a + b)[0] == a[0];
      assert (a + b)[1..] == a[1..] + b;
      var line := Strip(a[0]);
      if !Contains(line, Marker) {
        LoadAppend(a[1..], b, acc);
      } else {
        match ParseMarked(line)
        case Err(e) =>
        case Ok(rec) =>
          if rec.id !in Ids(acc) {
            LoadAppend(a[1..], b, acc + [rec]);
          }
      }
    } else {
      assert a + b == b;
    }
  }

  // ---------------------------------------------------------------------
  // Round trip with the gold format
  // ---------------------------------------------------------------------

  /** The gold-file line for one record: `sent_id:<id><TAB><text>`. */
  function FormatLine(rec: SentenceRecord): String {
    Marker + rec.id + Tab + rec.text
  }

  /** Records that the gold format can carry on one line: no line break in
      either field, no tab and no marker in the id, no tab in the text, and
      a text that does not end in whitespace (which the parser's strip would
      remove). */
  predicate Writable(rec: SentenceRecord) {
    && '\n' !in rec.id && '\r' !in rec.id && '\n' !in rec.text && '\r' !in rec.text
    && '\t' !in rec.id && !Contains(rec.id, Marker)
    && '\t' !in rec.text && |rec.text| > 0 && !IsSpace(rec.text[|rec.text| - 1])
  }

  /** Parsing the gold line of a writable record gives the record back. */
  lemma ParseFormatLine(rec: SentenceRecord)
    requires Writable(rec)
    ensures Strip(FormatLine(rec)) == FormatLine(rec)
    ensures Contains(FormatLine(rec), Marker)
    ensures ParseMarked(FormatLine(rec)) == Ok(rec)
  {
    var line := FormatLine(rec);
    FormatLineWellFormed(rec);
    ParseMarkedFields(line);
    FormatLineFirstTab(rec);
    assert FindFrom(line, Marker, 0) == Some(0);
    IdEndsAtTab(rec);
    TextRunsToEnd(rec);
    FormatLineSlices(rec);
  }

  lemma FormatLineWellFormed(rec: SentenceRecord)
    requires Writable(rec)
    ensures Strip(FormatLine(rec)) == FormatLine(rec)
    ensures OccursAt(FormatLine(rec), Marker, 0) && Contains(FormatLine(rec), Marker)
    ensures ParseMarked(FormatLine(rec)).Ok?
  {
    FormatLineStripped(rec);
    FormatLineMarked(rec);
    ParseMarkedErrors(FormatLine(rec));
  }

  lemma FormatLineStripped(rec: SentenceRecord)
    requires |rec.text| > 0 && !IsSpace(rec.text[|rec.text| - 1])
    ensures Strip(FormatLine(rec)) == FormatLine(rec)
  {
    var line := FormatLine(rec);
    assert line[0] == 's' && line[|line| - 1] == rec.text[|rec.text| - 1];
    StripUnpadded(line);
  }

  /** The written line holds the marker at its start, inside its first
      tab-field, and holds a tab. */
  lemma FormatLineMarked(rec: SentenceRecord)
    requires Writable(rec)
    ensures var line := FormatLine(rec);
            && OccursAt(line, Marker, 0) && Contains(line, Marker)
            && Contains(FirstField(line), Marker) && Contains(line, Tab)
  {
    var line := FormatLine(rec);
    var t := |Marker| + |rec.id|;
    FormatLineFirstTab(rec);
    FormatLineSlices(rec);
    assert OccursAt(line, Marker, 0);
    assert Contains(FirstField(line), Marker) by {
      assert FirstField(line)[..|Marker|] == Marker;
      assert OccursAt(FirstField(line), Marker, 0);
    }
    assert Contains(line, Tab) by {
      assert OccursAt(line, Tab, t);
    }
  }

  lemma FormatLineSlices(rec: SentenceRecord)
    ensures var line := FormatLine(rec);
            var t := |Marker| + |rec.id|;
            && line[..|Marker|] == Marker
            && line[|Marker|..t] == rec.id
            && line[t + 1..|line|] == rec.text
  {
  }

  lemma FormatLineFirstTab(rec: SentenceRecord)
    requires Writable(rec)
    ensures FindFrom(FormatLine(rec), Tab, 0) == Some(|Marker| + |rec.id|)
  {
    var line := FormatLine(rec);
    var t := |Marker| + |rec.id|;
    assert '\t' !in Marker;
    forall j | 0 <= j < t ensures line[j] != '\t' {
      if j < |Marker| { assert line[j] == Marker[j]; } else { assert line[j] == rec.id[j - |Marker|]; }
    }
    forall j | 0 <= j < t ensures !OccursAt(line, Tab, j) {
      assert line[j..j + 1][0] == line[j];
    }
    assert line[t..t + 1] == Tab;
    assert OccursAt(line, Tab, t);
  }

  lemma IdEndsAtTab(rec: SentenceRecord)
    requires Writable(rec)
    ensures PieceEnd(FormatLine(rec), Marker, |Marker|) >= |Marker| + |rec.id|
  {
    var t := |Marker| + |rec.id|;
    forall j | |Marker| <= j < t ensures !OccursAt(FormatLine(rec), Marker, j) {
      MarkerInFormattedId(rec, j);
    }
  }

  /** An occurrence of the marker after the line's own marker and before
      the tab would lie inside the id. */
  lemma MarkerInFormattedId(rec: SentenceRecord, j: int)
    requires Writable(rec) && |Marker| <= j < |Marker| + |rec.id|
    ensures OccursAt(FormatLine(rec), Marker, j) ==> OccursAt(rec.id, Marker, j - |Marker|)
  {
    var line := FormatLine(rec);
    if OccursAt(line, Marker, j) {
      FormatLineFirstTab(rec);
      MarkerAvoidsTab(line, j);
      assert line[j..j + |Marker|] == rec.id[j - |Marker|..j];
    }
  }

  lemma TextRunsToEnd(rec: SentenceRecord)
    requires Writable(rec)
    ensures PieceEnd(FormatLine(rec), Tab, |Marker| + |rec.id| + 1) == |FormatLine(rec)|
  {
    var line := FormatLine(rec);
    var s := |Marker| + |rec.id| + 1;
    forall j | s <= j < |line| ensures line[j] != '\t' {
      assert line[j] == rec.text[j - s];
    }
    forall j | s <= j ensures !OccursAt(line, Tab, j) {
      if j < |line| { assert line[j..j + 1][0] == line[j]; }
    }
  }

  /** A file of one well-formed marked line maps that line's id to its text. */
  lemma LoadSingleLine(line: String)
    requires IsMarked(line) && ParseMarked(Strip(line)).Ok?
    ensures LoadSentences([line]) == Ok([ParseMarked(Strip(line)).value])
  {
    var rec := ParseMarked(Strip(line)).value;
    assert [line][0] == line && [line][1..] == [];
    assert rec.id !in Ids([]);
    FreshStep([line], []);
    assert [] + [rec] == [rec];
    assert LoadFrom([], [rec]) == Ok([rec]);
  }

  /** A file of one gold line written from a writable record loads as that record. */
  lemma LoadWrittenLine(rec: SentenceRecord)
    requires Writable(rec)
    ensures LoadSentences([FormatLine(rec)]) == Ok([rec])
  {
    ParseFormatLine(rec);
    LoadSingleLine(FormatLine(rec));
  }

  /** A well-formed gold line: `sent_id:42<TAB>The cat sat.` maps id `42` to
      the sentence. */
  lemma ParseExample(line: String)
    requires line == "sent_id:42\tThe cat sat."
    ensures LoadSentences([line]) == Ok([SentenceRecord("42", "The cat sat.")])
  {
    var rec := SentenceRecord("42", "The cat sat.");
    ExampleWritable(rec);
    LoadWrittenLine(rec);
  }

  lemma ExampleWritable(rec: SentenceRecord)
    requires rec == SentenceRecord("42", "The cat sat.")
    ensures Writable(rec) && FormatLine(rec) == "sent_id:42\tThe cat sat."
  {
  }

  /** A gold line with a tab between a prefix and the marker raises: its
      first tab-field is `prefix`, which holds no `sent_id:`. */
  lemma PrefixFieldExample(line: String)
    requires line == "prefix\tsent_id:42\tThe cat sat."
    ensures LoadSentences([line]) == Err(MarkerNotInFirstField)
  {
    PrefixLineFields(line);
    assert ParseMarked(line) == Err(MarkerNotInFirstField) by {
      ParseMarkedErrors(line);
    }
    MalformedLineFails([line], 0);
    assert [line][..0] == [];
  }

  /** The pieces of the prefixed line that the parser looks at. */
  lemma PrefixLineFields(line: String)
    requires line == "prefix\tsent_id:42\tThe cat sat."
    ensures Strip(line) == line && IsMarked(line)
    ensures FirstField(line) == "prefix" && !Contains(FirstField(line), Marker)
  {
    PrefixStripped(line);
    PrefixMarker(line);
    PrefixFirstTab(line);
  }

  lemma PrefixStripped(line: String)
    requires line == "prefix\tsent_id:42\tThe cat sat."
    ensures Strip(line) == line
  {
    assert line[0] == 'p' && line[|line| - 1] == '.';
    StripUnpadded(line);
  }

  lemma PrefixMarker(line: String)
    requires line == "prefix\tsent_id:42\tThe cat sat."
    ensures Contains(line, Marker)
  {
    assert line == "prefix\t" + Marker + "42\tThe cat sat.";
    assert OccursAt(line, Marker, 7);
  }

  lemma PrefixFirstTab(line: String)
    requires line == "prefix\tsent_id:42\tThe cat sat."
    ensures FindFrom(line, Tab, 0) == Some(6) && FirstField(line) == "prefix"
  {
    forall j | 0 <= j < 6 ensures !OccursAt(line, Tab, j) {
      assert line[j..j + 1][0] == line[j];
    }
    assert line[6..7][0] == line[6] == '\t';
    FindFromFirst(line, Tab, 0, 6);
    assert FirstField(line) == line[..6] == "prefix";
  }

  /** The gold lines of a sequence of records, one per record. */
  function FormatLines(rs: AnnotationIndex): (lines: seq<String>)
    ensures |lines| == |rs|
  {
    if |rs| == 0 then [] else [FormatLine(rs[0])] + FormatLines(rs[1..])
  }

  /** Parsing is the inverse of writing the gold format: the lines written
      for writable records with distinct ids parse back to those records, in
      order. */
  lemma LoadFormatLines(rs: AnnotationIndex)
    requires forall k :: 0 <= k < |rs| ==> Writable(rs[k])
    requires DistinctIds(rs)
    ensures LoadSentences(FormatLines(rs)) == Ok(rs)
  {
    FormatLinesMarked(rs);
    LoadSentencesCorrect(FormatLines(rs));
  }

  lemma {:induction false} FormatLinesMarked(rs: AnnotationIndex)
    requires forall k :: 0 <= k < |rs| ==> Writable(rs[k])
    ensures MarkedLines(FormatLines(rs)) == FormatLines(rs)
    ensures AllWellFormed(FormatLines(rs)) && RecordsOf(FormatLines(rs)) == rs
  {
    if |rs| > 0 {
      var lines := FormatLines(rs);
      FormatLinesMarked(rs[1..]);
      ParseFormatLine(rs[0]);
      assert lines[0] == FormatLine(rs[0]) && lines[1..] == FormatLines(rs[1..]);
      RecordsOfCons(FormatLine(rs[0]), FormatLines(rs[1..]));
      assert [FormatLine(rs[0])] + FormatLines(rs[1..]) == lines;
      assert [rs[0]] + rs[1..] == rs;
    }
  }
}
