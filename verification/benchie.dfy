/**
 * `prepare_detie_benchie_format`: build a triplet extractor (from the
 * configuration, or failing that from explicit paths), parse the gold
 * sentences, run the extractor once per sentence, drop triplets with an
 * empty field, and collect the rest into four parallel columns
 * `sent_id, arg1, rel, arg2` that are optionally written to a file.
 *
 * The extractor, its two constructors and the file write are outside the
 * model: the constructors are functions in a `Backend`, the extractor is a
 * function from sentence to triplets, and a write is an event in the trace.
 */
module Benchie {
  import opened Results
  import opened PyStr
  import opened Annotations

  /** A `(subject, relation, object)` tuple as the extractor returns it. */
  datatype Triplet = Triplet(subject: String, relation: String, obj: String)

  /** What a step can raise. Only the distinction the callers make matters:
      `RuntimeError` against everything else. */
  datatype Raised =
    | RuntimeError
    | ParseFailure(error: ParseError)  // raised by `load_sentences`
    | OtherException                   // any other exception of the extractor or its constructors

  /** A constructed extractor: `mte(raw_sentence)`. */
  type Extractor = String -> Result<seq<Triplet>, Raised>

  /** The fields of `cfg.model` the script reads or writes. */
  datatype Config = Config(name: String, bestVersion: int, bestCkptPath: String, bestHparamsPath: String)

  /** The two ways of constructing a `DetIETripletExtractor`. */
  datatype Backend = Backend(
    fromConfig: (Config, bool) -> Result<Extractor, Raised>,                // (cfg, most_common)
    fromPaths: (String, String, String, bool) -> Result<Extractor, Raised>)  // (model_name, best_ckpt_path, best_hparams_path, most_common)

  /** The output file of one (version, language) task. */
  datatype SavePath = SavePath(version: int, language: String)

  datatype Row = Row(sentId: String, arg1: String, rel: String, arg2: String)

  /** `future_dataframe`: four columns appended to side by side. */
  datatype Table = Table(sentId: seq<String>, arg1: seq<String>, rel: seq<String>, arg2: seq<String>)

  /** The observable steps of one call, in order. */
  datatype Event =
    | BuiltFromConfig          // `DetIETripletExtractor(cfg, ...)` was called
    | BuiltFromPaths           // `DetIETripletExtractor(model_name=..., ...)` was called
    | Extracted(sentence: String)
    | Wrote(path: SavePath, table: Table)

  /** One call of `prepare_detie_benchie_format`: its trace and its outcome. */
  datatype Attempt = Attempt(events: seq<Event>, result: Result<Table, Raised>)

  // ---------------------------------------------------------------------
  // The table
  // ---------------------------------------------------------------------

  const EmptyTable := Table([], [], [], [])

  predicate Rectangular(t: Table) {
    |t.arg1| == |t.sentId| && |t.rel| == |t.sentId| && |t.arg2| == |t.sentId|
  }

  /** The table read row by row, as the TSV file lists it. */
  function Rows(t: Table): (rows: seq<Row>)
    requires Rectangular(t)
    ensures |rows| == |t.sentId|
  {
    seq(|t.sentId|, k requires 0 <= k < |t.sentId| => Row(t.sentId[k], t.arg1[k], t.rel[k], t.arg2[k]))
  }

  /** Rows laid out as columns. */
  function Columns(rows: seq<Row>): Table {
    Table(seq(|rows|, k requires 0 <= k < |rows| => rows[k].sentId),
          seq(|rows|, k requires 0 <= k < |rows| => rows[k].arg1),
          seq(|rows|, k requires 0 <= k < |rows| => rows[k].rel),
          seq(|rows|, k requires 0 <= k < |rows| => rows[k].arg2))
  }

  /** Reading the columns back row by row gives the same rows in the same
      order, and every rectangular table is the columns of its rows. */
  lemma RowsColumnsRoundTrip(rows: seq<Row>, t: Table)
    ensures Rectangular(Columns(rows)) && Rows(Columns(rows)) == rows
    ensures Rectangular(t) ==> Columns(Rows(t)) == t
  {
  }

  // ---------------------------------------------------------------------
  // The triplet filter (lines 71-77)
  // ---------------------------------------------------------------------

  /** A triplet worth a row: no field is empty or whitespace only. */
  predicate Informative(t: Triplet) {
    !AllSpace(t.subject) && !AllSpace(t.relation) && !AllSpace(t.obj)
  }

  /** The inner loop: append the triplets of one sentence, skipping those
      with a field that strips to nothing. */
  function AppendTriplets(tab: Table, id: String, ts: seq<Triplet>): Table
    decreases |ts|
  {
    if |ts| == 0 then tab
    else
      var t := ts[0];
      if |Strip(t.subject)| == 0 || |Strip(t.relation)| == 0 || |Strip(t.obj)| == 0 then
        AppendTriplets(tab, id, ts[1..])
      else
        AppendTriplets(Table(tab.sentId + [id], tab.arg1 + [t.subject], tab.rel + [t.relation], tab.arg2 + [t.obj]),
                       id, ts[1..])
  }

  /** The rows the informative triplets of one sentence contribute, fields
      unstripped. */
  function KeptRows(id: String, ts: seq<Triplet>): (rows: seq<Row>)
    ensures |rows| <= |ts|
  {
    if |ts| == 0 then []
    else
      (if Informative(ts[0]) then [Row(id, ts[0].subject, ts[0].relation, ts[0].obj)] else [])
      + KeptRows(id, ts[1..])
  }

  /** The Python test `len(x.strip()) == 0` is the whitespace-only test. */
  lemma SkipTestIsInformative(t: Triplet)
    ensures !(|Strip(t.subject)| == 0 || |Strip(t.relation)| == 0 || |Strip(t.obj)| == 0) <==> Informative(t)
  {
    StripEmptyIff(t.subject);
    StripEmptyIff(t.relation);
    StripEmptyIff(t.obj);
  }

  /** Appending one entry to each column appends one row. */
  lemma RowsAppend(tab: Table, row: Row)
    requires Rectangular(tab)
    ensures var tab' := Table(tab.sentId + [row.sentId], tab.arg1 + [row.arg1], tab.rel + [row.rel], tab.arg2 + [row.arg2]);
            Rectangular(tab') && Rows(tab') == Rows(tab) + [row]
  {
  }

  /** The inner loop keeps the four columns the same length and appends
      exactly the rows of the informative triplets, in extractor order. */
  lemma {:induction false} AppendTripletsRows(tab: Table, id: String, ts: seq<Triplet>)
    requires Rectangular(tab)
    ensures Rectangular(AppendTriplets(tab, id, ts))
    ensures Rows(AppendTriplets(tab, id, ts)) == Rows(tab) + KeptRows(id, ts)
    decreases |ts|
  {
    if |ts| > 0 {
      var t := ts[0];
      var row := Row(id, t.subject, t.relation, t.obj);
      var tab' := Table(tab.sentId + [id], tab.arg1 + [t.subject], tab.rel + [t.relation], tab.arg2 + [t.obj]);
      AppendTripletsStep(tab, id, ts);
      if Informative(t) {
        RowsAppend(tab, row);
        AppendTripletsRows(tab', id, ts[1..]);
        ConcatAssoc(Rows(tab), [row], KeptRows(id, ts[1..]));
      } else {
        AppendTripletsRows(tab, id, ts[1..]);
      }
    } else {
      assert Rows(tab) + [] == Rows(tab);
    }
  }

  /** One turn of the inner loop: an informative triplet adds its row, any
      other is skipped. */
  lemma AppendTripletsStep(tab: Table, id: String, ts: seq<Triplet>)
    requires |ts| > 0
    ensures var t := ts[0];
            var tab' := Table(tab.sentId + [id], tab.arg1 + [t.subject], tab.rel + [t.relation], tab.arg2 + [t.obj]);
            && (Informative(t) ==> AppendTriplets(tab, id, ts) == AppendTriplets(tab', id, ts[1..]))
            && (Informative(t) ==> KeptRows(id, ts) == [Row(id, t.subject, t.relation, t.obj)] + KeptRows(id, ts[1..]))
            && (!Informative(t) ==> AppendTriplets(tab, id, ts) == AppendTriplets(tab, id, ts[1..]))
            && (!Informative(t) ==> KeptRows(id, ts) == KeptRows(id, ts[1..]))
  {
    SkipTestIsInformative(ts[0]);
  }

  lemma ConcatAssoc<T>(a: seq<T>, b: seq<T>, c: seq<T>)
    ensures a + b + c == a + (b + c)
  {
  }

  /** A row is kept exactly when its triplet was returned and is
      informative; it carries the sentence's id and the unstripped fields. */
  lemma {:induction false} KeptRowsMembership(id: String, ts: seq<Triplet>, row: Row)
    ensures row in KeptRows(id, ts) <==>
              row.sentId == id && Triplet(row.arg1, row.rel, row.arg2) in ts
              && Informative(Triplet(row.arg1, row.rel, row.arg2))
    decreases |ts|
  {
    if |ts| > 0 {
      KeptRowsMembership(id, ts[1..], row);
      assert ts == [ts[0]] + ts[1..];
    }
  }

  /** An example: of `("cat", "sat", "")` and
      `("cat", "sat on", "mat")` only the second gives a row. */
  lemma FilterExample(id: String)
    ensures KeptRows(id, [Triplet("cat", "sat", ""), Triplet("cat", "sat on", "mat")])
            == [Row(id, "cat", "sat on", "mat")]
  {
    assert !IsSpace('c') && !IsSpace('s') && !IsSpace('m');
    assert !AllSpace("cat") by { assert "cat"[0] == 'c'; }
    assert !AllSpace("sat on") by { assert "sat on"[0] == 's'; }
    assert !AllSpace("mat") by { assert "mat"[0] == 'm'; }
    var ts := [Triplet("cat", "sat", ""), Triplet("cat", "sat on", "mat")];
    assert ts[1..][1..] == [];
  }

  // ---------------------------------------------------------------------
  // The sentence loop (lines 68-77)
  // ---------------------------------------------------------------------

  /** The sentences the extractor was called on, and how the loop ended. */
  datatype Aggregation = Aggregation(calls: seq<String>, result: Result<Table, Raised>)

  /** The outer loop over the parsed mapping, in insertion order. An
      exception of the extractor ends the loop and propagates. */
  function Aggregate(ex: Extractor, index: AnnotationIndex, tab: Table): Aggregation
    decreases |index|
  {
    if |index| == 0 then Aggregation([], Ok(tab))
    else
      var rec := index[0];
      match ex(rec.text)
      case Err(e) => Aggregation([rec.text], Err(e))
      case Ok(ts) =>
        var rest := Aggregate(ex, index[1..], AppendTriplets(tab, rec.id, ts));
        Aggregation([rec.text] + rest.calls, rest.result)
  }

  function Texts(index: AnnotationIndex): (texts: seq<String>)
    ensures |texts| == |index|
  {
    seq(|index|, k requires 0 <= k < |index| => index[k].text)
  }

  /** Every sentence of the mapping extracts without raising. */
  ghost predicate AllExtracted(ex: Extractor, index: AnnotationIndex) {
    forall k :: 0 <= k < |index| ==> ex(index[k].text).Ok?
  }

  /** The reference table: per sentence in order, the kept rows of its
      triplets in extractor order. */
  ghost function ExpectedRows(ex: Extractor, index: AnnotationIndex): seq<Row>
    requires AllExtracted(ex, index)
  {
    if |index| == 0 then []
    else KeptRows(index[0].id, ex(index[0].text).value) + ExpectedRows(ex, index[1..])
  }

  /** How many triplets the extractor returns over the whole mapping. */
  ghost function TripletCount(ex: Extractor, index: AnnotationIndex): nat
    requires AllExtracted(ex, index)
  {
    if |index| == 0 then 0 else |ex(index[0].text).value| + TripletCount(ex, index[1..])
  }

  lemma AllExtractedTail(ex: Extractor, index: AnnotationIndex)
    requires |index| > 0
    ensures AllExtracted(ex, index) <==> ex(index[0].text).Ok? && AllExtracted(ex, index[1..])
  {
    if ex(index[0].text).Ok? && AllExtracted(ex, index[1..]) {
      forall k | 0 <= k < |index| ensures ex(index[k].text).Ok? {
        if k > 0 { assert index[k] == index[1..][k - 1]; }
      }
    }
  }

  /** One step of the sentence loop when the first extraction returns. */
  lemma AggregateStep(ex: Extractor, index: AnnotationIndex, tab: Table)
    requires |index| > 0 && ex(index[0].text).Ok?
    ensures var rest := Aggregate(ex, index[1..], AppendTriplets(tab, index[0].id, ex(index[0].text).value));
            Aggregate(ex, index, tab) == Aggregation([index[0].text] + rest.calls, rest.result)
  {
  }

  /** The loop returns exactly when no extraction raises. */
  lemma {:induction false} AggregateOkIff(ex: Extractor, index: AnnotationIndex, tab: Table)
    ensures Aggregate(ex, index, tab).result.Ok? <==> AllExtracted(ex, index)
    decreases |index|
  {
    if |index| > 0 {
      AllExtractedTail(ex, index);
      if ex(index[0].text).Ok? {
        AggregateStep(ex, index, tab);
        AggregateOkIff(ex, index[1..], AppendTriplets(tab, index[0].id, ex(index[0].text).value));
      }
    }
  }

  /** When the loop returns, it called the extractor on every sentence,
      in mapping order. */
  lemma {:induction false} AggregateCallsAll(ex: Extractor, index: AnnotationIndex, tab: Table)
    ensures var a := Aggregate(ex, index, tab);
            a.result.Ok? ==> a.calls == Texts(index)
    decreases |index|
  {
    if |index| > 0 && ex(index[0].text).Ok? {
      var rec := index[0];
      AggregateStep(ex, index, tab);
      AggregateCallsAll(ex, index[1..], AppendTriplets(tab, rec.id, ex(rec.text).value));
      assert Texts(index) == [rec.text] + Texts(index[1..]);
    }
  }

  /** When the loop returns, it appended the reference rows and kept the
      columns the same length. */
  lemma {:induction false} AggregateSucceeds(ex: Extractor, index: AnnotationIndex, tab: Table)
    requires Rectangular(tab)
    ensures var a := Aggregate(ex, index, tab);
            a.result.Ok? ==>
              && AllExtracted(ex, index)
              && Rectangular(a.result.value)
              && Rows(a.result.value) == Rows(tab) + ExpectedRows(ex, index)
    decreases |index|
  {
    AggregateOkIff(ex, index, tab);
    if |index| == 0 {
      assert Rows(tab) + [] == Rows(tab);
    } else if AllExtracted(ex, index) {
      var rec := index[0];
      AllExtractedTail(ex, index);
      var ts := ex(rec.text).value;
      var tab' := AppendTriplets(tab, rec.id, ts);
      AggregateStep(ex, index, tab);
      AppendTripletsRows(tab, rec.id, ts);
      AggregateSucceeds(ex, index[1..], tab');
      AggregateOkIff(ex, index[1..], tab');
      RowsChain(ex, index, tab, tab', Aggregate(ex, index[1..], tab').result.value);
    }
  }

  /** The rows step of the sentence loop, free of how the tables arose. */
  lemma RowsChain(ex: Extractor, index: AnnotationIndex, tab: Table, tab': Table, out: Table)
    requires |index| > 0 && AllExtracted(ex, index)
    requires Rectangular(tab) && Rectangular(tab') && Rectangular(out)
    requires Rows(tab') == Rows(tab) + KeptRows(index[0].id, ex(index[0].text).value)
    requires AllExtracted(ex, index[1..]) && Rows(out) == Rows(tab') + ExpectedRows(ex, index[1..])
    ensures Rows(out) == Rows(tab) + ExpectedRows(ex, index)
  {
    ExpectedRowsCons(ex, index);
    var r0, k, e := Rows(tab), KeptRows(index[0].id, ex(index[0].text).value), ExpectedRows(ex, index[1..]);
    assert (r0 + k) + e == r0 + (k + e);
  }

  lemma ExpectedRowsCons(ex: Extractor, index: AnnotationIndex)
    requires |index| > 0 && AllExtracted(ex, index)
    ensures AllExtracted(ex, index[1..])
    ensures ExpectedRows(ex, index) == KeptRows(index[0].id, ex(index[0].text).value) + ExpectedRows(ex, index[1..])
  {
    AllExtractedTail(ex, index);
  }

  /** When an extraction raises, the loop called the extractor on a
      non-empty prefix of the sentences, every call but the last returned,
      and the last call's exception is what the loop raises. */
  lemma {:induction false} AggregateFails(ex: Extractor, index: AnnotationIndex, tab: Table)
    ensures var a := Aggregate(ex, index, tab);
            a.result.Err? ==>
              && 0 < |a.calls| <= |index|
              && a.calls == Texts(index)[..|a.calls|]
              && (forall k :: 0 <= k < |a.calls| - 1 ==> ex(a.calls[k]).Ok?)
              && ex(a.calls[|a.calls| - 1]) == Err(a.result.error)
    decreases |index|
  {
    if |index| > 0 {
      var rec := index[0];
      assert Texts(index) == [rec.text] + Texts(index[1..]);
      if ex(rec.text).Ok? {
        var tab' := AppendTriplets(tab, rec.id, ex(rec.text).value);
        AggregateStep(ex, index, tab);
        AggregateFails(ex, index[1..], tab');
        var rest := Aggregate(ex, index[1..], tab');
        if rest.result.Err? {
          var calls := [rec.text] + rest.calls;
          assert calls[1..] == rest.calls;
          assert Texts(index)[..|calls|] == [rec.text] + Texts(index[1..])[..|rest.calls|];
          forall k | 0 <= k < |calls| - 1 ensures ex(calls[k]).Ok? {
            if k > 0 { assert calls[k] == rest.calls[k - 1]; }
          }
        }
      }
    }
  }

  /** The sentence loop calls the extractor on the sentences in mapping
      order, stops at the first exception and re-raises it; when no call
      raises it appends exactly the reference rows and keeps the columns
      the same length. */
  lemma AggregateCorrect(ex: Extractor, index: AnnotationIndex, tab: Table)
    requires Rectangular(tab)
    ensures var a := Aggregate(ex, index, tab);
            && (a.result.Ok? <==> AllExtracted(ex, index))
            && (a.result.Ok? ==>
                  && a.calls == Texts(index)
                  && Rectangular(a.result.value)
                  && Rows(a.result.value) == Rows(tab) + ExpectedRows(ex, index))
            && (a.result.Err? ==>
                  && 0 < |a.calls| <= |index|
                  && a.calls == Texts(index)[..|a.calls|]
                  && (forall k :: 0 <= k < |a.calls| - 1 ==> ex(a.calls[k]).Ok?)
                  && ex(a.calls[|a.calls| - 1]) == Err(a.result.error))
  {
    AggregateOkIff(ex, index, tab);
    AggregateCallsAll(ex, index, tab);
    AggregateSucceeds(ex, index, tab);
    AggregateFails(ex, index, tab);
  }

  /** The reference rows: no more than the triplets returned, each with the
      id of a parsed sentence and an informative triplet. */
  lemma {:induction false} ExpectedRowsBounds(ex: Extractor, index: AnnotationIndex)
    requires AllExtracted(ex, index)
    ensures |ExpectedRows(ex, index)| <= TripletCount(ex, index)
    ensures forall j :: 0 <= j < |ExpectedRows(ex, index)| ==>
              var row := ExpectedRows(ex, index)[j];
              row.sentId in Ids(index) && Informative(Triplet(row.arg1, row.rel, row.arg2))
    decreases |index|
  {
    if |index| > 0 {
      AllExtractedTail(ex, index);
      ExpectedRowsBounds(ex, index[1..]);
      var kept := KeptRows(index[0].id, ex(index[0].text).value);
      var rest := ExpectedRows(ex, index[1..]);
      var all: seq<Row> := kept + rest;
      forall j | 0 <= j < |all|
        ensures all[j].sentId in Ids(index)
        ensures Informative(Triplet(all[j].arg1, all[j].rel, all[j].arg2))
      {
        if j < |kept| {
          KeptRowsMembership(index[0].id, ex(index[0].text).value, kept[j]);
          assert Ids(index)[0] == index[0].id;
        } else {
          var row := rest[j - |kept|];
          assert row.sentId in Ids(index[1..]);
          var i :| 0 <= i < |index[1..]| && Ids(index[1..])[i] == row.sentId;
          assert Ids(index)[i + 1] == row.sentId;
        }
      }
    }
  }

  // ---------------------------------------------------------------------
  // One call of prepare_detie_benchie_format (lines 47-84)
  // ---------------------------------------------------------------------

  /** Lines 50-59: the configuration constructor first; the path
      constructor only if that raised, and its exception propagates. */
  function Build(b: Backend, cfg: Config, mostCommon: bool): (Result<Extractor, Raised>, seq<Event>) {
    var primary := b.fromConfig(cfg, mostCommon);
    if primary.Ok? then (primary, [BuiltFromConfig])
    else (b.fromPaths(cfg.name, cfg.bestCkptPath, cfg.bestHparamsPath, mostCommon), [BuiltFromConfig, BuiltFromPaths])
  }

  function ExtractEvents(calls: seq<String>): (events: seq<Event>)
    ensures |events| == |calls|
    ensures forall k :: 0 <= k < |calls| ==> events[k] == Extracted(calls[k])
  {
    seq(|calls|, k requires 0 <= k < |calls| => Extracted(calls[k]))
  }

  /** Lines 61-84, once an extractor exists: parse the gold file, run the
      sentence loop, and write the table if asked to. */
  function RunExtractor(ex: Extractor, gold: seq<String>, savePath: SavePath, saveFile: bool): Attempt {
    match LoadSentences(gold)
    case Err(pe) => Attempt([], Err(ParseFailure(pe)))
    case Ok(index) =>
      var agg := Aggregate(ex, index, EmptyTable);
      var events := ExtractEvents(agg.calls);
      match agg.result
      case Err(e) => Attempt(events, Err(e))
      case Ok(tab) => Attempt(events + (if saveFile then [Wrote(savePath, tab)] else []), Ok(tab))
  }

  /** `prepare_detie_benchie_format(test_set, save_path, cfg, save_file, most_common)`
      on a gold file with lines `gold`. */
  function Prepare(b: Backend, gold: seq<String>, savePath: SavePath, cfg: Config,
                   saveFile: bool, mostCommon: bool): Attempt
  {
    var (built, buildEvents) := Build(b, cfg, mostCommon);
    match built
    case Err(e) => Attempt(buildEvents, Err(e))
    case Ok(ex) =>
      var run := RunExtractor(ex, gold, savePath, saveFile);
      Attempt(buildEvents + run.events, run.result)
  }

  /** The files a trace writes, in order. */
  function Writes(events: seq<Event>): (ws: seq<(SavePath, Table)>)
    ensures |ws| <= |events|
  {
    if |events| == 0 then []
    else (if events[0].Wrote? then [(events[0].path, events[0].table)] else []) + Writes(events[1..])
  }

  lemma {:induction false} WritesAppend(a: seq<Event>, b: seq<Event>)
    ensures Writes(a + b) == Writes(a) + Writes(b)
    decreases |a|
  {
    if |a| > 0 {
      assert (a + b)[1..] == a[1..] + b;
      WritesAppend(a[1..], b);
    } else {
      assert a + b == b;
    }
  }

  lemma {:induction false} WritesNone(events: seq<Event>)
    requires forall k :: 0 <= k < |events| ==> !events[k].Wrote?
    ensures Writes(events) == []
    decreases |events|
  {
    if |events| > 0 {
      WritesNone(events[1..]);
    }
  }

  /** After construction the trace holds only extractions and writes. */
  lemma RunExtractorEvents(ex: Extractor, gold: seq<String>, savePath: SavePath, saveFile: bool)
    ensures var run := RunExtractor(ex, gold, savePath, saveFile);
            forall k :: 0 <= k < |run.events| ==> run.events[k].Extracted? || run.events[k].Wrote?
  {
  }

  /** Construction: the configuration constructor is always tried first;
      the path constructor is tried exactly when it raised; when that one
      raises too, the call raises its exception having done nothing else.
      The extractor used is the configuration-built one whenever that
      constructor returns, and the path-built one otherwise. */
  lemma PrepareBuilds(b: Backend, gold: seq<String>, savePath: SavePath, cfg: Config, saveFile: bool, mostCommon: bool)
    ensures b.fromConfig(cfg, mostCommon).Ok? ==> Build(b, cfg, mostCommon).0 == b.fromConfig(cfg, mostCommon)
    ensures b.fromConfig(cfg, mostCommon).Err? ==>
              Build(b, cfg, mostCommon).0 == b.fromPaths(cfg.name, cfg.bestCkptPath, cfg.bestHparamsPath, mostCommon)
    ensures var a := Prepare(b, gold, savePath, cfg, saveFile, mostCommon);
            && |a.events| > 0 && a.events[0] == BuiltFromConfig
            && (BuiltFromPaths in a.events <==> b.fromConfig(cfg, mostCommon).Err?)
    ensures var a := Prepare(b, gold, savePath, cfg, saveFile, mostCommon);
            var fallback := b.fromPaths(cfg.name, cfg.bestCkptPath, cfg.bestHparamsPath, mostCommon);
            b.fromConfig(cfg, mostCommon).Err? && fallback.Err? ==>
              a.events == [BuiltFromConfig, BuiltFromPaths] && a.result == Err(fallback.error)
  {
    var (built, buildEvents) := Build(b, cfg, mostCommon);
    if built.Ok? {
      var run := RunExtractor(built.value, gold, savePath, saveFile);
      RunExtractorEvents(built.value, gold, savePath, saveFile);
      NoBuildAfter(buildEvents, run.events);
    }
  }

  lemma NoBuildAfter(pre: seq<Event>, rest: seq<Event>)
    requires |pre| > 0
    requires forall k :: 0 <= k < |rest| ==> rest[k].Extracted? || rest[k].Wrote?
    ensures (pre + rest)[0] == pre[0]
    ensures BuiltFromPaths in pre + rest <==> BuiltFromPaths in pre
  {
    forall k | |pre| <= k < |pre + rest| ensures (pre + rest)[k] != BuiltFromPaths {
      assert (pre + rest)[k] == rest[k - |pre|];
    }
  }

  /** The output file is written once, with the result table, exactly when
      `save_file` is set and the call returns; never after an exception in
      construction, parsing or extraction. */
  lemma PrepareWrites(b: Backend, gold: seq<String>, savePath: SavePath, cfg: Config, saveFile: bool, mostCommon: bool)
    ensures var a := Prepare(b, gold, savePath, cfg, saveFile, mostCommon);
            Writes(a.events) == if saveFile && a.result.Ok? then [(savePath, a.result.value)] else []
  {
    var (built, buildEvents) := Build(b, cfg, mostCommon);
    WritesNone(buildEvents);
    if built.Ok? {
      var ex := built.value;
      var run := RunExtractor(ex, gold, savePath, saveFile);
      WritesAppend(buildEvents, run.events);
      if LoadSentences(gold).Ok? {
        var agg := Aggregate(ex, LoadSentences(gold).value, EmptyTable);
        var calls := ExtractEvents(agg.calls);
        WritesNone(calls);
        if agg.result.Ok? && saveFile {
          var w := [Wrote(savePath, agg.result.value)];
          WritesAppend(calls, w);
          assert Writes(w) == [(savePath, agg.result.value)];
        } else if agg.result.Ok? {
          assert calls + [] == calls;
        }
      }
    }
  }

  /** What a call returns: it succeeds exactly when an extractor was built,
      the gold file parsed and no extraction raised; its table then holds
      exactly the reference rows of the parsed mapping, and the extractor
      was called once per parsed sentence, in order. A parse error is
      re-raised as such. */
  lemma PrepareResult(b: Backend, gold: seq<String>, savePath: SavePath, cfg: Config, saveFile: bool, mostCommon: bool)
    ensures var a := Prepare(b, gold, savePath, cfg, saveFile, mostCommon);
            var built := Build(b, cfg, mostCommon).0;
            && (built.Ok? && LoadSentences(gold).Err? ==> a.result == Err(ParseFailure(LoadSentences(gold).error)))
            && (a.result.Ok? <==>
                  built.Ok? && LoadSentences(gold).Ok? && AllExtracted(built.value, LoadSentences(gold).value))
            && (a.result.Ok? ==>
                  && Rectangular(a.result.value)
                  && Rows(a.result.value) == ExpectedRows(built.value, LoadSentences(gold).value)
                  && ExtractedSentences(a.events) == Texts(LoadSentences(gold).value))
  {
    var (built, buildEvents) := Build(b, cfg, mostCommon);
    if built.Ok? && LoadSentences(gold).Ok? {
      var ex := built.value;
      var index := LoadSentences(gold).value;
      var agg := Aggregate(ex, index, EmptyTable);
      AggregateCorrect(ex, index, EmptyTable);
      assert Rows(EmptyTable) == [];
      if agg.result.Ok? {
        var run := RunExtractor(ex, gold, savePath, saveFile);
        var calls := ExtractEvents(agg.calls);
        var tail := if saveFile then [Wrote(savePath, agg.result.value)] else [];
        assert run.events == calls + tail;
        ExtractedSentencesAppend(buildEvents, run.events);
        ExtractedSentencesAppend(calls, tail);
        ExtractedSentencesOfCalls(agg.calls);
        assert ExtractedSentences(buildEvents) == [];
        assert ExtractedSentences(tail) == [];
      }
    }
  }

  /** What a call raises is what was raised inside it, unchanged: a
      constructor's exception when no extractor was built, and otherwise,
      once the gold file parsed, the exception of the first sentence whose
      extraction raised, every earlier sentence having extracted. */
  lemma PrepareRaises(b: Backend, gold: seq<String>, savePath: SavePath, cfg: Config, saveFile: bool, mostCommon: bool)
    ensures var a := Prepare(b, gold, savePath, cfg, saveFile, mostCommon);
            var built := Build(b, cfg, mostCommon).0;
            && (built.Err? ==> a.result == Err(built.error))
            && (built.Ok? && LoadSentences(gold).Ok? && a.result.Err? ==>
                  var index := LoadSentences(gold).value;
                  exists k :: 0 <= k < |index|
                    && (forall j :: 0 <= j < k ==> built.value(index[j].text).Ok?)
                    && built.value(index[k].text) == Err(a.result.error))
  {
    var a := Prepare(b, gold, savePath, cfg, saveFile, mostCommon);
    var built := Build(b, cfg, mostCommon).0;
    if built.Ok? && LoadSentences(gold).Ok? && a.result.Err? {
      var ex := built.value;
      var index := LoadSentences(gold).value;
      var agg := Aggregate(ex, index, EmptyTable);
      AggregateFails(ex, index, EmptyTable);
      AggregateOkIff(ex, index, EmptyTable);
      assert agg.result.Err?;
      assert a.result == agg.result;
      var k := |agg.calls| - 1;
      forall j | 0 <= j <= k ensures agg.calls[j] == index[j].text {
        assert agg.calls[j] == Texts(index)[j];
      }
      assert built.value(index[k].text) == Err(a.result.error);
    }
  }

  /** The returned table is exactly the reference rows laid out as the four
      columns `sent_id, arg1, rel, arg2` of the output file. */
  lemma PrepareTable(b: Backend, gold: seq<String>, savePath: SavePath, cfg: Config, saveFile: bool, mostCommon: bool)
    ensures var a := Prepare(b, gold, savePath, cfg, saveFile, mostCommon);
            var built := Build(b, cfg, mostCommon).0;
            a.result.Ok? ==>
              && built.Ok? && LoadSentences(gold).Ok? && AllExtracted(built.value, LoadSentences(gold).value)
              && a.result.value == Columns(ExpectedRows(built.value, LoadSentences(gold).value))
  {
    var a := Prepare(b, gold, savePath, cfg, saveFile, mostCommon);
    PrepareResult(b, gold, savePath, cfg, saveFile, mostCommon);
    if a.result.Ok? {
      RowsColumnsRoundTrip([], a.result.value);
    }
  }

  /** The sentences a trace passes to the extractor, in order. */
  function ExtractedSentences(events: seq<Event>): seq<String> {
    if |events| == 0 then []
    else (if events[0].Extracted? then [events[0].sentence] else []) + ExtractedSentences(events[1..])
  }

  lemma {:induction false} ExtractedSentencesAppend(a: seq<Event>, b: seq<Event>)
    ensures ExtractedSentences(a + b) == ExtractedSentences(a) + ExtractedSentences(b)
    decreases |a|
  {
    if |a| > 0 {
      assert (a + b)[1..] == a[1..] + b;
      ExtractedSentencesAppend(a[1..], b);
    } else {
      assert a + b == b;
    }
  }

  lemma {:induction false} ExtractedSentencesOfCalls(calls: seq<String>)
    ensures ExtractedSentences(ExtractEvents(calls)) == calls
    decreases |calls|
  {
    if |calls| > 0 {
      ExtractedSentencesOfCalls(calls[1..]);
      assert ExtractEvents(calls)[1..] == ExtractEvents(calls[1..]);
    }
  }
}
