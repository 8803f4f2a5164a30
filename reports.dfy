/**
  Turning one audit report into the flat record whose keys become header columns
  (`uploadReport`): the audits are filtered and flattened by display mode, then
  spread after the fixed metadata fields and the summary.
 */
module Reports {
  import opened Headers
  import opened Records

  /** One audit check of a report. */
  datatype Audit = Audit(scoreDisplayMode: string, score: Scalar, numericValue: Scalar)

  datatype ScreenEmulation = ScreenEmulation(width: Scalar, height: Scalar, deviceScaleFactor: Scalar)

  datatype ConfigSettings = ConfigSettings(formFactor: Scalar, throttlingMethod: Scalar, screenEmulation: ScreenEmulation)

  /** The parsed report fields the upload reads. An absent summary is the empty record. */
  datatype Report = Report(
    requestedUrl: Scalar,
    finalUrl: Scalar,
    fetchTime: Scalar,
    userAgent: Scalar,
    lighthouseVersion: Scalar,
    gatherMode: Scalar,
    benchmarkIndex: Scalar,
    configSettings: ConfigSettings,
    summary: Record,
    audits: Entries<Audit>)

  /** Parsed JSON objects never repeat a key. */
  predicate WellFormed(report: Report) {
    UniqueKeys(report.summary) && UniqueKeys(report.audits)
  }

  /** JavaScript's `Boolean(v)`: false exactly for the falsy values undefined, null,
      false, 0 and the empty string. */
  function Truthy(v: Scalar): (b: bool)
    ensures !b <==> v == Undefined || v == Null || v == Bool(false) || v == Num(0) || v == Str("")
  {
    match v
    case Undefined => false
    case Null => false
    case Bool(b) => b
    case Num(n) => n != 0
    case Str(s) => s != ""
  }

  /** The display modes the switch has a case for. */
  predicate Recognised(mode: string) {
    mode == "binary" || mode == "numeric"
  }

  /** The record the flattening loop builds, as a definition: every audit with a
      recognised display mode, in entry order, holding its `numericValue`. A binary
      audit holds `numericValue` too: its case falls through into the numeric one. */
  function Flattened(entries: Entries<Audit>): (flat: Record)
    ensures forall k :: k in Keys(flat) ==> k in Keys(entries)
    ensures UniqueKeys(entries) ==> UniqueKeys(flat)
    decreases |entries|
  {
    if entries == [] then []
    else
      var n := |entries| - 1;
      var (key, audit) := entries[n];
      var kept := if Recognised(audit.scoreDisplayMode) then [(key, audit.numericValue)] else [];
      var init := Flattened(entries[..n]);
      KeysConcat(entries[..n], [entries[n]]);
      assert entries == entries[..n] + [entries[n]];
      KeysConcat(init, kept);
      // both branches are the same; the test only sets up the uniqueness lemmas' preconditions
      if UniqueKeys(entries) then
        UniquePrefix(entries, n);
        UniqueSnoc(init, kept);
        init + kept
      else
        init + kept
  }

  /** One more entry: the next audit is either appended under its fresh key or skipped. */
  lemma FlattenStep(entries: Entries<Audit>, i: nat)
    requires UniqueKeys(entries) && i < |entries|
    ensures entries[i].0 !in Keys(Flattened(entries[..i]))
    ensures Flattened(entries[..i + 1]) == Flattened(entries[..i]) +
      if Recognised(entries[i].1.scoreDisplayMode) then [(entries[i].0, entries[i].1.numericValue)] else []
  {
    assert entries[..i + 1][..i] == entries[..i];
    UniquePrefix(entries, i);
  }

  /** The flattening loop (`for (let [key, value] of Object.entries(report.audits))`). */
  method FlattenAudits(entries: Entries<Audit>) returns (audits: Record)
    requires UniqueKeys(entries)
    ensures audits == Flattened(entries)
  {
    audits := [];
    var i := 0;
    while i < |entries|
      invariant 0 <= i <= |entries|
      invariant audits == Flattened(entries[..i])
    {
      var key, value := entries[i].0, entries[i].1;
      ghost var before := audits;
      FlattenStep(entries, i);
      match value.scoreDisplayMode {
        case "binary" =>
          audits := Put(audits, key, Bool(Truthy(value.score)));
          // no break: control falls into the numeric case
          audits := Put(audits, key, value.numericValue);
          PutOverwritesLast(before, key, Bool(Truthy(value.score)), value.numericValue);
        case "numeric" =>
          audits := Put(audits, key, value.numericValue);
        case _ =>
      }
      i := i + 1;
      assert audits == Flattened(entries[..i]);
    }
    assert entries[..i] == entries;
  }

  /** What the flattened record holds under each key: nothing for a key the report has
      no audit for, nothing for an audit whose display mode is neither "numeric" nor
      "binary", and the audit's `numericValue` for both recognised modes (for "binary"
      because of the switch fall-through, not the boolean of its score). */
  lemma {:induction false} FlattenedLookup(entries: Entries<Audit>, k: string)
    requires UniqueKeys(entries)
    ensures Lookup(entries, k).None? ==> Lookup(Flattened(entries), k) == None
    ensures Lookup(entries, k).Some? && !Recognised(Lookup(entries, k).value.scoreDisplayMode) ==>
      Lookup(Flattened(entries), k) == None
    ensures Lookup(entries, k).Some? && Lookup(entries, k).value.scoreDisplayMode == "numeric" ==>
      Lookup(Flattened(entries), k) == Some(Lookup(entries, k).value.numericValue)
    ensures Lookup(entries, k).Some? && Lookup(entries, k).value.scoreDisplayMode == "binary" ==>
      Lookup(Flattened(entries), k) == Some(Lookup(entries, k).value.numericValue)
    decreases |entries|
  {
    if entries != [] {
      var n := |entries| - 1;
      var init, last := entries[..n], entries[n];
      assert entries == init + [last];
      UniquePrefix(entries, n);
      FlattenedLookup(init, k);
      LookupConcat(init, [last], k);
      var (key, audit) := last;
      var kept := if Recognised(audit.scoreDisplayMode) then [(key, audit.numericValue)] else [];
      LookupConcat(Flattened(init), kept, k);
    }
  }

  /** Flattening a non-empty run of entries: the run without its last entry, then that
      entry if its display mode is recognised. */
  lemma FlattenedLast(entries: Entries<Audit>)
    requires entries != []
    ensures Flattened(entries) == Flattened(entries[..|entries| - 1]) +
      if Recognised(entries[|entries| - 1].1.scoreDisplayMode)
      then [(entries[|entries| - 1].0, entries[|entries| - 1].1.numericValue)] else []
  {
  }

  /** Flattening keeps the audits' order: flattening two runs of entries one after the
      other is flattening each. */
  lemma {:induction false} FlattenedConcat(a: Entries<Audit>, b: Entries<Audit>)
    ensures Flattened(a + b) == Flattened(a) + Flattened(b)
    decreases |b|
  {
    if b == [] {
      assert a + b == a;
    } else {
      var n, ab := |b| - 1, a + b;
      assert ab[..|ab| - 1] == a + b[..n];
      assert ab[|ab| - 1] == b[n];
      FlattenedLast(ab);
      FlattenedLast(b);
      FlattenedConcat(a, b[..n]);
      var x, y := Flattened(a), Flattened(b[..n]);
      var kept := Flattened(b)[|y|..];
      assert Flattened(b) == y + kept;
      assert Flattened(ab) == (x + y) + kept;
      assert (x + y) + kept == x + (y + kept);
    }
  }

  /** A binary audit scored 1 ends up in the record as its `numericValue` (here absent),
      never as `true`; an audit shown as "manual" is left out. */
  lemma BinaryAndManualExamples()
    ensures Flattened([("is-on-https", Audit("binary", Num(1), Undefined))]) == [("is-on-https", Undefined)]
    ensures Flattened([("is-on-https", Audit("binary", Num(1), Undefined))]) != [("is-on-https", Bool(true))]
    ensures Flattened([("structured-data", Audit("manual", Null, Undefined))]) == []
  {
  }

  /** The twelve fixed metadata columns, in the order the report record lists them. */
  const MetadataKeys: seq<string> := [
    "requestedUrl", "finalUrl", "fetchTime", "userAgent", "lighthouseVersion", "gatherMode",
    "benchmarkIndex", "formFactor", "throttlingMethod", "width", "height", "deviceScaleFactor"]

  lemma MetadataKeysDistinct()
    ensures Distinct(MetadataKeys)
  {
  }

  /** The fixed part of the report record, before the spreads. */
  function Metadata(report: Report): (r: Record)
    ensures Keys(r) == MetadataKeys
    ensures UniqueKeys(r)
    ensures Lookup(r, "requestedUrl") == Some(report.requestedUrl)
    ensures Lookup(r, "finalUrl") == Some(report.finalUrl)
    ensures Lookup(r, "fetchTime") == Some(report.fetchTime)
    ensures Lookup(r, "userAgent") == Some(report.userAgent)
    ensures Lookup(r, "lighthouseVersion") == Some(report.lighthouseVersion)
    ensures Lookup(r, "gatherMode") == Some(report.gatherMode)
    ensures Lookup(r, "benchmarkIndex") == Some(report.benchmarkIndex)
    ensures Lookup(r, "formFactor") == Some(report.configSettings.formFactor)
    ensures Lookup(r, "throttlingMethod") == Some(report.configSettings.throttlingMethod)
    ensures Lookup(r, "width") == Some(report.configSettings.screenEmulation.width)
    ensures Lookup(r, "height") == Some(report.configSettings.screenEmulation.height)
    ensures Lookup(r, "deviceScaleFactor") == Some(report.configSettings.screenEmulation.deviceScaleFactor)
  {
    var config, screen := report.configSettings, report.configSettings.screenEmulation;
    var r := [("requestedUrl", report.requestedUrl),
     ("finalUrl", report.finalUrl),
     ("fetchTime", report.fetchTime),
     ("userAgent", report.userAgent),
     ("lighthouseVersion", report.lighthouseVersion),
     ("gatherMode", report.gatherMode),
     ("benchmarkIndex", report.benchmarkIndex),
     ("formFactor", config.formFactor),
     ("throttlingMethod", config.throttlingMethod),
     ("width", screen.width),
     ("height", screen.height),
     ("deviceScaleFactor", screen.deviceScaleFactor)];
    assert Keys(r) == MetadataKeys by {
      forall i | 0 <= i < |r| ensures Keys(r)[i] == MetadataKeys[i] {
        KeyAt(r, i);
      }
    }
    MetadataKeysDistinct();
    LookupAt(r, 0); LookupAt(r, 1); LookupAt(r, 2); LookupAt(r, 3);
    LookupAt(r, 4); LookupAt(r, 5); LookupAt(r, 6); LookupAt(r, 7);
    LookupAt(r, 8); LookupAt(r, 9); LookupAt(r, 10); LookupAt(r, 11);
    r
  }

  /** The report record `{ metadata..., ...summary, ...audits }` with the flattened audits. */
  function ReportData(report: Report, audits: Record): (r: Record)
    requires UniqueKeys(report.summary) && UniqueKeys(audits)
    ensures UniqueKeys(r)
    ensures Keys(r) == Merge(Merge(MetadataKeys, Keys(report.summary)), Keys(audits))
    ensures forall k :: k in Keys(r) <==> k in MetadataKeys || k in Keys(report.summary) || k in Keys(audits)
    ensures forall k ::
              Lookup(r, k) == if k in Keys(audits) then Lookup(audits, k)
                              else if k in Keys(report.summary) then Lookup(report.summary, k)
                              else Lookup(Metadata(report), k)
  {
    var meta := Metadata(report);
    var withSummary := Spread(meta, report.summary);
    MergeDistinct(MetadataKeys, Keys(report.summary));
    MergeDistinct(Keys(withSummary), Keys(audits));
    Spread(withSummary, audits)
  }

  /** The header a report asks for starts with the twelve metadata columns, in order. */
  lemma ReportKeysStartWithMetadata(report: Report, audits: Record)
    requires UniqueKeys(report.summary) && UniqueKeys(audits)
    ensures |Keys(ReportData(report, audits))| >= |MetadataKeys|
    ensures Keys(ReportData(report, audits))[..|MetadataKeys|] == MetadataKeys
  {
    var all := Keys(ReportData(report, audits));
    var withSummary := Merge(MetadataKeys, Keys(report.summary));
    MergeKeepsPrefix(withSummary, Keys(audits), |MetadataKeys|);
    MergeKeepsPrefix(MetadataKeys, Keys(report.summary), |MetadataKeys|);
  }
}
