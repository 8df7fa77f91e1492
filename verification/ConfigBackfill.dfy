/**
 * Backfilling a configuration file with defaults, src/config/user-config.ts
 * (computeMissingDefaults, applyPatchToFileContent, mergeWithDefaults): the file grows, what it
 * means does not change.
 */
module ConfigBackfill {

  import opened Wrappers

  datatype Value =
    | Null | Truth(bool) | Number(real) | Text(string) | List(seq<Value>) | Object(fields: map<string, Value>)

  type File = map<string, Value>

  // ---------------------------------------------------------------------
  // The patch
  // ---------------------------------------------------------------------

  function MissingFields(existing: File, wanted: File): File {
    map key | key in wanted && key !in existing :: wanted[key]
  }

  /** What the patch has for one default: all of it, the missing fields of a section, or nothing. */
  function PatchFor(file: File, key: string, default: Value): Option<Value> {
    if key !in file then Some(default)
    else if !default.Object? || !file[key].Object? then None
    else
      var missing := MissingFields(file[key].fields, default.fields);
      if missing == map[] then None else Some(Object(missing))
  }

  /** The entry of the patch for `key`, while the keys in `todo` are still to come. */
  function PatchOf(file: File, defaults: File, sensitive: set<string>, todo: set<string>, key: string): Option<Value> {
    if key in defaults && key !in sensitive && key !in todo then PatchFor(file, key, defaults[key]) else None
  }

  function Patch(file: File, defaults: File, sensitive: set<string>): File {
    map key | key in defaults && key !in sensitive && PatchFor(file, key, defaults[key]).Some?
      :: PatchFor(file, key, defaults[key]).value
  }

  method CollectMissing(existing: File, wanted: File) returns (missing: File)
    ensures missing == MissingFields(existing, wanted)
  {
    missing := map[];
    var todo := wanted.Keys;
    while todo != {}
      invariant todo <= wanted.Keys
      invariant forall key :: key in missing <==> key in wanted && key !in todo && key !in existing
      invariant forall key :: key in missing ==> missing[key] == wanted[key]
    {
      var key :| key in todo;
      if key !in existing { missing := missing[key := wanted[key]]; }
      todo := todo - {key};
    }
  }

  /** None when nothing is missing. */
  method ComputeMissingDefaults(file: File, defaults: File, sensitive: set<string>) returns (result: Option<File>)
    ensures result == if Patch(file, defaults, sensitive) == map[] then None else Some(Patch(file, defaults, sensitive))
  {
    var patch: File := map[];
    var todo := defaults.Keys;
    while todo != {}
      invariant todo <= defaults.Keys
      invariant forall key {:trigger key in patch} {:trigger Find(patch, key)} ::
        Find(patch, key) == PatchOf(file, defaults, sensitive, todo, key)
    {
      var key :| key in todo;
      todo := todo - {key};
      if key !in sensitive {
        var default := defaults[key];
        if key !in file {
          patch := patch[key := default];
        } else if default.Object? && file[key].Object? {
          var missing := CollectMissing(file[key].fields, default.fields);
          if missing != map[] { patch := patch[key := Object(missing)]; }
        }
      }
    }
    forall key ensures Find(patch, key) == Find(Patch(file, defaults, sensitive), key) {
    }
    SameEntries(patch, Patch(file, defaults, sensitive));
    return if patch == map[] then None else Some(patch);
  }

  // ---------------------------------------------------------------------
  // Applying it
  // ---------------------------------------------------------------------

  /** A property name for an index. */
  function Decimal(n: nat): string {
    (if n < 10 then "" else Decimal(n / 10)) + [('0' as int + n % 10) as char]
  }

  function Indexed(items: seq<Value>): File {
    if items == [] then map[]
    else
      var n := |items| - 1;
      Indexed(items[..n])[Decimal(n) := items[n]]
  }

  /** What `...value` copies: a section's fields, the items of an array or a string by index, nothing else. */
  function Spread(v: Value): File {
    match v
    case Object(fields) => fields
    case List(items) => Indexed(items)
    case Text(s) => Indexed(seq(|s|, i requires 0 <= i < |s| => Text([s[i]])))
    case _ => map[]
  }

  function Joined(existing: Option<Value>, patch: Value): Value {
    if existing.Some? && existing.value.Object?
    then Object(existing.value.fields + Spread(patch))
    else patch
  }

  function Applied(file: File, patch: File): File {
    map key | key in file.Keys + patch.Keys
      :: if key in patch then Joined(Find(file, key), patch[key]) else file[key]
  }

  method ApplyPatchToFileContent(file: File, patch: File) returns (result: File)
    ensures result == Applied(file, patch)
  {
    result := file;
    var todo := patch.Keys;
    while todo != {}
      invariant todo <= patch.Keys && result.Keys == file.Keys + (patch.Keys - todo)
      invariant forall key :: key in todo || key !in patch ==> Find(result, key) == Find(file, key)
      invariant forall key :: key in patch && key !in todo ==> result[key] == Joined(Find(file, key), patch[key])
    {
      var key :| key in todo;
      assert Find(result, key) == Find(file, key);
      if key in result && result[key].Object? {
        result := result[key := Object(result[key].fields + Spread(patch[key]))];
      } else {
        result := result[key := patch[key]];
      }
      todo := todo - {key};
    }
    forall key | key in file && key !in patch ensures result[key] == file[key] {
      assert Find(result, key) == Find(file, key);
    }
  }

  function Backfilled(file: File, defaults: File, sensitive: set<string>): File {
    Applied(file, Patch(file, defaults, sensitive))
  }

  /** backfillMissingFields on a parsed file; None when there is nothing to write. */
  method BackfillMissingFields(file: File, defaults: File, sensitive: set<string>) returns (updated: Option<File>)
    ensures updated.None? ==> Backfilled(file, defaults, sensitive) == file
    ensures updated.Some? ==> updated.value == Backfilled(file, defaults, sensitive)
  {
    var patch := ComputeMissingDefaults(file, defaults, sensitive);
    if patch.None? {
      assert Applied(file, map[]) == file;
      return None;
    }
    var result := ApplyPatchToFileContent(file, patch.value);
    return Some(result);
  }

  // ---------------------------------------------------------------------
  // What it keeps
  // ---------------------------------------------------------------------

  /** The same value, or a section that has all the same fields and perhaps more. */
  predicate Keeps(was: Value, now: Value) {
    || now == was
    || (was.Object? && now.Object?
        && forall f :: f in was.fields ==> f in now.fields && now.fields[f] == was.fields[f])
  }

  lemma UserValuesSurvive(file: File, defaults: File, sensitive: set<string>)
    ensures var after := Backfilled(file, defaults, sensitive);
      && (forall key :: key in file ==> key in after && Keeps(file[key], after[key]))
      && (forall key :: key in after && key !in file ==>
            key in defaults && key !in sensitive && after[key] == defaults[key])
  {
    var patch := Patch(file, defaults, sensitive);
    var after := Backfilled(file, defaults, sensitive);
    forall key | key in file ensures Keeps(file[key], after[key]) {
      if key in patch { OnlyMissingAdded(file, key, defaults[key]); }
    }
  }

  lemma OnlyMissingAdded(file: File, key: string, default: Value)
    requires key in file && PatchFor(file, key, default).Some?
    ensures file[key].Object? && Keeps(file[key], Joined(Some(file[key]), PatchFor(file, key, default).value))
  {
  }

  /** A section that was filled up has nothing missing. */
  lemma NothingLeftMissing(existing: File, wanted: File)
    ensures MissingFields(existing + MissingFields(existing, wanted), wanted) == map[]
  {
    var filled := existing + MissingFields(existing, wanted);
    forall key | key in wanted ensures key in filled {
      if key !in existing { assert key in MissingFields(existing, wanted); }
    }
  }

  lemma PatchedHasNoPatch(file: File, key: string, default: Value)
    ensures var p := PatchFor(file, key, default);
      p.Some? ==> forall after: File :: key in after && after[key] == Joined(Find(file, key), p.value) ==>
        PatchFor(after, key, default) == None
  {
    if key in file && default.Object? && file[key].Object? {
      NothingLeftMissing(file[key].fields, default.fields);
    } else if key !in file && default.Object? {
      assert MissingFields(default.fields, default.fields) == map[];
    }
  }

  /** A second backfill finds nothing to add. */
  lemma SecondBackfillAddsNothing(file: File, defaults: File, sensitive: set<string>)
    ensures Patch(Backfilled(file, defaults, sensitive), defaults, sensitive) == map[]
  {
    var after := Backfilled(file, defaults, sensitive);
    forall key | key in defaults && key !in sensitive ensures PatchFor(after, key, defaults[key]) == None {
      var p := PatchFor(file, key, defaults[key]);
      PatchedHasNoPatch(file, key, defaults[key]);
      if p.Some? {
        assert key in Patch(file, defaults, sensitive);
      } else {
        assert key in file && after[key] == file[key];
      }
    }
  }

  // ---------------------------------------------------------------------
  // What the file means
  // ---------------------------------------------------------------------

  /** `value ?? default`, or `value !== undefined ? value : default` for a field where null has a meaning. */
  function Merged(value: Option<Value>, default: Value, nullable: bool): Value {
    if value.None? || (value.value.Null? && !nullable) then default else value.value
  }

  function FieldsOf(value: Option<Value>): File {
    if value.Some? && value.value.Object? then value.value.fields else map[]
  }

  /** One resolved entry: a section field by field, anything else as a whole. */
  function ResolvedEntry(value: Option<Value>, key: string, default: Value, nullable: set<(string, string)>): Value {
    if default.Object?
    then Object(map f | f in default.fields ::
      Merged(Find(FieldsOf(value), f), default.fields[f], (key, f) in nullable))
    else Merged(value, default, false)
  }

  datatype Meaning = Meaning(resolved: File, rest: File)

  /** mergeWithDefaults: the entries that have defaults, resolved, and the others as they are. */
  function MergeWithDefaults(file: File, defaults: File, nullable: set<(string, string)>): Meaning {
    Meaning(
      map key | key in defaults :: ResolvedEntry(Find(file, key), key, defaults[key], nullable),
      file - defaults.Keys)
  }

  lemma FilledUpMeansTheSame(existing: File, default: File, f: string, nullable: bool)
    requires f in default
    ensures Merged(Find(existing + MissingFields(existing, default), f), default[f], nullable) ==
      Merged(Find(existing, f), default[f], nullable)
  {
  }

  lemma EntryMeansTheSame(file: File, key: string, default: Value, nullable: set<(string, string)>)
    requires PatchFor(file, key, default).Some?
    ensures var after := Joined(Find(file, key), PatchFor(file, key, default).value);
      ResolvedEntry(Some(after), key, default, nullable) == ResolvedEntry(Find(file, key), key, default, nullable)
  {
    var after := Joined(Find(file, key), PatchFor(file, key, default).value);
    if key in file {
      var existing := file[key].fields;
      forall f | f in default.fields
        ensures Merged(Find(after.fields, f), default.fields[f], (key, f) in nullable) ==
          Merged(Find(existing, f), default.fields[f], (key, f) in nullable)
      {
        FilledUpMeansTheSame(existing, default.fields, f, (key, f) in nullable);
      }
    } else if default.Object? {
      forall f | f in default.fields
        ensures Merged(Find(default.fields, f), default.fields[f], (key, f) in nullable) == default.fields[f]
      {
      }
    }
  }

  /** Merging the backfilled file with the defaults gives what merging the original gives. */
  lemma BackfillKeepsMeaning(file: File, defaults: File, sensitive: set<string>, nullable: set<(string, string)>)
    ensures MergeWithDefaults(Backfilled(file, defaults, sensitive), defaults, nullable) ==
      MergeWithDefaults(file, defaults, nullable)
  {
    var patch, after := Patch(file, defaults, sensitive), Backfilled(file, defaults, sensitive);
    forall key | key in defaults
      ensures ResolvedEntry(Find(after, key), key, defaults[key], nullable) ==
        ResolvedEntry(Find(file, key), key, defaults[key], nullable)
    {
      if key in patch {
        EntryMeansTheSame(file, key, defaults[key], nullable);
      } else {
        assert Find(after, key) == Find(file, key);
      }
    }
    assert after - defaults.Keys == file - defaults.Keys;
  }

  // ---------------------------------------------------------------------
  // The defaults that ship
  // ---------------------------------------------------------------------

  const USER_CONFIG_DEFAULTS: File := map[
    "agentModelId" := Text("anthropic:claude-sonnet-4-6"),
    "policyModelId" := Text("anthropic:claude-sonnet-4-6"),
    "prefilterModelId" := Text("anthropic:claude-haiku-4-5"),
    "escalationTimeoutSeconds" := Number(300.0),
    "resourceBudget" := Object(map[
      "maxTotalTokens" := Number(1_000_000.0), "maxSteps" := Number(200.0), "maxSessionSeconds" := Number(1800.0),
      "maxEstimatedCostUsd" := Number(5.0), "warnThresholdPercent" := Number(80.0)]),
    "autoCompact" := Object(map[
      "enabled" := Truth(true), "thresholdTokens" := Number(160_000.0), "keepRecentMessages" := Number(10.0),
      "summaryModelId" := Text("anthropic:claude-haiku-4-5")]),
    "autoApprove" := Object(map["enabled" := Truth(false), "modelId" := Text("anthropic:claude-haiku-4-5")]),
    "auditRedaction" := Object(map["enabled" := Truth(true)]),
    "preferredMode" := Text("container"),
    "dockerResources" := Object(map["memoryMb" := Number(8192.0), "cpus" := Number(4.0)]),
    "snapshot" := Object(
      map["enabled" := Truth(true), "maxAgeDays" := Number(7.0), "sweepIntervalHours" := Number(24.0)]),
    "statistics" := Object(map["enabled" := Truth(true), "retentionDays" := Number(90.0)])]

  const SENSITIVE_FIELDS := {
    "anthropicApiKey", "googleApiKey", "openaiApiKey", "serverCredentials", "webSearch", "modelProviders", "signal"}

  /** The fields where an explicit null means "disabled". */
  const NULLABLE_FIELDS := {
    ("resourceBudget", "maxTotalTokens"), ("resourceBudget", "maxSteps"), ("resourceBudget", "maxSessionSeconds"),
    ("resourceBudget", "maxEstimatedCostUsd"), ("dockerResources", "memoryMb"), ("dockerResources", "cpus"),
    ("snapshot", "maxAgeDays"), ("statistics", "retentionDays")}

  /** With the shipped defaults: same meaning, and a second backfill is idle. */
  lemma ShippedBackfillIsHarmless(file: File, defaults: File, sensitive: set<string>, nullable: set<(string, string)>)
    requires defaults == USER_CONFIG_DEFAULTS && sensitive == SENSITIVE_FIELDS && nullable == NULLABLE_FIELDS
    ensures var after := Backfilled(file, defaults, sensitive);
      && MergeWithDefaults(after, defaults, nullable) == MergeWithDefaults(file, defaults, nullable)
      && Patch(after, defaults, sensitive) == map[]
  {
    BackfillKeepsMeaning(file, defaults, sensitive, nullable);
    SecondBackfillAddsNothing(file, defaults, sensitive);
  }

  /** An explicit null stays null where it has a meaning, and is not filled in. */
  lemma ExplicitNullSurvives(
    file: File, defaults: File, sensitive: set<string>, nullable: set<(string, string)>, key: string, f: string)
    requires key in defaults && defaults[key].Object? && f in defaults[key].fields && (key, f) in nullable
    requires key in file && file[key].Object? && f in file[key].fields && file[key].fields[f].Null?
    ensures var after := Backfilled(file, defaults, sensitive);
      key in after && after[key].Object? && Find(after[key].fields, f) == Some(Null)
      && MergeWithDefaults(after, defaults, nullable).resolved[key].fields[f] == Null
  {
    UserValuesSurvive(file, defaults, sensitive);
    var after := Backfilled(file, defaults, sensitive);
    assert Keeps(file[key], after[key]);
    assert Find(after, key) == Some(after[key]);
  }
}
