/**
 `merge_unique_templates`: walk the catalogs in order, fix the format version
 from the first one that has one, abort on any later catalog whose version
 differs, and collect every template not already collected.
 */
module TemplateMerge {

  import opened Wrappers
  import opened Catalogs
  import opened UniqueTemplates

  /** Why a merge aborted: a catalog's version differs from the accepted one. */
  datatype MergeError = VersionMismatch(expected: Json, found: Json)

  /** One step of the version gate. The accepted version starts out as `Null`
      (Python's `None`); while it is still `Null` the next catalog's version is
      adopted without comparison, otherwise it must be equal. */
  function AcceptVersion(accepted: Json, v: Json): (r: Result<Json, MergeError>)
    ensures r.Success? <==> accepted == Null || accepted == v
    ensures r.Success? ==> r.value == v
    ensures r.Failure? ==> r.error == VersionMismatch(accepted, v)
  {
    if accepted == Null then Success(v)
    else if accepted != v then Failure(VersionMismatch(accepted, v))
    else Success(accepted)
  }

  /** The merge of the remaining catalogs `rest`, given the version accepted so
      far and the templates collected so far: one round of the outer loop per
      catalog. */
  function MergeFrom(accepted: Json, unique: seq<Json>, rest: seq<Catalog>): (r: Result<Catalog, MergeError>)
    ensures r.Success? ==> unique <= r.value.templates
    ensures r.Success? && accepted != Null ==> r.value.version == accepted
    ensures r.Failure? ==> |rest| > 0
    decreases |rest|
  {
    if |rest| == 0 then Success(Catalog(accepted, unique))
    else
      var v :- AcceptVersion(accepted, rest[0].version);
      MergeFrom(v, AddUnique(unique, rest[0].templates), rest[1..])
  }

  /** The merged catalog, or the version mismatch that aborts the run. */
  function Merge(cs: seq<Catalog>): (r: Result<Catalog, MergeError>)
    ensures |cs| == 0 ==> r == Success(Catalog(Null, []))
    ensures |cs| == 1 ==> r == Success(Catalog(cs[0].version, Dedup(cs[0].templates)))
  {
    assert |cs| == 1 ==>
      cs[1..] == [] && MergeFrom(Null, [], cs) == MergeFrom(cs[0].version, Dedup(cs[0].templates), []);
    MergeFrom(Null, [], cs)
  }

  /** Two catalogs clash: some catalog has a non-null version and a later one
      has a different version (null included). */
  ghost predicate VersionsConflict(vs: seq<Json>) {
    exists i, k :: 0 <= i < k < |vs| && vs[i] != Null && vs[k] != vs[i]
  }

  /** The first non-null version, or `Null` when there is none. */
  function FirstVersion(vs: seq<Json>): (v: Json)
    ensures v == Null <==> forall i :: 0 <= i < |vs| ==> vs[i] == Null
    ensures v != Null ==>
      exists i :: 0 <= i < |vs| && vs[i] == v && (forall j :: 0 <= j < i ==> vs[j] == Null)
  {
    if |vs| == 0 then Null
    else if vs[0] != Null then vs[0]
    else
      var v := FirstVersion(vs[1..]);
      assert v != Null ==>
        exists i :: 0 <= i < |vs| && vs[i] == v && (forall j :: 0 <= j < i ==> vs[j] == Null) by {
        if v != Null {
          var i :| 0 <= i < |vs[1..]| && vs[1..][i] == v && forall j :: 0 <= j < i ==> vs[1..][j] == Null;
          assert vs[i + 1] == v;
          assert forall j :: 0 <= j < i + 1 ==> vs[j] == Null by {
            assert forall j :: 1 <= j < i + 1 ==> vs[j] == vs[1..][j - 1];
          }
        }
      }
      v
  }

  /** The Python loop, statement for statement; `sys.exit(1)` becomes an
      early `Failure` return. */
  method MergeUniqueTemplates(files: seq<Catalog>) returns (r: Result<Catalog, MergeError>)
    ensures r == Merge(files)
    ensures r.Failure? <==> VersionsConflict(Versions(files))
    ensures r.Success? ==> r.value.version == FirstVersion(Versions(files))
    ensures r.Success? ==> Distinct(r.value.templates)
    ensures r.Success? ==> forall t :: t in r.value.templates <==> t in Flatten(files)
  {
    var version := Null;
    var unique := [];
    var i := 0;
    while i < |files|
      invariant 0 <= i <= |files|
      invariant MergeFrom(version, unique, files[i..]) == Merge(files)
    {
      var f := files[i];
      assert files[i..][0] == f && files[i..][1..] == files[i + 1..];
      if version == Null {
        version := f.version;
      } else if version != f.version {
        r := Failure(VersionMismatch(version, f.version));
        MergeProperties(files);
        return;
      }
      unique := AppendUnique(unique, f.templates);
      i := i + 1;
    }
    r := Success(Catalog(version, unique));
    MergeProperties(files);
  }

  /** The inner loop: append each template of one catalog unless an equal
      one has been collected already. */
  method AppendUnique(unique: seq<Json>, ts: seq<Json>) returns (r: seq<Json>)
    ensures r == AddUnique(unique, ts)
  {
    r := unique;
    var j := 0;
    while j < |ts|
      invariant 0 <= j <= |ts|
      invariant r == AddUnique(unique, ts[..j])
    {
      var t := ts[j];
      assert ts[..j + 1][..j] == ts[..j] && ts[..j + 1][j] == t;
      if t !in r {
        r := r + [t];
      }
      j := j + 1;
    }
    assert ts[..j] == ts;
  }

  /** The method's postconditions, gathered from the lemmas below. */
  lemma MergeProperties(cs: seq<Catalog>)
    ensures Merge(cs).Failure? <==> VersionsConflict(Versions(cs))
    ensures Merge(cs).Success? ==> Merge(cs).value.version == FirstVersion(Versions(cs))
    ensures Merge(cs).Success? ==> Distinct(Merge(cs).value.templates)
    ensures Merge(cs).Success? ==> forall t :: t in Merge(cs).value.templates <==> t in Flatten(cs)
  {
    MergeFailsIffVersionsConflict(cs);
    if Merge(cs).Success? {
      MergeVersion(cs);
      MergeTemplatesDistinct(cs);
      MergeCoverage(cs);
    }
  }

  // ---------------------------------------------------------------------------
  // The version gate

  lemma ConflictDropLeadingNull(vs: seq<Json>)
    ensures VersionsConflict([Null] + vs) <==> VersionsConflict(vs)
  {
    var ws := [Null] + vs;
    if VersionsConflict(ws) {
      var i, k :| 0 <= i < k < |ws| && ws[i] != Null && ws[k] != ws[i];
      assert vs[i - 1] != Null && vs[k - 1] != vs[i - 1];
    }
    if VersionsConflict(vs) {
      var i, k :| 0 <= i < k < |vs| && vs[i] != Null && vs[k] != vs[i];
      assert ws[i + 1] != Null && ws[k + 1] != ws[i + 1];
    }
  }

  lemma ConflictDropRepeatedHead(v: Json, vs: seq<Json>)
    requires v != Null
    ensures VersionsConflict([v, v] + vs) <==> VersionsConflict([v] + vs)
  {
    var ws := [v, v] + vs;
    var us := [v] + vs;
    if VersionsConflict(ws) {
      var i, k :| 0 <= i < k < |ws| && ws[i] != Null && ws[k] != ws[i];
      var i' := if i == 0 then 0 else i - 1;
      assert us[i'] == ws[i] && us[k - 1] == ws[k];
    }
    if VersionsConflict(us) {
      var i, k :| 0 <= i < k < |us| && us[i] != Null && us[k] != us[i];
      assert ws[i + 1] == us[i] && ws[k + 1] == us[k];
    }
  }

  /** The gate, with an accepted version `v` so far: the rest of the merge fails
      exactly when `v` followed by the remaining versions holds a clash, and
      otherwise ends with the first non-null among them. */
  lemma {:induction false} MergeFromGate(v: Json, unique: seq<Json>, cs: seq<Catalog>)
    ensures MergeFrom(v, unique, cs).Failure? <==> VersionsConflict([v] + Versions(cs))
    ensures MergeFrom(v, unique, cs).Success? ==>
      MergeFrom(v, unique, cs).value.version == FirstVersion([v] + Versions(cs))
    decreases |cs|
  {
    var vs := [v] + Versions(cs);
    if |cs| == 0 {
      assert !VersionsConflict(vs);
    } else {
      var c := cs[0];
      var rest := Versions(cs[1..]);
      assert Versions(cs) == [c.version] + rest;
      MergeFromGate(AcceptVersion(v, c.version).GetOr(v), AddUnique(unique, c.templates), cs[1..]);
      if v == Null {
        assert vs == [Null] + ([c.version] + rest);
        ConflictDropLeadingNull([c.version] + rest);
        assert FirstVersion(vs) == FirstVersion(vs[1..]);
      } else if c.version != v {
        assert vs[0] != Null && vs[1] != vs[0];
      } else {
        assert vs == [v, v] + rest;
        ConflictDropRepeatedHead(v, rest);
      }
    }
  }

  /** A merge fails exactly when some catalog with a version is followed by a
      catalog with a different version. */
  lemma MergeFailsIffVersionsConflict(cs: seq<Catalog>)
    ensures Merge(cs).Failure? <==> VersionsConflict(Versions(cs))
  {
    MergeFromGate(Null, [], cs);
    ConflictDropLeadingNull(Versions(cs));
  }

  /** A successful merge carries the first non-null catalog version. */
  lemma MergeVersion(cs: seq<Catalog>)
    requires Merge(cs).Success?
    ensures Merge(cs).value.version == FirstVersion(Versions(cs))
  {
    MergeFromGate(Null, [], cs);
    assert ([Null] + Versions(cs))[1..] == Versions(cs);
  }

  /** When the first catalog has a version, a successful merge carries it. */
  lemma MergeVersionOfFirst(cs: seq<Catalog>)
    requires Merge(cs).Success? && |cs| > 0 && cs[0].version != Null
    ensures Merge(cs).value.version == cs[0].version
  {
    MergeVersion(cs);
    assert Versions(cs)[0] == cs[0].version;
  }

  /** After a successful merge, every catalog that has a version has the
      merged one. */
  lemma MergeVersionAgrees(cs: seq<Catalog>)
    requires Merge(cs).Success?
    ensures forall i :: 0 <= i < |cs| && cs[i].version != Null ==>
      cs[i].version == Merge(cs).value.version
  {
    MergeVersion(cs);
    MergeFailsIffVersionsConflict(cs);
    forall i | 0 <= i < |cs| && cs[i].version != Null
      ensures cs[i].version == Merge(cs).value.version
    {
      NoConflictAgrees(Versions(cs), i);
    }
  }

  /** Without a clash, every non-null version is the first non-null one. */
  lemma NoConflictAgrees(vs: seq<Json>, i: int)
    requires !VersionsConflict(vs)
    requires 0 <= i < |vs| && vs[i] != Null
    ensures vs[i] == FirstVersion(vs)
  {
    var fv := FirstVersion(vs);
    var i0 :| 0 <= i0 < |vs| && vs[i0] == fv && forall j :: 0 <= j < i0 ==> vs[j] == Null;
    assert i0 <= i;
    assert i0 < i ==> vs[i] == vs[i0];
  }

  /** A mismatch names the accepted version and the version that clashed with
      it; the accepted one is the first non-null version. */
  lemma {:induction false} MergeFromFailure(v: Json, unique: seq<Json>, cs: seq<Catalog>)
    requires MergeFrom(v, unique, cs).Failure?
    ensures MergeFrom(v, unique, cs).error.expected == FirstVersion([v] + Versions(cs))
    ensures MergeFrom(v, unique, cs).error.expected != Null
    ensures MergeFrom(v, unique, cs).error.found != MergeFrom(v, unique, cs).error.expected
    ensures MergeFrom(v, unique, cs).error.found in Versions(cs)
    decreases |cs|
  {
    var c := cs[0];
    assert Versions(cs) == [c.version] + Versions(cs[1..]);
    if v == Null {
      MergeFromFailure(c.version, AddUnique(unique, c.templates), cs[1..]);
      assert ([v] + Versions(cs))[1..] == [c.version] + Versions(cs[1..]);
    } else if c.version == v {
      MergeFromFailure(v, AddUnique(unique, c.templates), cs[1..]);
    }
  }

  /** The error of a failed merge reports the first non-null version as the
      expected one and a different version found in a later catalog. */
  lemma MergeFailureReport(cs: seq<Catalog>)
    requires Merge(cs).Failure?
    ensures Merge(cs).error.expected == FirstVersion(Versions(cs))
    ensures Merge(cs).error.expected != Null
    ensures Merge(cs).error.found != Merge(cs).error.expected
    ensures Merge(cs).error.found in Versions(cs)
    ensures exists i, k :: (0 <= i < k < |cs|
      && cs[i].version == Merge(cs).error.expected && cs[k].version == Merge(cs).error.found)
  {
    MergeFromFailure(Null, [], cs);
    assert ([Null] + Versions(cs))[1..] == Versions(cs);
    MergeFailureLocated(cs);
  }

  /** The expected version of a failed merge is the version of some catalog,
      and the clashing version is that of a later catalog. */
  lemma MergeFailureLocated(cs: seq<Catalog>)
    requires Merge(cs).Failure?
    ensures exists i, k :: (0 <= i < k < |cs|
      && cs[i].version == Merge(cs).error.expected && cs[k].version == Merge(cs).error.found)
  {
    var e := Merge(cs).error;
    MergeFromFailure(Null, [], cs);
    var i, k := MergeFromClash(Null, [], cs);
    assert cs[i - 1].version == e.expected && cs[k - 1].version == e.found;
  }

  /** Where the versions of a failed merge come from: the clashing version is
      that of catalog `k - 1`, and the expected one is the accepted version
      `v` when `i` is 0 and that of an earlier catalog `i - 1` otherwise. */
  lemma {:induction false} MergeFromClash(v: Json, unique: seq<Json>, cs: seq<Catalog>)
    returns (i: nat, k: nat)
    requires MergeFrom(v, unique, cs).Failure?
    ensures i < k <= |cs|
    ensures i == 0 ==> v == MergeFrom(v, unique, cs).error.expected
    ensures i > 0 ==> cs[i - 1].version == MergeFrom(v, unique, cs).error.expected
    ensures cs[k - 1].version == MergeFrom(v, unique, cs).error.found
    decreases |cs|
  {
    var c := cs[0];
    var next := AddUnique(unique, c.templates);
    if v == Null {
      var i', k' := MergeFromClash(c.version, next, cs[1..]);
      i, k := i' + 1, k' + 1;
    } else if c.version != v {
      i, k := 0, 1;
    } else {
      var i', k' := MergeFromClash(v, next, cs[1..]);
      i, k := if i' == 0 then 0 else i' + 1, k' + 1;
    }
  }

  /** A leading catalog whose version is null never causes a mismatch: the
      gate adopts the next catalog's version without comparing. */
  lemma LeadingNullVersionAbsorbed(ts: seq<Json>, cs: seq<Catalog>)
    ensures Merge([Catalog(Null, ts)] + cs).Success? <==> Merge(cs).Success?
    ensures Merge(cs).Success? ==>
      Merge([Catalog(Null, ts)] + cs).value.version == Merge(cs).value.version
  {
    var ds := [Catalog(Null, ts)] + cs;
    assert Versions(ds) == [Null] + Versions(cs);
    MergeFailsIffVersionsConflict(ds);
    MergeFailsIffVersionsConflict(cs);
    ConflictDropLeadingNull(Versions(cs));
    if Merge(cs).Success? {
      MergeVersion(ds);
      MergeVersion(cs);
    }
    assert Versions(ds)[1..] == Versions(cs);
  }

  // ---------------------------------------------------------------------------
  // The collected templates

  lemma {:induction false} MergeFromTemplates(v: Json, unique: seq<Json>, cs: seq<Catalog>)
    requires MergeFrom(v, unique, cs).Success?
    ensures MergeFrom(v, unique, cs).value.templates == AddUnique(unique, Flatten(cs))
    decreases |cs|
  {
    if |cs| > 0 {
      var c := cs[0];
      var w := AcceptVersion(v, c.version).value;
      MergeFromTemplates(w, AddUnique(unique, c.templates), cs[1..]);
      AddUniqueAppend(unique, c.templates, Flatten(cs[1..]));
    }
  }

  /** The merged templates are the flattened input with later repeats removed. */
  lemma MergeTemplates(cs: seq<Catalog>)
    requires Merge(cs).Success?
    ensures Merge(cs).value.templates == Dedup(Flatten(cs))
  {
    MergeFromTemplates(Null, [], cs);
  }

  /** No two merged templates are structurally equal. */
  lemma MergeTemplatesDistinct(cs: seq<Catalog>)
    requires Merge(cs).Success?
    ensures Distinct(Merge(cs).value.templates)
  {
    MergeTemplates(cs);
  }

  /** A template is in the result exactly when it is in some input catalog. */
  lemma MergeCoverage(cs: seq<Catalog>)
    requires Merge(cs).Success?
    ensures forall t :: t in Merge(cs).value.templates <==> t in Flatten(cs)
  {
    MergeTemplates(cs);
  }

  /** Every template of every input catalog is in the result. */
  lemma MergeKeepsEveryTemplate(cs: seq<Catalog>)
    requires Merge(cs).Success?
    ensures forall i, t :: 0 <= i < |cs| && t in cs[i].templates ==> t in Merge(cs).value.templates
  {
    MergeCoverage(cs);
  }

  /** The merged templates keep the order of their first occurrences across the
      catalogs: a subsequence of the flattened input. */
  lemma MergeOrder(cs: seq<Catalog>)
    requires Merge(cs).Success?
    ensures InFirstOccurrenceOrder(Merge(cs).value.templates, Flatten(cs))
    ensures IsSubsequence(Merge(cs).value.templates, Flatten(cs))
  {
    MergeTemplates(cs);
    DedupOrder(Flatten(cs));
    DedupSubsequence(Flatten(cs));
  }

  /** The merged templates are the only distinct sequence with the input's
      templates in first-occurrence order. */
  lemma MergeTemplatesCharacterised(cs: seq<Catalog>, r: seq<Json>)
    requires Merge(cs).Success?
    requires Distinct(r) && InFirstOccurrenceOrder(r, Flatten(cs))
    requires forall t :: t in r <==> t in Flatten(cs)
    ensures Merge(cs).value.templates == r
  {
    MergeTemplatesDistinct(cs);
    MergeCoverage(cs);
    MergeOrder(cs);
    FirstOccurrenceUnique(Merge(cs).value.templates, r, Flatten(cs));
  }

  /** There are at most as many merged templates as input templates, and
      exactly as many when no two input templates are equal. */
  lemma MergeLength(cs: seq<Catalog>)
    requires Merge(cs).Success?
    ensures |Merge(cs).value.templates| <= TemplateCount(cs)
    ensures |Merge(cs).value.templates| == TemplateCount(cs) <==> Distinct(Flatten(cs))
  {
    MergeTemplates(cs);
    DedupLength(Flatten(cs));
    FlattenLength(cs);
  }

  /** Merging a single catalog whose templates are already distinct (such as a
      merge result) returns it unchanged. */
  lemma MergeIdempotent(cs: seq<Catalog>)
    requires Merge(cs).Success?
    ensures Merge([Merge(cs).value]) == Merge(cs)
  {
    MergeTemplatesDistinct(cs);
    MergeSingleDistinct(Merge(cs).value);
  }

  lemma MergeSingleDistinct(c: Catalog)
    requires Distinct(c.templates)
    ensures Merge([c]) == Success(c)
  {
    DedupOfDistinct(c.templates);
  }
}
