# Portainer template catalog merge — a Dafny model

This project models the core of a small tool that builds one Portainer
application-template catalog out of several published ones. A catalog is a
JSON document holding a format `version` and an ordered `templates` array.
The tool does two things that are more than plumbing:

* **Merge** (`merge_unique_templates`). The catalogs are walked in order. The
  version of the first catalog becomes the accepted version. Any later catalog
  whose version differs aborts the whole run. Otherwise every template of
  every catalog is appended to the result unless a structurally equal template
  is already there. The function appears twice, identically, in
  `portainer_templates_generate.py` and `portainer_merge_jsons.py`;
  `portainer_download_and_merge.py` imports the second copy.
* **Source list** (`read_urls_from_file`). Each line of the sources file is
  stripped of surrounding whitespace. The stripped lines that are non-empty and
  do not start with `#` are the sources, kept in file order with duplicates.

Modules:

* `Wrappers` (`wrappers.dfy`): a `Result` type. The merge's `sys.exit(1)`
  becomes a `Failure`.
* `Catalogs` (`catalogs.dfy`): `Json` is an already-parsed JSON value as in
  section 3 of RFC 8259. Objects are `map<string, Json>`, so key order does not
  matter, just as with Python dicts. Arrays are ordered sequences. A `Catalog`
  holds a version and its templates. `Flatten` concatenates all templates in
  catalog order.
* `UniqueTemplates` (`dedup.dfy`): `AddUnique` is the inner
  "append unless already present" loop. `Dedup` applies it to an empty list.
  The lemmas prove distinctness, coverage, first-occurrence order,
  subsequence, the length bound and uniqueness of such a list.
* `TemplateMerge` (`merge.dfy`): the version gate, the merge as a fold
  (`MergeFrom`, one step per catalog) and `MergeUniqueTemplates`, a method
  that follows the Python loop statement by statement. The method is proved
  equal to the fold.
* `Sources` (`sources.dfy`): Python's `str.strip()`, using the exact whitespace
  set of `str.isspace`, and the line filter.

The accepted version starts out as `Null`, which stands for Python's `None`.
JSON `null` also parses to `None`. So the model keeps the source's quirk: the
gate tests `version is None`, which means a catalog whose version is null
never fixes the version. The next catalog's version is then adopted without
comparison (`LeadingNullVersionAbsorbed`).

These source files contain no category normalisation, no near-duplicate
grouping by an identity key, no richness-based tie-breaking, no sorting by
title, and no sorting or de-duplicating of the source list. The model has none
of these either. In particular, the source list is neither sorted nor de-duplicated
(`ReadUrlsAppend`, `ReadUrlsOfCleanLines`). The merged templates keep their
first-occurrence order and are not sorted (`MergeOrder`).

## Model

| member | source | states |
|---|---|---|
| `Catalogs.Flatten` | portainer_templates_generate.py:72-73 | a template is in the flattened list exactly when it belongs to some input catalog |
| `UniqueTemplates.AddUnique` | portainer_templates_generate.py:73-75 | the templates already kept stay as a prefix; the result holds exactly the kept templates plus the new ones; it is never longer than both together; distinctness is preserved |
| `UniqueTemplates.AddUniqueAppend` | portainer_merge_jsons.py:43-46 | adding one catalog's templates and then the next catalog's is the same as adding their concatenation |
| `UniqueTemplates.AddUniqueAbsorbs` | portainer_merge_jsons.py:44-46 | templates equal to ones already kept are never appended again |
| `UniqueTemplates.Dedup` | portainer_templates_generate.py:73-75 | the deduplicated list has no two equal elements, holds exactly the elements of the input and is never longer than it; `DedupOrder` and `FirstOccurrenceUnique` fix which list it is |
| `UniqueTemplates.DedupOrder` | portainer_templates_generate.py:73-75 | elements appear in the order of their first occurrence in the input |
| `UniqueTemplates.DedupSubsequence` | portainer_merge_jsons.py:44-46 | the deduplicated list is the input with some elements deleted, nothing reordered |
| `UniqueTemplates.DedupLength` | portainer_merge_jsons.py:44-46 | the result is at most as long as the input, and exactly as long if and only if the input has no two equal elements |
| `UniqueTemplates.DedupOfDistinct` | portainer_merge_jsons.py:44-46 | an input without repeats comes back unchanged |
| `UniqueTemplates.FirstOccurrenceUnique` | portainer_templates_generate.py:73-75 | any two lists that are distinct, hold exactly the input's elements and follow first-occurrence order are equal |
| `TemplateMerge.AcceptVersion` | portainer_merge_jsons.py:27-41 | one step of the version gate passes exactly when nothing is accepted yet or the catalog's version equals the accepted one; on success the accepted version is the catalog's version, and a failure reports the accepted and the catalog's version |
| `TemplateMerge.MergeFrom` | portainer_merge_jsons.py:26-46 | the rest of the merge keeps the templates collected so far as a prefix, keeps an already accepted version, and can fail only while catalogs remain; `MergeFromGate` and `MergeFromTemplates` characterise its outcome |
| `TemplateMerge.Merge` | portainer_merge_jsons.py:23-50 | no catalogs give a null version and no templates; one catalog gives its own version and its templates deduplicated |
| `TemplateMerge.MergeUniqueTemplates` | portainer_merge_jsons.py:23-50 | the loop returns the merge; it fails exactly when two catalog versions clash; on success the version is the first non-null one, the templates are distinct, and they are exactly the input templates |
| `TemplateMerge.MergeFromGate` | portainer_templates_generate.py:55-70 | from an accepted version, the rest of the merge fails exactly when that version followed by the remaining versions clashes; otherwise it ends with the first non-null of them |
| `TemplateMerge.MergeFailsIffVersionsConflict` | portainer_templates_generate.py:55-70 | the merge fails (no partial catalog) exactly when some catalog with a non-null version is followed by a catalog with a different version |
| `TemplateMerge.MergeVersion` | portainer_merge_jsons.py:24-49 | a successful merge carries the first non-null catalog version |
| `TemplateMerge.MergeVersionOfFirst` | portainer_merge_jsons.py:27-28 | when the first catalog has a non-null version, a successful merge carries exactly that version |
| `TemplateMerge.MergeVersionAgrees` | portainer_merge_jsons.py:27-41 | after a successful merge every catalog with a non-null version has the merged version |
| `TemplateMerge.MergeFailureReport` | portainer_merge_jsons.py:27-41 | a mismatch reports the accepted version, which is the first non-null version, and a different version; the two belong to catalogs i < k |
| `TemplateMerge.MergeFailureLocated` | portainer_merge_jsons.py:29-41 | the expected version of a failed merge is that of some catalog, and the clashing version is that of a later catalog |
| `TemplateMerge.LeadingNullVersionAbsorbed` | portainer_merge_jsons.py:27-28 | putting a null-version catalog first never changes whether the merge fails or which version it returns |
| `TemplateMerge.MergeTemplates` | portainer_templates_generate.py:72-75 | the merged templates are the flattened input with later repeats removed |
| `TemplateMerge.MergeTemplatesDistinct` | portainer_merge_jsons.py:44-46 | no two merged templates are structurally equal |
| `TemplateMerge.MergeCoverage` | portainer_merge_jsons.py:43-46 | a template is in the result exactly when it is in the flattened input |
| `TemplateMerge.MergeKeepsEveryTemplate` | portainer_merge_jsons.py:43-46 | every template of every input catalog is in the result |
| `TemplateMerge.AppendUnique` | portainer_merge_jsons.py:43-46 | the loop over one catalog's templates, appending each one not yet collected, ends with the collected list extended exactly as the recursive step `AddUnique` prescribes |
| `TemplateMerge.MergeOrder` | portainer_merge_jsons.py:26-46 | the merged templates follow first-occurrence order and form a subsequence of the flattened input |
| `TemplateMerge.MergeTemplatesCharacterised` | portainer_templates_generate.py:55-75 | the merged templates are the only list that is distinct, holds exactly the input templates and follows first-occurrence order |
| `TemplateMerge.MergeLength` | portainer_merge_jsons.py:44-46 | the merge has at most as many templates as the inputs together, and exactly as many if and only if no two input templates are equal |
| `TemplateMerge.MergeIdempotent` | portainer_templates_generate.py:52-79 | merging the output of a successful merge on its own gives the same result |
| `TemplateMerge.MergeSingleDistinct` | portainer_merge_jsons.py:23-50 | a single catalog whose templates are already distinct merges to itself |
| `Sources.IsSpaceExactly` | portainer_templates_generate.py:40 | the whitespace that `str.strip()` removes, written as ranges in `IsSpace`, is exactly the 29 code points of Python's `str.isspace`, listed one by one |
| `Sources.Strip` | portainer_templates_generate.py:40 | the stripped line neither starts nor ends with whitespace and is never longer than the line |
| `Sources.StripIsStripOf` | portainer_templates_generate.py:40 | the stripped line is a slice of the line with only whitespace outside it |
| `Sources.StripUnique` | portainer_templates_generate.py:40 | at most one string is the strip of a line |
| `Sources.StripOfStripped` | portainer_templates_generate.py:40 | a string without surrounding whitespace strips to itself |
| `Sources.StripIdempotent` | portainer_templates_generate.py:40 | stripping twice is stripping once |
| `Sources.LineSources` | portainer_templates_generate.py:40 | one line contributes either nothing or its stripped form, and it contributes its stripped form exactly when that is non-empty and does not start with `#`; `SourceLineKept` and `CommentOrBlankLineDropped` place that contribution in the file |
| `Sources.ReadUrls` | portainer_templates_generate.py:38-40 | there are never more sources than lines |
| `Sources.ReadUrlsClean` | portainer_templates_generate.py:40 | every returned source is non-empty, does not start with `#` and is already stripped |
| `Sources.ReadUrlsAppend` | portainer_templates_generate.py:40 | reading two blocks of lines is reading each and concatenating, so there is no sorting and no de-duplication |
| `Sources.ReadUrlsMembership` | portainer_templates_generate.py:40 | a string is returned exactly when some line strips to it and it is non-empty and not a comment |
| `Sources.CommentOrBlankLineDropped` | portainer_templates_generate.py:40 | a blank line, or one whose first non-blank character is `#`, contributes nothing wherever it stands |
| `Sources.SourceLineKept` | portainer_templates_generate.py:40 | a line whose first non-blank character is not `#` contributes its stripped form at its own position |
| `Sources.ReadUrlsOfCleanLines` | portainer_templates_generate.py:40 | stripped source lines come back unchanged, in order and with every repetition |
| `Sources.ReadUrlsIdempotent` | portainer_templates_generate.py:40 | reading an already-read list of sources changes nothing |

## Left out

- Network fetch and temporary files: `download_json`, and the temporary directory that downloads are written to and re-read from, are I/O through `urllib` and `json`.
- Console and file output: `save_output`, the colour helpers, `argparse` wiring, `os.makedirs` and the exit codes in `main` are console and file I/O. `portainer_merge_jsons.py` line 108 calls `save_output` with the wrong number of arguments, so that command-line path fails before it writes anything. This is glue and is not modelled.
- `main` treats a falsy download (for example an empty JSON object) as a failed download. That is orchestration, not merge logic.
- `portainer_download_and_merge.py`: it is a fixed URL list plus the same glue around the imported merge.
- JSON parsing and serialisation are the `json` library's job. The model starts from parsed values. A catalog missing its `version` or `templates` key raises a `KeyError` in the source; here `Catalog` is a record that always has both fields.
- Catalog shape: each catalog is taken to be a JSON object and its `templates` to be an array. The source checks neither. A catalog that is not an object raises a `TypeError` at `f["version"]` (portainer_merge_jsons.py:27). A `templates` value that is an object makes the loop at lines 43-44 collect the object's keys, a string makes it collect single characters, and a number or null raises a `TypeError`. None of these cases is modelled.
- Reading the sources file and splitting it into lines: `ReadUrls` takes the lines as given. Python's text mode turns `\r\n` and `\r` into `\n`; the model does not do that.
- Python numeric equality: in Python `True == 1` and `1 == 1.0`, so such templates or versions compare equal. The model keeps `Bool` and `Int` apart and has no floating-point numbers.
- Strings are compared as sequences of code points, as Python compares `str`; there is no Unicode normalisation.
