/**
 Parsed template catalogs. A catalog file is a JSON object with a `version`
 and a `templates` array; templates are arbitrary JSON values compared
 structurally, exactly as Python compares the dicts and lists that
 `json.load` produces.
 */
module Catalogs {

  /** An already-parsed JSON value (section 3 of RFC 8259). Objects are maps,
      so two objects with the same members in a different key order are the
      same value, as with Python dicts; arrays are ordered. */
  datatype Json =
    | Null
    | Bool(b: bool)
    | Int(n: int)
    | Str(s: string)
    | Arr(items: seq<Json>)
    | Obj(fields: map<string, Json>)

  /** One catalog: its format version and its templates in file order. */
  datatype Catalog = Catalog(version: Json, templates: seq<Json>)

  /** The version of every catalog, in catalog order. */
  function Versions(cs: seq<Catalog>): (vs: seq<Json>)
    ensures |vs| == |cs|
    ensures forall i :: 0 <= i < |cs| ==> vs[i] == cs[i].version
  {
    if |cs| == 0 then [] else [cs[0].version] + Versions(cs[1..])
  }

  /** All templates of all catalogs: catalog order, then order within a catalog. */
  function Flatten(cs: seq<Catalog>): (ts: seq<Json>)
    ensures forall t :: t in ts <==> exists i :: 0 <= i < |cs| && t in cs[i].templates
  {
    if |cs| == 0 then []
    else
      var rest := Flatten(cs[1..]);
      assert forall t :: t in rest <==> exists i :: 1 <= i < |cs| && t in cs[i].templates by {
        forall t | t in rest ensures exists i :: 1 <= i < |cs| && t in cs[i].templates {
          var i :| 0 <= i < |cs[1..]| && t in cs[1..][i].templates;
          assert t in cs[i + 1].templates;
        }
        forall t | (exists i :: 1 <= i < |cs| && t in cs[i].templates) ensures t in rest {
          var i :| 1 <= i < |cs| && t in cs[i].templates;
          assert t in cs[1..][i - 1].templates;
        }
      }
      cs[0].templates + rest
  }

  /** Total number of templates over all catalogs. */
  function TemplateCount(cs: seq<Catalog>): (n: nat)
  {
    if |cs| == 0 then 0 else |cs[0].templates| + TemplateCount(cs[1..])
  }

  lemma {:induction false} FlattenLength(cs: seq<Catalog>)
    ensures |Flatten(cs)| == TemplateCount(cs)
    decreases |cs|
  {
    if |cs| > 0 {
      FlattenLength(cs[1..]);
    }
  }
}
