/**
 * The parsed Kubernetes objects the splitter works on. The splitter never
 * interprets a manifest beyond its kind and its name, so an object is an
 * opaque tree of values with two accessors, in the manner of
 * `unstructured.Unstructured`.
 */
module Objects {
  import opened Wrappers

  /** A generic structured value: the shape JSON and YAML documents decode to. */
  datatype Value =
    | Null
    | Bool(b: bool)
    | Num(n: int)
    | Str(s: string)
    | List(items: seq<Value>)
    | Mapping(entries: map<string, Value>)

  /** One manifest: its top-level fields. */
  datatype Obj = Obj(fields: map<string, Value>)

  /** The value found by following `path` through nested mappings, if there is one. */
  function Lookup(fields: map<string, Value>, path: seq<string>): (r: Option<Value>)
    requires |path| > 0
    ensures r.Some? ==> path[0] in fields
    decreases |path|
  {
    if path[0] !in fields then None
    else if |path| == 1 then Some(fields[path[0]])
    else match fields[path[0]]
      case Mapping(inner) => Lookup(inner, path[1..])
      case _ => None
  }

  /** A nested string field; the empty string when it is absent or not a string. */
  function NestedString(fields: map<string, Value>, path: seq<string>): (r: string)
    requires |path| > 0
    ensures r != "" ==> Lookup(fields, path) == Some(Str(r))
    ensures path[0] !in fields ==> r == ""
  {
    match Lookup(fields, path)
    case Some(Str(s)) => s
    case _ => ""
  }

  /** The object's `kind`, or "" when the field is missing or not a string. */
  function Kind(o: Obj): (r: string)
    ensures "kind" in o.fields && o.fields["kind"].Str? ==> r == o.fields["kind"].s
    ensures "kind" in o.fields && !o.fields["kind"].Str? ==> r == ""
    ensures "kind" !in o.fields ==> r == ""
  {
    NestedString(o.fields, ["kind"])
  }

  /** The object has a `metadata` mapping whose `name` field is a string. */
  predicate HasStringName(o: Obj) {
    && "metadata" in o.fields
    && o.fields["metadata"].Mapping?
    && "name" in o.fields["metadata"].entries
    && o.fields["metadata"].entries["name"].Str?
  }

  /**
   * The object's `metadata.name`, or "" when it is missing or not a string;
   * used only in error messages.
   */
  function Name(o: Obj): (r: string)
    ensures HasStringName(o) ==> r == o.fields["metadata"].entries["name"].s
    ensures !HasStringName(o) ==> r == ""
  {
    NestedString(o.fields, ["metadata", "name"])
  }
}
