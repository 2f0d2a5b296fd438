/** Validation issues as the schema library reports them, the outcome of a
    schema parse, and the error handler that turns a failed parse into the
    400 response's error sources. */
module Zod {
  import opened Wrappers
  import Text

  /** One step of an issue path: an object key or an array index. */
  datatype PathElem = Key(name: string) | Index(i: int)

  datatype IssueCode =
    | Custom
    | InvalidType
    | InvalidEnumValue
    | InvalidString
    | TooSmall
    | TooBig
    | UnrecognizedKeys(keys: seq<string>)

  datatype Issue = Issue(code: IssueCode, path: seq<PathElem>, message: string)

  /** The outcome of a schema parse: the parsed value or every issue found. */
  datatype Parsed<+T> = Valid(value: T) | Invalid(issues: seq<Issue>)

  /** A refinement issue on the top-level field `field`, or none. */
  function FieldIssue(ok: bool, field: string, message: string): (r: seq<Issue>)
    ensures ok <==> r == []
    ensures !ok ==> r == [Issue(Custom, [Key(field)], message)]
  {
    if ok then [] else [Issue(Custom, [Key(field)], message)]
  }

  /** A parsed request body. Numbers are integers; a JavaScript object has
      one entry per key, in insertion order. */
  datatype Json =
    | JNull
    | JBool(b: bool)
    | JNum(n: int)
    | JStr(s: string)
    | JArr(items: seq<Json>)
    | JObj(fields: seq<Field>)

  datatype Field = Field(key: string, value: Json)

  /** The keys of an object, in order. */
  function Keys(fields: seq<Field>): (r: seq<string>)
    ensures |r| == |fields| && forall k :: 0 <= k < |fields| ==> r[k] == fields[k].key
  {
    seq(|fields|, k requires 0 <= k < |fields| => fields[k].key)
  }

  /** The value stored under `key`, if any. */
  function Get(fields: seq<Field>, key: string): (r: Option<Json>)
    ensures r.None? <==> key !in Keys(fields)
    ensures r.Some? ==> Field(key, r.value) in fields
  {
    if |fields| == 0 then None
    else if fields[0].key == key then Some(fields[0].value)
    else Get(fields[1..], key)
  }

  /** The type name the library reports in "Expected string, received …". */
  function TypeName(j: Json): string
  {
    match j
    case JNull => "null"
    case JBool(_) => "boolean"
    case JNum(_) => "number"
    case JStr(_) => "string"
    case JArr(_) => "array"
    case JObj(_) => "object"
  }

  /** The keys of `fields` that `known` does not list, in order. */
  function UnknownKeys(fields: seq<Field>, known: seq<string>): (r: seq<string>)
    ensures forall x :: x in r <==> x in Keys(fields) && x !in known
  {
    if |fields| == 0 then []
    else
      var rest := UnknownKeys(fields[1..], known);
      assert Keys(fields) == [fields[0].key] + Keys(fields[1..]);
      if fields[0].key in known then rest else [fields[0].key] + rest
  }

  function Quote(key: string): string { "'" + key + "'" }

  /** `.strict()`: one unrecognized-keys issue naming every unknown key,
      or none. */
  function StrictIssues(fields: seq<Field>, known: seq<string>): (r: seq<Issue>)
    ensures r == [] <==> forall k :: 0 <= k < |fields| ==> fields[k].key in known
    ensures r != [] ==> r == [Issue(UnrecognizedKeys(UnknownKeys(fields, known)), [], r[0].message)]
  {
    var unknown := UnknownKeys(fields, known);
    if unknown == [] then
      assert forall k :: 0 <= k < |fields| ==> fields[k].key in Keys(fields);
      []
    else
      assert unknown[0] in Keys(fields);
      var quoted := seq(|unknown|, k requires 0 <= k < |unknown| => Quote(unknown[k]));
      [Issue(UnrecognizedKeys(unknown), [], "Unrecognized key(s) in object: " + Text.Join(quoted, ", "))]
  }

  /** One entry of `errorSources`. A path is a key name or an array index. */
  datatype ErrorSource = ErrorSource(path: PathElem, message: string)

  datatype ValidationError = ValidationError(statusCode: int, message: string, errorSources: seq<ErrorSource>)

  const ValidationFailed: string := "Validation failed !"

  /** JavaScript truthiness of a path element: `""` and `0` are falsy. */
  predicate Truthy(p: PathElem)
  {
    match p
    case Key(s) => s != ""
    case Index(i) => i != 0
  }

  /** The path shown for an issue: the joined unknown keys, or the last path
      element; a falsy or missing value becomes `""`. */
  function SourcePath(issue: Issue): (p: PathElem)
    ensures issue.code.UnrecognizedKeys? ==> p == Key(Text.Join(issue.code.keys, ", "))
    ensures !issue.code.UnrecognizedKeys? && |issue.path| > 0 && Truthy(issue.path[|issue.path| - 1]) ==>
              p == issue.path[|issue.path| - 1]
    ensures !issue.code.UnrecognizedKeys? && (|issue.path| == 0 || !Truthy(issue.path[|issue.path| - 1])) ==>
              p == Key("")
  {
    if issue.code.UnrecognizedKeys? then Key(Text.Join(issue.code.keys, ", "))
    else if |issue.path| > 0 && Truthy(issue.path[|issue.path| - 1]) then issue.path[|issue.path| - 1]
    else Key("")
  }

  function SourceOf(issue: Issue): (s: ErrorSource)
    ensures s.path == SourcePath(issue)
    ensures issue.code.UnrecognizedKeys? ==>
              s.message == "Unknown field in req body '" + Text.Join(issue.code.keys, ", ") + "'"
    ensures !issue.code.UnrecognizedKeys? ==> s.message == issue.message
  {
    if issue.code.UnrecognizedKeys? then
      ErrorSource(SourcePath(issue), "Unknown field in req body '" + Text.Join(issue.code.keys, ", ") + "'")
    else
      ErrorSource(SourcePath(issue), issue.message)
  }

  /** `handleZodError`: always 400 "Validation failed !", with one error
      source per issue in issue order. */
  function HandleZodError(issues: seq<Issue>): (r: ValidationError)
    ensures r.statusCode == BadRequest && r.message == ValidationFailed
    ensures |r.errorSources| == |issues|
    ensures forall k :: 0 <= k < |issues| ==> r.errorSources[k] == SourceOf(issues[k])
  {
    ValidationError(BadRequest, ValidationFailed, seq(|issues|, k requires 0 <= k < |issues| => SourceOf(issues[k])))
  }

  /** The handler maps issue lists piecewise: the sources of two issue lists
      in a row are the two source lists in a row. */
  lemma HandleZodErrorConcat(a: seq<Issue>, b: seq<Issue>)
    ensures HandleZodError(a + b).errorSources == HandleZodError(a).errorSources + HandleZodError(b).errorSources
  {
  }

  /** An index 0 at the end of a path is falsy and shows as `""`. */
  lemma FirstIndexShowsEmpty(field: string, message: string)
    ensures HandleZodError([Issue(Custom, [Key(field), Index(0)], message)]).errorSources
            == [ErrorSource(Key(""), message)]
  {
  }
}
