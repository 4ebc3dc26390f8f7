/** The record shapes of src/types/index.ts and the JSON values that the
    configuration merge works on. */
module Types {
  import opened Wrappers

  type Path = string

  /** The `action` field shared by CopyResult and the two summary records. */
  datatype Action = Created | Updated | Skipped | Conflict

  /** One reconciled file: `{ action, path, reason? }`. */
  datatype CopyResult = CopyResult(action: Action, path: Path, reason: Option<string>)

  /** `{ identical, exists }` as produced by compareFiles (`exists` is a Dafny
      keyword, hence `bothExist`). */
  datatype FileComparison = FileComparison(identical: bool, bothExist: bool)

  /** A JSON value as `JSON.parse` produces it. Numbers are reals: JSON has no NaN. */
  datatype Json =
    | JNull
    | JBool(b: bool)
    | JNum(n: real)
    | JStr(s: string)
    | JArr(items: seq<Json>)
    | JObj(fields: map<string, Json>)

  /** JavaScript truthiness of a JSON value. */
  predicate Truthy(j: Json) {
    match j
    case JNull => false
    case JBool(b) => b
    case JNum(n) => n != 0.0
    case JStr(s) => s != ""
    case JArr(_) => true
    case JObj(_) => true
  }

  /** A JSON object, as the map of its own fields. */
  type Config = map<string, Json>

  const ServersKey: string := "mcpServers"

  /** `McpConfig`: an object whose optional `mcpServers` field, when it is
      truthy, is an object of named entries. */
  predicate IsMcpConfig(c: Config) {
    ServersKey in c && Truthy(c[ServersKey]) ==> c[ServersKey].JObj?
  }

  type McpConfig = c: Config | IsMcpConfig(c) witness map[]

  /** The `mcpServers` registry of a configuration, or the empty registry when
      the field is absent or falsy (`config.mcpServers || {}`). */
  function Registry(c: McpConfig): map<string, Json> {
    if ServersKey in c && Truthy(c[ServersKey]) then c[ServersKey].fields else map[]
  }

  /** Every registry entry is an object (`McpEntry`), as the bundled package
      configuration provides. */
  predicate EntriesAreObjects(c: McpConfig) {
    forall name :: name in Registry(c) ==> Registry(c)[name].JObj?
  }
}
