/**
  Package manifests (`package.json`) as far as the shim engine reads and
  writes them: the package name, its `main` entry point and the three fields
  that may hold a substitution map (`react-native`, `browser`, `browserify`).
 */
module Manifests {
  import opened Wrappers

  /** A value in a substitution map: a replacement path or module name, or a JSON boolean. */
  datatype Value = Str(s: string) | Bool(b: bool)

  /** JavaScript truthiness of a map value. */
  predicate Truthy(v: Value) {
    match v
    case Str(s) => s != ""
    case Bool(b) => b
  }

  /** A substitution map: module name or relative file path to its replacement (`false` excludes it). */
  type BrowserMap = map<string, Value>

  /**
    A value of the browser substitution table of the configuration. The table
    holds replacement names and `false`; a `true` there would make the planner
    call string methods on a boolean, which throws.
   */
  type Replacement = v: Value | v != Bool(true) witness Bool(false)

  /** The configured module-name to replacement table. */
  type BrowserTable = map<string, Replacement>

  /** One of the three substitution fields of a manifest. */
  datatype Field = Missing | Text(s: string) | Object(entries: BrowserMap)

  /** JavaScript truthiness of a field: a non-empty string, or any object (even an empty one). */
  predicate FieldTruthy(f: Field) {
    match f
    case Missing => false
    case Text(s) => s != ""
    case Object(_) => true
  }

  /** A parsed manifest; the fields the engine never touches are not represented and pass through unchanged. */
  datatype Manifest = Manifest(
    name: Option<string>,
    main: Option<string>,
    reactNative: Field,
    browser: Field,
    browserify: Field
  )
}
