/** The edit configuration of one schema entry. Maps that the configuration
    holds as a `HashMap` are sequences here, in a fixed order. */
module Config {
  import opened OrderedMaps
  import opened Swagger

  /** `paths` edits: rename rules (search pattern, replacement template) and
      literal keys to remove. */
  datatype SchemaPaths = SchemaPaths(rename: Option<seq<(string, string)>>, remove: Option<seq<string>>)

  /** `definitions` edits. */
  datatype SchemaDefinitions = SchemaDefinitions(
    add: Option<Definitions>,
    overrides: Option<Definitions>,
    remove: Option<seq<string>>)

  datatype Schema = Schema(
    file: string,
    url: string,
    multienv: Option<string>,
    paths: Option<SchemaPaths>,
    definitions: Option<SchemaDefinitions>)

  /** `unwrap_or_default` of a list of names, as a set. */
  function Listed(names: Option<seq<string>>): set<string>
  {
    match names
    case None => {}
    case Some(ns) => set n | n in ns
  }

  /** `unwrap_or_default` of a map. */
  function Entered<V>(m: Option<Entries<V>>): Entries<V>
  {
    match m
    case None => []
    case Some(es) => es
  }
}
