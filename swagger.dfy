/** The shapes of the fetched document: its path table, its definitions
    table and its tag catalogue. */
module Swagger {
  import opened OrderedMaps
  import opened Json

  datatype Tag = Tag(name: string, description: string)

  datatype Info = Info(title: string)

  /** The operations of one path by lower-case HTTP verb (a `HashMap`, whose
      iteration order is taken as given). */
  type Operations = Entries<Value>

  /** Path template to operations, in document order. */
  type Paths = Entries<Operations>

  /** A definition: an open-ended object (`type`, `properties`, `required`, ...). */
  type Definition = Entries<Value>

  type Definitions = Entries<Definition>

  datatype Document = Document(
    swagger: string,
    info: Info,
    basePath: string,
    tags: seq<Tag>,
    paths: Paths,
    definitions: Definitions)

  /** Every map of the path table has distinct keys. */
  predicate PathsWellFormed(paths: Paths)
  {
    Distinct(paths) && forall i :: 0 <= i < |paths| ==> Distinct(paths[i].1)
  }

  /** Every map of the definitions table has distinct keys. */
  predicate DefinitionsWellFormed(defs: Definitions)
  {
    Distinct(defs) && forall i :: 0 <= i < |defs| ==> Distinct(defs[i].1)
  }

  function TagName(t: Tag): string
  {
    t.name
  }
}
