/** The import edge that the closure and the import fixer share (`deal-closure/src/lib.rs`). */
module ImportEdges {

  /** An import: of the named items of a package, or of all of them. */
  datatype ImportEdge = ImportEdge(importPath: string, isWildcard: bool, items: seq<string>)
}
