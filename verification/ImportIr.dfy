/** The parsed collection every importer produces (crates/voleeo-import/src/ir.rs). Payloads the tree
    algorithms never look into are opaque bytes. */
module ImportIr {
  import opened Text

  /** `Configured` stands for every scheme with its parameters. */
  datatype ImportedAuth = NoneGiven | InheritFromParent | Configured(config: Bytes) | Unsupported(scheme: Bytes)

  datatype ImportedRequest = ImportedRequest(
    name: Bytes, httpMethod: Bytes, url: Bytes, path: Bytes, auth: ImportedAuth, details: Bytes)

  /** `settings`: description, headers and variables. */
  datatype ImportedFolder = ImportedFolder(name: Bytes, auth: ImportedAuth, settings: Bytes, items: seq<ImportedItem>)

  datatype ImportedItem = Folder(folder: ImportedFolder) | Request(request: ImportedRequest)
}
