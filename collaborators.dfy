/**
 * The data types the provider receives from and hands back to the rest of the
 * extension. Only the parts the provider reads are modelled.
 */
module Python {

  /** The classification of a data type; the provider only asks whether a
      type is a collection. */
  datatype TypeCategory = Collection | Other

  /** A data type as the extension describes it: its bare name (for
      example "list") and its category. */
  datatype DataType = DataType(name: string, category: TypeCategory)
}

module TypeHints {

  /** A completion suggestion: the label shown to the user and the text
      inserted into the document. The extension's `TypeHint` calls
      its first field `label`, a reserved word in Dafny. */
  datatype TypeHint = TypeHint(labelText: string, insertText: string)
}
