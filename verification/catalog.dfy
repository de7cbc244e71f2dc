/** The catalog entry both coverage tools read from the YAML catalog. */
module Catalog {

  /** One declared log code. Only `humanReadableCode` takes part in coverage matching. */
  datatype LogCode = LogCode(code: int, level: string, description: string, humanReadableCode: string)
}
