/** The errors the catalog decoder can throw. */
module Errors {

  /** Errors raised while processing the JSON catalog; only two of them arise in decoding a book. */
  datatype JsonError =
    | WrongURLFormatForJSONResource
    | ResourcePointedByURLNotReachable
    | JsonParsingError
    | WrongJSONFormat
    | NilJSONObject
    | UnableToWriteJSONFile
    | UnableToGetDataFromRemoteJson
}
