/** The Python exceptions that the modelled code raises. */
module Errors {

  datatype Error =
    | NotImplementedError
    | ValueError(message: string)
    | Exception(message: string)
}
