/** The error an endpoint raises: an HTTP status code and a detail message. */
module Http {

  datatype HttpError = HttpError(status: nat, detail: string)
}
