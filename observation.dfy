/**
 The observable steps of the server and the ghost record of them. Every
 method that makes a step (a write to the response, the log store's
 append of a record) appends that step to the observer it was given, at
 the moment it makes it, so the record shows those calls in the order they
 were made. A field assigned directly, without calling such a method, is
 not observed: for the response, `Response.Valid` catches it instead, as
 it requires the fields to be what the observed steps leave; for the log
 store, the contract of the caller pins its files.
 */
module Observation {

  datatype Effect =
    | SetStatusCode(code: int)
    | Log(message: string)
    | SetContentType(contentType: string)
    | AddHeader(name: string, value: string)
    | StreamCompressed(filePath: string)
    | CloseResponse
    | OpenFailed(filePath: string)

  /** The steps made so far, oldest first. */
  class Observer {
    ghost var steps: seq<Effect>

    constructor ()
      ensures steps == []
    {
      steps := [];
    }
  }
}
