/** A unit of work handed from a client to the server (work/request.go). */
module Work {

  /** The only field is the identifier; different clients may use the same one. */
  datatype Request = Request(id: int)
}
