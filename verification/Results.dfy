/** The result of an operation that may raise an error. */
module Results {
  datatype Status = Ok | Failed(msg: string) {
    predicate IsFailure() {
      Failed?
    }

    function PropagateFailure(): Status
      requires Failed?
    {
      this
    }
  }
}
