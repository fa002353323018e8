/** BoydResponse: an immutable message with an exit flag and an error flag,
    built only through its three factories. */
module Responses {
  datatype Response = Response(message: string, exit: bool, error: bool)

  /** ok(message): neither exit nor error. */
  function Ok(message: string): (r: Response)
    ensures r.message == message && !r.exit && !r.error
  {
    Response(message, false, false)
  }

  /** error(message): an error that does not exit. */
  function Error(message: string): (r: Response)
    ensures r.message == message && !r.exit && r.error
  {
    Response(message, false, true)
  }

  /** exit(message): an exit that is not an error. */
  function Exit(message: string): (r: Response)
    ensures r.message == message && r.exit && !r.error
  {
    Response(message, true, false)
  }

  /** A response one of the factories can build. */
  predicate Built(r: Response) {
    r == Ok(r.message) || r == Error(r.message) || r == Exit(r.message)
  }

  /** The factories build exactly the responses that are not both an exit and
      an error, and each response comes from one factory only. */
  lemma FactoriesCover(r: Response)
    ensures Built(r) <==> !(r.exit && r.error)
    ensures r == Ok(r.message) ==> r != Error(r.message) && r != Exit(r.message)
    ensures r == Error(r.message) ==> r != Exit(r.message)
  {
    if !r.exit && !r.error {
      assert r == Ok(r.message);
    } else if !r.exit {
      assert r == Error(r.message);
    } else if !r.error {
      assert r == Exit(r.message);
    }
  }

  /** Each factory keeps the message: equal responses carry equal messages,
      and different factories never agree. */
  lemma FactoriesDistinct(m1: string, m2: string)
    ensures Ok(m1) == Ok(m2) <==> m1 == m2
    ensures Error(m1) == Error(m2) <==> m1 == m2
    ensures Exit(m1) == Exit(m2) <==> m1 == m2
    ensures Ok(m1) != Error(m2) && Ok(m1) != Exit(m2) && Error(m1) != Exit(m2)
  {
  }
}
