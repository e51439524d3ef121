/** Failure-carrying values shared by every module of the model.

    The Python code signals failure by raising; the model returns an `Err`
    carrying the exception the code would raise instead. */
module Common {

  datatype Option<+T> = None | Some(value: T) {
    function GetOr(default: T): T {
      match this
      case Some(v) => v
      case None => default
    }
  }

  /** The Python exceptions the modelled code can raise. */
  datatype Error =
    | KeyError(key: string)          // a dict lookup of a missing key
    | IndexError                     // a list or array index past the end
    | ValueError(message: string)    // an explicit `raise ValueError(...)`
    | CloseSpider(reason: string)    // Scrapy's request to stop crawling

  datatype Result<+T> = Ok(value: T) | Err(error: Error) {
    predicate IsFailure() {
      Err?
    }

    function PropagateFailure<U>(): Result<U>
      requires Err?
    {
      Err(error)
    }

    function Extract(): T
      requires Ok?
    {
      value
    }
  }

  function Min(a: int, b: int): int {
    if a <= b then a else b
  }
}
