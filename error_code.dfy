/** The process result codes, with the numbers of the Windows system error codes
    they borrow. */
module ErrorCodes {
  import opened Wrappers

  datatype ErrorCode =
    | Success
    | InvalidFunction
    | FileNotFound
    | AccessDenied
    | FileExists
    | InvalidName
    | BadFileType
  {
    /** The numeric value of the enum member, which the program exits with. */
    function Value(): (n: int)
      ensures 0 <= n < 500
    {
      match this
      case Success => 0
      case InvalidFunction => 1
      case FileNotFound => 2
      case AccessDenied => 5
      case FileExists => 80
      case InvalidName => 123
      case BadFileType => 222
    }
  }

  /** The member with a given numeric value, if there is one (a cast back to the enum). */
  function FromValue(n: int): (r: Option<ErrorCode>)
    ensures r.Some? ==> r.value.Value() == n
  {
    if n == 0 then Some(Success)
    else if n == 1 then Some(InvalidFunction)
    else if n == 2 then Some(FileNotFound)
    else if n == 5 then Some(AccessDenied)
    else if n == 80 then Some(FileExists)
    else if n == 123 then Some(InvalidName)
    else if n == 222 then Some(BadFileType)
    else None
  }

  /** Every member is found again from its value. */
  lemma {:induction false} ValueRoundTrip(c: ErrorCode)
    ensures FromValue(c.Value()) == Some(c)
  {
  }

  /** The numbers the source assigns. */
  lemma {:induction false} Values()
    ensures Success.Value() == 0
    ensures InvalidFunction.Value() == 1 && FileNotFound.Value() == 2 && AccessDenied.Value() == 5
    ensures FileExists.Value() == 80 && InvalidName.Value() == 123 && BadFileType.Value() == 222
  {
  }

  /** `Success` is the only zero code. */
  lemma {:induction false} SuccessIsOnlyZero(c: ErrorCode)
    ensures c.Value() == 0 <==> c == Success
  {
  }

  /** No two members share a value. */
  lemma {:induction false} ValuesDistinct(a: ErrorCode, b: ErrorCode)
    ensures a.Value() == b.Value() ==> a == b
  {
    ValueRoundTrip(a);
    ValueRoundTrip(b);
  }
}
