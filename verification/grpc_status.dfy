/**
 * The gRPC status codes, with the numeric values that travel on the wire
 * (the backend sets them by name, the gateway compares them as numbers).
 */
module GrpcStatus {

  datatype StatusCode =
    | OK | CANCELLED | UNKNOWN | INVALID_ARGUMENT | DEADLINE_EXCEEDED | NOT_FOUND
    | ALREADY_EXISTS | PERMISSION_DENIED | RESOURCE_EXHAUSTED | FAILED_PRECONDITION
    | ABORTED | OUT_OF_RANGE | UNIMPLEMENTED | INTERNAL | UNAVAILABLE | DATA_LOSS
    | UNAUTHENTICATED
  {
    /** The numeric code of this status. */
    function Value(): (v: int)
      ensures 0 <= v <= 16
      ensures v == 0 <==> this == OK
    {
      match this
      case OK => 0
      case CANCELLED => 1
      case UNKNOWN => 2
      case INVALID_ARGUMENT => 3
      case DEADLINE_EXCEEDED => 4
      case NOT_FOUND => 5
      case ALREADY_EXISTS => 6
      case PERMISSION_DENIED => 7
      case RESOURCE_EXHAUSTED => 8
      case FAILED_PRECONDITION => 9
      case ABORTED => 10
      case OUT_OF_RANGE => 11
      case UNIMPLEMENTED => 12
      case INTERNAL => 13
      case UNAVAILABLE => 14
      case DATA_LOSS => 15
      case UNAUTHENTICATED => 16
    }

    /** The status's name, as it appears in the gRPC client's error message. */
    function Name(): string
    {
      match this
      case OK => "OK"
      case CANCELLED => "CANCELLED"
      case UNKNOWN => "UNKNOWN"
      case INVALID_ARGUMENT => "INVALID_ARGUMENT"
      case DEADLINE_EXCEEDED => "DEADLINE_EXCEEDED"
      case NOT_FOUND => "NOT_FOUND"
      case ALREADY_EXISTS => "ALREADY_EXISTS"
      case PERMISSION_DENIED => "PERMISSION_DENIED"
      case RESOURCE_EXHAUSTED => "RESOURCE_EXHAUSTED"
      case FAILED_PRECONDITION => "FAILED_PRECONDITION"
      case ABORTED => "ABORTED"
      case OUT_OF_RANGE => "OUT_OF_RANGE"
      case UNIMPLEMENTED => "UNIMPLEMENTED"
      case INTERNAL => "INTERNAL"
      case UNAVAILABLE => "UNAVAILABLE"
      case DATA_LOSS => "DATA_LOSS"
      case UNAUTHENTICATED => "UNAUTHENTICATED"
    }
  }

  /** Distinct statuses have distinct numbers, so the gateway's numeric switch sees exactly the backend's status. */
  lemma ValueInjective(a: StatusCode, b: StatusCode)
    ensures a.Value() == b.Value() ==> a == b
  {
  }
}
