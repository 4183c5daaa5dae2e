/** Return codes and constants of src/papi.h and src/papi_internal.h used by the model. */
module PapiCodes {
  const PAPI_OK := 0
  const PAPI_EINVAL := -1
  const PAPI_EBUG := -6
  const PAPI_ENOEVNT := -7
  const PAPI_ECNFLCT := -8
  const PAPI_ENOTRUN := -9
  const PAPI_EISRUN := -10

  const NOT_DERIVED := 0
  const DERIVED_CMPD := 8
  const EVENTS_IN_DERIVED_EVENT := 8

  datatype Option<T> = None | Some(value: T)

  /** One event of an event set: its code, the counters its terms live on (-1 ends the list
      early), and how it is derived. */
  datatype EventInfo = EventInfo(code: int, pos: seq<int>, derived: int)

  /** One region to profile: start address, buffer size in bytes, and scale factor. */
  datatype Region = Region(off: nat, size: nat, scale: nat)

  /** The scale factors PAPI_sprofil accepts. */
  predicate ScaleOk(scale: nat) {
    scale == 131072 || 1 < scale <= 65536
  }

  /** Derived events other than compound ones. */
  predicate IsDerived(e: EventInfo) {
    e.derived != NOT_DERIVED && e.derived != DERIVED_CMPD
  }

  /** A variable the caller passes by address. */
  class Box<T> {
    var value: T

    constructor (v: T)
      ensures value == v
    {
      value := v;
    }
  }
}
