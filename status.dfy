/**
  The shared record of the generator: one status code of the Security
  framework, as read from SecBase.h and as written into OSStatusError.swift.
 */
module StatusRecord {

  /** Smallest and largest value of the framework's `OSStatus` (a signed 32-bit integer). */
  const MinOSStatus: int := -0x8000_0000
  const MaxOSStatus: int := 0x7FFF_FFFF

  /** `OSStatus`: every code of every record lies in the signed 32-bit range. */
  type OSStatus = x: int | MinOSStatus <= x <= MaxOSStatus

  /** Swift's `Optional`: `None` is `nil`, distinct from every present value (the empty string included). */
  datatype Option<+T> = None | Some(value: T)

  /**
    `struct Status`: three immutable fields. The type itself demands nothing of
    them: a name may be empty or repeated and a description may be empty; those
    guarantees come from the extractor (see StatusSequence.Extracted).
   */
  datatype Status = Status(name: string, code: OSStatus, description: Option<string>)

  /** The two records of the documented example of the extractor (StatusSequence.swift, lines 68-69). */
  const NoError := Status("errSecSuccess", 0, Some("No error."))
  const Unimplemented := Status("errSecUnimplemented", -4, Some("Function or operation not implemented."))
}
