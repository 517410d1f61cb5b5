/** Machine integers, error kinds and outcomes shared by the other modules. */
module Common {
  const U32: nat := 0x1_0000_0000
  const U64: nat := 0x1_0000_0000_0000_0000

  type byte = x: nat | x < 0x100
  type u16 = x: nat | x < 0x1_0000
  type u32 = x: nat | x < U32
  type u64 = x: nat | x < U64

  datatype Option<+T> = None | Some(value: T)

  datatype ErrorKind =
    | InvalidBase58Character(c: char, index: nat)
    | InvalidBase58Length
    | InvalidBase58Checksum
    | InvalidBase58Version
    | InvalidBase58Key
    | NumberParsingError
    | GrinboxAddressParsingError(text: string)
    | KeybaseAddressParsingError(text: string)
    | HttpsAddressParsingError(text: string)
    | VerifyProof
    | Secp

  /** What a call does: return a value, return an error, or stop the thread with a panic. */
  datatype Outcome<+T> = Ok(value: T) | Err(error: ErrorKind) | Panic {
    predicate IsFailure() { !Ok? }

    function PropagateFailure<U>(): Outcome<U>
      requires !Ok?
    {
      if Err? then Err(error) else Panic
    }

    function Extract(): T
      requires Ok?
    {
      value
    }
  }
}
