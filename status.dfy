/** NTSTATUS values as the mailbox driver sees them: a signed 32-bit code whose
    sign bit (the high severity bit) marks failure. */
module NtStatus {

  /** NTSTATUS is a LONG. */
  newtype Status = x: int | -0x8000_0000 <= x < 0x8000_0000

  /** Reinterprets a 32-bit status code written in hexadecimal as the signed LONG it is. */
  function FromCode(code: nat): (s: Status)
    requires code < 0x1_0000_0000
    ensures s as int % 0x1_0000_0000 == code
    ensures (s >= 0) <==> code < 0x8000_0000
  {
    if code < 0x8000_0000 then code as Status else (code - 0x1_0000_0000) as Status
  }

  /** NT_SUCCESS: informational and success codes are non-negative. */
  predicate NtSuccess(s: Status): (ok: bool)
    ensures ok <==> s as int % 0x1_0000_0000 < 0x8000_0000
  {
    s >= 0
  }

  const StatusSuccess: Status := FromCode(0x0000_0000)
  const StatusUnsuccessful: Status := FromCode(0xC000_0001)
  const StatusInsufficientResources: Status := FromCode(0xC000_009A)
  /** What the StrSafe printf routines return when the output had to be truncated. */
  const StatusBufferOverflow: Status := FromCode(0x8000_0005)
}
