# BCM2836 mailbox driver: early initialisation

This project models the early-initialisation code of the Raspberry Pi mailbox
driver (`drivers/mailbox/bcm2836/init.c`) and proves properties about it. The code has two parts:

- `RpiqInitOperation` runs when the device enters D0. It queries the board's MAC
  address only when the previous power state is `WdfPowerDeviceD3Final` (a cold
  boot). It then enables mailbox interrupts whatever the query returned.
- `RpiSetDeviceMacAddress` is the MAC query itself. It allocates a contiguous
  request buffer and submits the buffer's translated address on the property
  channel. It samples the mailbox Read register at most ten times, with a delay
  after each sample that does not echo the submitted address. It classifies the
  outcome and prints the six reply bytes as twelve uppercase hexadecimal digits.
  It writes that text to the registry twice and frees the buffer on every path that obtained one.

The operating system, the hardware and the firmware are one input value
(`MacQuery.Env`):

- whether allocation succeeds;
- the low part of the buffer's physical address;
- the status of `RpiqMailboxWrite`;
- the ten values the Read register yields;
- the response word;
- the six MAC bytes;
- the statuses of the two registry writes.

The header constants `MAILBOX_CHANNEL_MASK`, `OFFSET_DIRECT_SDRAM` and
`RESPONSE_SUCCESS` are parameters (`Mailbox.Config`). They are defined in headers
that are not part of this model. What the query does to the world is recorded
in a `MacQuery.Trace`:

- whether a buffer was obtained;
- the addresses submitted;
- how many samples and delays there were;
- the buffers written to the registry;
- how many times the buffer was freed.

Modules:

- `NtStatus` (status.dfy): `NTSTATUS` as a signed 32-bit value, `NT_SUCCESS`, and
  the status codes the code uses. These codes have their standard `ntstatus.h`
  values.
- `Mailbox` (mailbox.dfy): address translation in wrapping ULONG arithmetic, the
  channel mask, and the success flag.
- `MacFormat` (mac_format.dfy): `%02X` formatting, its inverse, and the
  13-character `RtlStringCchPrintfW` buffer.
- `MacQuery` (mac_query.dfy): the query. `Query` is the query as a function of the
  environment, with the polling phase stated through the first matching sample
  (`FirstMatch`, `Poll`). The submitted and compared address is `PeerAddress`: `Translate`'s
  result converted to a 32-bit word. `SetDeviceMacAddress` runs the same steps in order:
  it reassigns `status`, and a labelled block with `break End` stands in for the
  source's `goto End`. It is proved equal to `Query`. Its loop `PollMailbox`
  keeps the source's `while (retries > 0)` with the `break` before `--retries`
  and the `retries == 0` test after the loop.
- `BootInit` (boot.dfy): `RpiqInitOperation` as a pure function of the previous
  power state, the MAC status and the interrupt status.

Three behaviours of the code worth noting:

- Submission can fail: a failed `RpiqMailboxWrite` is returned at once
  (init.c:140-150).
- A timeout and a rejected answer both return `STATUS_UNSUCCESSFUL` (init.c:165, 174).
  They differ only in the trace: a timeout takes ten samples and ten delays.
- The MAC text is written to the registry twice. The first write's failure is
  only logged. The second write's status is the result (init.c:203-229).

## Model

| member | source | states |
|---|---|---|
| NtStatus.NtSuccess | drivers/mailbox/bcm2836/init.c:66 | NT_SUCCESS holds exactly when the status's 32-bit pattern has its severity bit clear |
| NtStatus.FromCode | drivers/mailbox/bcm2836/init.c:133 | a 32-bit status code read as a signed LONG keeps its bit pattern, and it is a success code exactly when its severity bit is clear |
| Mailbox.Translate | drivers/mailbox/bcm2836/init.c:143 | the submitted address is LowPart plus the DRAM offset in wrapping 32-bit arithmetic; subtracting the offset gives LowPart back |
| Mailbox.Detranslate | drivers/mailbox/bcm2836/init.c:143 | the inverse of Translate: adding the offset to its result gives the peer address back |
| Mailbox.TranslateRoundTrip | drivers/mailbox/bcm2836/init.c:143 | translation and its inverse undo each other in both directions |
| Mailbox.Masked | drivers/mailbox/bcm2836/init.c:159 | the masked Read value has no channel bits, and adding back the register's channel bits gives the register value |
| Mailbox.Matches | drivers/mailbox/bcm2836/init.c:159-160 | a sample matches when its value with the channel bits cleared equals the submitted address; a matched address never has channel bits |
| Mailbox.ResponseOk | drivers/mailbox/bcm2836/init.c:162 | the RequestResponse word passes when it shares a bit with RESPONSE_SUCCESS; a word with none of those bits never passes |
| Mailbox.EchoWithChannelMatches | drivers/mailbox/bcm2836/init.c:159-160 | an echo of an aligned submitted address with any channel number in the masked bits counts as a match |
| Mailbox.UnalignedTargetNeverMatches | drivers/mailbox/bcm2836/init.c:159-160 | no register value matches an address that has bits inside the channel mask |
| MacFormat.HexDigit | drivers/mailbox/bcm2836/init.c:187 | each digit is an uppercase hexadecimal character of the right value |
| MacFormat.DigitRoundTrip | drivers/mailbox/bcm2836/init.c:187 | digit formatting and digit reading are inverse to each other |
| MacFormat.HexByte | drivers/mailbox/bcm2836/init.c:187 | "%02X" of a byte is exactly two uppercase hexadecimal digits |
| MacFormat.FormatHex | drivers/mailbox/bcm2836/init.c:184-193 | the formatted text has two uppercase digits per byte |
| MacFormat.FormatHexAt | drivers/mailbox/bcm2836/init.c:187-193 | characters 2i and 2i+1 are the high and low digits of byte i, so bytes appear in order |
| MacFormat.ParseHex | drivers/mailbox/bcm2836/init.c:187-193 | reading digit pairs yields one byte per pair |
| MacFormat.ParseFormatHex | drivers/mailbox/bcm2836/init.c:184-193 | reading the formatted text gives back the original bytes |
| MacFormat.FormatParseHex | drivers/mailbox/bcm2836/init.c:184-193 | every even-length uppercase hexadecimal text is the formatting of the bytes it reads to |
| MacFormat.PrintToBuffer | drivers/mailbox/bcm2836/init.c:184-186 | printing into a zero-initialised buffer succeeds exactly when the text and its NUL fit; the text then leads the buffer and the rest is NUL |
| MacFormat.PrintMac | drivers/mailbox/bcm2836/init.c:184-199 | printing the six MAC bytes always succeeds and fills the 13-element buffer with twelve uppercase digits of the bytes in order, then a NUL |
| MacFormat.PrintMacExample | drivers/mailbox/bcm2836/init.c:187-193 | bytes AA BB CC DD EE FF are printed as "AABBCCDDEEFF" |
| MacQuery.Query | drivers/mailbox/bcm2836/init.c:106-237 | the whole query as a function of the environment: the buffer is freed exactly when it was obtained, at most ten samples are taken with no more delays than samples, success implies the success bit and the second registry write's status, and any registry writes are the MAC text twice |
| MacQuery.FirstMatch | drivers/mailbox/bcm2836/init.c:155-168 | the result is the first sample index whose masked value equals the target: all earlier samples differ, and it matches unless no sample does |
| MacQuery.Poll | drivers/mailbox/bcm2836/init.c:155-176 | the polling phase times out exactly when none of the ten samples matches; otherwise it ends on the first matching sample, completing when the success bit is set and rejecting when it is clear |
| MacQuery.PollMailbox | drivers/mailbox/bcm2836/init.c:152-176 | the retry loop with break before the decrement: it ends with retries 0 exactly on timeout, and with retries above 0 otherwise: without the rejection flag when the first match has the success bit, with it when that bit is clear, after as many samples and delays as Poll says |
| MacQuery.SetDeviceMacAddress | drivers/mailbox/bcm2836/init.c:106-237 | the step-by-step query returns exactly the status and effects of Query |
| MacQuery.AllocationFailure | drivers/mailbox/bcm2836/init.c:125-135 | a failed allocation returns STATUS_INSUFFICIENT_RESOURCES with no submission, no polling, no registry write and no free |
| MacQuery.BufferFreedExactlyOnce | drivers/mailbox/bcm2836/init.c:125-234 | the buffer is freed exactly once if it was obtained and never otherwise, and the one address submitted is its translated address |
| MacQuery.SubmitFailure | drivers/mailbox/bcm2836/init.c:140-150 | a failed mailbox write returns its own status with no polling and no registry write |
| MacQuery.PollingBounded | drivers/mailbox/bcm2836/init.c:155-171 | at most ten samples are read, and a sample is followed by a delay exactly when it did not match the submitted address |
| MacQuery.CompletesOnKthSample | drivers/mailbox/bcm2836/init.c:155-229 | when the k-th sample (k at most 10, including 10) is the first match and the success bit is set, polling stops after exactly k samples and k-1 delays, the text is written twice, and the second write's status is returned |
| MacQuery.RejectedOnKthSample | drivers/mailbox/bcm2836/init.c:160-167 | when the k-th sample is the first match and the success bit is clear, STATUS_UNSUCCESSFUL is returned after exactly k samples with no registry write |
| MacQuery.TimesOutAfterBudget | drivers/mailbox/bcm2836/init.c:155-176 | when all ten samples mismatch, STATUS_UNSUCCESSFUL is returned after exactly ten samples and ten delays |
| MacQuery.UnalignedBufferTimesOut | drivers/mailbox/bcm2836/init.c:143-176 | a translated address with channel bits set can only time out: the polling phase is a timeout, with STATUS_UNSUCCESSFUL after ten samples and ten delays |
| MacQuery.SuccessMeansPersisted | drivers/mailbox/bcm2836/init.c:132-229 | the query succeeds exactly when allocation and submission succeeded, the firmware completed with the success bit, and the second registry write succeeded; its status is then that write's |
| MacQuery.RegistryValueIsMacText | drivers/mailbox/bcm2836/init.c:184-223 | every registry value written is the 13-element buffer holding the twelve uppercase digits of the MAC bytes and a NUL, and it reads back to those bytes |
| MacQuery.FirstRegistryWriteIgnored | drivers/mailbox/bcm2836/init.c:203-229 | the first registry write's status never changes the query's status or effects |
| BootInit.InitOperation | drivers/mailbox/bcm2836/init.c:44-85 | the MAC query runs exactly on a cold boot and interrupts are enabled exactly when it runs, last, with their status returned; a successful interrupt enable always gives success |
| BootInit.WarmBootIsNoOp | drivers/mailbox/bcm2836/init.c:54-59 | any previous state other than D3Final gives STATUS_SUCCESS with no MAC query and no interrupt enabling |
| BootInit.ColdBootEnablesInterruptsOnce | drivers/mailbox/bcm2836/init.c:62-84 | on a cold boot the MAC query runs first, interrupts are enabled exactly once, and the interrupt status is returned |
| BootInit.MacStatusDiscarded | drivers/mailbox/bcm2836/init.c:65-71 | the MAC query's status never changes what the routine does or returns |
| BootInit.FailsOnlyOnInterrupts | drivers/mailbox/bcm2836/init.c:54-84 | the routine fails exactly when a cold boot fails to enable interrupts |

## Left out

- Register access is one abstract sample per poll. The ordering of
  `READ_REGISTER_NOFENCE_ULONG` is not modelled, and neither is the Status-register read
  that acknowledges the mailbox; its value is discarded by the code.
- `KeDelayExecutionThread`: only the number of delays is counted, not their time.
- The placement constraints of `MmAllocateContiguousNodeMemory` and `MmGetPhysicalAddress`
  are not modelled: non-cached memory below 1 GiB. Allocation is an input, and so is the low
  part of the physical address.
- The request layout built by `INIT_MAILBOX_GET_BOARD_MAC_ADDRESS` is not modelled, nor are
  the internals of `RpiqMailboxWrite` and `RpiqEnableInterrupts`, including how the channel
  number is packed into the submitted word. They are defined in `mailbox.h` and other files
  that are not part of this model. Their results are inputs.
- The firmware's side is taken as input: when it fills the response word and the MAC bytes.
  The response word is the one value seen when the echo matches.
- Registry paths, value names and types, the WDF device context, and the `RPIQ_LOG_*`
  tracing are not modelled. The registry write is recorded as the buffer written, and its
  status is an input.
- MacFormat.PrintToBuffer: models only what the code relies on from `RtlStringCchPrintfW`:
  success and NUL padding when the text fits, `STATUS_BUFFER_OVERFLOW` and truncation when it
  does not. Other StrSafe failure codes are not modelled.
