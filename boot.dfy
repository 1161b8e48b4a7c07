/** The mailbox driver's early initialisation on entry to D0: query the MAC
    address on a cold boot only, and enable interrupts whatever that query
    returned. */
module BootInit {
  import opened NtStatus

  /** WDF_POWER_DEVICE_STATE, in declaration order. */
  datatype PowerState =
    | PowerDeviceInvalid
    | PowerDeviceD0
    | PowerDeviceD1
    | PowerDeviceD2
    | PowerDeviceD3
    | PowerDeviceD3Final
    | PowerDevicePrepareForHibernation
    | PowerDeviceMaximum

  /** The collaborators the initialisation calls. */
  datatype Call = SetDeviceMacAddress | EnableInterrupts

  datatype BootResult = BootResult(status: Status, calls: seq<Call>)

  /** RpiqInitOperation, given what the MAC query and RpiqEnableInterrupts
      would return: the MAC status is consulted only for logging and is then
      overwritten. */
  function InitOperation(previous: PowerState, macStatus: Status, interruptStatus: Status): (r: BootResult)
    ensures NtSuccess(interruptStatus) ==> NtSuccess(r.status)
    ensures EnableInterrupts in r.calls <==> SetDeviceMacAddress in r.calls
    ensures SetDeviceMacAddress in r.calls <==> previous == PowerDeviceD3Final
    ensures EnableInterrupts in r.calls ==> r.status == interruptStatus && r.calls[|r.calls| - 1] == EnableInterrupts
  {
    if previous != PowerDeviceD3Final then
      BootResult(StatusSuccess, [])
    else
      BootResult(interruptStatus, [SetDeviceMacAddress, EnableInterrupts])
  }

  function CountCalls(calls: seq<Call>, c: Call): (n: nat)
    ensures n <= |calls|
    ensures n == 0 <==> c !in calls
  {
    if |calls| == 0 then 0
    else (if calls[0] == c then 1 else 0) + CountCalls(calls[1..], c)
  }

  /** A return from any state but D3Final does nothing and succeeds. */
  lemma WarmBootIsNoOp(previous: PowerState, macStatus: Status, interruptStatus: Status)
    requires previous != PowerDeviceD3Final
    ensures InitOperation(previous, macStatus, interruptStatus) == BootResult(StatusSuccess, [])
  {
  }

  /** On a cold boot the MAC query runs first, interrupts are enabled exactly
      once after it, and the routine returns the interrupt status. */
  lemma ColdBootEnablesInterruptsOnce(macStatus: Status, interruptStatus: Status)
    ensures InitOperation(PowerDeviceD3Final, macStatus, interruptStatus).status == interruptStatus
    ensures CountCalls(InitOperation(PowerDeviceD3Final, macStatus, interruptStatus).calls, EnableInterrupts) == 1
    ensures CountCalls(InitOperation(PowerDeviceD3Final, macStatus, interruptStatus).calls, SetDeviceMacAddress) == 1
    ensures InitOperation(PowerDeviceD3Final, macStatus, interruptStatus).calls[0] == SetDeviceMacAddress
  {
  }

  /** The MAC status never changes what the routine does or returns. */
  lemma MacStatusDiscarded(previous: PowerState, mac1: Status, mac2: Status, interruptStatus: Status)
    ensures InitOperation(previous, mac1, interruptStatus) == InitOperation(previous, mac2, interruptStatus)
  {
  }

  /** The routine fails exactly when a cold boot failed to enable interrupts. */
  lemma FailsOnlyOnInterrupts(previous: PowerState, macStatus: Status, interruptStatus: Status)
    ensures !NtSuccess(InitOperation(previous, macStatus, interruptStatus).status) <==>
      previous == PowerDeviceD3Final && !NtSuccess(interruptStatus)
  {
  }
}
