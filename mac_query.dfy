/** The MAC-address query of the mailbox driver's early initialisation:
    allocate a request buffer, submit its translated address, poll the Read
    register a bounded number of times, classify the outcome, print the six
    bytes of the reply and store the text in the registry, freeing the buffer
    on every path. */
module MacQuery {
  import opened NtStatus
  import opened Mailbox
  import opened MacFormat

  /** How many times the Read register is sampled before giving up. */
  const RetryBudget := 10

  /** The values the Read register yields on successive reads. */
  type Samples = s: seq<bv32> | |s| == RetryBudget witness [0, 0, 0, 0, 0, 0, 0, 0, 0, 0]

  /** Everything the operating system, the hardware and the firmware contribute. */
  datatype Env = Env(
    allocates: bool,            // MmAllocateContiguousNodeMemory returns a buffer
    bufferLow: Word,            // LowPart of the buffer's physical address
    writeStatus: Status,        // what RpiqMailboxWrite returns
    samples: Samples,           // successive values of the Read register
    response: bv32,             // Header.RequestResponse once the firmware has answered
    mac: MacBytes,              // the MACAddress field of the reply
    firstRegistryStatus: Status,
    secondRegistryStatus: Status)

  /** What the query did to the world. */
  datatype Trace = Trace(
    obtained: bool,             // a buffer was obtained
    submitted: seq<bv32>,       // addresses given to RpiqMailboxWrite
    polls: nat,                 // samples taken from the Read register
    delays: nat,                // waits between samples
    registryWrites: seq<seq<char>>, // buffers written as NetworkAddress
    frees: nat)                 // calls of MmFreeContiguousMemory

  datatype Outcome = Outcome(status: Status, trace: Trace)

  /** The address the firmware is told about and is expected to echo:
      Translate's result as the 32-bit word written to the mailbox. */
  function PeerAddress(cfg: Config, lowPart: Word): bv32 {
    Translate(cfg, lowPart) as bv32
  }

  /** The index of the first sample at or after `from` that matches `target`,
      or |samples| when none does. */
  function FirstMatch(cfg: Config, samples: seq<bv32>, target: bv32, from: nat): (k: nat)
    requires from <= |samples|
    ensures from <= k <= |samples|
    ensures forall j :: from <= j < k ==> !Matches(cfg, samples[j], target)
    ensures k < |samples| ==> Matches(cfg, samples[k], target)
    decreases |samples| - from
  {
    if from == |samples| then from
    else if Matches(cfg, samples[from], target) then from
    else FirstMatch(cfg, samples, target, from + 1)
  }

  /** How the polling phase ends; `polls` counts the samples taken. */
  datatype PollOutcome = Completed(polls: nat) | Rejected(polls: nat) | TimedOut

  /** The polling phase, stated by the first matching sample. */
  function Poll(cfg: Config, samples: Samples, target: bv32, response: bv32): (p: PollOutcome)
    ensures p.TimedOut? <==> forall j :: 0 <= j < RetryBudget ==> !Matches(cfg, samples[j], target)
    ensures !p.TimedOut? ==> 1 <= p.polls <= RetryBudget && Matches(cfg, samples[p.polls - 1], target)
    ensures !p.TimedOut? ==> forall j :: 0 <= j < p.polls - 1 ==> !Matches(cfg, samples[j], target)
    ensures p.Completed? ==> ResponseOk(cfg, response)
    ensures p.Rejected? ==> !ResponseOk(cfg, response)
  {
    var k := FirstMatch(cfg, samples, target, 0);
    if k == |samples| then TimedOut
    else if ResponseOk(cfg, response) then Completed(k + 1)
    else Rejected(k + 1)
  }

  /** The query as a function of its environment. */
  function Query(cfg: Config, env: Env): (o: Outcome)
    ensures o.trace.frees == if env.allocates then 1 else 0
    ensures o.trace.polls <= RetryBudget && o.trace.delays <= o.trace.polls
    ensures NtSuccess(o.status) ==> ResponseOk(cfg, env.response) && o.status == env.secondRegistryStatus
    ensures o.trace.registryWrites != [] ==> o.trace.registryWrites == [PrintMac(env.mac).buffer, PrintMac(env.mac).buffer]
  {
    if !env.allocates then
      Outcome(StatusInsufficientResources, Trace(false, [], 0, 0, [], 0))
    else
      var target := PeerAddress(cfg, env.bufferLow);
      if !NtSuccess(env.writeStatus) then
        Outcome(env.writeStatus, Trace(true, [target], 0, 0, [], 1))
      else
        match Poll(cfg, env.samples, target, env.response)
        case TimedOut => Outcome(StatusUnsuccessful, Trace(true, [target], RetryBudget, RetryBudget, [], 1))
        case Rejected(k) => Outcome(StatusUnsuccessful, Trace(true, [target], k, k - 1, [], 1))
        case Completed(k) =>
          var polled := Trace(true, [target], k, k - 1, [], 1);
          var printed := PrintMac(env.mac);
          if !NtSuccess(printed.status) then Outcome(printed.status, polled)
          else Outcome(env.secondRegistryStatus, polled.(registryWrites := [printed.buffer, printed.buffer]))
  }

  /** The polling loop: samples the Read register until the submitted address
      comes back or the budget runs out. `retries` is what is left of the budget
      when the loop ends; `rejected` says that the loop was left because the
      firmware answered without its success flag. */
  method PollMailbox(cfg: Config, samples: Samples, target: bv32, response: bv32)
    returns (retries: nat, rejected: bool, polls: nat, delays: nat)
    ensures retries <= RetryBudget
    ensures match Poll(cfg, samples, target, response)
            case TimedOut => retries == 0 && !rejected && polls == delays == RetryBudget
            case Rejected(k) => retries > 0 && rejected && polls == k && delays == k - 1
            case Completed(k) => retries > 0 && !rejected && polls == k && delays == k - 1
  {
    retries, rejected, polls, delays := RetryBudget, false, 0, 0;
    while retries > 0
      invariant 0 <= retries <= RetryBudget
      invariant polls == delays == RetryBudget - retries
      invariant forall j :: 0 <= j < polls ==> !Matches(cfg, samples[j], target)
    {
      var reg := Masked(cfg, samples[RetryBudget - retries]);
      polls := polls + 1;
      if reg == target {
        if ResponseOk(cfg, response) {
          break;
        } else {
          rejected := true;
          return;
        }
      }
      delays := delays + 1;
      retries := retries - 1;
    }
  }

  /** The query step by step, as the driver runs it. */
  method SetDeviceMacAddress(cfg: Config, env: Env) returns (o: Outcome)
    ensures o == Query(cfg, env)
  {
    var status: Status;
    var trace := Trace(false, [], 0, 0, [], 0);
    label End: {
      if !env.allocates {
        status := StatusInsufficientResources;
        break End;
      }
      trace := trace.(obtained := true);

      var target := PeerAddress(cfg, env.bufferLow);
      status := env.writeStatus;
      trace := trace.(submitted := [target]);
      if !NtSuccess(status) {
        break End;
      }

      var retries, rejected, polls, delays := PollMailbox(cfg, env.samples, target, env.response);
      trace := trace.(polls := polls, delays := delays);
      if rejected {
        status := StatusUnsuccessful;
        break End;
      }
      if retries == 0 {
        status := StatusUnsuccessful;
        break End;
      }

      var printed := PrintMac(env.mac);
      status := printed.status;
      if !NtSuccess(status) {
        break End;
      }

      status := env.firstRegistryStatus;
      trace := trace.(registryWrites := trace.registryWrites + [printed.buffer]);
      // a failed first write is only logged

      status := env.secondRegistryStatus;
      trace := trace.(registryWrites := trace.registryWrites + [printed.buffer]);
      if !NtSuccess(status) {
        break End;
      }
    }
    if trace.obtained {
      trace := trace.(frees := trace.frees + 1);
    }
    o := Outcome(status, trace);
  }

  // Properties of the query

  /** Without a buffer nothing is submitted, polled, written or freed. */
  lemma AllocationFailure(cfg: Config, env: Env)
    requires !env.allocates
    ensures Query(cfg, env).status == StatusInsufficientResources
    ensures Query(cfg, env).trace == Trace(false, [], 0, 0, [], 0)
  {
  }

  /** A buffer is freed exactly when one was obtained, and then exactly once;
      the one address submitted is the buffer's translated address. */
  lemma BufferFreedExactlyOnce(cfg: Config, env: Env)
    ensures Query(cfg, env).trace.obtained == env.allocates
    ensures Query(cfg, env).trace.frees == if env.allocates then 1 else 0
    ensures Query(cfg, env).trace.submitted == if env.allocates then [PeerAddress(cfg, env.bufferLow)] else []
  {
  }

  /** A failed submission is reported as such and nothing is polled. */
  lemma SubmitFailure(cfg: Config, env: Env)
    requires env.allocates && !NtSuccess(env.writeStatus)
    ensures Query(cfg, env).status == env.writeStatus
    ensures Query(cfg, env).trace.polls == 0 && Query(cfg, env).trace.delays == 0
    ensures Query(cfg, env).trace.registryWrites == []
  {
  }

  /** At most RetryBudget samples are taken, and a sample is followed by a
      delay exactly when it did not match the submitted address. */
  lemma PollingBounded(cfg: Config, env: Env)
    ensures Query(cfg, env).trace.polls <= RetryBudget
    ensures Query(cfg, env).trace.delays <= Query(cfg, env).trace.polls
    ensures forall j :: 0 <= j < Query(cfg, env).trace.polls ==>
      (j < Query(cfg, env).trace.delays <==> !Matches(cfg, env.samples[j], PeerAddress(cfg, env.bufferLow)))
  {
  }

  /** The first matching sample, the k-th, with the success flag set ends the
      polling after exactly k samples, k = RetryBudget included, and the
      MAC address is written to the registry twice. */
  lemma CompletesOnKthSample(cfg: Config, env: Env, k: nat)
    requires env.allocates && NtSuccess(env.writeStatus)
    requires 1 <= k <= RetryBudget
    requires forall j :: 0 <= j < k - 1 ==> !Matches(cfg, env.samples[j], PeerAddress(cfg, env.bufferLow))
    requires Matches(cfg, env.samples[k - 1], PeerAddress(cfg, env.bufferLow))
    requires ResponseOk(cfg, env.response)
    ensures Query(cfg, env).status == env.secondRegistryStatus
    ensures Query(cfg, env).trace.polls == k && Query(cfg, env).trace.delays == k - 1
    ensures Query(cfg, env).trace.registryWrites == [PrintMac(env.mac).buffer, PrintMac(env.mac).buffer]
  {
  }

  /** The first matching sample, the k-th, without the success flag fails the
      query at once, after exactly k samples. */
  lemma RejectedOnKthSample(cfg: Config, env: Env, k: nat)
    requires env.allocates && NtSuccess(env.writeStatus)
    requires 1 <= k <= RetryBudget
    requires forall j :: 0 <= j < k - 1 ==> !Matches(cfg, env.samples[j], PeerAddress(cfg, env.bufferLow))
    requires Matches(cfg, env.samples[k - 1], PeerAddress(cfg, env.bufferLow))
    requires !ResponseOk(cfg, env.response)
    ensures Query(cfg, env).status == StatusUnsuccessful
    ensures Query(cfg, env).trace.polls == k && Query(cfg, env).trace.delays == k - 1
    ensures Query(cfg, env).trace.registryWrites == []
  {
  }

  /** When no sample matches, the query fails after the whole budget of
      samples and delays. */
  lemma TimesOutAfterBudget(cfg: Config, env: Env)
    requires env.allocates && NtSuccess(env.writeStatus)
    requires forall j :: 0 <= j < RetryBudget ==> !Matches(cfg, env.samples[j], PeerAddress(cfg, env.bufferLow))
    ensures Query(cfg, env).status == StatusUnsuccessful
    ensures Query(cfg, env).trace.polls == RetryBudget && Query(cfg, env).trace.delays == RetryBudget
    ensures Query(cfg, env).trace.registryWrites == []
  {
  }

  /** A translated address with bits inside the channel mask is never
      recognised, so the query can only time out. */
  lemma UnalignedBufferTimesOut(cfg: Config, env: Env)
    requires env.allocates && NtSuccess(env.writeStatus)
    requires PeerAddress(cfg, env.bufferLow) & cfg.channelMask != 0
    ensures Poll(cfg, env.samples, PeerAddress(cfg, env.bufferLow), env.response).TimedOut?
    ensures Query(cfg, env).status == StatusUnsuccessful
    ensures Query(cfg, env).trace.polls == RetryBudget && Query(cfg, env).trace.delays == RetryBudget
  {
    forall j | 0 <= j < RetryBudget
      ensures !Matches(cfg, env.samples[j], PeerAddress(cfg, env.bufferLow))
    {
      UnalignedTargetNeverMatches(cfg, env.samples[j], PeerAddress(cfg, env.bufferLow));
    }
    TimesOutAfterBudget(cfg, env);
  }

  /** The query succeeds exactly when the buffer was obtained and submitted,
      the firmware answered with its success flag, and the second registry
      write succeeded; its status is then that write's. */
  lemma SuccessMeansPersisted(cfg: Config, env: Env)
    ensures NtSuccess(Query(cfg, env).status) <==>
      env.allocates && NtSuccess(env.writeStatus) &&
      Poll(cfg, env.samples, PeerAddress(cfg, env.bufferLow), env.response).Completed? &&
      NtSuccess(env.secondRegistryStatus)
    ensures NtSuccess(Query(cfg, env).status) ==>
      Query(cfg, env).status == env.secondRegistryStatus && ResponseOk(cfg, env.response) &&
      |Query(cfg, env).trace.registryWrites| == 2
  {
  }

  /** Every value written to the registry is the 13-character buffer holding
      the twelve uppercase digits of the reply's MAC bytes and a NUL. */
  lemma RegistryValueIsMacText(cfg: Config, env: Env)
    ensures forall w :: w in Query(cfg, env).trace.registryWrites ==>
      |w| == MacStringCapacity && IsUpperHex(w[..12]) && w[12] == Nul &&
      w[..12] == FormatHex(env.mac) && ParseHex(w[..12]) == env.mac
  {
  }

  /** The status of the first registry write never reaches the caller. */
  lemma FirstRegistryWriteIgnored(cfg: Config, env: Env, s: Status)
    ensures Query(cfg, env.(firstRegistryStatus := s)) == Query(cfg, env)
  {
  }
}
