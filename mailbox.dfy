/** The peer-facing part of a mailbox exchange: how a buffer address is
    translated into the firmware's view of DRAM, how the channel bits are
    stripped from an echoed address, and how the firmware's success flag is read. */
module Mailbox {

  const WordModulus := 0x1_0000_0000

  /** A ULONG, for the arithmetic done on addresses. */
  type Word = x: int | 0 <= x < WordModulus

  /** The platform constants that the driver takes from its headers
      (MAILBOX_CHANNEL_MASK, OFFSET_DIRECT_SDRAM, RESPONSE_SUCCESS). */
  datatype Config = Config(channelMask: bv32, sdramOffset: Word, responseSuccess: bv32)

  /** The address handed to the firmware: the low 32 bits of the physical
      address plus the DRAM offset, computed in wrapping ULONG arithmetic. */
  function Translate(cfg: Config, lowPart: Word): (peer: Word)
    ensures (peer - cfg.sdramOffset) % WordModulus == lowPart
  {
    (lowPart + cfg.sdramOffset) % WordModulus
  }

  /** The host address that a peer address stands for. */
  function Detranslate(cfg: Config, peer: Word): (lowPart: Word)
    ensures (lowPart + cfg.sdramOffset) % WordModulus == peer
  {
    (peer - cfg.sdramOffset) % WordModulus
  }

  /** Translation is a bijection on 32-bit addresses. */
  lemma TranslateRoundTrip(cfg: Config, lowPart: Word, peer: Word)
    ensures Detranslate(cfg, Translate(cfg, lowPart)) == lowPart
    ensures Translate(cfg, Detranslate(cfg, peer)) == peer
  {
  }

  /** A value of the Read register with the channel bits cleared. */
  function Masked(cfg: Config, reg: bv32): (addr: bv32)
    ensures addr & cfg.channelMask == 0
    ensures addr | (reg & cfg.channelMask) == reg
  {
    reg & !cfg.channelMask
  }

  /** A sample completes the exchange when, with its channel bits cleared,
      it equals the submitted address. */
  predicate Matches(cfg: Config, reg: bv32, target: bv32): (m: bool)
    ensures m ==> target & cfg.channelMask == 0
    ensures m ==> reg & !cfg.channelMask == target
  {
    Masked(cfg, reg) == target
  }

  /** The firmware echoes the submitted address with a channel number in the
      masked bits; that echo is recognised whatever the channel. */
  lemma EchoWithChannelMatches(cfg: Config, target: bv32, channel: bv32)
    requires target & cfg.channelMask == 0
    requires channel & !cfg.channelMask == 0
    ensures Matches(cfg, target | channel, target)
  {
  }

  /** An address with a bit inside the channel mask can never be matched. */
  lemma UnalignedTargetNeverMatches(cfg: Config, reg: bv32, target: bv32)
    requires target & cfg.channelMask != 0
    ensures !Matches(cfg, reg, target)
  {
  }

  /** The request header's RequestResponse word carries the success flag. */
  predicate ResponseOk(cfg: Config, requestResponse: bv32): (ok: bool)
    ensures ok ==> requestResponse != 0 && cfg.responseSuccess != 0
    ensures cfg.responseSuccess & !requestResponse == cfg.responseSuccess ==> !ok
  {
    requestResponse & cfg.responseSuccess != 0
  }
}
