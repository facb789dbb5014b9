/** The control word that reports the receiver's state to the ground. */
module Clcw {
  import opened Checksum

  // --- Bit fields of the flags byte ---------------------------------------------------------------

  function WithLockout(flags: bv8, on: bool): bv8 { (flags & 0xdf) | (if on then 0x20 else 0) }

  function WithWait(flags: bv8, on: bool): bv8 { (flags & 0xef) | (if on then 0x10 else 0) }

  function WithRetransmit(flags: bv8, on: bool): bv8 { (flags & 0xf7) | (if on then 0x08 else 0) }

  /** Two bits of a counter, moved to their place. */
  function WithCount(flags: bv8, count: byte): bv8 {
    (flags & 0xf9) | (if count / 2 % 2 == 1 then 4 else 0) | (if count % 2 == 1 then 2 else 0)
  }

  /** What a reader of the word sees. */
  datatype Report = Report(lockout: bool, wait: bool, retransmit: bool, farmB: nat, vR: byte)

  function FlagsReport(flags: bv8, vR: byte): Report {
    Report(flags & 0x20 != 0, flags & 0x10 != 0, flags & 0x08 != 0,
           (if flags & 4 != 0 then 2 else 0) + (if flags & 2 != 0 then 1 else 0), vR)
  }

  lemma LockoutRead(flags: bv8, on: bool, vR: byte)
    ensures FlagsReport(WithLockout(flags, on), vR) == FlagsReport(flags, vR).(lockout := on)
  {
  }

  lemma WaitRead(flags: bv8, on: bool, vR: byte)
    ensures FlagsReport(WithWait(flags, on), vR) == FlagsReport(flags, vR).(wait := on)
  {
  }

  lemma RetransmitRead(flags: bv8, on: bool, vR: byte)
    ensures FlagsReport(WithRetransmit(flags, on), vR) == FlagsReport(flags, vR).(retransmit := on)
  {
  }

  lemma CountRead(flags: bv8, count: byte, vR: byte)
    ensures FlagsReport(WithCount(flags, count), vR) == FlagsReport(flags, vR).(farmB := count % 4)
  {
    var two, one := count / 2 % 2 == 1, count % 2 == 1;
    assert count % 4 == (if two then 2 else 0) + (if one then 1 else 0);
    CountBits(flags, two, one);
  }

  lemma CountBits(flags: bv8, two: bool, one: bool)
    ensures var f := (flags & 0xf9) | (if two then 4 else 0) | (if one then 2 else 0);
            && (f & 4 != 0 <==> two) && (f & 2 != 0 <==> one)
            && f & 0x20 == flags & 0x20 && f & 0x10 == flags & 0x10 && f & 0x08 == flags & 0x08
  {
  }

  /** The four bytes of the register. */
  datatype Whole = Whole(status: byte, virtualChannelIdSpare: byte, flags: bv8, vRValue: byte) {
    function Read(): Report { FlagsReport(flags, vRValue) }
  }

  class Clcw {
    var content: Whole

    constructor ()
      ensures content == Whole(1, 0, 0, 0)
    {
      content := Whole(1, 0, 0, 0);
    }

    method SetVirtualChannel(channel: byte)
      modifies this
      ensures content == old(content).(virtualChannelIdSpare := channel % 0x40 * 4)
    {
      content := content.(virtualChannelIdSpare := channel % 0x40 * 4);
    }

    method SetLockoutFlag(lockout: bool)
      modifies this
      ensures content.Read() == old(content.Read()).(lockout := lockout)
      ensures content == old(content).(flags := content.flags)
    {
      LockoutRead(content.flags, lockout, content.vRValue);
      content := content.(flags := WithLockout(content.flags, lockout));
    }

    method SetWaitFlag(waitFlag: bool)
      modifies this
      ensures content.Read() == old(content.Read()).(wait := waitFlag)
      ensures content == old(content).(flags := content.flags)
    {
      WaitRead(content.flags, waitFlag, content.vRValue);
      content := content.(flags := WithWait(content.flags, waitFlag));
    }

    method SetRetransmitFlag(retransmitFlag: bool)
      modifies this
      ensures content.Read() == old(content.Read()).(retransmit := retransmitFlag)
      ensures content == old(content).(flags := content.flags)
    {
      RetransmitRead(content.flags, retransmitFlag, content.vRValue);
      content := content.(flags := WithRetransmit(content.flags, retransmitFlag));
    }

    method SetFarmBCount(count: byte)
      modifies this
      ensures content.Read() == old(content.Read()).(farmB := count % 4)
      ensures content == old(content).(flags := content.flags)
    {
      CountRead(content.flags, count, content.vRValue);
      content := content.(flags := WithCount(content.flags, count));
    }

    method SetReceiverFrameSequenceNumber(vR: byte)
      modifies this
      ensures content == old(content).(vRValue := vR)
    {
      content := content.(vRValue := vR);
    }

    method SetWhole(raw: Whole)
      modifies this
      ensures content == raw
    {
      content := raw;
    }
  }
}
