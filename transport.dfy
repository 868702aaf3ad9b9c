/**
 * The I2C client the driver talks through, reduced to what the driver relies
 * on: it can be opened, and it performs one write-then-read transaction at a
 * time, which may fail.  The MCU's answers and the success of every transfer
 * are chosen by the environment; the client keeps a log of every transaction
 * so that the driver's contracts can speak about what went over the bus.
 * How the client reaches the device node is not part of this model.
 */
module Transport {
  import opened Protocol

  class Bus {
    var isOpen: bool
    /** Every transaction so far, oldest first. */
    var log: seq<Transaction>

    constructor ()
      ensures !isOpen && log == []
    {
      isOpen, log := false, [];
    }

    /** Opening the device node may fail; nothing is transmitted. */
    method Open() returns (ok: bool)
      modifies this
      ensures isOpen == ok && log == old(log)
    {
      ok := *;
      isOpen := ok;
    }

    /**
     * Writes writeLen bytes of cmd and reads readLen bytes back.  The reply
     * has the layout of the register (write-only registers answer nothing);
     * its contents, and whether the transfer succeeds, are the MCU's choice.
     */
    method Transfer(cmd: Command, writeLen: nat, readLen: nat) returns (ok: bool, reply: Reply)
      modifies this
      ensures Answers(cmd, reply)
      ensures log == old(log) + [Transaction(cmd, writeLen, readLen, ok, reply)]
      ensures isOpen == old(isOpen)
    {
      ok := *;
      var some := SomeAnswer(cmd);
      assert Answers(cmd, some);
      reply :| Answers(cmd, reply);
      log := log + [Transaction(cmd, writeLen, readLen, ok, reply)];
    }
  }
}
