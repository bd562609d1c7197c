/** The write side of an open HID interface. Whether the operating system
  * accepts a write (and writes all 64 bytes) is outside the model: `Write`
  * may succeed or fail, and either way the report and the outcome are
  * recorded in ghost logs of everything handed to the device. */
module Hid {
  import opened Bytes

  class HidLink {
    /** Every report handed to the device, oldest first. */
    ghost var written: seq<Report>
    /** The outcome of each of those writes. */
    ghost var accepted: seq<bool>

    constructor()
      ensures written == [] && accepted == []
    {
      written := [];
      accepted := [];
    }

    /** `WriteFile` / `device.write`: hands one report to the device; `ok` is
      * the (unpredictable) outcome. */
    method Write(r: Report) returns (ok: bool)
      modifies this
      ensures written == old(written) + [r]
      ensures accepted == old(accepted) + [ok]
    {
      written := written + [r];
      ok := *;
      accepted := accepted + [ok];
    }
  }

  /** The outcomes of a run of at most `total` writes that stops at the first
    * refused one: every write but the last was accepted, a short run ends
    * with a refusal, and the run succeeds exactly when all `total` writes
    * were made and accepted. */
  ghost predicate StopsAtFirstFailure(outcomes: seq<bool>, total: nat, r: bool)
  {
    1 <= |outcomes| <= total
    && (forall i :: 0 <= i < |outcomes| - 1 ==> outcomes[i])
    && (|outcomes| < total ==> !outcomes[|outcomes| - 1])
    && (r <==> |outcomes| == total && outcomes[|outcomes| - 1])
  }

  /** The outcomes logged between two states of the outcome log. */
  ghost function NewOutcomes(before: seq<bool>, after: seq<bool>): seq<bool>
    requires |before| <= |after|
  {
    after[|before|..]
  }
}
