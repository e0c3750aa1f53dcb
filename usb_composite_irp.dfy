/**
 * javax.usb.UsbCompositeIrp: an ordered list of UsbIrps submitted as one.
 * Its data length, data and short-packet policy are folds over the list; its
 * setters update every child; a pluggable CompositeErrorCommand decides, at
 * each failing child, whether the remaining children still run.
 *
 * The "data length" of a child is the amount of data it holds after a
 * transfer, its actual length.  getData packs the children's data
 * contiguously in list order and leaves the unused tail of the buffer zero.
 * Children are values here, so no two children can share a buffer.
 */
module UsbCompositeIrp {
  import opened Wrappers
  import opened JavaTypes
  import opened UsbErrors
  import opened UsbIrp

  /**
   * CompositeErrorCommand.continueSubmissions(composite, irp): given the
   * composite's list of children as it stands when the failure is seen, and the
   * failing child.  A command that keeps state across calls can only have
   * learned it from earlier failures, which the list also shows, so it is a
   * function of these two arguments.
   */
  type ErrorCommand = (seq<IrpState>, IrpState) -> bool

  /** The default command: never continue. */
  function NeverContinue(composite: seq<IrpState>, irp: IrpState): (proceed: bool)
    ensures !proceed
  {
    false
  }

  // ---------------------------------------------------------------- folds over the children

  /** getDataLength: the children's data lengths added up in list order. */
  function SumActualLengths(irps: seq<IrpState>): int {
    if irps == [] then 0 else SumActualLengths(irps[..|irps| - 1]) + irps[|irps| - 1].actualLength
  }

  /** The size of the buffer getData allocates: the children's buffer lengths added up. */
  function SumBufferLengths(irps: seq<IrpState>): nat {
    if irps == [] then 0 else SumBufferLengths(irps[..|irps| - 1]) + |irps[|irps| - 1].data|
  }

  /** Each child's data length lies within its own buffer. */
  predicate DataWithinBuffers(irps: seq<IrpState>) {
    forall i :: 0 <= i < |irps| ==> 0 <= irps[i].actualLength <= |irps[i].data|
  }

  /** The valid data of every child, one after another in list order. */
  function Packed(irps: seq<IrpState>): (r: seq<int8>)
    requires DataWithinBuffers(irps)
    ensures |r| == SumActualLengths(irps) <= SumBufferLengths(irps)
  {
    if irps == [] then []
    else
      var last := irps[|irps| - 1];
      Packed(irps[..|irps| - 1]) + last.data[..last.actualLength]
  }

  function Zeros(n: nat): (r: seq<int8>)
    ensures |r| == n && forall i :: 0 <= i < n ==> r[i] == 0
  {
    if n == 0 then [] else Zeros(n - 1) + [0]
  }

  /** getData: a new buffer as large as all child buffers together, the packed data first. */
  function CompositeData(irps: seq<IrpState>): seq<int8>
    requires DataWithinBuffers(irps)
  {
    var packed := Packed(irps);
    packed + Zeros(SumBufferLengths(irps) - |packed|)
  }

  /** Where child k's data starts in getData's buffer. */
  function DataStart(irps: seq<IrpState>, k: nat): int
    requires k <= |irps|
  {
    SumActualLengths(irps[..k])
  }

  /** getAcceptShortPacket: true exactly when every child accepts short packets. */
  predicate AllAcceptShortPackets(irps: seq<IrpState>) {
    forall i :: 0 <= i < |irps| ==> irps[i].acceptShortPacket
  }

  /** isComplete: the composite is complete only when every child has concluded. */
  predicate AllComplete(irps: seq<IrpState>) {
    forall i :: 0 <= i < |irps| ==> irps[i].complete
  }

  lemma {:induction false} PackedAt(irps: seq<IrpState>, k: nat, j: nat)
    requires DataWithinBuffers(irps) && k < |irps| && j < irps[k].actualLength
    ensures 0 <= DataStart(irps, k) && DataStart(irps, k) + j < |Packed(irps)|
    ensures Packed(irps)[DataStart(irps, k) + j] == irps[k].data[j]
    decreases |irps|
  {
    var init := irps[..|irps| - 1];
    assert DataWithinBuffers(init);
    if k == |irps| - 1 {
      assert irps[..k] == init;
      assert DataStart(irps, k) == |Packed(init)|;
    } else {
      PackedAt(init, k, j);
      assert init[..k] == irps[..k];
    }
  }

  /**
   * getData's contents: child k's first data-length bytes appear, in order,
   * starting where the children before it end.
   */
  lemma CompositeDataAt(irps: seq<IrpState>, k: nat, j: nat)
    requires DataWithinBuffers(irps) && k < |irps| && j < irps[k].actualLength
    ensures 0 <= DataStart(irps, k) && DataStart(irps, k) + j < |CompositeData(irps)|
    ensures CompositeData(irps)[DataStart(irps, k) + j] == irps[k].data[j]
  {
    PackedAt(irps, k, j);
  }

  /** getData's buffer is as large as all child buffers together; past the packed data it is zero. */
  lemma CompositeDataShape(irps: seq<IrpState>)
    requires DataWithinBuffers(irps)
    ensures |CompositeData(irps)| == SumBufferLengths(irps)
    ensures CompositeData(irps)[..SumActualLengths(irps)] == Packed(irps)
    ensures forall i :: SumActualLengths(irps) <= i < |CompositeData(irps)| ==> CompositeData(irps)[i] == 0
  {
  }

  /** The data length of a list is the data length of its parts added. */
  lemma {:induction false} SumActualLengthsAppend(a: seq<IrpState>, b: seq<IrpState>)
    ensures SumActualLengths(a + b) == SumActualLengths(a) + SumActualLengths(b)
    decreases |b|
  {
    if b == [] {
      assert a + b == a;
    } else {
      SumActualLengthsAppend(a, b[..|b| - 1]);
      assert (a + b)[..|a + b| - 1] == a + b[..|b| - 1];
    }
  }

  // ---------------------------------------------------------------- the outcome rule

  /** The children can be submitted with these transport results. */
  predicate Submittable(irps: seq<IrpState>, transfers: seq<Transfer>) {
    |transfers| == |irps|
    && forall i :: 0 <= i < |irps| ==> ReadyForSubmission(irps[i]) && TransferFits(irps[i], transfers[i])
  }

  /**
   * The composite's children when child i has just concluded and no earlier
   * child stopped submission: children up to i concluded, later ones as submitted.
   */
  function ListAt(irps: seq<IrpState>, transfers: seq<Transfer>, i: nat): (r: seq<IrpState>)
    requires Submittable(irps, transfers) && i < |irps|
    ensures |r| == |irps|
    ensures forall j :: 0 <= j <= i ==> r[j] == Conclude(irps[j], transfers[j])
    ensures forall j :: i < j < |irps| ==> r[j] == irps[j]
  {
    seq(|irps|, j requires 0 <= j < |irps| => if j <= i then Conclude(irps[j], transfers[j]) else irps[j])
  }

  /** Child i, concluded with its transport result, failed and the command said stop. */
  predicate StopsAt(irps: seq<IrpState>, transfers: seq<Transfer>, command: ErrorCommand, i: nat)
    requires Submittable(irps, transfers) && i < |irps|
  {
    var done := Conclude(irps[i], transfers[i]);
    IsUsbException(done) && !command(ListAt(irps, transfers, i), done)
  }

  /** The first child at or after `from` where the command stops submission, if any. */
  function FirstStop(irps: seq<IrpState>, transfers: seq<Transfer>, command: ErrorCommand, from: nat): (k: Option<nat>)
    requires Submittable(irps, transfers) && from <= |irps|
    ensures k.Some? ==> from <= k.value < |irps| && StopsAt(irps, transfers, command, k.value)
    ensures k.Some? ==> forall j :: from <= j < k.value ==> !StopsAt(irps, transfers, command, j)
    ensures k.None? ==> forall j :: from <= j < |irps| ==> !StopsAt(irps, transfers, command, j)
    decreases |irps| - from
  {
    if from == |irps| then None
    else if StopsAt(irps, transfers, command, from) then Some(from)
    else FirstStop(irps, transfers, command, from + 1)
  }

  /** The children after processing: concluded up to the stop, aborted after it. */
  function Processed(irps: seq<IrpState>, transfers: seq<Transfer>, command: ErrorCommand): (r: seq<IrpState>)
    requires Submittable(irps, transfers)
    ensures |r| == |irps|
  {
    var stop := FirstStop(irps, transfers, command, 0);
    seq(|irps|, i requires 0 <= i < |irps| =>
      if stop.None? || i <= stop.value then Conclude(irps[i], transfers[i]) else Abort(irps[i]))
  }

  /**
   * Before any stop, the list the processing loop holds after concluding child
   * i is the list ListAt describes.
   */
  lemma ListAtStep(cur: seq<IrpState>, irps: seq<IrpState>, transfers: seq<Transfer>, command: ErrorCommand, i: nat)
    requires Submittable(irps, transfers) && i < |irps| == |cur|
    requires FirstStop(irps, transfers, command, 0).None? || FirstStop(irps, transfers, command, 0).value >= i
    requires forall j :: 0 <= j < i ==> cur[j] == Processed(irps, transfers, command)[j]
    requires forall j :: i < j < |cur| ==> cur[j] == irps[j]
    ensures cur[i := Conclude(irps[i], transfers[i])] == ListAt(irps, transfers, i)
  {
  }

  /** The composite's own exception: the stopping child's, or none. */
  function CompositeException(irps: seq<IrpState>, transfers: seq<Transfer>, command: ErrorCommand): Option<UsbException>
    requires Submittable(irps, transfers)
  {
    match FirstStop(irps, transfers, command, 0)
    case None => None
    case Some(k) => Conclude(irps[k], transfers[k]).usbException
  }

  /** After processing every child has concluded, so the composite is complete. */
  lemma OutcomeComplete(irps: seq<IrpState>, transfers: seq<Transfer>, command: ErrorCommand)
    requires Submittable(irps, transfers)
    ensures AllComplete(Processed(irps, transfers, command))
    ensures DataWithinBuffers(Processed(irps, transfers, command))
  {
  }

  /** All children succeed: the composite succeeds and every child holds its own result. */
  lemma AllSucceedMeansSuccess(irps: seq<IrpState>, transfers: seq<Transfer>, command: ErrorCommand)
    requires Submittable(irps, transfers)
    requires forall i :: 0 <= i < |irps| ==> !IsUsbException(Conclude(irps[i], transfers[i]))
    ensures CompositeException(irps, transfers, command).None?
    ensures forall i :: 0 <= i < |irps| ==> Processed(irps, transfers, command)[i] == Conclude(irps[i], transfers[i])
  {
  }

  /**
   * The command continues at every failure: the composite succeeds even if
   * every child failed, and the children keep their own exceptions.
   */
  lemma AlwaysContinueMeansSuccess(irps: seq<IrpState>, transfers: seq<Transfer>, command: ErrorCommand)
    requires Submittable(irps, transfers)
    requires forall composite, child :: command(composite, child)
    ensures CompositeException(irps, transfers, command).None?
    ensures forall i :: 0 <= i < |irps| ==>
              Processed(irps, transfers, command)[i] == Conclude(irps[i], transfers[i])
  {
  }

  /**
   * The command stops at child k: the composite's exception is child k's, the
   * children before it concluded normally, and every later child was aborted.
   */
  lemma StopAtChild(irps: seq<IrpState>, transfers: seq<Transfer>, command: ErrorCommand, k: nat)
    requires Submittable(irps, transfers) && k < |irps|
    requires StopsAt(irps, transfers, command, k)
    requires forall j :: 0 <= j < k ==> !StopsAt(irps, transfers, command, j)
    ensures CompositeException(irps, transfers, command) == Processed(irps, transfers, command)[k].usbException
    ensures CompositeException(irps, transfers, command).Some?
    ensures forall j :: 0 <= j <= k ==> Processed(irps, transfers, command)[j] == Conclude(irps[j], transfers[j])
    ensures forall j :: k < j < |irps| ==> Processed(irps, transfers, command)[j] == Abort(irps[j])
  {
    assert FirstStop(irps, transfers, command, 0) == Some(k);
  }

  /** With the default command the composite fails with the first failing child's exception. */
  lemma DefaultCommandStopsAtFirstFailure(irps: seq<IrpState>, transfers: seq<Transfer>, k: nat)
    requires Submittable(irps, transfers) && k < |irps|
    requires IsUsbException(Conclude(irps[k], transfers[k]))
    requires forall j :: 0 <= j < k ==> !IsUsbException(Conclude(irps[j], transfers[j]))
    ensures CompositeException(irps, transfers, NeverContinue) == Conclude(irps[k], transfers[k]).usbException
    ensures forall j :: k < j < |irps| ==> Processed(irps, transfers, NeverContinue)[j] == Abort(irps[j])
  {
    StopAtChild(irps, transfers, NeverContinue, k);
  }

  // ---------------------------------------------------------------- the composite object

  class CompositeIrp {
    var irps: seq<IrpState>
    var errorCommand: ErrorCommand

    constructor ()
      ensures irps == []
      ensures forall composite, child :: !errorCommand(composite, child)
    {
      irps := [];
      errorCommand := NeverContinue;
    }

    function GetUsbIrps(): seq<IrpState>
      reads this
    {
      irps
    }

    function GetCompositeErrorCommand(): ErrorCommand
      reads this
    {
      errorCommand
    }

    method SetCompositeErrorCommand(command: ErrorCommand)
      modifies this`errorCommand
      ensures errorCommand == command
    {
      errorCommand := command;
    }

    function GetDataLength(): int
      reads this
    {
      SumActualLengths(irps)
    }

    function GetData(): seq<int8>
      reads this
      requires DataWithinBuffers(irps)
    {
      CompositeData(irps)
    }

    function GetAcceptShortPacket(): bool
      reads this
    {
      AllAcceptShortPackets(irps)
    }

    function IsComplete(): bool
      reads this
    {
      AllComplete(irps)
    }

    /**
     * setData: every child gets a buffer equal to `d` in size and contents (and,
     * as UsbIrp.setData does, a length equal to it); null is rejected.
     */
    method SetData(d: Option<seq<int8>>) returns (r: Outcome<Exception>)
      modifies this`irps
      ensures d.None? ==> r == Fail(IllegalArgumentException) && irps == old(irps)
      ensures d.Some? ==> r.Pass? && |irps| == |old(irps)|
      ensures d.Some? ==> forall i :: 0 <= i < |irps| ==>
                irps[i] == UsbIrp.SetData(old(irps)[i], d).value
    {
      if d.None? {
        return Fail(IllegalArgumentException);
      }
      var i := 0;
      while i < |irps|
        invariant 0 <= i <= |irps| == |old(irps)|
        invariant forall j :: 0 <= j < i ==> irps[j] == UsbIrp.SetData(old(irps)[j], d).value
        invariant forall j :: i <= j < |irps| ==> irps[j] == old(irps)[j]
      {
        irps := irps[i := UsbIrp.SetData(irps[i], d).value];
        i := i + 1;
      }
      r := Pass;
    }

    /** setAcceptShortPacket: every child gets the policy, so getAcceptShortPacket is then `accept`. */
    method SetAcceptShortPacket(accept: bool)
      modifies this`irps
      ensures |irps| == |old(irps)|
      ensures forall i :: 0 <= i < |irps| ==> irps[i] == UsbIrp.SetAcceptShortPacket(old(irps)[i], accept)
      ensures irps != [] ==> GetAcceptShortPacket() == accept
    {
      var i := 0;
      while i < |irps|
        invariant 0 <= i <= |irps| == |old(irps)|
        invariant forall j :: 0 <= j < i ==> irps[j] == UsbIrp.SetAcceptShortPacket(old(irps)[j], accept)
        invariant forall j :: i <= j < |irps| ==> irps[j] == old(irps)[j]
      {
        irps := irps[i := UsbIrp.SetAcceptShortPacket(irps[i], accept)];
        i := i + 1;
      }
      if irps != [] {
        assert irps[0].acceptShortPacket == accept;
      }
    }

    /**
     * Processing of a submitted composite: children run in list order; at a
     * failing child the error command decides whether the rest still run or
     * are aborted.  Returns the composite's own exception.
     */
    method Process(transfers: seq<Transfer>) returns (e: Option<UsbException>)
      requires Submittable(irps, transfers)
      modifies this`irps
      ensures irps == Processed(old(irps), transfers, errorCommand)
      ensures e == CompositeException(old(irps), transfers, errorCommand)
      ensures IsComplete()
    {
      ghost var before := irps;
      var i := 0;
      var stopped := false;
      e := None;
      while i < |irps|
        invariant 0 <= i <= |irps| == |before|
        invariant forall j :: i <= j < |irps| ==> irps[j] == before[j]
        invariant stopped <==> FirstStop(before, transfers, errorCommand, 0).Some?
                               && FirstStop(before, transfers, errorCommand, 0).value < i
        invariant !stopped ==> FirstStop(before, transfers, errorCommand, 0) == FirstStop(before, transfers, errorCommand, i)
        invariant !stopped ==> e.None?
        invariant stopped ==> e == CompositeException(before, transfers, errorCommand)
        invariant forall j :: 0 <= j < i ==> irps[j] == Processed(before, transfers, errorCommand)[j]
      {
        if stopped {
          irps := irps[i := Abort(irps[i])];
        } else {
          var done := Conclude(irps[i], transfers[i]);
          ListAtStep(irps, before, transfers, errorCommand, i);
          irps := irps[i := done];
          if IsUsbException(done) && !errorCommand(irps, done) {
            stopped := true;
            e := done.usbException;
          }
        }
        i := i + 1;
      }
      OutcomeComplete(before, transfers, errorCommand);
    }
  }
}
