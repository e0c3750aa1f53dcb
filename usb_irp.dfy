/**
 * javax.usb.UsbIrp as its interface documents it: an I/O Request Packet
 * (section 5.3.2 of the USB 1.1 specification) holding a data buffer, the
 * offset and length to transfer, the length actually transferred, the short
 * packet policy, an optional UsbException and a completion flag.
 *
 * This module is the reference every implementation is held to: each setter
 * is a function from the old state to the new one, or to the exception the
 * interface says it throws.  The class DefaultUsbIrp is compared with it.
 */
module UsbIrp {
  import opened Wrappers
  import opened JavaTypes
  import opened UsbErrors

  datatype IrpState = IrpState(
    data: seq<int8>,
    offset: int,
    length: int,
    actualLength: int,
    usbException: Option<UsbException>,
    acceptShortPacket: bool,
    complete: bool)

  /** A ControlUsbIrp: a UsbIrp plus the setup fields of a control request. */
  datatype ControlUsbIrp = ControlUsbIrp(
    irp: IrpState,
    bmRequestType: int8,
    bRequest: int8,
    wValue: int16,
    wIndex: int16)

  /** The outcome a transport reports for one transfer. */
  datatype Transfer = Transfer(actualLength: int32, error: Option<UsbException>)

  /** The interface's promise that none of the three lengths is ever negative. */
  predicate NonNegative(s: IrpState) {
    s.offset >= 0 && s.length >= 0 && s.actualLength >= 0
  }

  /** What must hold before submission: lengths valid, no UsbException, not complete. */
  predicate ReadyForSubmission(s: IrpState) {
    NonNegative(s) && s.usbException.None? && !s.complete
  }

  /**
   * A new UsbIrp with the documented defaults: an empty buffer, offset 0, the
   * full buffer length, short packets accepted, no exception, not complete.
   * The interface does not name a default actual length; 0 is taken.
   */
  function Default(): IrpState {
    IrpState([], 0, 0, 0, None, true, false)
  }

  /** setData: null is rejected; otherwise the data is replaced and the length reset to it. */
  function SetData(s: IrpState, d: Option<seq<int8>>): Result<IrpState, Exception> {
    match d
    case None => Failure(IllegalArgumentException)
    case Some(buffer) => Success(s.(data := buffer, length := |buffer|))
  }

  /** setOffset: a negative offset is rejected. */
  function SetOffset(s: IrpState, offset: int32): Result<IrpState, Exception> {
    if offset < 0 then Failure(IllegalArgumentException) else Success(s.(offset := offset as int))
  }

  /** setLength: a negative length is rejected. */
  function SetLength(s: IrpState, length: int32): Result<IrpState, Exception> {
    if length < 0 then Failure(IllegalArgumentException) else Success(s.(length := length as int))
  }

  /** setActualLength: a negative length is rejected. */
  function SetActualLength(s: IrpState, length: int32): Result<IrpState, Exception> {
    if length < 0 then Failure(IllegalArgumentException) else Success(s.(actualLength := length as int))
  }

  function SetUsbException(s: IrpState, e: Option<UsbException>): IrpState {
    s.(usbException := e)
  }

  function SetAcceptShortPacket(s: IrpState, accept: bool): IrpState {
    s.(acceptShortPacket := accept)
  }

  /** isUsbException */
  predicate IsUsbException(s: IrpState) {
    s.usbException != None
  }

  /** complete(): the last step of processing. */
  function Complete(s: IrpState): IrpState {
    s.(complete := true)
  }

  /**
   * A transfer the transport can report for `s`: no more than requested, and
   * any bytes it moved lie within the buffer from the offset on.
   */
  predicate TransferFits(s: IrpState, t: Transfer) {
    0 <= t.actualLength as int <= s.length && (t.actualLength == 0 || s.offset + t.actualLength as int <= |s.data|)
  }

  /**
   * A short packet on an IRP that does not accept them is a UsbException even
   * when the transport reported none.
   */
  function ResultingException(s: IrpState, t: Transfer): (e: Option<UsbException>)
    ensures e.None? <==> t.error.None? && (s.acceptShortPacket || t.actualLength as int >= s.length)
    ensures t.error.Some? ==> e == t.error
    ensures t.error.None? && e.Some? ==> e == Some(UsbPipeException(ShortPacket))
  {
    if t.error.Some? then t.error
    else if !s.acceptShortPacket && t.actualLength as int < s.length then Some(UsbPipeException(ShortPacket))
    else None
  }

  /**
   * How the implementation finishes an IRP: it sets the actual length, then the
   * UsbException if there is one, and calls complete() last.
   */
  function Conclude(s: IrpState, t: Transfer): (r: IrpState)
    requires ReadyForSubmission(s) && TransferFits(s, t)
    ensures r.complete && r.actualLength == t.actualLength as int
    ensures IsUsbException(r) <==> t.error.Some? || (!s.acceptShortPacket && r.actualLength < s.length)
    ensures r.usbException == ResultingException(s, t)
    ensures r.data == s.data && r.offset == s.offset && r.length == s.length
    ensures r.acceptShortPacket == s.acceptShortPacket
  {
    var counted := SetActualLength(s, t.actualLength).value;
    var recorded := match ResultingException(s, t)
      case Some(e) => SetUsbException(counted, Some(e))
      case None => counted;
    Complete(recorded)
  }

  /** An IRP stopped before it transferred anything: no data, the abort recorded, complete. */
  function Abort(s: IrpState): (r: IrpState)
    ensures r.complete && r.actualLength == 0 && r.usbException == Some(UsbPipeException(Aborted))
    ensures r.data == s.data && r.offset == s.offset && r.length == s.length
    ensures r.acceptShortPacket == s.acceptShortPacket
  {
    Complete(SetUsbException(s.(actualLength := 0), Some(UsbPipeException(Aborted))))
  }

  /** The relation between an IRP before submission and after its completion. */
  predicate IsCompletionOf(before: IrpState, after: IrpState) {
    && after.complete
    && after.data == before.data && after.offset == before.offset && after.length == before.length
    && after.acceptShortPacket == before.acceptShortPacket
    && 0 <= after.actualLength <= before.length
    && (!before.acceptShortPacket && after.actualLength < before.length ==> IsUsbException(after))
  }

  // ---------------------------------------------------------------- properties

  /** The defaults are ready for submission once data is set. */
  lemma DefaultIsReady()
    ensures ReadyForSubmission(Default())
    ensures Default().data == [] && Default().length == |Default().data|
    ensures Default().acceptShortPacket
  {
  }

  /** After setData(d) with d non-null, getData() is d and getLength() is d's length. */
  lemma SetDataResetsLength(s: IrpState, d: seq<int8>)
    ensures SetData(s, Some(d)).Success?
    ensures SetData(s, Some(d)).value.data == d && SetData(s, Some(d)).value.length == |d|
    ensures SetData(s, None) == Failure(IllegalArgumentException)
  {
  }

  /** No setter can make a length negative; each rejects exactly the negative argument. */
  lemma SettersKeepNonNegative(s: IrpState, n: int32, d: Option<seq<int8>>, e: Option<UsbException>, b: bool)
    requires NonNegative(s)
    ensures SetOffset(s, n).Failure? <==> n < 0
    ensures SetLength(s, n).Failure? <==> n < 0
    ensures SetActualLength(s, n).Failure? <==> n < 0
    ensures SetOffset(s, n).Success? ==> NonNegative(SetOffset(s, n).value)
    ensures SetLength(s, n).Success? ==> NonNegative(SetLength(s, n).value)
    ensures SetActualLength(s, n).Success? ==> NonNegative(SetActualLength(s, n).value)
    ensures SetData(s, d).Success? ==> NonNegative(SetData(s, d).value)
    ensures NonNegative(SetUsbException(s, e)) && NonNegative(SetAcceptShortPacket(s, b))
    ensures NonNegative(Complete(s))
  {
  }

  /** Preparing an IRP (data, offset, length, policy) keeps it ready for submission. */
  lemma PreparationKeepsReady(s: IrpState, n: int32, d: seq<int8>, b: bool)
    requires ReadyForSubmission(s)
    ensures ReadyForSubmission(SetData(s, Some(d)).value)
    ensures SetOffset(s, n).Success? ==> ReadyForSubmission(SetOffset(s, n).value)
    ensures SetLength(s, n).Success? ==> ReadyForSubmission(SetLength(s, n).value)
    ensures ReadyForSubmission(SetAcceptShortPacket(s, b))
  {
  }

  /** Conclude produces a completion of the submitted IRP. */
  lemma ConcludeIsCompletion(s: IrpState, t: Transfer)
    requires ReadyForSubmission(s) && TransferFits(s, t)
    ensures IsCompletionOf(s, Conclude(s, t))
  {
  }

  /** Aborting a submitted IRP also completes it, with an exception. */
  lemma AbortIsCompletion(s: IrpState)
    requires ReadyForSubmission(s)
    ensures IsCompletionOf(s, Abort(s)) && IsUsbException(Abort(s))
  {
  }

  /** Whatever the transport does, some result fits: nothing transferred, with or without an error. */
  lemma EmptyTransferFits(s: IrpState, e: Option<UsbException>)
    requires NonNegative(s)
    ensures TransferFits(s, Transfer(0, e))
  {
  }
}
