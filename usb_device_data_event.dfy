/**
 * javax.usb.event.UsbDeviceDataEvent: the event fired for a successful
 * transfer over a device's Default Control Pipe.  It keeps the ControlUsbIrp
 * that was submitted and its own copy of the data actually transferred.
 *
 * The source UsbDevice, which the event passes on to its superclass, is not
 * part of this model.
 */
module UsbDeviceDataEvent {
  import opened Wrappers
  import opened JavaTypes
  import opened UsbErrors
  import opened UsbIrp

  class UsbDeviceDataEvent {
    const controlUsbIrp: ControlUsbIrp
    const data: array<int8>

    /** Copies the first `length` bytes of `source` into a new buffer of exactly that size. */
    constructor (irp: ControlUsbIrp, source: array<int8>, length: int32)
      requires 0 <= length as int <= source.Length
      ensures controlUsbIrp == irp
      ensures fresh(data) && data[..] == source[..length]
    {
      controlUsbIrp := irp;
      var copy := new int8[length];
      var i := 0;
      while i < length as int
        invariant 0 <= i <= length as int
        invariant copy[..i] == source[..i]
      {
        copy[i] := source[i];
        i := i + 1;
      }
      data := copy;
    }

    /**
     * The constructor with its argument checks: a negative length, or one
     * beyond the buffer, is an IllegalArgumentException; a null buffer with
     * a non-negative length fails when its length is read.
     */
    static method Create(irp: ControlUsbIrp, source: array?<int8>, length: int32)
      returns (r: Result<UsbDeviceDataEvent, Exception>)
      ensures length < 0 ==> r == Failure(IllegalArgumentException)
      ensures length >= 0 && source == null ==> r == Failure(NullDereference)
      ensures length >= 0 && source != null && length as int > source.Length ==> r == Failure(IllegalArgumentException)
      ensures r.Success? <==> 0 <= length && source != null && length as int <= source.Length
      ensures r.Success? ==> fresh(r.value) && fresh(r.value.data)
      ensures r.Success? ==> r.value.data.Length == length as int && r.value.data[..] == source[..length]
      ensures r.Success? ==> r.value.GetControlUsbIrp() == irp
    {
      if length < 0 {
        return Failure(IllegalArgumentException);
      }
      if source == null {
        return Failure(NullDereference);
      }
      if length as int > source.Length {
        return Failure(IllegalArgumentException);
      }
      var event := new UsbDeviceDataEvent(irp, source, length);
      r := Success(event);
    }

    function GetControlUsbIrp(): ControlUsbIrp {
      controlUsbIrp
    }

    function GetData(): array<int8> {
      data
    }
  }

  /**
   * The event's data is its own copy: a listener changing the caller's
   * buffer afterwards leaves the event's data as it was transferred.
   */
  method LaterWritesDoNotReachEvent(irp: ControlUsbIrp, source: array<int8>, length: int32, b: int8)
    returns (event: UsbDeviceDataEvent)
    requires 0 < length as int <= source.Length
    modifies source
    ensures event.GetData()[..] == old(source[..length])
    ensures source[0] == b
  {
    event := new UsbDeviceDataEvent(irp, source, length);
    source[0] := b;
  }
}
