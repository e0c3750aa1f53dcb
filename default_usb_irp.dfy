/**
 * javax.usb.util.DefaultUsbIrp: the library's UsbIrp implementation, a
 * record of mutable fields behind guarded setters.
 *
 * Where its behaviour departs from the UsbIrp interface, this model follows the
 * class: setData stores the caller's array itself (no copy), substitutes an
 * empty array for null instead of throwing, and does not reset the length; and
 * the no-argument constructor leaves offset, length and actual length at -1.
 */
module DefaultUsbIrp {
  import opened Wrappers
  import opened JavaTypes
  import opened UsbErrors
  import UsbIrp

  class DefaultUsbIrp {
    var data: array<int8>
    var complete: bool
    var acceptShortPacket: bool
    var offset: int32
    var length: int32
    var actualLength: int32
    var usbException: Option<UsbException>

    /** The fields seen through the interface's reference state. */
    ghost function State(): UsbIrp.IrpState
      reads this, data
    {
      UsbIrp.IrpState(data[..], offset as int, length as int, actualLength as int,
                      usbException, acceptShortPacket, complete)
    }

    /** DefaultUsbIrp(): the field initialisers. */
    constructor ()
      ensures fresh(data) && data.Length == 0
      ensures !complete && acceptShortPacket && usbException.None?
      ensures offset == -1 && length == -1 && actualLength == -1
    {
      data := new int8[0];
      complete := false;
      acceptShortPacket := true;
      offset := -1;
      length := -1;
      actualLength := -1;
      usbException := None;
    }

    /**
     * DefaultUsbIrp(data, offset, length, shortPacket): the four setters in
     * order; a negative offset or length throws before the object is returned.
     */
    static method Create(d: array?<int8>, o: int32, l: int32, shortPacket: bool)
      returns (r: Result<DefaultUsbIrp, Exception>)
      ensures r.Failure? <==> o < 0 || l < 0
      ensures r.Failure? ==> r.error == IllegalArgumentException
      ensures r.Success? ==> var irp := r.value;
        && fresh(irp)
        && (d != null ==> irp.data == d)
        && (d == null ==> fresh(irp.data) && irp.data.Length == 0)
        && irp.offset == o && irp.length == l && irp.acceptShortPacket == shortPacket
        && irp.actualLength == -1 && irp.usbException.None? && !irp.complete
    {
      var irp := new DefaultUsbIrp();
      irp.SetData(d);
      var outcome := irp.SetOffset(o);
      if outcome.Fail? {
        return Failure(outcome.error);
      }
      outcome := irp.SetLength(l);
      if outcome.Fail? {
        return Failure(outcome.error);
      }
      irp.SetAcceptShortPacket(shortPacket);
      r := Success(irp);
    }

    function GetData(): array<int8>
      reads this
    {
      data
    }

    /**
     * setData: stores `d` itself, so later writes to the caller's array are
     * seen by this IRP; null becomes a new empty array.  The length is left alone.
     */
    method SetData(d: array?<int8>)
      modifies this`data
      ensures d != null ==> data == d
      ensures d == null ==> fresh(data) && data.Length == 0
    {
      if d == null {
        data := new int8[0];
      } else {
        data := d;
      }
    }

    function GetOffset(): int32
      reads this
    {
      offset
    }

    /** setOffset: rejects a negative offset and then changes nothing. */
    method SetOffset(o: int32) returns (r: Outcome<Exception>)
      modifies this`offset
      ensures r.Fail? <==> o < 0
      ensures r.Fail? ==> r.error == IllegalArgumentException && offset == old(offset)
      ensures r.Pass? ==> offset == o
      ensures UsbIrp.SetOffset(old(State()), o) == if r.Pass? then Success(State()) else Failure(r.error)
    {
      if o < 0 {
        return Fail(IllegalArgumentException);
      }
      offset := o;
      r := Pass;
    }

    function GetLength(): int32
      reads this
    {
      length
    }

    /** setLength: rejects a negative length and then changes nothing. */
    method SetLength(l: int32) returns (r: Outcome<Exception>)
      modifies this`length
      ensures r.Fail? <==> l < 0
      ensures r.Fail? ==> r.error == IllegalArgumentException && length == old(length)
      ensures r.Pass? ==> length == l
      ensures UsbIrp.SetLength(old(State()), l) == if r.Pass? then Success(State()) else Failure(r.error)
    {
      if l < 0 {
        return Fail(IllegalArgumentException);
      }
      length := l;
      r := Pass;
    }

    function GetActualLength(): int32
      reads this
    {
      actualLength
    }

    /** setActualLength: rejects a negative length and then changes nothing. */
    method SetActualLength(l: int32) returns (r: Outcome<Exception>)
      modifies this`actualLength
      ensures r.Fail? <==> l < 0
      ensures r.Fail? ==> r.error == IllegalArgumentException && actualLength == old(actualLength)
      ensures r.Pass? ==> actualLength == l
      ensures UsbIrp.SetActualLength(old(State()), l) == if r.Pass? then Success(State()) else Failure(r.error)
    {
      if l < 0 {
        return Fail(IllegalArgumentException);
      }
      actualLength := l;
      r := Pass;
    }

    /** isUsbException: agrees with the interface's definition on the current state. */
    function IsUsbException(): (b: bool)
      reads this, data
      ensures b == UsbIrp.IsUsbException(State())
    {
      GetUsbException() != None
    }

    function GetUsbException(): Option<UsbException>
      reads this
    {
      usbException
    }

    method SetUsbException(e: Option<UsbException>)
      modifies this`usbException
      ensures usbException == e
      ensures State() == UsbIrp.SetUsbException(old(State()), e)
    {
      usbException := e;
    }

    function GetAcceptShortPacket(): bool
      reads this
    {
      acceptShortPacket
    }

    method SetAcceptShortPacket(accept: bool)
      modifies this`acceptShortPacket
      ensures acceptShortPacket == accept
      ensures State() == UsbIrp.SetAcceptShortPacket(old(State()), accept)
    {
      acceptShortPacket := accept;
    }

    function IsComplete(): bool
      reads this
    {
      complete
    }

    /** setComplete(b): sets the flag either way, so a completed IRP can be reset. */
    method SetComplete(b: bool)
      modifies this`complete
      ensures complete == b
    {
      complete := b;
    }

    /** complete(): sets the flag and touches no data field (waiters are then woken). */
    method Complete()
      modifies this`complete
      ensures complete
      ensures State() == UsbIrp.Complete(old(State()))
    {
      SetComplete(true);
    }
  }

  /**
   * The implementation does not reset the length on setData, where the interface
   * does: after setData on a new IRP the class reports -1, the interface |d|.
   */
  method SetDataLengthDivergence(d: array<int8>) returns (classLength: int32, interfaceLength: int)
    ensures classLength == -1
    ensures interfaceLength == d.Length
  {
    var irp := new DefaultUsbIrp();
    irp.SetData(d);
    classLength := irp.GetLength();
    var reference := UsbIrp.SetData(UsbIrp.Default(), Some(d[..]));
    UsbIrp.SetDataResetsLength(UsbIrp.Default(), d[..]);
    interfaceLength := reference.value.length;
  }

  /** setData(null) succeeds with an empty buffer, where the interface throws. */
  method SetDataNullDivergence() returns (classData: array<int8>, interfaceResult: Result<UsbIrp.IrpState, Exception>)
    ensures classData.Length == 0
    ensures interfaceResult == Failure(IllegalArgumentException)
  {
    var irp := new DefaultUsbIrp();
    irp.SetData(null);
    classData := irp.GetData();
    interfaceResult := UsbIrp.SetData(UsbIrp.Default(), None);
  }

  /**
   * The no-argument constructor's -1 defaults break the interface's promise
   * that offset, length and actual length are never negative (its defaults are 0).
   */
  method DefaultsDivergence() returns (classOffset: int32, classLength: int32, interfaceOffset: int)
    ensures classOffset == -1 && classLength == -1
    ensures interfaceOffset == 0 && UsbIrp.NonNegative(UsbIrp.Default())
  {
    var irp := new DefaultUsbIrp();
    assert !UsbIrp.NonNegative(irp.State());
    classOffset := irp.GetOffset();
    classLength := irp.GetLength();
    interfaceOffset := UsbIrp.Default().offset;
  }

  /** Writes to the caller's array after setData are visible through getData. */
  method SetDataAliases(d: array<int8>, x: int8) returns (seen: int8)
    requires d.Length > 0
    modifies d
    ensures seen == x
  {
    var irp := new DefaultUsbIrp();
    irp.SetData(d);
    d[0] := x;
    seen := irp.GetData()[0];
  }
}
