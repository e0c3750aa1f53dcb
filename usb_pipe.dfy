/**
 * javax.usb.UsbPipe as its interface documents it: a pipe that is active when
 * its configuration and interface setting are, is open between a successful
 * open() and a successful close(), accepts submissions only while open, and
 * holds the asynchronous submissions still pending.
 *
 * The transport is not modelled: each transfer's result is chosen freely
 * among the results that fit the submitted buffer.  The platform's own open
 * and close failures are parameters.
 */
module UsbPipe {
  import opened Wrappers
  import opened JavaTypes
  import opened UsbErrors
  import opened UsbIrp

  /** The IRP asyncSubmit(byte[]) creates: the buffer, offset 0, its full length, short packets accepted. */
  function IrpFor(data: seq<int8>): (r: IrpState)
    ensures ReadyForSubmission(r) && r.data == data && r.offset == 0 && r.length == |data|
    ensures r.acceptShortPacket
  {
    SetData(Default(), Some(data)).value
  }

  /** Every IRP of the list may be submitted. */
  predicate AllReady(irps: seq<IrpState>) {
    forall i :: 0 <= i < |irps| ==> ReadyForSubmission(irps[i])
  }

  /**
   * What syncSubmit(List) leaves behind when it stops with an exception at
   * `k`: the IRPs before k completed without error, IRP k completed with one,
   * and the IRPs after k were never submitted.
   */
  predicate StoppedAt(list: seq<IrpState>, done: seq<IrpState>, k: nat)
    requires |done| == |list|
  {
    && k < |list|
    && (forall i :: 0 <= i < k ==> IsCompletionOf(list[i], done[i]) && !IsUsbException(done[i]))
    && IsCompletionOf(list[k], done[k]) && IsUsbException(done[k])
    && (forall i :: k < i < |list| ==> done[i] == list[i])
  }

  /** abortAllSubmissions' effect on each pending IRP. */
  function AbortEach(irps: seq<IrpState>): (r: seq<IrpState>)
    ensures |r| == |irps|
    ensures forall i :: 0 <= i < |irps| ==> r[i] == Abort(irps[i])
  {
    if irps == [] then [] else [Abort(irps[0])] + AbortEach(irps[1..])
  }

  /** Aborting every pending submission completes each of them, with an exception. */
  lemma {:induction false} AbortEachCompletes(irps: seq<IrpState>)
    requires AllReady(irps)
    ensures forall i :: 0 <= i < |irps| ==>
              IsCompletionOf(irps[i], AbortEach(irps)[i]) && IsUsbException(AbortEach(irps)[i])
  {
    forall i | 0 <= i < |irps|
      ensures IsCompletionOf(irps[i], AbortEach(irps)[i]) && IsUsbException(AbortEach(irps)[i])
    {
      AbortIsCompletion(irps[i]);
    }
  }

  class UsbPipe {
    /** Whether the pipe's configuration and interface setting are active. */
    var active: bool
    var isOpen: bool
    /** Asynchronous submissions not yet concluded, oldest first. */
    var pending: seq<IrpState>
    /** Asynchronous submissions concluded so far, in the order they concluded. */
    var concluded: seq<IrpState>

    /**
     * An inactive pipe is never open, only an open pipe has submissions
     * pending, and every pending submission is still ready to be processed.
     */
    ghost predicate Valid()
      reads this
    {
      && (!active ==> !isOpen)
      && (pending != [] ==> isOpen)
      && AllReady(pending)
    }

    constructor (active: bool)
      ensures Valid() && this.active == active
      ensures !isOpen && pending == [] && concluded == []
    {
      this.active := active;
      isOpen := false;
      pending := [];
      concluded := [];
    }

    function IsActive(): bool
      reads this
    {
      active
    }

    /** isOpen: true between a successful open and a successful close, and never while inactive. */
    function IsOpen(): (r: bool)
      reads this
      ensures r ==> IsActive()
    {
      active && isOpen
    }

    /**
     * open: NotActiveException on an inactive pipe; nothing on an open one;
     * otherwise the platform either opens the pipe or reports why it could not.
     */
    method Open(platformError: Option<UsbException>) returns (r: Outcome<Exception>)
      requires Valid()
      modifies this`isOpen
      ensures Valid()
      ensures !active ==> r == Fail(NotActiveException) && isOpen == old(isOpen)
      ensures active && old(isOpen) ==> r == Pass && isOpen
      ensures active && !old(isOpen) && platformError.Some? ==>
                r == Fail(Usb(platformError.value)) && !isOpen
      ensures active && !old(isOpen) && platformError.None? ==> r == Pass && isOpen
      ensures r.Pass? <==> IsOpen()
    {
      if !active {
        return Fail(NotActiveException);
      }
      if isOpen {
        return Pass;
      }
      if platformError.Some? {
        return Fail(Usb(platformError.value));
      }
      isOpen := true;
      r := Pass;
    }

    /**
     * close: NotActiveException on an inactive pipe; nothing on a closed one;
     * a UsbException while submissions are pending or when the platform fails;
     * otherwise the pipe is closed.
     */
    method Close(platformError: Option<UsbException>) returns (r: Outcome<Exception>)
      requires Valid()
      modifies this`isOpen
      ensures Valid()
      ensures !active ==> r == Fail(NotActiveException) && isOpen == old(isOpen)
      ensures active && !old(isOpen) ==> r == Pass && !isOpen
      ensures active && old(isOpen) && pending != [] ==>
                r == Fail(Usb(UsbPipeException(InProgress))) && isOpen
      ensures active && old(isOpen) && pending == [] && platformError.Some? ==>
                r == Fail(Usb(platformError.value)) && isOpen
      ensures active && old(isOpen) && pending == [] && platformError.None? ==> r == Pass && !isOpen
      ensures r.Pass? ==> !IsOpen() && pending == []
    {
      if !active {
        return Fail(NotActiveException);
      }
      if !isOpen {
        return Pass;
      }
      if pending != [] {
        return Fail(Usb(UsbPipeException(InProgress)));
      }
      if platformError.Some? {
        return Fail(Usb(platformError.value));
      }
      isOpen := false;
      r := Pass;
    }

    /**
     * syncSubmit(byte[]): NotActiveException on an inactive pipe and
     * NotOpenException on a closed one; otherwise the number of bytes
     * transferred, never more than the buffer holds, or the UsbException the
     * transfer ended with.
     */
    method SyncSubmit(data: seq<int8>) returns (r: Result<int, Exception>)
      requires Valid()
      ensures !active ==> r == Failure(NotActiveException)
      ensures active && !isOpen ==> r == Failure(NotOpenException)
      ensures r.Success? ==> IsOpen() && 0 <= r.value <= |data|
      ensures r.Failure? && IsOpen() ==> r.error.Usb?
    {
      if !active {
        return Failure(NotActiveException);
      }
      if !isOpen {
        return Failure(NotOpenException);
      }
      EmptyTransferFits(IrpFor(data), None);
      var t: Transfer :| TransferFits(IrpFor(data), t);
      var done := Conclude(IrpFor(data), t);
      if IsUsbException(done) {
        r := Failure(Usb(done.usbException.value));
      } else {
        r := Success(done.actualLength);
      }
    }

    /**
     * syncSubmit(UsbIrp): NotActiveException or NotOpenException unless open,
     * the IRP untouched; otherwise the IRP completes and its UsbException, if
     * any, is thrown.
     */
    method SyncSubmitIrp(irp: IrpState) returns (done: IrpState, r: Outcome<Exception>)
      requires Valid() && ReadyForSubmission(irp)
      ensures !active ==> r == Fail(NotActiveException) && done == irp
      ensures active && !isOpen ==> r == Fail(NotOpenException) && done == irp
      ensures IsOpen() ==> IsCompletionOf(irp, done)
      ensures IsOpen() ==> (r.Pass? <==> !IsUsbException(done))
      ensures IsOpen() && r.Fail? ==> r.error == Usb(done.usbException.value)
    {
      if !active {
        return irp, Fail(NotActiveException);
      }
      if !isOpen {
        return irp, Fail(NotOpenException);
      }
      EmptyTransferFits(irp, None);
      var t: Transfer :| TransferFits(irp, t);
      done := Conclude(irp, t);
      ConcludeIsCompletion(irp, t);
      if IsUsbException(done) {
        r := Fail(Usb(done.usbException.value));
      } else {
        r := Pass;
      }
    }

    /**
     * syncSubmit(List): IllegalArgumentException on an empty list, then
     * NotActiveException or NotOpenException unless open, nothing submitted;
     * otherwise the IRPs are
     * submitted one by one in list order, as by syncSubmit(UsbIrp), and the
     * first UsbException ends the submission.
     */
    method SyncSubmitList(list: seq<IrpState>) returns (done: seq<IrpState>, r: Outcome<Exception>)
      requires Valid() && AllReady(list)
      ensures |done| == |list|
      ensures list == [] ==> r == Fail(IllegalArgumentException) && done == list
      ensures list != [] && !active ==> r == Fail(NotActiveException) && done == list
      ensures list != [] && active && !isOpen ==> r == Fail(NotOpenException) && done == list
      ensures r.Pass? ==> forall i :: 0 <= i < |list| ==> IsCompletionOf(list[i], done[i]) && !IsUsbException(done[i])
      ensures r.Fail? && list != [] && IsOpen() ==>
                exists k: nat :: StoppedAt(list, done, k) && r.error == Usb(done[k].usbException.value)
    {
      if list == [] {
        return list, Fail(IllegalArgumentException);
      }
      if !active {
        return list, Fail(NotActiveException);
      }
      if !isOpen {
        return list, Fail(NotOpenException);
      }
      done := list;
      var i := 0;
      while i < |list|
        invariant 0 <= i <= |list| == |done|
        invariant forall j :: 0 <= j < i ==> IsCompletionOf(list[j], done[j]) && !IsUsbException(done[j])
        invariant forall j :: i <= j < |list| ==> done[j] == list[j]
      {
        var one, outcome := SyncSubmitIrp(list[i]);
        done := done[i := one];
        if outcome.Fail? {
          assert StoppedAt(list, done, i);
          return done, outcome;
        }
        i := i + 1;
      }
      r := Pass;
    }

    /**
     * asyncSubmit(byte[]): NotActiveException or NotOpenException unless open;
     * otherwise a new IRP for the buffer is queued behind the pending ones and
     * returned.
     */
    method AsyncSubmit(data: seq<int8>) returns (r: Result<IrpState, Exception>)
      requires Valid()
      modifies this`pending
      ensures Valid()
      ensures !active ==> r == Failure(NotActiveException) && pending == old(pending)
      ensures active && !isOpen ==> r == Failure(NotOpenException) && pending == old(pending)
      ensures IsOpen() ==> r == Success(IrpFor(data)) && pending == old(pending) + [IrpFor(data)]
    {
      if !active {
        return Failure(NotActiveException);
      }
      if !isOpen {
        return Failure(NotOpenException);
      }
      pending := pending + [IrpFor(data)];
      r := Success(IrpFor(data));
    }

    /** asyncSubmit(UsbIrp): NotActiveException or NotOpenException unless open; otherwise the IRP is queued. */
    method AsyncSubmitIrp(irp: IrpState) returns (r: Outcome<Exception>)
      requires Valid() && ReadyForSubmission(irp)
      modifies this`pending
      ensures Valid()
      ensures !active ==> r == Fail(NotActiveException) && pending == old(pending)
      ensures active && !isOpen ==> r == Fail(NotOpenException) && pending == old(pending)
      ensures IsOpen() ==> r == Pass && pending == old(pending) + [irp]
    {
      if !active {
        return Fail(NotActiveException);
      }
      if !isOpen {
        return Fail(NotOpenException);
      }
      pending := pending + [irp];
      r := Pass;
    }

    /**
     * asyncSubmit(List): IllegalArgumentException on an empty list, then
     * NotActiveException or NotOpenException unless open; otherwise the IRPs
     * are queued in list order.
     */
    method AsyncSubmitList(list: seq<IrpState>) returns (r: Outcome<Exception>)
      requires Valid() && AllReady(list)
      modifies this`pending
      ensures Valid()
      ensures list == [] ==> r == Fail(IllegalArgumentException) && pending == old(pending)
      ensures list != [] && !active ==> r == Fail(NotActiveException) && pending == old(pending)
      ensures list != [] && active && !isOpen ==> r == Fail(NotOpenException) && pending == old(pending)
      ensures list != [] && IsOpen() ==> r == Pass && pending == old(pending) + list
    {
      if list == [] {
        return Fail(IllegalArgumentException);
      }
      if !active {
        return Fail(NotActiveException);
      }
      if !isOpen {
        return Fail(NotOpenException);
      }
      pending := pending + list;
      r := Pass;
    }

    /**
     * The transport finishing the oldest pending submission with some result
     * that fits it; the submissions complete in the order they were queued.
     */
    method TransportComplete()
      requires Valid() && pending != []
      modifies this`pending, this`concluded
      ensures Valid()
      ensures pending == old(pending)[1..]
      ensures |concluded| == |old(concluded)| + 1 && concluded[..|old(concluded)|] == old(concluded)
      ensures IsCompletionOf(old(pending)[0], concluded[|old(concluded)|])
    {
      var head := pending[0];
      EmptyTransferFits(head, None);
      var t: Transfer :| TransferFits(head, t);
      ConcludeIsCompletion(head, t);
      concluded := concluded + [Conclude(head, t)];
      pending := pending[1..];
    }

    /**
     * abortAllSubmissions: NotActiveException or NotOpenException unless open;
     * otherwise every pending submission is aborted, in order, and none is
     * left pending.
     */
    method AbortAllSubmissions() returns (r: Outcome<Exception>)
      requires Valid()
      modifies this`pending, this`concluded
      ensures Valid()
      ensures !active ==> r == Fail(NotActiveException) && pending == old(pending) && concluded == old(concluded)
      ensures active && !isOpen ==> r == Fail(NotOpenException) && pending == old(pending) && concluded == old(concluded)
      ensures IsOpen() ==> r == Pass && pending == [] && concluded == old(concluded) + AbortEach(old(pending))
    {
      if !active {
        return Fail(NotActiveException);
      }
      if !isOpen {
        return Fail(NotOpenException);
      }
      ghost var queued := pending;
      while pending != []
        invariant Valid()
        invariant |pending| <= |queued|
        invariant pending == queued[|queued| - |pending|..]
        invariant concluded == old(concluded) + AbortEach(queued[..|queued| - |pending|])
        decreases |pending|
      {
        ghost var k := |queued| - |pending|;
        assert queued[..k + 1] == queued[..k] + [pending[0]];
        AbortEachAppend(queued[..k], pending[0]);
        concluded := concluded + [Abort(pending[0])];
        pending := pending[1..];
      }
      assert queued[..|queued|] == queued;
      r := Pass;
    }

    /**
     * The pipe's configuration or interface setting stops being active: its
     * pending submissions are aborted as by abortAllSubmissions, and it is
     * closed, so it must be opened again once it is active again.
     */
    method Deactivate()
      requires Valid()
      modifies this`active, this`isOpen, this`pending, this`concluded
      ensures Valid()
      ensures !active && !isOpen && !IsOpen()
      ensures pending == [] && concluded == old(concluded) + AbortEach(old(pending))
    {
      if active && isOpen {
        var aborted := AbortAllSubmissions();
      } else {
        assert AbortEach([]) == [];
      }
      active := false;
      isOpen := false;
    }

    /** The pipe's configuration and interface setting become active; the pipe stays closed. */
    method Activate()
      requires Valid()
      modifies this`active
      ensures Valid()
      ensures active && isOpen == old(isOpen)
    {
      active := true;
    }
  }

  lemma {:induction false} AbortEachAppend(irps: seq<IrpState>, last: IrpState)
    ensures AbortEach(irps + [last]) == AbortEach(irps) + [Abort(last)]
  {
  }

  /** Open is idempotent: opening an open pipe leaves it open and succeeds. */
  method OpenTwice(pipe: UsbPipe) returns (first: Outcome<Exception>, second: Outcome<Exception>)
    requires pipe.Valid() && pipe.active
    modifies pipe`isOpen
    ensures first.Pass? ==> second.Pass? && pipe.IsOpen()
  {
    first := pipe.Open(None);
    second := pipe.Open(None);
  }
}
