# javax.usb core, modelled in Dafny

This project models the core of javax.usb, the Java API for USB. Most of
that API is a set of interfaces whose documentation states the behaviour,
and a few classes implement parts of it. The model covers both.

- **UsbIrp** (`usb_irp.dfy`). An I/O Request Packet, as section 5.3.2 of the
  USB 1.1 specification describes it. It holds a data buffer, an offset, a
  length, the length actually transferred, a short-packet policy, an optional
  UsbException and a completion flag. The interface's promises are written as
  functions from the old state to the new one. This module is the reference
  the rest of the model is held to. It also fixes how an implementation
  concludes a submission: it sets the actual length, then the exception if
  there is one, and calls `complete()` last.
- **DefaultUsbIrp** (`default_usb_irp.dfy`). The implementation class with
  its fields and guarded setters. Each setter is tied to the matching
  UsbIrp function on a ghost `State()`. The places where the class departs
  from its interface are stated as methods (see "Implementation versus
  interface" below).
- **UsbCompositeIrp** (`usb_composite_irp.dfy`). An ordered list of child
  IRPs. Its data length, its data and its short-packet policy are folds over
  the list. `setData` and `setAcceptShortPacket` update every child. The
  composite's outcome is decided by a pluggable CompositeErrorCommand.
- **UsbPipe** (`usb_pipe.dfy`). A state machine over "active", "open" and the
  queue of pending asynchronous submissions. The transport is a free
  choice among the results that fit the submitted buffer.
- **UsbUtil** (`usb_util.dfy`). Unsigned conversions of byte, short and int,
  and fixed-width hexadecimal formatting. The pad-and-truncate loop of
  `toHexString(long, char, int, int)` is a method proved against a
  specification function.
- **DefaultRequestBundle** (`default_request_bundle.dfy`). A list of
  Requests that may change only while the bundle is not in submission.
- **UsbDeviceDataEvent** (`usb_device_data_event.dfy`). The event checks its
  bounds and keeps its own copy of the data that was transferred.
- **UsbConst** (`usb_const.dfy`). The masks and values of bmRequestType
  (section 9.3, table 9-2 of USB 1.1), of the endpoint address and endpoint
  attributes (section 9.6.4, table 9-10), of the configuration attributes,
  and the minimum descriptor lengths. Each field is decoded by AND with its
  mask.

Shared definitions: `wrappers.dfy` holds Option, Result and Outcome. Result
and Outcome stand for a value or a thrown exception. `java_types.dfy` holds
Java's signed integer widths. `usb_errors.dfy` holds the exceptions as
datatype constructors.

Java arrays that the source changes in place, or shares, stay `array`s:
DefaultUsbIrp's buffer and UsbDeviceDataEvent's copy. IRPs held by a
composite or a pipe are values (`IrpState`).

Several promises hold only by convention: `getData()` is never null, and
`getOffset()` and the lengths are never negative. These are predicates
(`UsbIrp.NonNegative`, `UsbIrp.ReadyForSubmission`), and the setters are
proved to keep them.

### Implementation versus interface

Where DefaultUsbIrp and the UsbIrp documentation disagree, the class is
modelled as written. Each difference is stated by a member of
`default_usb_irp.dfy`:

- `setData(d)` in the class leaves the length alone. The interface says it
  resets the length to `d.length` (`DefaultUsbIrp.SetDataLengthDivergence`).
- `setData(null)` in the class stores a new empty array. The interface says
  it throws IllegalArgumentException (`DefaultUsbIrp.SetDataNullDivergence`).
- The class's no-argument constructor leaves offset, length and actual length
  at -1. The interface promises 0, the full buffer length, and never a
  negative value (`DefaultUsbIrp.DefaultsDivergence`).
- `setData(d)` stores `d` itself, so later writes to the caller's array are
  seen through `getData()` (`DefaultUsbIrp.SetDataAliases`).

`UsbUtil.unsignedShort(byte)` returns `0x00ff & ((short)b)`. In Java that
expression is an `int`, so returning it as a `short` needs a cast the line
lacks. Only the value it evidently means is modelled.

### Choices where the documentation is open

- A composite child's "data length" is its actual length. `getData`
  packs the children's valid data one after another, in list order, from the
  start of each child's buffer. The rest of the new buffer stays zero.
- When a CompositeErrorCommand stops submission, each child after the one
  that failed is aborted. An aborted child has actual length 0, a UsbException
  of kind Aborted, and is complete. Pending pipe submissions are aborted the
  same way by `abortAllSubmissions`.
- `close()` with submissions pending fails with a UsbException of kind
  InProgress and leaves the pipe open.
- The list submissions check for an empty list before they check whether
  the pipe is active and open.
- Any use of an inactive pipe throws NotActiveException, as the class
  documentation says, including the submissions and `abortAllSubmissions`,
  whose own documentation names only NotOpenException. An active pipe that is
  not open throws NotOpenException.
- When a pipe's configuration or interface setting stops being active, its
  pending submissions are aborted as `abortAllSubmissions` would, and the
  pipe is closed. It stays closed when it becomes active again.

## Model

| member | source | states |
|---|---|---|
| UsbIrp.DefaultIsReady | src/javax/usb/UsbIrp.java:20-27 | A new IRP has an empty buffer, a length equal to that buffer, accepts short packets, has no exception and is not complete, so it may be submitted |
| UsbIrp.SetDataResetsLength | src/javax/usb/UsbIrp.java:83-91 | After setData(d) with d non-null, the data is d and the length is d's length; setData(null) is an IllegalArgumentException |
| UsbIrp.SettersKeepNonNegative | src/javax/usb/UsbIrp.java:93-119 | setOffset, setLength and setActualLength fail exactly on a negative argument, so no setter makes offset or a length negative |
| UsbIrp.PreparationKeepsReady | src/javax/usb/UsbIrp.java:20-34 | Setting data, offset, length or the short-packet policy keeps an IRP ready for submission |
| UsbIrp.ResultingException | src/javax/usb/UsbIrp.java:141-151 | No exception is recorded exactly when the transport reported none and the transfer was not a refused short packet; a transport error is recorded as it is, and otherwise the exception is a ShortPacket UsbException |
| UsbIrp.Conclude | src/javax/usb/UsbIrp.java:169-180 | After processing the IRP is complete and holds the transferred length; the exception it records is exactly the one ResultingException gives, so it reflects the cause; data, offset, length and policy are unchanged |
| UsbIrp.ConcludeIsCompletion | src/javax/usb/UsbIrp.java:36-37 | Concluding a submission yields a completion of it: complete, same buffer, actual length within the requested length |
| UsbIrp.Abort | src/javax/usb/UsbPipe.java:234-239 | An aborted IRP is complete, transferred nothing and records an Aborted UsbException; its buffer and lengths are kept |
| UsbIrp.AbortIsCompletion | src/javax/usb/UsbPipe.java:234-239 | Aborting a submitted IRP completes it with an exception |
| DefaultUsbIrp.DefaultUsbIrp.constructor | src/javax/usb/util/DefaultUsbIrp.java:231-237 | The no-argument constructor yields an empty new buffer, not complete, short packets accepted, no exception, and -1 for offset, length and actual length |
| DefaultUsbIrp.DefaultUsbIrp.Create | src/javax/usb/util/DefaultUsbIrp.java:45-51 | The four-argument constructor fails with IllegalArgumentException exactly when offset or length is negative, and otherwise holds exactly the given data, offset, length and policy |
| DefaultUsbIrp.DefaultUsbIrp.SetData | src/javax/usb/util/DefaultUsbIrp.java:65-71 | setData stores the given array itself, or a new empty array for null, and changes no other field |
| DefaultUsbIrp.DefaultUsbIrp.SetOffset | src/javax/usb/util/DefaultUsbIrp.java:84-90 | A negative offset is refused with IllegalArgumentException and the offset is kept; otherwise only the offset changes; this agrees with the interface's setOffset |
| DefaultUsbIrp.DefaultUsbIrp.SetLength | src/javax/usb/util/DefaultUsbIrp.java:103-109 | The same reject-negative, change-one-field rule for the length |
| DefaultUsbIrp.DefaultUsbIrp.SetActualLength | src/javax/usb/util/DefaultUsbIrp.java:122-128 | The same reject-negative, change-one-field rule for the actual length |
| DefaultUsbIrp.DefaultUsbIrp.IsUsbException | src/javax/usb/util/DefaultUsbIrp.java:134 | isUsbException holds exactly when an exception is stored, as the interface requires |
| DefaultUsbIrp.DefaultUsbIrp.SetUsbException | src/javax/usb/util/DefaultUsbIrp.java:146 | setUsbException changes only the stored exception, as the interface's setter does |
| DefaultUsbIrp.DefaultUsbIrp.SetAcceptShortPacket | src/javax/usb/util/DefaultUsbIrp.java:158 | setAcceptShortPacket changes only the policy, as the interface's setter does |
| DefaultUsbIrp.DefaultUsbIrp.SetComplete | src/javax/usb/util/DefaultUsbIrp.java:170 | setComplete(b) sets the flag to b, so completion can be reset |
| DefaultUsbIrp.DefaultUsbIrp.Complete | src/javax/usb/util/DefaultUsbIrp.java:181-185 | complete() makes isComplete true and changes no other field |
| DefaultUsbIrp.SetDataLengthDivergence | src/javax/usb/util/DefaultUsbIrp.java:65-71 | After setData(d) on a new object the class still reports length -1, while the interface's setData sets it to d's length |
| DefaultUsbIrp.SetDataNullDivergence | src/javax/usb/util/DefaultUsbIrp.java:67-68 | setData(null) leaves an empty buffer in the class, while the interface throws IllegalArgumentException |
| DefaultUsbIrp.DefaultsDivergence | src/javax/usb/util/DefaultUsbIrp.java:234-236 | The class's defaults for offset and length are -1, while the interface's are 0 and never negative |
| DefaultUsbIrp.SetDataAliases | src/javax/usb/util/DefaultUsbIrp.java:70 | A write to the caller's array after setData is seen through getData |
| UsbCompositeIrp.NeverContinue | src/javax/usb/UsbCompositeIrp.java:244-248 | The default CompositeErrorCommand never lets submission continue, whatever the composite and the failing child |
| UsbCompositeIrp.ListAt | src/javax/usb/UsbCompositeIrp.java:229-248 | The composite the command is shown when child i fails: every child up to i concluded, every later child still as submitted |
| UsbCompositeIrp.Packed | src/javax/usb/UsbCompositeIrp.java:49-56 | The packed valid data is as long as the children's data lengths added up, which never exceeds their buffer lengths added up |
| UsbCompositeIrp.CompositeDataAt | src/javax/usb/UsbCompositeIrp.java:45-56 | Byte j of child k's data appears in getData's buffer at the sum of the data lengths of the children before k, plus j |
| UsbCompositeIrp.CompositeDataShape | src/javax/usb/UsbCompositeIrp.java:49-56 | getData's buffer is as long as all child buffers together; the packed data comes first and the rest is zero |
| UsbCompositeIrp.SumActualLengthsAppend | src/javax/usb/UsbCompositeIrp.java:60-62 | The composite data length of two lists joined is the sum of their data lengths, so it adds up child by child in list order |
| UsbCompositeIrp.FirstStop | src/javax/usb/UsbCompositeIrp.java:225-249 | Submission stops at the first child, in list order, that failed and for which the command returned false, or nowhere if there is none |
| UsbCompositeIrp.OutcomeComplete | src/javax/usb/UsbCompositeIrp.java:74-77 | After processing every child has concluded, so the composite is complete and each child's data lies within its buffer |
| UsbCompositeIrp.AllSucceedMeansSuccess | src/javax/usb/UsbCompositeIrp.java:96-97 | If every child succeeds, the composite has no exception and every child holds its own result |
| UsbCompositeIrp.AlwaysContinueMeansSuccess | src/javax/usb/UsbCompositeIrp.java:101-111 | If the command continues for every composite and child, the composite has no exception even if every child failed, and the children keep their own exceptions |
| UsbCompositeIrp.StopAtChild | src/javax/usb/UsbCompositeIrp.java:102-107 | If the command stops at child k, the composite's exception is child k's; the children up to k concluded normally and every later child was aborted |
| UsbCompositeIrp.DefaultCommandStopsAtFirstFailure | src/javax/usb/UsbCompositeIrp.java:244 | With the default command, the composite fails with the first failing child's exception and every later child is aborted |
| UsbCompositeIrp.CompositeIrp.constructor | src/javax/usb/UsbCompositeIrp.java:244 | A new composite has no children and a command that never continues |
| UsbCompositeIrp.CompositeIrp.SetCompositeErrorCommand | src/javax/usb/UsbCompositeIrp.java:216-220 | setCompositeErrorCommand installs the given command |
| UsbCompositeIrp.CompositeIrp.SetData | src/javax/usb/UsbCompositeIrp.java:63-66 | setData(d) gives every child a buffer equal to d in size and contents, as the child's setData does; null is refused and nothing changes |
| UsbCompositeIrp.CompositeIrp.SetAcceptShortPacket | src/javax/usb/UsbCompositeIrp.java:154-159 | setAcceptShortPacket(b) sets every child's policy to b, so for a non-empty list getAcceptShortPacket is then b |
| UsbCompositeIrp.CompositeIrp.Process | src/javax/usb/UsbCompositeIrp.java:88-111 | Processing runs the children in list order and leaves them, and returns the composite's exception, exactly as the outcome rule says; afterwards the composite is complete |
| UsbPipe.IrpFor | src/javax/usb/UsbPipe.java:136-138 | The IRP that represents a byte[] submission covers the whole buffer, accepts short packets and is ready for submission |
| UsbPipe.AbortEachCompletes | src/javax/usb/UsbPipe.java:234-239 | Aborting the pending submissions completes each of them, with an exception |
| UsbPipe.UsbPipe.constructor | src/javax/usb/UsbPipe.java:29-31 | A pipe starts closed, with nothing pending, and active as its configuration and interface setting are |
| UsbPipe.UsbPipe.IsOpen | src/javax/usb/UsbPipe.java:75-84 | isOpen is never true on an inactive pipe |
| UsbPipe.UsbPipe.Open | src/javax/usb/UsbPipe.java:37-50 | open on an inactive pipe is a NotActiveException; on an open pipe it does nothing; otherwise it opens the pipe or fails with the platform's UsbException; it succeeds exactly when the pipe is then open |
| UsbPipe.UsbPipe.Close | src/javax/usb/UsbPipe.java:52-62 | close on an inactive pipe is a NotActiveException; on a closed pipe it does nothing; it fails while submissions are pending; a successful close leaves the pipe closed |
| UsbPipe.UsbPipe.SyncSubmit | src/javax/usb/UsbPipe.java:92-119 | Submitting a byte[] is a NotActiveException on an inactive pipe and a NotOpenException on a closed one; the count returned never exceeds the buffer's length; any other failure is a UsbException |
| UsbPipe.UsbPipe.SyncSubmitIrp | src/javax/usb/UsbPipe.java:147-167 | Submitting an IRP is a NotActiveException or NotOpenException unless the pipe is open, the IRP untouched; otherwise the IRP completes, and the call throws exactly the UsbException the IRP records |
| UsbPipe.UsbPipe.SyncSubmitList | src/javax/usb/UsbPipe.java:192-211 | An empty list is an IllegalArgumentException, then NotActiveException or NotOpenException unless open; otherwise the IRPs are submitted in list order as single submissions, and the first UsbException ends the call with later IRPs untouched |
| UsbPipe.UsbPipe.AsyncSubmit | src/javax/usb/UsbPipe.java:121-145 | Queuing a byte[] is a NotActiveException or NotOpenException unless the pipe is open; otherwise a new IRP for the buffer joins the end of the pending queue and is returned |
| UsbPipe.UsbPipe.AsyncSubmitIrp | src/javax/usb/UsbPipe.java:169-190 | Queuing an IRP is a NotActiveException or NotOpenException unless the pipe is open; otherwise the IRP joins the end of the pending queue |
| UsbPipe.UsbPipe.AsyncSubmitList | src/javax/usb/UsbPipe.java:213-232 | An empty list is an IllegalArgumentException, then NotActiveException or NotOpenException unless open; otherwise the IRPs join the queue in list order |
| UsbPipe.UsbPipe.TransportComplete | src/javax/usb/UsbPipe.java:124-126 | The queued submissions complete one at a time, oldest first, each as a completion of the IRP that was queued |
| UsbPipe.UsbPipe.AbortAllSubmissions | src/javax/usb/UsbPipe.java:234-242 | abortAllSubmissions is a NotActiveException or NotOpenException unless the pipe is open; otherwise every pending submission is aborted, in order, and none is left pending |
| UsbPipe.UsbPipe.Deactivate | src/javax/usb/UsbPipe.java:63-84 | When the configuration or interface setting stops being active, the pipe is inactive and not open, and its pending submissions are aborted in order with none left pending |
| UsbPipe.UsbPipe.Activate | src/javax/usb/UsbPipe.java:63-72 | When the configuration and interface setting become active again, the pipe is active and still closed until it is opened |
| UsbPipe.OpenTwice | src/javax/usb/UsbPipe.java:46 | Opening an open pipe again succeeds and leaves it open |
| UsbUtil.UnsignedShort | src/javax/usb/util/UsbUtil.java:34 | unsignedShort(byte) lies in 0..255 and equals the byte modulo 256 |
| UsbUtil.UnsignedIntOfByte | src/javax/usb/util/UsbUtil.java:52 | unsignedInt(byte) lies in 0..255 and equals the byte modulo 256 |
| UsbUtil.UnsignedIntOfShort | src/javax/usb/util/UsbUtil.java:70 | unsignedInt(short) lies in 0..65535 and equals the short modulo 65536 |
| UsbUtil.UnsignedLongOfByte | src/javax/usb/util/UsbUtil.java:88 | unsignedLong(byte), a 64-bit AND with 0xff, lies in 0..255 and equals the byte modulo 256 |
| UsbUtil.LongAndAllOnes | src/javax/usb/util/UsbUtil.java:119 | Java's long `&` with a mask whose 64 bits are all set, as the widened int -1 is, returns the other operand unchanged |
| UsbUtil.LongAndLowMask | src/javax/usb/util/UsbUtil.java:88-119 | Java's long `&` with the mask of the low 8, 16 or 32 bits gives the other operand modulo 2^8, 2^16 or 2^32, for negative operands too |
| UsbUtil.UnsignedLongOfShort | src/javax/usb/util/UsbUtil.java:106 | unsignedLong(short), a 64-bit AND with 0xffff, lies in 0..65535 and equals the short modulo 65536 |
| UsbUtil.UnsignedLongOfIntAsWritten | src/javax/usb/util/UsbUtil.java:119 | unsignedLong(int) as written, a 64-bit AND with the int literal -1 widened to long, returns its argument unchanged |
| UsbUtil.UnsignedLongOfIntAsWrittenIsNegative | src/javax/usb/util/UsbUtil.java:119 | For every negative int, unsignedLong as written is negative, and 2^32 below the unsigned value |
| UsbUtil.UnsignedLongOfInt | src/javax/usb/util/UsbUtil.java:111-119 | The intended unsignedLong(int), a 64-bit AND with 0xffffffffL, lies in 0..2^32-1 and equals the int modulo 2^32 |
| UsbUtil.HexDigitRoundTrip | src/javax/usb/util/UsbUtil.java:182 | Each hex digit reads back as the value it was written for |
| UsbUtil.ToHex | src/javax/usb/util/UsbUtil.java:182 | Long.toHexString of an unsigned value is a non-empty string of hex digits with no leading zero |
| UsbUtil.ToHexRoundTrip | src/javax/usb/util/UsbUtil.java:182 | The hex string of n reads back as n |
| UsbUtil.ToHexLength | src/javax/usb/util/UsbUtil.java:182 | The hex string of n has at most w digits exactly when n is below 16^w |
| UsbUtil.PadLeft | src/javax/usb/util/UsbUtil.java:187-188 | Padding keeps the string at the end, puts only the pad character before it, and makes the result exactly the requested width, or leaves a longer string as it is |
| UsbUtil.ToHexString | src/javax/usb/util/UsbUtil.java:180-191 | The pad-and-truncate loop returns exactly what the specification function gives: the plain hex when max < min, an exception when min is negative, else the padded string cut to min |
| UsbUtil.ToHexStringUnpadded | src/javax/usb/util/UsbUtil.java:184-185 | With max < min the result is Long.toHexString of the value, unchanged |
| UsbUtil.ToHexStringExactLength | src/javax/usb/util/UsbUtil.java:187-190 | With 0 <= min <= max the result has exactly min characters: pad characters up to max, then the hex digits, cut to the first min |
| UsbUtil.FixedWidthHex | src/javax/usb/util/UsbUtil.java:187-190 | A value below 16^w, formatted with '0' to width w, is exactly w hex digits that read back as the value |
| UsbUtil.ByteToHexString | src/javax/usb/util/UsbUtil.java:128-131 | toHexString(byte) has exactly 2 hex digits reading back as the unsigned byte |
| UsbUtil.ShortToHexString | src/javax/usb/util/UsbUtil.java:140-143 | toHexString(short) has exactly 4 hex digits reading back as the unsigned short |
| UsbUtil.IntToHexString | src/javax/usb/util/UsbUtil.java:152-155 | toHexString(int), with the intended unsignedLong, has exactly 8 hex digits reading back as the unsigned int |
| UsbUtil.IntToHexStringAsWritten | src/javax/usb/util/UsbUtil.java:152-155 | toHexString(int) as written has 8 hex digits; they read back as the int when it is non-negative, and as 0xffffffff for every negative int |
| UsbUtil.NegativeIntAsWrittenHex | src/javax/usb/util/UsbUtil.java:152-155 | For a negative int the padded-and-truncated hex as written is "ffffffff" |
| UsbUtil.IntToHexStringAsWrittenCounterexample | src/javax/usb/util/UsbUtil.java:119 | For -2^31 the intended unsigned value is 0x80000000 but the string as written is "ffffffff" |
| UsbUtil.LongToHexStringPadded | src/javax/usb/util/UsbUtil.java:164-167 | toHexString(long) has exactly 16 hex digits reading back as the long modulo 2^64 |
| UsbConst.RequestTypeDirection | src/javax/usb/UsbConst.java:92-106 | Decoding the direction always gives IN or OUT, and IN exactly when the top bit is set |
| UsbConst.RequestTypeType | src/javax/usb/UsbConst.java:109-127 | Decoding the type stays within the type mask and is standard, class, vendor or the reserved 0x60 |
| UsbConst.RequestTypeRecipient | src/javax/usb/UsbConst.java:130-154 | Decoding the recipient gives the low five bits |
| UsbConst.RequestTypeMasksPartitionTheByte | src/javax/usb/UsbConst.java:93-130 | The direction, type and recipient masks are pairwise disjoint and together cover all 8 bits |
| UsbConst.RequestTypeValuesWithinMasks | src/javax/usb/UsbConst.java:100-154 | Every direction, type and recipient value lies within its own mask |
| UsbConst.RequestTypeRoundTrip | src/javax/usb/UsbConst.java:100-154 | OR-ing one direction, one type and one recipient value and decoding with the masks gives the three values back |
| UsbConst.RequestTypeDecomposes | src/javax/usb/UsbConst.java:93-130 | Every bmRequestType is the OR of its three decoded fields |
| UsbConst.EndpointNumber | src/javax/usb/UsbConst.java:31 | The endpoint number is the low four bits of the address |
| UsbConst.EndpointDirection | src/javax/usb/UsbConst.java:33-36 | The endpoint direction is IN or OUT, and IN exactly when the top bit is set |
| UsbConst.EndpointAddressMasksDisjoint | src/javax/usb/UsbConst.java:31-36 | The direction and number masks are disjoint; IN is 0x80 and OUT is 0x00 |
| UsbConst.EndpointType | src/javax/usb/UsbConst.java:38-43 | The endpoint type is one of control, isochronous, bulk and interrupt, the low two bits of the attributes |
| UsbConst.EndpointSynchronizationType | src/javax/usb/UsbConst.java:45-50 | The synchronization type is bits 2 and 3 of bmAttributes kept in place, so it is one of the four listed values |
| UsbConst.EndpointUsageType | src/javax/usb/UsbConst.java:52-57 | The usage type is bits 4 and 5 of bmAttributes kept in place, so it is one of the four listed values |
| UsbConst.EndpointAttributeMasksDisjoint | src/javax/usb/UsbConst.java:38-57 | The type, synchronization and usage masks are disjoint, and each listed value lies within its mask |
| UsbConst.EndpointAttributesDecompose | src/javax/usb/UsbConst.java:38-57 | The type, synchronization and usage fields OR together to the low six bits of bmAttributes |
| UsbConst.ConfigSelfPowered | src/javax/usb/UsbConst.java:22-24 | Self-powered is read exactly from bit 6 of bmAttributes, one of the powered-mask bits |
| UsbConst.ConfigRemoteWakeup | src/javax/usb/UsbConst.java:22-25 | Remote-wakeup is read exactly from bit 5 of bmAttributes, one of the powered-mask bits |
| UsbConst.ConfigFlagsSplitPoweredMask | src/javax/usb/UsbConst.java:22-25 | Self-powered and remote-wakeup are distinct bits that together make up the powered mask |
| UsbConst.ConfigFlagsIndependent | src/javax/usb/UsbConst.java:22-25 | Attributes built from either flag, both or neither decode to exactly those flags |
| UsbConst.ConfigFlagsSetIndependently | src/javax/usb/UsbConst.java:22-25 | For any bmAttributes, setting or clearing one flag makes it read as set or clear and leaves the other flag as it was |
| UsbConst.DescriptorMinimumLengthsCoverHeader | src/javax/usb/UsbConst.java:338-343 | Every minimum descriptor length is at least the 2-byte descriptor header |
| DefaultRequestBundle.IndexOf | src/javax/usb/util/DefaultRequestBundle.java:69 | The index found holds the Request and no earlier element equals it, or there is none |
| DefaultRequestBundle.RemoveFirst | src/javax/usb/util/DefaultRequestBundle.java:65-70 | remove deletes the first element equal to the Request if there is one, and otherwise leaves the list as it was |
| DefaultRequestBundle.RemoveFirstMultiset | src/javax/usb/util/DefaultRequestBundle.java:65-70 | remove takes away one occurrence of the Request and nothing else |
| DefaultRequestBundle.RemoveFirstOfHead | src/javax/usb/util/DefaultRequestBundle.java:83-84 | Removing the Request the iterator has just returned, when it is the first one, drops exactly the first element |
| DefaultRequestBundle.DefaultRequestBundle.constructor | src/javax/usb/util/DefaultRequestBundle.java:30-31 | A new bundle is empty and not in submission |
| DefaultRequestBundle.DefaultRequestBundle.Size | src/javax/usb/util/DefaultRequestBundle.java:88 | size is the number of Requests in the bundle |
| DefaultRequestBundle.DefaultRequestBundle.IsEmpty | src/javax/usb/util/DefaultRequestBundle.java:91 | isEmpty holds exactly when size is 0 |
| DefaultRequestBundle.DefaultRequestBundle.Add | src/javax/usb/util/DefaultRequestBundle.java:48-57 | add is a UsbRuntimeException with the list unchanged while in submission; otherwise the Request goes at the end and size grows by one |
| DefaultRequestBundle.DefaultRequestBundle.Remove | src/javax/usb/util/DefaultRequestBundle.java:65-70 | remove is a UsbRuntimeException with the list unchanged while in submission; otherwise the first equal Request is removed |
| DefaultRequestBundle.DefaultRequestBundle.RemoveAllAsWritten | src/javax/usb/util/DefaultRequestBundle.java:77-85 | The iterator loop as written removes only the first Request, and ends normally only for zero or two Requests, otherwise with a ConcurrentModificationException |
| DefaultRequestBundle.DefaultRequestBundle.RemoveAll | src/javax/usb/util/DefaultRequestBundle.java:72-79 | removeAll as documented is a UsbRuntimeException while in submission and otherwise empties the bundle |
| DefaultRequestBundle.DefaultRequestBundle.Recycle | src/javax/usb/util/DefaultRequestBundle.java:99-108 | recycle with the corrected removeAll leaves the bundle empty unless it is in submission |
| DefaultRequestBundle.DefaultRequestBundle.RecycleAsWritten | src/javax/usb/util/DefaultRequestBundle.java:105-108 | recycle as written calls removeAll as written, so it leaves and throws exactly what that leaves and throws |
| DefaultRequestBundle.RemoveAllAsWrittenLeavesOne | src/javax/usb/util/DefaultRequestBundle.java:81-84 | On a bundle of two Requests the loop as written returns normally and leaves the second one |
| DefaultRequestBundle.RemoveAllAsWrittenDoesNotEmpty | src/javax/usb/util/DefaultRequestBundle.java:81-84 | The loop as written empties the bundle exactly when it held at most one Request, and throws exactly for one or three or more |
| UsbDeviceDataEvent.UsbDeviceDataEvent.constructor | src/javax/usb/event/UsbDeviceDataEvent.java:35-43 | The event keeps the given ControlUsbIrp and a new buffer holding exactly the first length bytes of the data |
| UsbDeviceDataEvent.UsbDeviceDataEvent.Create | src/javax/usb/event/UsbDeviceDataEvent.java:33-43 | Construction fails with IllegalArgumentException when length is negative or beyond the buffer, and otherwise yields an event whose data has exactly length bytes equal to the buffer's first ones |
| UsbDeviceDataEvent.LaterWritesDoNotReachEvent | src/javax/usb/event/UsbDeviceDataEvent.java:19-21 | Writing to the caller's buffer after the event was made leaves the event's data as it was transferred |

## Left out

- Waiting for completion (`waitUntilComplete`, with and without a timeout) is left out. It is a monitor wait driven by the clock and `notifyAll`. Only `complete()`'s effect on the flag is kept.
- How a pipe moves data is left out: segmenting, short-packet detection and the data an IN transfer writes into the buffer. Each transfer's result is a free choice among those that fit.
- Resubmission and the ResubmitDataCommand, ResubmitErrorCommand and EventCommand the composite documentation mentions are left out, along with `isActive`. The UsbIrp interface in this revision declares none of them.
- Device topology and descriptors are left out: UsbDevice, UsbConfig, UsbInterface, UsbEndpoint and the descriptor interfaces. They only expose data the platform fills in.
- UsbHostManager and UsbServices are left out. They load configuration and bootstrap the platform.
- The pipe events, the error events, ControlUsbIrp's getters, Request and the exception classes are plain holders. ControlUsbIrp is a datatype and the exceptions are datatype constructors.
- The USB_*_ERR_* codes of UsbConst are left out. ERR_BASE is declared twice and refers to constants that are not part of this model, so their numbering cannot be stated. A UsbException carries only a kind.
- The REQUEST_*, DESCRIPTOR_TYPE_*, DEVICE_CLASS and PIPE constants of UsbConst are left out. No modelled operation uses them.
- Thread safety is left out: `synchronizedUsbPipe`, the `synchronized` add and remove of the bundle, and pipe listeners. Everything is single-threaded.
- DefaultRequestBundle.requestIterator is left out. It only throws "not yet implemented".
- UsbCompositeIrp.CompositeIrp.SetData: children are values, so "each child gets its own new buffer, shared with no other child" holds trivially and is not stated about arrays.
- UsbCompositeIrp.CompositeIrp.GetData: a new copy is made on each call in Java; as a function of the children the model cannot show the freshness.
- Sequence numbers are left out. The UsbIrp interface in this revision has no sequence number, so the composite's note that the pipe gives the composite and its children unique numbers at submission has nothing to attach to.
- UsbCompositeIrp.CompositeIrp.Process: the CompositeErrorCommand is a function of the composite's list of children and the failing child. A command whose answer depends on anything else, such as the clock or calls from outside the composite, is not captured.
- UsbCompositeIrp.CompositeIrp.Process: children are processed strictly one after another. The documentation allows overlapping children that transfer before the command runs, and that overlap is not modelled.
- UsbPipe.UsbPipe.AsyncSubmit: the returned IRP is a value, so the caller's copy does not see its own completion; completions are visible only in the pipe's `concluded` list.
- UsbPipe.UsbPipe.AsyncSubmitIrp: IRPs are values, so the caller's UsbIrp object is not updated in place when the submission concludes, and submitting the same object twice cannot be told apart from submitting two equal IRPs.
- UsbPipe.UsbPipe.AsyncSubmitList: the IllegalArgumentException for a list holding objects that are not UsbIrps is left out, because the list is typed as IRPs; the same holds for UsbPipe.UsbPipe.SyncSubmitList.
- UsbCompositeIrp.CompositeIrp: children are values, so a child UsbIrp the caller also holds is not updated in place, and the same UsbIrp cannot appear twice as one shared object.
- UsbPipe.UsbPipe.SyncSubmit: does not state that, on success, the transfer obeyed the IRP's short-packet policy, because a byte[] submission always accepts short packets.
- The UsbDevice passed to UsbDeviceDataEvent's constructor is not part of this model, so a null device is not checked.
- The Control-pipe rule that submitted IRPs must be ControlUsbIrps is left out. Endpoint types are not part of the pipe model.

## Findings

| source | as written | input that shows it | evidently intended | confidence | as-written member | corrected member |
|---|---|---|---|---|---|---|
| src/javax/usb/util/UsbUtil.java:119 | `unsignedLong(int)` masks with `0x00000000ffffffff`. Without an `L` suffix that is the int -1, which widens to the long -1, so the mask keeps every bit | i = -1 gives -1, not 4294967295 | mask with the long 0xffffffffL, giving i modulo 2^32 | high; not executed | UsbUtil.UnsignedLongOfIntAsWrittenIsNegative | UsbUtil.UnsignedLongOfInt |
| src/javax/usb/util/UsbUtil.java:152-155 | `toHexString(int)` formats `unsignedLong(i)`. For a negative i that value is negative, its 16-digit hex is cut to the first 8 digits, and those are all "f" | i = -0x80000000 gives "ffffffff", not "80000000" | the 8 hex digits of i modulo 2^32 | high; not executed | UsbUtil.IntToHexStringAsWrittenCounterexample | UsbUtil.IntToHexString |
| src/javax/usb/util/DefaultRequestBundle.java:81-84 | `removeAll` removes each Request through the list while an iterator walks that same list | a bundle [a, b] returns normally and keeps [b]; [a, b, c] throws ConcurrentModificationException and keeps [b, c] | empty the bundle, as the comment at line 73 says; `recycle()` calls this `removeAll` and inherits the defect | high; not executed | DefaultRequestBundle.RemoveAllAsWrittenLeavesOne | DefaultRequestBundle.DefaultRequestBundle.RemoveAll |
