/**
 * Bit-field constants of javax.usb.UsbConst and the field decoders their
 * "bit mask" comments describe: a field is read by AND-ing the raw byte with
 * its mask.  Java declares the constants as signed `byte`s ((byte)0x80 is -128);
 * here they are the same eight bits as `bv8`.
 */
module UsbConst {

  // Configuration bmAttributes (USB 1.1 section 9.6.2)
  const CONFIG_POWERED_MASK: bv8 := 0x60
  const CONFIG_SELF_POWERED: bv8 := 0x40
  const CONFIG_REMOTE_WAKEUP: bv8 := 0x20

  // Endpoint bEndpointAddress (USB 1.1 section 9.6.4, table 9-10)
  const ENDPOINT_NUMBER_MASK: bv8 := 0x0f
  const ENDPOINT_DIRECTION_MASK: bv8 := 0x80
  const ENDPOINT_DIRECTION_OUT: bv8 := 0x00
  const ENDPOINT_DIRECTION_IN: bv8 := 0x80

  // Endpoint bmAttributes (USB 1.1 section 9.6.4, table 9-10)
  const ENDPOINT_TYPE_MASK: bv8 := 0x03
  const ENDPOINT_TYPE_CONTROL: bv8 := 0x00
  const ENDPOINT_TYPE_ISOC: bv8 := 0x01
  const ENDPOINT_TYPE_BULK: bv8 := 0x02
  const ENDPOINT_TYPE_INT: bv8 := 0x03

  const ENDPOINT_SYNCHRONIZATION_TYPE_MASK: bv8 := 0x0c
  const ENDPOINT_SYNCHRONIZATION_TYPE_NONE: bv8 := 0x00
  const ENDPOINT_SYNCHRONIZATION_TYPE_ASYNCHRONOUS: bv8 := 0x04
  const ENDPOINT_SYNCHRONIZATION_TYPE_ADAPTIVE: bv8 := 0x08
  const ENDPOINT_SYNCHRONIZATION_TYPE_SYNCHRONOUS: bv8 := 0x0c

  const ENDPOINT_USAGE_TYPE_MASK: bv8 := 0x30
  const ENDPOINT_USAGE_TYPE_DATA: bv8 := 0x00
  const ENDPOINT_USAGE_TYPE_FEEDBACK: bv8 := 0x10
  const ENDPOINT_USAGE_TYPE_IMPLICIT_FEEDBACK_DATA: bv8 := 0x20
  const ENDPOINT_USAGE_TYPE_RESERVED: bv8 := 0x30

  // Request bmRequestType (USB 1.1 section 9.3, table 9-2)
  const REQUESTTYPE_DIRECTION_MASK: bv8 := 0x80
  const REQUESTTYPE_DIRECTION_OUT: bv8 := 0x00
  const REQUESTTYPE_DIRECTION_IN: bv8 := 0x80

  const REQUESTTYPE_TYPE_MASK: bv8 := 0x60
  const REQUESTTYPE_TYPE_STANDARD: bv8 := 0x00
  const REQUESTTYPE_TYPE_CLASS: bv8 := 0x20
  const REQUESTTYPE_TYPE_VENDOR: bv8 := 0x40

  const REQUESTTYPE_RECIPIENT_MASK: bv8 := 0x1f
  const REQUESTTYPE_RECIPIENT_DEVICE: bv8 := 0x00
  const REQUESTTYPE_RECIPIENT_INTERFACE: bv8 := 0x01
  const REQUESTTYPE_RECIPIENT_ENDPOINT: bv8 := 0x02
  const REQUESTTYPE_RECIPIENT_OTHER: bv8 := 0x03

  // Minimum descriptor lengths (USB 1.1 chapter 9)
  const DESCRIPTOR_MIN_LENGTH: bv8 := 0x02
  const DESCRIPTOR_MIN_LENGTH_DEVICE: bv8 := 0x12
  const DESCRIPTOR_MIN_LENGTH_CONFIG: bv8 := 0x09
  const DESCRIPTOR_MIN_LENGTH_INTERFACE: bv8 := 0x09
  const DESCRIPTOR_MIN_LENGTH_ENDPOINT: bv8 := 0x07
  const DESCRIPTOR_MIN_LENGTH_STRING: bv8 := 0x02

  /** True when `x` has no bit set outside `mask`. */
  predicate WithinMask(x: bv8, mask: bv8) {
    x & !mask == 0
  }

  // ---------------------------------------------------------------- bmRequestType

  predicate IsRequestTypeDirection(d: bv8) {
    d == REQUESTTYPE_DIRECTION_OUT || d == REQUESTTYPE_DIRECTION_IN
  }

  predicate IsRequestTypeType(t: bv8) {
    t == REQUESTTYPE_TYPE_STANDARD || t == REQUESTTYPE_TYPE_CLASS || t == REQUESTTYPE_TYPE_VENDOR
  }

  predicate IsRequestTypeRecipient(r: bv8) {
    r == REQUESTTYPE_RECIPIENT_DEVICE || r == REQUESTTYPE_RECIPIENT_INTERFACE
    || r == REQUESTTYPE_RECIPIENT_ENDPOINT || r == REQUESTTYPE_RECIPIENT_OTHER
  }

  /** The direction field of a bmRequestType byte: always OUT or IN. */
  function RequestTypeDirection(bmRequestType: bv8): (d: bv8)
    ensures IsRequestTypeDirection(d)
    ensures d == REQUESTTYPE_DIRECTION_IN <==> bmRequestType >= 0x80
  {
    bmRequestType & REQUESTTYPE_DIRECTION_MASK
  }

  /**
   * The type field of a bmRequestType byte.  The two-bit field also admits
   * 0x60, which table 9-2 reserves: every other value is a named type.
   */
  function RequestTypeType(bmRequestType: bv8): (t: bv8)
    ensures WithinMask(t, REQUESTTYPE_TYPE_MASK)
    ensures IsRequestTypeType(t) || t == 0x60
  {
    bmRequestType & REQUESTTYPE_TYPE_MASK
  }

  /** The recipient field of a bmRequestType byte: the low five bits. */
  function RequestTypeRecipient(bmRequestType: bv8): (r: bv8)
    ensures r < 0x20
    ensures r as int == bmRequestType as int % 0x20
  {
    bmRequestType & REQUESTTYPE_RECIPIENT_MASK
  }

  /** A bmRequestType byte built from one value of each field. */
  function RequestType(direction: bv8, requestType: bv8, recipient: bv8): bv8 {
    direction | requestType | recipient
  }

  /** The three bmRequestType masks are pairwise disjoint and together cover all eight bits. */
  lemma RequestTypeMasksPartitionTheByte()
    ensures REQUESTTYPE_DIRECTION_MASK & REQUESTTYPE_TYPE_MASK == 0
    ensures REQUESTTYPE_DIRECTION_MASK & REQUESTTYPE_RECIPIENT_MASK == 0
    ensures REQUESTTYPE_TYPE_MASK & REQUESTTYPE_RECIPIENT_MASK == 0
    ensures REQUESTTYPE_DIRECTION_MASK | REQUESTTYPE_TYPE_MASK | REQUESTTYPE_RECIPIENT_MASK == 0xff
  {
  }

  /** Every named field value lies inside its own mask. */
  lemma RequestTypeValuesWithinMasks(d: bv8, t: bv8, r: bv8)
    requires IsRequestTypeDirection(d) && IsRequestTypeType(t) && IsRequestTypeRecipient(r)
    ensures WithinMask(d, REQUESTTYPE_DIRECTION_MASK)
    ensures WithinMask(t, REQUESTTYPE_TYPE_MASK)
    ensures WithinMask(r, REQUESTTYPE_RECIPIENT_MASK)
  {
  }

  /** OR-ing one value of each field and decoding with the masks gives the three fields back. */
  lemma RequestTypeRoundTrip(d: bv8, t: bv8, r: bv8)
    requires IsRequestTypeDirection(d) && IsRequestTypeType(t) && IsRequestTypeRecipient(r)
    ensures RequestTypeDirection(RequestType(d, t, r)) == d
    ensures RequestTypeType(RequestType(d, t, r)) == t
    ensures RequestTypeRecipient(RequestType(d, t, r)) == r
  {
  }

  /** Every byte is the OR of its three decoded fields. */
  lemma RequestTypeDecomposes(bmRequestType: bv8)
    ensures RequestType(RequestTypeDirection(bmRequestType), RequestTypeType(bmRequestType),
                        RequestTypeRecipient(bmRequestType)) == bmRequestType
  {
  }

  // ---------------------------------------------------------------- endpoint address

  /** The endpoint number: the low four bits of bEndpointAddress. */
  function EndpointNumber(bEndpointAddress: bv8): (n: bv8)
    ensures n < 0x10
    ensures n as int == bEndpointAddress as int % 0x10
  {
    bEndpointAddress & ENDPOINT_NUMBER_MASK
  }

  /** The endpoint direction: IN exactly when the top bit is set, OUT otherwise. */
  function EndpointDirection(bEndpointAddress: bv8): (d: bv8)
    ensures d == ENDPOINT_DIRECTION_IN || d == ENDPOINT_DIRECTION_OUT
    ensures d == ENDPOINT_DIRECTION_IN <==> bEndpointAddress >= 0x80
  {
    bEndpointAddress & ENDPOINT_DIRECTION_MASK
  }

  /** The direction and number masks are disjoint, and IN and OUT differ. */
  lemma EndpointAddressMasksDisjoint()
    ensures ENDPOINT_DIRECTION_MASK & ENDPOINT_NUMBER_MASK == 0
    ensures ENDPOINT_DIRECTION_IN == ENDPOINT_DIRECTION_MASK && ENDPOINT_DIRECTION_OUT == 0
  {
  }

  // ---------------------------------------------------------------- endpoint attributes

  /** The transfer type: every value of the two-bit field is one of the four named types. */
  function EndpointType(bmAttributes: bv8): (t: bv8)
    ensures t == ENDPOINT_TYPE_CONTROL || t == ENDPOINT_TYPE_ISOC
         || t == ENDPOINT_TYPE_BULK || t == ENDPOINT_TYPE_INT
    ensures t as int == bmAttributes as int % 4
  {
    bmAttributes & ENDPOINT_TYPE_MASK
  }

  /**
   * The synchronization type: bits 2 and 3 of bmAttributes, kept in place, so
   * every value of its field is one of the four named values.
   */
  function EndpointSynchronizationType(bmAttributes: bv8): (s: bv8)
    ensures s == ENDPOINT_SYNCHRONIZATION_TYPE_NONE || s == ENDPOINT_SYNCHRONIZATION_TYPE_ASYNCHRONOUS
         || s == ENDPOINT_SYNCHRONIZATION_TYPE_ADAPTIVE || s == ENDPOINT_SYNCHRONIZATION_TYPE_SYNCHRONOUS
    ensures s == bmAttributes / 4 % 4 * 4
  {
    bmAttributes & ENDPOINT_SYNCHRONIZATION_TYPE_MASK
  }

  /**
   * The usage type: bits 4 and 5 of bmAttributes, kept in place, so every
   * value of its field is one of the four named values.
   */
  function EndpointUsageType(bmAttributes: bv8): (u: bv8)
    ensures u == ENDPOINT_USAGE_TYPE_DATA || u == ENDPOINT_USAGE_TYPE_FEEDBACK
         || u == ENDPOINT_USAGE_TYPE_IMPLICIT_FEEDBACK_DATA || u == ENDPOINT_USAGE_TYPE_RESERVED
    ensures u == bmAttributes / 16 % 4 * 16
  {
    bmAttributes & ENDPOINT_USAGE_TYPE_MASK
  }

  /** The three attribute masks are pairwise disjoint, and each named value lies inside its mask. */
  lemma EndpointAttributeMasksDisjoint()
    ensures ENDPOINT_TYPE_MASK & ENDPOINT_SYNCHRONIZATION_TYPE_MASK == 0
    ensures ENDPOINT_TYPE_MASK & ENDPOINT_USAGE_TYPE_MASK == 0
    ensures ENDPOINT_SYNCHRONIZATION_TYPE_MASK & ENDPOINT_USAGE_TYPE_MASK == 0
    ensures forall t: bv8 :: t <= ENDPOINT_TYPE_INT ==> WithinMask(t, ENDPOINT_TYPE_MASK)
    ensures WithinMask(ENDPOINT_SYNCHRONIZATION_TYPE_ASYNCHRONOUS, ENDPOINT_SYNCHRONIZATION_TYPE_MASK)
    ensures WithinMask(ENDPOINT_SYNCHRONIZATION_TYPE_ADAPTIVE, ENDPOINT_SYNCHRONIZATION_TYPE_MASK)
    ensures WithinMask(ENDPOINT_SYNCHRONIZATION_TYPE_SYNCHRONOUS, ENDPOINT_SYNCHRONIZATION_TYPE_MASK)
    ensures WithinMask(ENDPOINT_USAGE_TYPE_FEEDBACK, ENDPOINT_USAGE_TYPE_MASK)
    ensures WithinMask(ENDPOINT_USAGE_TYPE_IMPLICIT_FEEDBACK_DATA, ENDPOINT_USAGE_TYPE_MASK)
    ensures WithinMask(ENDPOINT_USAGE_TYPE_RESERVED, ENDPOINT_USAGE_TYPE_MASK)
  {
  }

  /**
   * The three decoded fields together give back the low six bits of
   * bmAttributes; the top two bits are reserved and belong to no field.
   */
  lemma EndpointAttributesDecompose(bmAttributes: bv8)
    ensures EndpointType(bmAttributes) | EndpointSynchronizationType(bmAttributes)
            | EndpointUsageType(bmAttributes) == bmAttributes & 0x3f
  {
  }

  // ---------------------------------------------------------------- configuration attributes

  /** Self-powered flag of a configuration's bmAttributes: bit 6. */
  function ConfigSelfPowered(bmAttributes: bv8): (b: bool)
    ensures b <==> bmAttributes / 64 % 2 == 1
    ensures b ==> bmAttributes & CONFIG_POWERED_MASK != 0
  {
    bmAttributes & CONFIG_SELF_POWERED != 0
  }

  /** Remote-wakeup flag of a configuration's bmAttributes: bit 5. */
  function ConfigRemoteWakeup(bmAttributes: bv8): (b: bool)
    ensures b <==> bmAttributes / 32 % 2 == 1
    ensures b ==> bmAttributes & CONFIG_POWERED_MASK != 0
  {
    bmAttributes & CONFIG_REMOTE_WAKEUP != 0
  }

  /** The two flags are distinct bits and together make up CONFIG_POWERED_MASK. */
  lemma ConfigFlagsSplitPoweredMask()
    ensures CONFIG_SELF_POWERED & CONFIG_REMOTE_WAKEUP == 0
    ensures CONFIG_SELF_POWERED | CONFIG_REMOTE_WAKEUP == CONFIG_POWERED_MASK
  {
  }

  /** The two flags can be read independently of each other. */
  lemma ConfigFlagsIndependent(self: bool, wakeup: bool)
    ensures var attrs := (if self then CONFIG_SELF_POWERED else 0) | (if wakeup then CONFIG_REMOTE_WAKEUP else 0);
            ConfigSelfPowered(attrs) == self && ConfigRemoteWakeup(attrs) == wakeup
  {
  }

  /**
   * For any bmAttributes, setting or clearing one flag leaves the other flag
   * as it was, and the flag set or cleared then reads as set or clear.
   */
  lemma ConfigFlagsSetIndependently(bmAttributes: bv8)
    ensures ConfigSelfPowered(bmAttributes | CONFIG_SELF_POWERED)
    ensures !ConfigSelfPowered(bmAttributes & !CONFIG_SELF_POWERED)
    ensures ConfigRemoteWakeup(bmAttributes | CONFIG_SELF_POWERED) == ConfigRemoteWakeup(bmAttributes)
    ensures ConfigRemoteWakeup(bmAttributes & !CONFIG_SELF_POWERED) == ConfigRemoteWakeup(bmAttributes)
    ensures ConfigRemoteWakeup(bmAttributes | CONFIG_REMOTE_WAKEUP)
    ensures !ConfigRemoteWakeup(bmAttributes & !CONFIG_REMOTE_WAKEUP)
    ensures ConfigSelfPowered(bmAttributes | CONFIG_REMOTE_WAKEUP) == ConfigSelfPowered(bmAttributes)
    ensures ConfigSelfPowered(bmAttributes & !CONFIG_REMOTE_WAKEUP) == ConfigSelfPowered(bmAttributes)
  {
  }

  // ---------------------------------------------------------------- descriptor lengths

  /** No specific descriptor may be shorter than the generic two-byte header. */
  lemma DescriptorMinimumLengthsCoverHeader()
    ensures DESCRIPTOR_MIN_LENGTH <= DESCRIPTOR_MIN_LENGTH_DEVICE
    ensures DESCRIPTOR_MIN_LENGTH <= DESCRIPTOR_MIN_LENGTH_CONFIG
    ensures DESCRIPTOR_MIN_LENGTH <= DESCRIPTOR_MIN_LENGTH_INTERFACE
    ensures DESCRIPTOR_MIN_LENGTH <= DESCRIPTOR_MIN_LENGTH_ENDPOINT
    ensures DESCRIPTOR_MIN_LENGTH <= DESCRIPTOR_MIN_LENGTH_STRING
  {
  }
}
