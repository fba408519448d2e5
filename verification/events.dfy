/**
 * The notifications the actions emit: a one-byte topic and a byte payload
 * built by appending fixed-width addresses, the token id's UTF-8 bytes and a
 * one-byte flag to a buffer reserved with a computed capacity.
 */
module Events {
  import opened Wrappers
  import opened Utf8
  import opened Tokens

  /** One `emit_event(topic, value)` record. */
  datatype Event = Event(topic: seq<byte>, value: seq<byte>)

  /** Extending a buffer with an `Option` address writes the address if present, nothing if absent. */
  function OptionBytes(a: Option<Address>): (r: seq<byte>)
    ensures |r| == if a.Some? then AddressWidth else 0
    ensures a.Some? ==> r == a.value
  {
    match a
    case Some(address) => address
    case None => []
  }

  /** The trailing flag byte: 1 when approved, 0 otherwise. */
  function Flag(approved: bool): (r: seq<byte>)
    ensures |r| == 1 && (r[0] == 1 <==> approved) && r[0] <= 1
  {
    if approved then [1] else [0]
  }

  /** `TransferEvent`, emitted by `transfer` and `transfer_from`. */
  datatype TransferEvent = TransferEvent(ownerAddress: Address, recipientAddress: Address, tokenId: string)
  {
    function Topic(): seq<byte> { [0] }

    /** The size reserved with `Vec::with_capacity`. */
    function Capacity(): nat { AddressWidth + AddressWidth + |Encode(tokenId)| }

    /** owner ‖ recipient ‖ UTF-8 token id, filling the reserved capacity exactly. */
    function Payload(): (p: seq<byte>)
      ensures |p| == Capacity()
      ensures p[..AddressWidth] == ownerAddress
      ensures p[AddressWidth..2 * AddressWidth] == recipientAddress
      ensures p[2 * AddressWidth..] == Encode(tokenId)
    {
      ownerAddress + recipientAddress + Encode(tokenId)
    }

    /** `into_value`: the payload built by successive `extend` calls. */
    method IntoValue() returns (res: seq<byte>)
      ensures res == Payload() && |res| == Capacity()
    {
      res := [];
      res := res + ownerAddress;
      res := res + recipientAddress;
      res := res + Encode(tokenId);
    }

    function Record(): Event { Event(Topic(), Payload()) }
  }

  /** `SetSpenderEvent`, emitted by `set_spender`. */
  datatype SetSpenderEvent = SetSpenderEvent(spenderAddress: Option<Address>, tokenId: string, approved: bool)
  {
    function Topic(): seq<byte> { [1] }

    function Capacity(): nat { AddressWidth + |Encode(tokenId)| + 1 }

    /** spender (if any) ‖ UTF-8 token id ‖ flag; full capacity exactly when there is a spender. */
    function Payload(): (p: seq<byte>)
      ensures |p| == |OptionBytes(spenderAddress)| + |Encode(tokenId)| + 1 <= Capacity()
      ensures |p| == Capacity() <==> spenderAddress.Some?
      ensures p[..|OptionBytes(spenderAddress)|] == OptionBytes(spenderAddress)
      ensures p[|OptionBytes(spenderAddress)|..|p| - 1] == Encode(tokenId)
      ensures p[|p| - 1] == Flag(approved)[0]
    {
      OptionBytes(spenderAddress) + Encode(tokenId) + Flag(approved)
    }

    /** `into_value`: the payload built by successive `extend` calls. */
    method IntoValue() returns (res: seq<byte>)
      ensures res == Payload() && |res| <= Capacity()
    {
      res := [];
      res := res + OptionBytes(spenderAddress);
      res := res + Encode(tokenId);
      res := res + Flag(approved);
    }

    function Record(): Event { Event(Topic(), Payload()) }
  }

  /** `SetExclusiveSpenderEvent`, emitted by `set_exclusive_spender`. */
  datatype SetExclusiveSpenderEvent = SetExclusiveSpenderEvent(ownerAddress: Address, spenderAddress: Option<Address>, approved: bool)
  {
    function Topic(): seq<byte> { [2] }

    function Capacity(): nat { AddressWidth + AddressWidth + 1 }

    /** owner ‖ spender (if any) ‖ flag; full capacity exactly when there is a spender. */
    function Payload(): (p: seq<byte>)
      ensures |p| == AddressWidth + |OptionBytes(spenderAddress)| + 1 <= Capacity()
      ensures |p| == Capacity() <==> spenderAddress.Some?
      ensures p[..AddressWidth] == ownerAddress
      ensures p[AddressWidth..|p| - 1] == OptionBytes(spenderAddress)
      ensures p[|p| - 1] == Flag(approved)[0]
    {
      ownerAddress + OptionBytes(spenderAddress) + Flag(approved)
    }

    /** `into_value`: the payload built by successive `extend` calls. */
    method IntoValue() returns (res: seq<byte>)
      ensures res == Payload() && |res| <= Capacity()
    {
      res := [];
      res := res + ownerAddress;
      res := res + OptionBytes(spenderAddress);
      res := res + Flag(approved);
    }

    function Record(): Event { Event(Topic(), Payload()) }
  }

  /** The three topics are distinct one-byte tags, so a topic names its event kind. */
  lemma TopicsDistinct(t: TransferEvent, s: SetSpenderEvent, x: SetExclusiveSpenderEvent)
    ensures |t.Topic()| == |s.Topic()| == |x.Topic()| == 1
    ensures t.Topic() == [0] && s.Topic() == [1] && x.Topic() == [2]
    ensures t.Topic() != s.Topic() && s.Topic() != x.Topic() && t.Topic() != x.Topic()
  {
  }

  /** Reads a transfer payload back: two addresses, then the token id's UTF-8 bytes. */
  function ParseTransfer(p: seq<byte>): Option<TransferEvent> {
    if |p| < 2 * AddressWidth then None
    else match Decode(p[2 * AddressWidth..])
      case None => None
      case Some(id) => Some(TransferEvent(p[..AddressWidth], p[AddressWidth..2 * AddressWidth], id))
  }

  /** A transfer payload determines its event. */
  lemma TransferPayloadRoundTrip(e: TransferEvent)
    ensures ParseTransfer(e.Payload()) == Some(e)
  {
    DecodeEncode(e.tokenId);
  }

  /** Reads an exclusive-spender payload back; its length tells whether a spender is present. */
  function ParseSetExclusiveSpender(p: seq<byte>): Option<SetExclusiveSpenderEvent> {
    if |p| == AddressWidth + 1 && p[AddressWidth] <= 1 then
      Some(SetExclusiveSpenderEvent(p[..AddressWidth], None, p[AddressWidth] == 1))
    else if |p| == 2 * AddressWidth + 1 && p[2 * AddressWidth] <= 1 then
      Some(SetExclusiveSpenderEvent(p[..AddressWidth], Some(p[AddressWidth..2 * AddressWidth]), p[2 * AddressWidth] == 1))
    else
      None
  }

  /** An exclusive-spender payload determines its event. */
  lemma SetExclusiveSpenderPayloadRoundTrip(e: SetExclusiveSpenderEvent)
    ensures ParseSetExclusiveSpender(e.Payload()) == Some(e)
  {
    var p := e.Payload();
    if e.spenderAddress.Some? {
      assert p[AddressWidth..2 * AddressWidth] == e.spenderAddress.value;
    }
  }

  /**
   * A spender-change payload does not determine its event: with no length
   * prefix and nothing written for an absent spender, a spender address
   * followed by the empty token id reads the same as no spender followed by
   * a 32-character token id made of the same bytes.
   */
  lemma SetSpenderPayloadAmbiguous()
    ensures var a: Address := seq(AddressWidth, _ => 0x61);
            var withSpender := SetSpenderEvent(Some(a), "", true);
            var withoutSpender := SetSpenderEvent(None, seq(AddressWidth, _ => 'a'), true);
            withSpender != withoutSpender && withSpender.Payload() == withoutSpender.Payload()
  {
    EncodeAsciiRun('a', AddressWidth);
  }
}
