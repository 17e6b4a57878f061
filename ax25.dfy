/**
 * AX.25 UI frames with a two-entry address field (section 3.12 of the AX.25 Link
 * Access Protocol v2.2): destination, source, control, PID, information field.
 */
module Ax25 {
  import opened Bytes
  import opened Wrappers

  const CALL_WIDTH := 6          // callsign characters in an address entry
  const CONTROL_UI: Byte := 0x03 // UI frame, poll/final clear
  const PID_NO_L3: Byte := 0xF0  // no layer-3 protocol

  /** The only failure of frame assembly: the message is not 7-bit ASCII. */
  datatype Error = PayloadEncodingError

  /** An address entry read back: callsign as six characters, the 4-bit SSID, the last-address flag. */
  datatype Station = Station(call: string, ssid: int, last: bool)

  /** What a UI frame carries, read back. */
  datatype UiPacket = UiPacket(destination: Station, source: Station, info: string)

  /** `str.ljust(6)`: right-pad with spaces to six characters; a longer callsign is kept whole. */
  function Pad(call: string): (r: string)
    ensures |r| == if |call| < CALL_WIDTH then CALL_WIDTH else |call|
    ensures r[..|call|] == call
    ensures forall i :: |call| <= i < |r| ==> r[i] == ' '
  {
    if |call| < CALL_WIDTH then call + seq(CALL_WIDTH - |call|, _ => ' ') else call
  }

  /** `ord(c) << 1` for each character, which fits an octet because the character is ASCII. */
  function ShiftedCall(padded: string): (r: seq<Byte>)
    requires IsAscii(padded)
    ensures |r| == |padded|
    ensures forall i :: 0 <= i < |r| ==> r[i] % 2 == 0 && r[i] / 2 == padded[i] as int
  {
    seq(|padded|, i requires 0 <= i < |padded| => 2 * padded[i] as int)
  }

  /** The SSID octet: `((ssid & 0x0F) << 1) | 0x60`, or-ed with 0x01 on the last address. */
  function SsidByte(ssid: int, last: bool): (r: Byte)
    ensures r == 2 * (ssid % 16) + 0x60 + (if last then 1 else 0)
  {
    var low := 2 * (ssid % 16);
    ReservedBits(low);
    var b := BitOr(low, 0x60);
    if last then (BitOrOne(b); BitOr(b, 0x01)) else b
  }

  /** Bits 5 and 6 are free below 32, so OR-ing 0x60 in adds it. */
  lemma ReservedBits(low: nat)
    requires low < 32
    ensures BitOr(low, 0x60) == low + 0x60
  {
    assert Pow2(5) == 32;
    BitOrDisjoint(low, 3, 5);
  }

  /** The address entry for a callsign and SSID. */
  function AddressField(call: string, ssid: int, last: bool): (r: seq<Byte>)
    requires IsAscii(call)
    ensures |r| == |Pad(call)| + 1
  {
    ShiftedCall(Pad(call)) + [SsidByte(ssid, last)]
  }

  /** `ax25_encode_call`: shifted, padded callsign, then the SSID octet updated in place. */
  method EncodeCall(call: string, ssid: int, last: bool) returns (encoded: seq<Byte>)
    requires IsAscii(call)
    ensures encoded == AddressField(call, ssid, last)
  {
    var padded := Pad(call);
    encoded := ShiftedCall(padded);
    ReservedBits(2 * (ssid % 16));
    var ssidByte := BitOr(2 * (ssid % 16), 0x60);
    if last {
      BitOrOne(ssidByte);
      ssidByte := BitOr(ssidByte, 0x01);
    }
    encoded := encoded + [ssidByte];
  }

  /**
   * Layout of the SSID octet: bit 0 is the last-address flag, bits 1-4 hold the SSID
   * modulo 16 (so `(b >> 1) & 0x0F` recovers an SSID in 0..15), bits 5 and 6 are
   * set and bit 7 is clear.
   */
  lemma SsidByteLayout(ssid: int, last: bool)
    ensures Bit(SsidByte(ssid, last), 0) == last
    ensures (SsidByte(ssid, last) / 2) % 16 == ssid % 16
    ensures 0 <= ssid < 16 ==> (SsidByte(ssid, last) / 2) % 16 == ssid
    ensures Bit(SsidByte(ssid, last), 5) && Bit(SsidByte(ssid, last), 6) && !Bit(SsidByte(ssid, last), 7)
  {
    var b := SsidByte(ssid, last);
    SsidFields(ssid % 16, last, b);
    if 0 <= ssid < 16 {
      assert ssid % 16 == ssid;
    }
  }

  /** An SSID in 0..15 passes the mask unchanged, so its octet is `2 * ssid + 0x60`, plus 1 when last. */
  lemma SsidInRange(ssid: int, last: bool)
    requires 0 <= ssid < 16
    ensures SsidByte(ssid, last) == 2 * ssid + 0x60 + (if last then 1 else 0)
  {
  }

  /** The arithmetic behind SsidByteLayout, for the masked SSID `m`. */
  lemma SsidFields(m: nat, last: bool, b: nat)
    requires m < 16 && b == 2 * m + 0x60 + (if last then 1 else 0)
    ensures Bit(b, 0) == last && (b / 2) % 16 == m
    ensures Bit(b, 5) && Bit(b, 6) && !Bit(b, 7)
  {
    assert b / 2 == m + 0x30;
    assert Pow2(0) == 1 && Pow2(5) == 32 && Pow2(6) == 64 && Pow2(7) == 128;
    assert b / 32 == 3 && b / 64 == 1 && b / 128 == 0;
  }

  /**
   * A callsign of at most six characters gives a seven-octet entry: the six padded
   * characters shifted left, each with bit 0 clear, then the SSID octet.
   */
  lemma AddressFieldLayout(call: string, ssid: int, last: bool)
    requires IsAscii(call) && |call| <= CALL_WIDTH
    ensures |AddressField(call, ssid, last)| == 7
    ensures forall i :: 0 <= i < CALL_WIDTH ==>
      AddressField(call, ssid, last)[i] == 2 * Pad(call)[i] as int &&
      !Bit(AddressField(call, ssid, last)[i], 0) &&
      AddressField(call, ssid, last)[i] / 2 == Pad(call)[i] as int
    ensures AddressField(call, ssid, last)[6] == SsidByte(ssid, last)
  {
  }

  /** The empty callsign pads to six spaces, each 0x40 once shifted. */
  lemma EmptyCallsign(ssid: int, last: bool)
    ensures AddressField("", ssid, last) == [0x40, 0x40, 0x40, 0x40, 0x40, 0x40, SsidByte(ssid, last)]
  {
    assert Pad("") == "      ";
  }

  /**
   * Reads an address entry back: `b >> 1` for each character, `(b >> 1) & 0x0F` for
   * the SSID, bit 0 of the last octet for the flag.
   */
  function ParseAddress(field: seq<Byte>): Station
    requires |field| == 7
  {
    Station(seq(CALL_WIDTH, i requires 0 <= i < CALL_WIDTH => (field[i] / 2) as char),
            (field[6] / 2) % 16,
            Bit(field[6], 0))
  }

  /** Round trip of an address entry: the padded callsign, the SSID modulo 16 and the flag come back. */
  lemma ParseAddressField(call: string, ssid: int, last: bool)
    requires IsAscii(call) && |call| <= CALL_WIDTH
    ensures ParseAddress(AddressField(call, ssid, last)) == Station(Pad(call), ssid % 16, last)
    ensures 0 <= ssid < 16 ==> ParseAddress(AddressField(call, ssid, last)).ssid == ssid
    ensures |call| == CALL_WIDTH ==> ParseAddress(AddressField(call, ssid, last)).call == call
  {
    AddressFieldLayout(call, ssid, last);
    SsidByteLayout(ssid, last);
    var st := ParseAddress(AddressField(call, ssid, last));
    assert st.call == Pad(call);
  }

  /**
   * `create_ax25_frame` as a value. The parameters come source first, the frame
   * destination first; a message that is not 7-bit ASCII yields no frame at all.
   */
  function UiFrame(source: string, sourceSsid: int, destination: string, destinationSsid: int,
                   data: string): (r: Result<seq<Byte>, Error>)
    requires IsAscii(source) && IsAscii(destination)
    ensures r.Ok? <==> IsAscii(data)
    ensures r.Err? ==> r.error == PayloadEncodingError
    ensures r.Ok? ==> |r.value| == |Pad(destination)| + |Pad(source)| + 4 + |data|
  {
    if !IsAscii(data) then Err(PayloadEncodingError)
    else Ok(AddressField(destination, destinationSsid, false) + AddressField(source, sourceSsid, true)
            + [CONTROL_UI, PID_NO_L3] + AsciiBytes(data))
  }

  /** `create_ax25_frame`: the frame grown by successive extend/append calls. */
  method CreateFrame(source: string, sourceSsid: int, destination: string, destinationSsid: int,
                     data: string) returns (r: Result<seq<Byte>, Error>)
    requires IsAscii(source) && IsAscii(destination)
    ensures r == UiFrame(source, sourceSsid, destination, destinationSsid, data)
  {
    var frame: seq<Byte> := [];
    var field := EncodeCall(destination, destinationSsid, false);
    frame := frame + field;
    field := EncodeCall(source, sourceSsid, true);
    frame := frame + field;
    frame := frame + [CONTROL_UI];
    frame := frame + [PID_NO_L3];
    assert frame == AddressField(destination, destinationSsid, false)
                    + AddressField(source, sourceSsid, true) + [CONTROL_UI, PID_NO_L3];
    if !IsAscii(data) {
      return Err(PayloadEncodingError);
    }
    frame := frame + AsciiBytes(data);
    return Ok(frame);
  }

  /**
   * A frame exists exactly when the message is ASCII; it is then 16 + |data| octets:
   * destination entry, source entry, 0x03, 0xF0, the message's ASCII bytes.
   */
  lemma UiFrameLayout(source: string, sourceSsid: int, destination: string, destinationSsid: int,
                      data: string)
    requires IsAscii(source) && IsAscii(destination)
    requires |source| <= CALL_WIDTH && |destination| <= CALL_WIDTH
    ensures UiFrame(source, sourceSsid, destination, destinationSsid, data).Ok? <==> IsAscii(data)
    ensures IsAscii(data) ==>
      var f := UiFrame(source, sourceSsid, destination, destinationSsid, data).value;
      |f| == 16 + |data| &&
      f[..7] == AddressField(destination, destinationSsid, false) &&
      f[7..14] == AddressField(source, sourceSsid, true) &&
      f[14] == CONTROL_UI && f[15] == PID_NO_L3 &&
      f[16..] == AsciiBytes(data)
  {
    if IsAscii(data) {
      AddressFieldLayout(destination, destinationSsid, false);
      AddressFieldLayout(source, sourceSsid, true);
      var d, s, p := AddressField(destination, destinationSsid, false),
                     AddressField(source, sourceSsid, true), AsciiBytes(data);
      var f := d + s + [CONTROL_UI, PID_NO_L3] + p;
      assert f[..7] == d;
      assert f[7..14] == s;
      assert f[16..] == p;
    }
  }

  /**
   * In the two-entry address field only the source entry carries the last-address
   * bit: bit 0 is set in octet 13 and clear in octets 0 to 12.
   */
  lemma OnlySourceIsLast(source: string, sourceSsid: int, destination: string, destinationSsid: int,
                         data: string)
    requires IsAscii(source) && IsAscii(destination) && IsAscii(data)
    requires |source| <= CALL_WIDTH && |destination| <= CALL_WIDTH
    ensures var f := UiFrame(source, sourceSsid, destination, destinationSsid, data).value;
      forall i :: 0 <= i < 14 ==> (Bit(f[i], 0) <==> i == 13)
  {
    UiFrameLayout(source, sourceSsid, destination, destinationSsid, data);
    AddressFieldLayout(destination, destinationSsid, false);
    AddressFieldLayout(source, sourceSsid, true);
    SsidByteLayout(destinationSsid, false);
    SsidByteLayout(sourceSsid, true);
    var f := UiFrame(source, sourceSsid, destination, destinationSsid, data).value;
    var d, s := AddressField(destination, destinationSsid, false), AddressField(source, sourceSsid, true);
    forall i | 0 <= i < 14 ensures Bit(f[i], 0) <==> i == 13 {
      if i < 7 {
        assert f[i] == f[..7][i] == d[i];
      } else {
        assert f[i] == f[7..14][i - 7] == s[i - 7];
      }
    }
  }

  /** Reads a UI frame back: both address entries and the information field as text. */
  function ParseUiFrame(frame: seq<Byte>): Option<UiPacket>
  {
    if |frame| < 16 || frame[14] != CONTROL_UI || frame[15] != PID_NO_L3 then None
    else Some(UiPacket(ParseAddress(frame[..7]), ParseAddress(frame[7..14]), Chars(frame[16..])))
  }

  /**
   * Round trip of a UI frame: the destination and source come back padded, with
   * their SSIDs modulo 16 and only the source marked last, and the message unchanged.
   */
  lemma ParseUiFrameRoundTrip(source: string, sourceSsid: int, destination: string, destinationSsid: int,
                              data: string)
    requires IsAscii(source) && IsAscii(destination) && IsAscii(data)
    requires |source| <= CALL_WIDTH && |destination| <= CALL_WIDTH
    ensures ParseUiFrame(UiFrame(source, sourceSsid, destination, destinationSsid, data).value)
         == Some(UiPacket(Station(Pad(destination), destinationSsid % 16, false),
                          Station(Pad(source), sourceSsid % 16, true), data))
  {
    UiFrameLayout(source, sourceSsid, destination, destinationSsid, data);
    ParseAddressField(destination, destinationSsid, false);
    ParseAddressField(source, sourceSsid, true);
    CharsAsciiBytes(data);
  }

  /** The beacon's destination entry: APRS padded to six characters, SSID 0, not last. */
  lemma BeaconDestination()
    ensures AddressField("APRS", 0, false) == [0x82, 0xA0, 0xA4, 0xA6, 0x40, 0x40, 0x60]
  {
    assert Pad("APRS") == "APRS  ";
    assert ShiftedCall("APRS  ") == [0x82, 0xA0, 0xA4, 0xA6, 0x40, 0x40];
    SsidInRange(0, false);
  }

  /** The beacon's source entry: KQ4FYU with no padding, SSID 1, marked last. */
  lemma BeaconSource()
    ensures AddressField("KQ4FYU", 1, true) == [0x96, 0xA2, 0x68, 0x8C, 0xB2, 0xAA, 0x63]
  {
    assert Pad("KQ4FYU") == "KQ4FYU";
    var shifted := ShiftedCall("KQ4FYU");
    assert shifted[0] == 0x96 && shifted[1] == 0xA2 && shifted[2] == 0x68;
    assert shifted[3] == 0x8C && shifted[4] == 0xB2 && shifted[5] == 0xAA;
    assert shifted == [0x96, 0xA2, 0x68, 0x8C, 0xB2, 0xAA];
    var ssid := SsidByte(1, true);
    SsidInRange(1, true);
    assert AddressField("KQ4FYU", 1, true) == shifted + [ssid];
  }

  /** The frame the script builds for its beacon: both address entries octet for octet, then the message's ASCII bytes. */
  lemma BeaconFrame()
    ensures IsAscii("!Highest apogee = 123.4")
    ensures UiFrame("KQ4FYU", 1, "APRS", 0, "!Highest apogee = 123.4") == Ok(
      [0x82, 0xA0, 0xA4, 0xA6, 0x40, 0x40, 0x60] +   // "APRS  ", SSID 0
      [0x96, 0xA2, 0x68, 0x8C, 0xB2, 0xAA, 0x63] +   // "KQ4FYU", SSID 1, last
      [0x03, 0xF0] +
      AsciiBytes("!Highest apogee = 123.4"))
  {
    BeaconDestination();
    BeaconSource();
    var msg := "!Highest apogee = 123.4";
    forall i | 0 <= i < |msg| ensures msg[i] as int < 128 {
    }
  }
}
