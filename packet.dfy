/**
 * The packet assembler of `send_aprs_packet`: the message in an AX.25 UI frame,
 * the frame in a KISS data frame, ready for the modem's TCP port.
 */
module Packet {
  import opened Bytes
  import opened Wrappers
  import Kiss
  import Ax25

  /** The bytes sent for one message; the frame builder's failure passes through unchanged. */
  function Assemble(message: string, source: string, sourceSsid: int, destination: string,
                    destinationSsid: int): (r: Result<seq<Byte>, Ax25.Error>)
    requires IsAscii(source) && IsAscii(destination)
    ensures r.Ok? <==> IsAscii(message)
    ensures r.Err? ==> r.error == Ax25.PayloadEncodingError
    ensures r.Ok? ==> Kiss.Decode(r.value)
                      == Some(Ax25.UiFrame(source, sourceSsid, destination, destinationSsid, message).value)
  {
    match Ax25.UiFrame(source, sourceSsid, destination, destinationSsid, message)
    case Err(e) => Err(e)
    case Ok(frame) => Kiss.DecodeFrame(frame); Ok(Kiss.Frame(frame))
  }

  /** Lines 128-130 of `send_aprs_packet`: build the AX.25 frame, then KISS-encode it. */
  method EncodePacket(message: string, source: string, sourceSsid: int, destination: string,
                      destinationSsid: int) returns (r: Result<seq<Byte>, Ax25.Error>)
    requires IsAscii(source) && IsAscii(destination)
    ensures r == Assemble(message, source, sourceSsid, destination, destinationSsid)
  {
    var ax25Frame := Ax25.CreateFrame(source, sourceSsid, destination, destinationSsid, message);
    if ax25Frame.Err? {
      return Err(ax25Frame.error);
    }
    var kissFrame := Kiss.Encode(ax25Frame.value);
    return Ok(kissFrame);
  }

  /** Reads the sent bytes back: KISS decoding, then UI-frame parsing. */
  function Disassemble(bytes: seq<Byte>): Option<Ax25.UiPacket>
  {
    match Kiss.Decode(bytes)
    case None => None
    case Some(frame) => Ax25.ParseUiFrame(frame)
  }

  /**
   * Bytes are produced exactly for an ASCII message; they then open with FEND and the
   * data command, close with FEND, and carry the escaped UI frame in between.
   */
  lemma AssembleLayout(message: string, source: string, sourceSsid: int, destination: string,
                       destinationSsid: int)
    requires IsAscii(source) && IsAscii(destination)
    ensures Assemble(message, source, sourceSsid, destination, destinationSsid).Ok? <==> IsAscii(message)
    ensures !IsAscii(message) ==>
      Assemble(message, source, sourceSsid, destination, destinationSsid) == Err(Ax25.PayloadEncodingError)
    ensures IsAscii(message) ==>
      var b := Assemble(message, source, sourceSsid, destination, destinationSsid).value;
      var f := Ax25.UiFrame(source, sourceSsid, destination, destinationSsid, message).value;
      b[0] == Kiss.FEND && b[1] == Kiss.CMD_DATA && b[|b| - 1] == Kiss.FEND &&
      b[2..|b| - 1] == Kiss.Stuff(f) && Kiss.Decode(b) == Some(f)
  {
    if IsAscii(message) {
      Kiss.DecodeFrame(Ax25.UiFrame(source, sourceSsid, destination, destinationSsid, message).value);
    }
  }

  /**
   * End-to-end round trip: what is sent for an ASCII message reads back as the
   * padded destination and source, their SSIDs modulo 16, and the message itself.
   */
  lemma AssembleRoundTrip(message: string, source: string, sourceSsid: int, destination: string,
                          destinationSsid: int)
    requires IsAscii(source) && IsAscii(destination) && IsAscii(message)
    requires |source| <= Ax25.CALL_WIDTH && |destination| <= Ax25.CALL_WIDTH
    ensures Disassemble(Assemble(message, source, sourceSsid, destination, destinationSsid).value)
         == Some(Ax25.UiPacket(Ax25.Station(Ax25.Pad(destination), destinationSsid % 16, false),
                               Ax25.Station(Ax25.Pad(source), sourceSsid % 16, true), message))
  {
    var f := Ax25.UiFrame(source, sourceSsid, destination, destinationSsid, message).value;
    Kiss.DecodeFrame(f);
    Ax25.ParseUiFrameRoundTrip(source, sourceSsid, destination, destinationSsid, message);
  }

  /** The information field of a frame never needs escaping: ASCII has no FEND or FESC. */
  lemma MessageUnescaped(message: string)
    requires IsAscii(message)
    ensures Kiss.Stuff(AsciiBytes(message)) == AsciiBytes(message)
  {
    Kiss.StuffPlain(AsciiBytes(message));
  }

  /**
   * The beacon the script sends: "!Highest apogee = 123.4" from KQ4FYU-1 to APRS-0.
   * No octet of its frame needs escaping.
   */
  lemma BeaconPacket()
    ensures IsAscii("!Highest apogee = 123.4")
    ensures Assemble("!Highest apogee = 123.4", "KQ4FYU", 1, "APRS", 0) == Ok(
      [0xC0, 0x00] +
      ([0x82, 0xA0, 0xA4, 0xA6, 0x40, 0x40, 0x60] +   // "APRS  ", SSID 0
       [0x96, 0xA2, 0x68, 0x8C, 0xB2, 0xAA, 0x63] +   // "KQ4FYU", SSID 1, last
       [0x03, 0xF0] +
       AsciiBytes("!Highest apogee = 123.4")) +
      [0xC0])
  {
    var message := "!Highest apogee = 123.4";
    var header: seq<Byte> := [0x82, 0xA0, 0xA4, 0xA6, 0x40, 0x40, 0x60,
                              0x96, 0xA2, 0x68, 0x8C, 0xB2, 0xAA, 0x63, 0x03, 0xF0];
    Ax25.BeaconFrame();
    assert header == [0x82, 0xA0, 0xA4, 0xA6, 0x40, 0x40, 0x60] + [0x96, 0xA2, 0x68, 0x8C, 0xB2, 0xAA, 0x63]
                     + [0x03, 0xF0];
    var frame := header + AsciiBytes(message);
    Kiss.StuffPlain(header);
    MessageUnescaped(message);
    Kiss.StuffAppend(header, AsciiBytes(message));
  }
}
