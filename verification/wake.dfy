/** The wake handler's path from a host record's three text fields to the
    datagram it sends: the port is parsed first, then the MAC text, then the
    IP text, and then the packet is assembled. Every failure on this path is
    an exception that escapes the handler, so nothing reaches the network.
    The send itself (address resolution and the UDP socket) is not part of
    the model. */
module Wake {
  import opened Results
  import opened JavaInt
  import opened JavaSplit
  import opened AddressCodec
  import opened MagicPacket

  /** What the handler passes to the datagram layer: the payload, the
      destination address bytes and the destination port. */
  datatype Datagram = Datagram(payload: seq<int>, address: seq<int>, port: int)

  /** The packet assembly and the datagram's fields, once the three texts
      are converted: the packet for the first six MAC bytes, addressed to the
      IP bytes and the port as parsed. */
  function AssembleDatagram(mac: seq<int>, ip: seq<int>, port: int): (r: Result<Datagram>)
    ensures r.Ok? <==> |mac| >= MacLength
    ensures r.Err? ==> r.error == IndexOutOfBounds
    ensures r.Ok? ==> r.value.port == port && r.value.address == ip && IsMagicPacketFor(r.value.payload, mac[..MacLength])
  {
    var payload :- BuildPacket(mac);
    BuildMatchesLayout(mac);
    Ok(Datagram(payload, ip, port))
  }

  /** The wake handler up to the send. */
  function PrepareWake(macText: string, ipText: string, portText: string): (r: Result<Datagram>)
    ensures r.Ok? <==>
      && ParsePort(portText).Ok?
      && ParseMac(macText).Ok? && |ParseMac(macText).value| >= MacLength
      && ParseIp(ipText).Ok?
    ensures ParsePort(portText).Err? ==> r == Err(NumberFormat(portText))
    ensures ParsePort(portText).Ok? && ParseMac(macText).Err? ==> r == Err(ParseMac(macText).error)
    ensures ParsePort(portText).Ok? && ParseMac(macText).Ok? && ParseIp(ipText).Err? ==> r == Err(ParseIp(ipText).error)
    ensures ParsePort(portText).Ok? && ParseMac(macText).Ok? && ParseIp(ipText).Ok? && |ParseMac(macText).value| < MacLength ==>
      r == Err(IndexOutOfBounds)
    ensures r.Ok? ==>
      && r.value.port == ParsePort(portText).value
      && r.value.address == ParseIp(ipText).value
      && IsMagicPacketFor(r.value.payload, ParseMac(macText).value[..MacLength])
  {
    var port :- ParsePort(portText);
    var mac :- ParseMac(macText);
    var ip :- ParseIp(ipText);
    AssembleDatagram(mac, ip, port)
  }

  /** A record whose MAC text is six hexadecimal pieces joined by colons, whose
      IP text is decimal pieces joined by dots and whose port text is decimal
      yields the magic packet for that MAC addressed to that IP and port. Any
      spelling `Integer.parseInt` reads back is allowed: upper- or lower-case
      hexadecimal digits and leading zeros, as in `"00:1A:2b:03:04:05"`. */
  lemma WakeRoundTrip(macTexts: seq<string>, ipTexts: seq<string>, portText: string,
                      mac: seq<int>, ip: seq<int>, port: int)
    requires |mac| == MacLength && |macTexts| == MacLength && AllSignedBytes(mac)
    requires forall i :: 0 <= i < MacLength ==> ParseInt(macTexts[i], MacRadix) == Ok(ToUnsigned(mac[i]))
    requires |ip| >= 1 && |ipTexts| == |ip| && AllSignedBytes(ip)
    requires forall i :: 0 <= i < |ip| ==> ParseInt(ipTexts[i], IpRadix) == Ok(ToUnsigned(ip[i]))
    requires ParseInt(portText, PortRadix) == Ok(port)
    ensures PrepareWake(Join(macTexts, MacSeparator), Join(ipTexts, IpSeparator), portText)
      == Ok(Datagram(SyncStream() + Repetitions(mac, Copies), ip, port))
  {
    var macText := Join(macTexts, MacSeparator);
    var ipText := Join(ipTexts, IpSeparator);
    MacTextsParse(macTexts, mac);
    IpTextsParse(ipTexts, ip);
    assert PrepareWake(macText, ipText, portText) == AssembleDatagram(mac, ip, port);
    AssembleSixByteMac(mac, ip, port);
  }

  lemma MacTextsParse(macTexts: seq<string>, mac: seq<int>)
    requires |mac| == MacLength && |macTexts| == MacLength && AllSignedBytes(mac)
    requires forall i :: 0 <= i < MacLength ==> ParseInt(macTexts[i], MacRadix) == Ok(ToUnsigned(mac[i]))
    ensures ParseMac(Join(macTexts, MacSeparator)) == Ok(mac)
  {
    assert DigitValue(MacSeparator, MacRadix) < 0 && !IsSign(MacSeparator);
    TextsRoundTrip(macTexts, mac, MacSeparator, MacRadix);
  }

  lemma IpTextsParse(ipTexts: seq<string>, ip: seq<int>)
    requires |ip| >= 1 && |ipTexts| == |ip| && AllSignedBytes(ip)
    requires forall i :: 0 <= i < |ip| ==> ParseInt(ipTexts[i], IpRadix) == Ok(ToUnsigned(ip[i]))
    ensures ParseIp(Join(ipTexts, IpSeparator)) == Ok(ip)
  {
    assert DigitValue(IpSeparator, IpRadix) < 0 && !IsSign(IpSeparator);
    TextsRoundTrip(ipTexts, ip, IpSeparator, IpRadix);
  }

  /** The record as the formatter writes it, lower-case digits without leading
      zeros, is one such spelling. */
  lemma WakeFormattedRoundTrip(mac: seq<int>, ip: seq<int>, port: int)
    requires |mac| == MacLength && AllSignedBytes(mac)
    requires |ip| >= 1 && AllSignedBytes(ip)
    requires IntMin <= port <= IntMax
    ensures PrepareWake(FormatBytes(mac, MacSeparator, MacRadix), FormatBytes(ip, IpSeparator, IpRadix), FormatInt(port, PortRadix))
      == Ok(Datagram(SyncStream() + Repetitions(mac, Copies), ip, port))
  {
    var macText := FormatBytes(mac, MacSeparator, MacRadix);
    var ipText := FormatBytes(ip, IpSeparator, IpRadix);
    var portText := FormatInt(port, PortRadix);
    assert PrepareWake(macText, ipText, portText) == AssembleDatagram(mac, ip, port) by {
      assert ParseMac(macText) == Ok(mac) by {
        assert DigitValue(MacSeparator, MacRadix) < 0;
        TextRoundTrip(mac, MacSeparator, MacRadix);
      }
      assert ParseIp(ipText) == Ok(ip) by {
        assert DigitValue(IpSeparator, IpRadix) < 0;
        TextRoundTrip(ip, IpSeparator, IpRadix);
      }
      assert ParsePort(portText) == Ok(port) by {
        PortRangeNotChecked(port);
      }
    }
    AssembleSixByteMac(mac, ip, port);
  }

  /** A six-byte MAC is assembled into exactly the reference packet. */
  lemma AssembleSixByteMac(mac: seq<int>, ip: seq<int>, port: int)
    requires |mac| == MacLength
    ensures AssembleDatagram(mac, ip, port) == Ok(Datagram(SyncStream() + Repetitions(mac, Copies), ip, port))
  {
    assert mac[..MacLength] == mac;
  }
}
