/** Exactly which texts the parser takes for peers, and for which, and the error that each other text gets. */
module PeerForms {
  import opened Packet
  import opened Peers
  import opened Text
  import opened PeerText

  /** The same letters, each in either case; the name is all lower-case letters. */
  predicate IgnoringCase(s: string, name: string) {
    |s| == |name|
    && forall i | 0 <= i < |s| :: s[i] == name[i] || ('A' <= s[i] <= 'Z' && s[i] as int + 32 == name[i] as int)
  }

  predicate IsLowerCase(name: string) {
    forall i | 0 <= i < |name| :: 'a' <= name[i] <= 'z'
  }

  lemma LoweredIsName(s: string, name: string)
    requires IsLowerCase(name)
    ensures ToLower(s) == name <==> IgnoringCase(s, name)
  {
    if IgnoringCase(s, name) {
      assert ToLower(s) == name;
    }
    if ToLower(s) == name {
      assert forall i | 0 <= i < |s| :: ToLower(s)[i] == name[i];
    }
  }

  lemma NamesAreLowerCase(protocol: Protocol)
    ensures IsLowerCase(PrintProtocol(protocol)) && IsLowerCase("ip") && IsLowerCase("bluetooth")
  {
  }

  /** A text is a protocol exactly when it is that protocol's printed name, in any case. */
  lemma ProtocolExactly(s: string, protocol: Protocol)
    ensures ParseProtocol(s) == Ok(protocol) <==> IgnoringCase(s, PrintProtocol(protocol))
  {
    hide ToLower;
    NamesAreLowerCase(protocol);
    LoweredIsName(s, PrintProtocol(protocol));
  }

  /** What is printed of some peers: the example of the repository's tests, and a device with small bytes. */
  lemma PrintedExamples(v6: V6Text)
    ensures PrintPeer(v6, Peer(Tcp, Ip(V4(127, 0, 0, 1), 12345))) == "/tcp/ip/127.0.0.1/12345"
    ensures PrintPeer(v6, Peer(Bluetooth, Device([0, 10, 255, 16, 1, 160], 25)))
         == "/" + "bluetooth" + "/" + "bluetooth" + "/" + "00:0A:FF:10:01:A0" + "/" + "25"
    ensures PrintProtocol(Udp) == "udp" && PrintProtocol(Ws) == "ws" && PrintProtocol(Wss) == "wss"
  {
    hide PrintDecimal, PrintDevice, PrintV4, Join;
    SomeDecimals();
    SomeDevice();
    SomeAddress();
    JoinedAddress();
    JoinedText("bluetooth", "bluetooth", "00:0A:FF:10:01:A0", "25");
  }

  lemma SomeAddress()
    ensures PrintV4(127, 0, 0, 1) == "127.0.0.1"
  {
    hide PrintDecimal;
    SomeDecimals();
  }

  lemma JoinedAddress()
    ensures Join("", '/', Join("tcp", '/', Join("ip", '/', Join("127.0.0.1", '/', "12345"))))
         == "/tcp/ip/127.0.0.1/12345"
  {
  }

  lemma JoinedText(protocol: string, family: string, host: string, port: string)
    ensures Join("", '/', Join(protocol, '/', Join(family, '/', Join(host, '/', port))))
         == "/" + protocol + "/" + family + "/" + host + "/" + port
  {
  }

  lemma SomeDecimals()
    ensures PrintDecimal(127) == "127" && PrintDecimal(0) == "0" && PrintDecimal(1) == "1" && PrintDecimal(25) == "25"
    ensures PrintDecimal(12345) == "12345"
  {
    hide PrintDecimal;
    DecimalOf(0, "");
    DecimalOf(1, "");
    DecimalOf(2, "");
    DecimalOf(12, "1");
    DecimalOf(25, "2");
    DecimalOf(123, "12");
    DecimalOf(127, "12");
    DecimalOf(1234, "123");
    DecimalOf(12345, "1234");
  }

  lemma DecimalOf(n: nat, front: string)
    ensures (if n < 10 then front == "" else front == PrintDecimal(n / 10)) ==>
              PrintDecimal(n) == front + ["0123456789"[n % 10]]
  {
  }

  lemma SomeDevice()
    ensures PrintDevice([0, 10, 255, 16, 1, 160]) == "00:0A:FF:10:01:A0"
  {
    hide PrintHex, Join;
    assert PrintHex(0) == "00" && PrintHex(10) == "0A" && PrintHex(255) == "FF" by { SomeHexes(); }
    assert PrintHex(16) == "10" && PrintHex(1) == "01" && PrintHex(160) == "A0" by { SomeHexes(); }
    PrintOneMore(1, [160]);
    PrintOneMore(16, [1, 160]);
    PrintOneMore(255, [16, 1, 160]);
    PrintOneMore(10, [255, 16, 1, 160]);
    PrintOneMore(0, [10, 255, 16, 1, 160]);
    assert [0] + [10, 255, 16, 1, 160] == [0, 10, 255, 16, 1, 160];
    assert [10] + [255, 16, 1, 160] == [10, 255, 16, 1, 160];
    assert [255] + [16, 1, 160] == [255, 16, 1, 160];
    assert [16] + [1, 160] == [16, 1, 160] && [1] + [160] == [1, 160];
    JoinedDevice();
  }

  lemma SomeHexes()
    ensures PrintHex(0) == "00" && PrintHex(10) == "0A" && PrintHex(255) == "FF"
    ensures PrintHex(16) == "10" && PrintHex(1) == "01" && PrintHex(160) == "A0"
  {
  }

  lemma JoinedDevice()
    ensures Join("00", ':', Join("0A", ':', Join("FF", ':', Join("10", ':', Join("01", ':', "A0")))))
         == "00:0A:FF:10:01:A0"
  {
  }

  lemma PrintOneMore(b: byte, bytes: seq<byte>)
    requires bytes != []
    ensures PrintDevice([b] + bytes) == Join(PrintHex(b), ':', PrintDevice(bytes))
    ensures |bytes| == 1 ==> PrintDevice(bytes) == PrintHex(bytes[0])
  {
    assert ([b] + bytes)[1..] == bytes;
  }

  // ----- IP addresses -----

  /** An octet is exactly the shortest form of a byte. */
  lemma OctetExactly(s: string, b: byte)
    ensures ParseOctet(s) == Some(b) <==> s == PrintDecimal(b)
  {
    OctetRoundTrip(b);
    if ParseOctet(s) == Some(b) {
      hide DigitsValue, PrintDecimal;
      var zeros := DigitsArePadded(s);
      PaddedStartsWithZero(zeros, b);
      assert Zeros(0) + PrintDecimal(b) == PrintDecimal(b);
    }
  }

  lemma PaddedStartsWithZero(zeros: nat, n: nat)
    ensures zeros > 0 ==>
              |Zeros(zeros) + PrintDecimal(n)| > 1 && (Zeros(zeros) + PrintDecimal(n))[0] == '0'
  {
  }

  lemma JoinFour(s0: string, s1: string, s2: string, s3: string, c: char)
    ensures JoinAll([s0, s1, s2, s3], c) == Join(s0, c, Join(s1, c, Join(s2, c, s3)))
  {
    var pieces := [s0, s1, s2, s3];
    assert pieces[1..] == [s1, s2, s3] && [s1, s2, s3][1..] == [s2, s3] && [s2, s3][1..] == [s3];
    assert JoinAll([s3], c) == s3;
    assert JoinAll([s2, s3], c) == Join(s2, c, s3);
    assert JoinAll([s1, s2, s3], c) == Join(s1, c, Join(s2, c, s3));
  }

  /** A text is an IPv4 address exactly when it is printed so. */
  lemma V4Exactly(s: string, a: byte, b: byte, c: byte, d: byte)
    ensures ParseV4(s) == Some(V4(a, b, c, d)) <==> s == PrintV4(a, b, c, d)
  {
    V4RoundTrip(a, b, c, d);
    if ParseV4(s) == Some(V4(a, b, c, d)) {
      hide ParseOctet, Split, PrintDecimal, JoinAll;
      var parts := Split(s, '.');
      SplitExactly(s, '.', parts);
      OctetExactly(parts[0], a);
      OctetExactly(parts[1], b);
      OctetExactly(parts[2], c);
      OctetExactly(parts[3], d);
      JoinFour(parts[0], parts[1], parts[2], parts[3], '.');
      assert parts == [parts[0], parts[1], parts[2], parts[3]];
    }
  }

  /** An IP address is a printed IPv4 address, or else whatever is read as IPv6. */
  lemma IpAddrExactly(v6: V6Text, s: string, ip: IpAddr)
    ensures ParseIpAddr(v6, s) == Some(ip) <==>
              match ip
              case V4(a, b, c, d) => s == PrintV4(a, b, c, d)
              case V6(segments) =>
                v6.read(s) == Some(segments) && forall a, b, c, d :: s != PrintV4(a, b, c, d)
  {
    hide ParseV4, PrintV4;
    forall a, b, c, d ensures ParseV4(s) == Some(V4(a, b, c, d)) <==> s == PrintV4(a, b, c, d) {
      V4Exactly(s, a, b, c, d);
    }
    V4IsV4(s);
  }

  lemma V4IsV4(s: string)
    ensures ParseV4(s).Some? ==> ParseV4(s).value.V4?
  {
  }

  // ----- the two kinds of address -----

  lemma JoinTwo(s0: string, s1: string, c: char)
    ensures JoinAll([s0, s1], c) == Join(s0, c, s1)
  {
    assert [s0, s1][1..] == [s1];
    assert JoinAll([s1], c) == s1;
  }

  /** An IP address and, behind the first slash, its port. */
  ghost predicate IsIpPart(v6: V6Text, s: string, host: string, tail: string, ip: IpAddr, port: u16) {
    s == Join(host, '/', tail) && '/' !in host && ParseIpAddr(v6, host) == Some(ip) && IsDecimal(tail, port)
  }

  lemma IpPartExactly(v6: V6Text, s: string, ip: IpAddr, port: u16)
    ensures ParseIp(v6, s) == Ok(Ip(ip, port)) <==> exists host, tail :: IsIpPart(v6, s, host, tail, ip, port)
  {
    hide ParseIpAddr, ParseUnsigned, IsDecimal, SplitN, Join, JoinAll;
    var pieces := SplitN(s, 2, '/');
    SplitNExactly(s, 2, '/', pieces);
    if |pieces| == 2 {
      ParsedDecimalExactly(pieces[1], 0x1_0000, port);
      JoinTwo(pieces[0], pieces[1], '/');
      assert pieces == [pieces[0], pieces[1]];
      assert ParseIp(v6, s) == Ok(Ip(ip, port)) ==> IsIpPart(v6, s, pieces[0], pieces[1], ip, port);
    }
    if host, tail :| IsIpPart(v6, s, host, tail, ip, port) {
      JoinTwo(host, tail, '/');
      SplitNExactly(s, 2, '/', [host, tail]);
      ParsedDecimalExactly(tail, 0x1_0000, port);
    }
  }

  /** Up to six bytes with colons between them; those that are not there are zeros. */
  ghost predicate IsDevice(s: string, pieces: seq<string>, device: DeviceAddress) {
    && PiecesFor(pieces, 6, ':') && JoinAll(pieces, ':') == s
    && (forall i | 0 <= i < |pieces| :: IsHexByte(pieces[i], device[i]))
    && forall i | |pieces| <= i < 6 :: device[i] == 0
  }

  lemma {:induction false} ParsedBytesExactly(pieces: seq<string>, n: nat, bytes: seq<byte>)
    requires n <= |pieces|
    ensures ParseBytes(pieces, n) == Some(bytes) <==>
            |bytes| == n && forall i | 0 <= i < n :: IsHexByte(pieces[i], bytes[i])
  {
    hide ParseUnsigned, IsHexByte;
    if n == 0 {
    } else if bytes == [] {
    } else {
      var before, last := bytes[..|bytes| - 1], bytes[|bytes| - 1];
      assert bytes == before + [last];
      ParsedBytesExactly(pieces, n - 1, before);
      ParsedHexExactly(pieces[n - 1], last);
    }
  }

  lemma DeviceExactly(s: string, device: DeviceAddress)
    ensures ParseDevice(s) == Some(device) <==> exists pieces :: IsDevice(s, pieces, device)
  {
    hide ParseBytes, IsHexByte, SplitN, JoinAll, PiecesFor;
    var pieces := SplitN(s, 6, ':');
    SplitNExactly(s, 6, ':', pieces);
    ParsedBytesExactly(pieces, |pieces|, device[..|pieces|]);
    if ParseDevice(s) == Some(device) {
      assert device[..|pieces|] == ParseBytes(pieces, |pieces|).value;
      assert IsDevice(s, pieces, device);
    }
    if given :| IsDevice(s, given, device) {
      SplitNExactly(s, 6, ':', given);
      assert PadWithZeros(device[..|pieces|]) == device;
    }
  }

  /** A device and, behind the first slash, its port; whatever follows a second slash does not matter. */
  ghost predicate IsBluetoothPart(s: string, device: string, tail: string, address: DeviceAddress, psm: u16) {
    && '/' !in device && '/' !in tail
    && (s == Join(device, '/', tail) || exists more :: s == Join(device, '/', Join(tail, '/', more)))
    && ParseDevice(device) == Some(address) && IsDecimal(tail, psm)
  }

  lemma BluetoothPartExactly(s: string, address: DeviceAddress, psm: u16)
    ensures ParseBluetooth(s) == Ok(Device(address, psm)) <==>
              exists device, tail :: IsBluetoothPart(s, device, tail, address, psm)
  {
    hide ParseDevice, ParseUnsigned, IsDecimal, Split, Join, JoinAll;
    var pieces := Split(s, '/');
    SplitExactly(s, '/', pieces);
    if |pieces| > 1 {
      ParsedDecimalExactly(pieces[1], 0x1_0000, psm);
      FirstTwoPieces(pieces, '/');
      assert ParseBluetooth(s) == Ok(Device(address, psm)) ==> IsBluetoothPart(s, pieces[0], pieces[1], address, psm);
    }
    if device, tail :| IsBluetoothPart(s, device, tail, address, psm) {
      TwoPiecesSplit(s, device, tail);
      ParsedDecimalExactly(tail, 0x1_0000, psm);
    }
  }

  lemma FirstTwoPieces(pieces: seq<string>, c: char)
    requires |pieces| > 1
    ensures |pieces| == 2 ==> JoinAll(pieces, c) == Join(pieces[0], c, pieces[1])
    ensures |pieces| > 2 ==> JoinAll(pieces, c) == Join(pieces[0], c, Join(pieces[1], c, JoinAll(pieces[2..], c)))
  {
    if |pieces| == 2 {
      JoinTwo(pieces[0], pieces[1], c);
      assert pieces == [pieces[0], pieces[1]];
    } else {
      assert pieces[1..][1..] == pieces[2..];
    }
  }

  lemma TwoPiecesSplit(s: string, device: string, tail: string)
    requires '/' !in device && '/' !in tail
    requires s == Join(device, '/', tail) || exists more :: s == Join(device, '/', Join(tail, '/', more))
    ensures |Split(s, '/')| > 1 && Split(s, '/')[0] == device && Split(s, '/')[1] == tail
  {
    if s == Join(device, '/', tail) {
      SplitFirst(device, '/', tail, 0);
      SplitNone(tail, '/', 0);
    } else {
      var more :| s == Join(device, '/', Join(tail, '/', more));
      SplitFirst(device, '/', Join(tail, '/', more), 0);
      SplitFirst(tail, '/', more, 0);
    }
  }

  // ----- whole peers -----

  function FourParts(protocol: string, family: string, address: string): string {
    Join("", '/', Join(protocol, '/', Join(family, '/', address)))
  }

  /** Every text that is not rejected for its form has a protocol, a family and an address. */
  lemma FormHasParts(v6: V6Text, s: string) returns (protocol: string, family: string, address: string)
    requires ParsePeer(v6, s) != Err(InvalidPeer)
    ensures s == FourParts(protocol, family, address) && '/' !in protocol && '/' !in family
  {
    hide ParseProtocol, ParseAddress, SplitN, Join, JoinAll;
    var pieces := SplitN(s, 4, '/');
    SplitNExactly(s, 4, '/', pieces);
    protocol, family, address := pieces[1], pieces[2], pieces[3];
    JoinFour("", protocol, family, address, '/');
    assert pieces == ["", protocol, family, address];
  }

  lemma ParsedByParts(v6: V6Text, protocol: string, family: string, address: string)
    requires '/' !in protocol && '/' !in family
    ensures ParsePeer(v6, FourParts(protocol, family, address)) ==
            match ParseProtocol(protocol)
            case Err(e) => Err(e)
            case Ok(p) =>
              (match ParseAddress(v6, family, address)
               case Err(e) => Err(e)
               case Ok(a) => Ok(Peer(p, a)))
  {
    hide ParseProtocol, ParseAddress, SplitN, Join;
    SplitNFour("", protocol, family, address, '/');
    var pieces := [""] + ([protocol] + ([family] + [address]));
    assert pieces[0] == "" && pieces[1] == protocol && pieces[2] == family && pieces[3] == address;
  }

  /** The address of a family, whose name may be in any case. */
  ghost predicate IsAddress(v6: V6Text, family: string, s: string, address: Address) {
    match address
    case Ip(ip, port) => IgnoringCase(family, "ip") && exists host, tail :: IsIpPart(v6, s, host, tail, ip, port)
    case Device(device, psm) =>
      IgnoringCase(family, "bluetooth") && exists text, tail :: IsBluetoothPart(s, text, tail, device, psm)
  }

  lemma AddressExactly(v6: V6Text, family: string, s: string, address: Address)
    ensures ParseAddress(v6, family, s) == Ok(address) <==> IsAddress(v6, family, s, address)
  {
    hide ToLower, ParseIp, ParseBluetooth, IsIpPart, IsBluetoothPart, IgnoringCase;
    NamesAreLowerCase(Udp);
    LoweredIsName(family, "ip");
    LoweredIsName(family, "bluetooth");
    FamilyGivesItsKind(v6, family, s);
    match address
    case Ip(ip, port) => IpPartExactly(v6, s, ip, port);
    case Device(device, psm) => BluetoothPartExactly(s, device, psm);
  }

  lemma FamilyGivesItsKind(v6: V6Text, family: string, s: string)
    ensures ParseIp(v6, s).Ok? ==> ParseIp(v6, s).value.Ip?
    ensures ParseBluetooth(s).Ok? ==> ParseBluetooth(s).value.Device?
  {
    hide ParseIpAddr, ParseDevice, ParseUnsigned, SplitN, Split;
  }

  /**
   * A text with the parts of a peer is that peer exactly when its protocol is the peer's and its address is;
   * it has an unknown protocol exactly when the name is none of the five, and else an invalid address.
   */
  lemma PeerExactly(v6: V6Text, protocol: string, family: string, address: string, peer: Peer)
    requires '/' !in protocol && '/' !in family
    ensures var r := ParsePeer(v6, FourParts(protocol, family, address));
            && (r == Ok(peer) <==>
                  IgnoringCase(protocol, PrintProtocol(peer.protocol))
                  && IsAddress(v6, family, address, peer.address))
            && (r == Err(InvalidProtocol) <==> forall p: Protocol :: !IgnoringCase(protocol, PrintProtocol(p)))
            && r != Err(InvalidPeer)
  {
    hide FourParts, ParseProtocol, ParseAddress, IsAddress, IgnoringCase, PrintProtocol;
    ParsedByParts(v6, protocol, family, address);
    AddressExactly(v6, family, address, peer.address);
    forall p: Protocol ensures ParseProtocol(protocol) == Ok(p) <==> IgnoringCase(protocol, PrintProtocol(p)) {
      ProtocolExactly(protocol, p);
    }
  }
}
