/** The text form of peers: `/protocol/address_family/address`, printed and parsed. */
module PeerText {
  import opened Packet
  import opened Peers
  import opened Text

  datatype Error = InvalidPeer | InvalidProtocol | InvalidAddress

  datatype Result<+T> = Ok(value: T) | Err(error: Error)

  /** The text form of IPv6 addresses, which is the standard library's. */
  datatype V6Text = V6Text(show: Segments -> string, read: string -> Option<Segments>)

  /** Printed IPv6 addresses have colons and no slash, and can be read back. */
  ghost predicate Invertible(v6: V6Text) {
    forall a: Segments :: v6.read(v6.show(a)) == Some(a) && ':' in v6.show(a) && '/' !in v6.show(a)
  }

  // ----- printing -----

  function PrintProtocol(protocol: Protocol): string {
    match protocol
    case Udp => "udp"
    case Tcp => "tcp"
    case Ws => "ws"
    case Wss => "wss"
    case Bluetooth => "bluetooth"
  }

  function PrintV4(a: byte, b: byte, c: byte, d: byte): string {
    Join(PrintDecimal(a), '.', Join(PrintDecimal(b), '.', Join(PrintDecimal(c), '.', PrintDecimal(d))))
  }

  function PrintIp(v6: V6Text, ip: IpAddr): string {
    match ip
    case V4(a, b, c, d) => PrintV4(a, b, c, d)
    case V6(segments) => v6.show(segments)
  }

  function PrintDevice(bytes: seq<byte>): string {
    if bytes == [] then ""
    else if |bytes| == 1 then PrintHex(bytes[0])
    else Join(PrintHex(bytes[0]), ':', PrintDevice(bytes[1..]))
  }

  function PrintPeer(v6: V6Text, peer: Peer): string {
    var (family, address) :=
      match peer.address
      case Ip(ip, port) => ("ip", Join(PrintIp(v6, ip), '/', PrintDecimal(port)))
      case Device(device, psm) => ("bluetooth", Join(PrintDevice(device), '/', PrintDecimal(psm)));
    Join("", '/', Join(PrintProtocol(peer.protocol), '/', Join(family, '/', address)))
  }

  // ----- parsing -----

  function ToLower(s: string): string {
    seq(|s|, i requires 0 <= i < |s| => if 'A' <= s[i] <= 'Z' then (s[i] as int + 32) as char else s[i])
  }

  function ParseProtocol(s: string): (r: Result<Protocol>)
    ensures r.Err? ==> r.error == InvalidProtocol
  {
    var lower := ToLower(s);
    if lower == "tcp" then Ok(Tcp)
    else if lower == "udp" then Ok(Udp)
    else if lower == "ws" then Ok(Ws)
    else if lower == "wss" then Ok(Wss)
    else if lower == "bluetooth" then Ok(Bluetooth)
    else Err(InvalidProtocol)
  }

  /** One of the four numbers of an IPv4 address: up to three digits, and no needless zero in front. */
  function ParseOctet(s: string): Option<byte> {
    var value := DigitsValue(s, 10);
    if 1 <= |s| <= 3 && (|s| > 1 ==> s[0] != '0') && value.Some? && value.value < 0x100
    then Some(value.value) else None
  }

  function ParseV4(s: string): Option<IpAddr> {
    var parts := Split(s, '.');
    if |parts| != 4 then None
    else
      match (ParseOctet(parts[0]), ParseOctet(parts[1]), ParseOctet(parts[2]), ParseOctet(parts[3]))
      case (Some(a), Some(b), Some(c), Some(d)) => Some(V4(a, b, c, d))
      case _ => None
  }

  function ParseIpAddr(v6: V6Text, s: string): Option<IpAddr> {
    var v4 := ParseV4(s);
    if v4.Some? then v4
    else match v6.read(s)
         case Some(segments) => Some(V6(segments))
         case None => None
  }

  function ParseIp(v6: V6Text, s: string): (r: Result<Address>)
    ensures r.Err? ==> r.error == InvalidAddress
  {
    var pieces := SplitN(s, 2, '/');
    var ip := ParseIpAddr(v6, pieces[0]);
    if ip.None? || |pieces| < 2 then Err(InvalidAddress)
    else
      match ParseUnsigned(pieces[1], 10, 0x1_0000)
      case Some(port) => Ok(Ip(ip.value, port))
      case None => Err(InvalidAddress)
  }

  /** The bytes that the first `n` pieces stand for; `None` when one of them is not a byte. */
  function ParseBytes(pieces: seq<string>, n: nat): (r: Option<seq<byte>>)
    requires n <= |pieces|
    ensures r.Some? ==> |r.value| == n
  {
    if n == 0 then Some([])
    else
      var before := ParseBytes(pieces, n - 1);
      var b := ParseUnsigned(pieces[n - 1], 16, 0x100);
      if before.Some? && b.Some? then Some(before.value + [b.value]) else None
  }

  function PadWithZeros(bytes: seq<byte>): DeviceAddress
    requires |bytes| <= 6
  {
    bytes + seq(6 - |bytes|, _ => 0)
  }

  /** The bytes of a device; those that are not given are zero. */
  function ParseDevice(s: string): (r: Option<DeviceAddress>) {
    var pieces := SplitN(s, 6, ':');
    match ParseBytes(pieces, |pieces|)
    case Some(bytes) => Some(PadWithZeros(bytes))
    case None => None
  }

  function ParseBluetooth(s: string): (r: Result<Address>)
    ensures r.Err? ==> r.error == InvalidAddress
  {
    var pieces := Split(s, '/');
    var device := ParseDevice(pieces[0]);
    if device.None? || |pieces| < 2 then Err(InvalidAddress)
    else
      match ParseUnsigned(pieces[1], 10, 0x1_0000)
      case Some(psm) => Ok(Device(device.value, psm))
      case None => Err(InvalidAddress)
  }

  function ParseAddress(v6: V6Text, family: string, s: string): (r: Result<Address>)
    ensures r.Err? ==> r.error == InvalidAddress
  {
    var lower := ToLower(family);
    if lower == "ip" then ParseIp(v6, s)
    else if lower == "bluetooth" then ParseBluetooth(s)
    else Err(InvalidAddress)
  }

  function ParsePeer(v6: V6Text, s: string): Result<Peer> {
    var pieces := SplitN(s, 4, '/');
    if |pieces| < 4 || pieces[0] != "" then Err(InvalidPeer)
    else
      match ParseProtocol(pieces[1])
      case Err(e) => Err(e)
      case Ok(protocol) =>
        (match ParseAddress(v6, pieces[2], pieces[3])
         case Err(e) => Err(e)
         case Ok(address) => Ok(Peer(protocol, address)))
  }

  // ----- printing, then parsing -----

  lemma ProtocolRoundTrip(protocol: Protocol)
    ensures ParseProtocol(PrintProtocol(protocol)) == Ok(protocol)
    ensures '/' !in PrintProtocol(protocol)
  {
    var s := PrintProtocol(protocol);
    assert ToLower(s) == s;
  }

  lemma OctetRoundTrip(b: byte)
    ensures ParseOctet(PrintDecimal(b)) == Some(b)
  {
    DecimalRoundTrip(b);
    DecimalForm(b);
  }

  lemma V4RoundTrip(a: byte, b: byte, c: byte, d: byte)
    ensures ParseV4(PrintV4(a, b, c, d)) == Some(V4(a, b, c, d))
  {
    hide ParseOctet, PrintDecimal, Split, Join;
    var (s0, s1, s2, s3) := (PrintDecimal(a), PrintDecimal(b), PrintDecimal(c), PrintDecimal(d));
    OctetRoundTrip(a);
    OctetRoundTrip(b);
    OctetRoundTrip(c);
    OctetRoundTrip(d);
    SplitFour(s0, s1, s2, s3, '.');
    var parts := [s0] + ([s1] + ([s2] + [s3]));
    assert parts[0] == s0 && parts[1] == s1 && parts[2] == s2 && parts[3] == s3;
  }

  lemma V4HasNoSlash(a: byte, b: byte, c: byte, d: byte)
    ensures '/' !in PrintV4(a, b, c, d)
  {
  }

  /** A text with a colon is not taken for an IPv4 address. */
  lemma ColonIsNotV4(s: string)
    requires ':' in s
    ensures ParseV4(s) == None
  {
    SplitKeepsCharacters(s, '.', ':');
    var piece :| piece in Split(s, '.') && ':' in piece;
    ColonIsNotDigits(piece);
  }

  lemma {:induction false} ColonIsNotDigits(s: string)
    requires ':' in s
    ensures DigitsValue(s, 10) == None
  {
    var rest := s[..|s| - 1];
    assert s == rest + [s[|s| - 1]];
    if s[|s| - 1] != ':' {
      ColonIsNotDigits(rest);
    }
  }

  lemma IpRoundTrip(v6: V6Text, ip: IpAddr)
    requires Invertible(v6)
    ensures ParseIpAddr(v6, PrintIp(v6, ip)) == Some(ip)
    ensures '/' !in PrintIp(v6, ip)
  {
    match ip
    case V4(a, b, c, d) =>
      V4RoundTrip(a, b, c, d);
      V4HasNoSlash(a, b, c, d);
    case V6(segments) => ColonIsNotV4(v6.show(segments));
  }

  function HexPieces(bytes: seq<byte>): seq<string> {
    seq(|bytes|, i requires 0 <= i < |bytes| => PrintHex(bytes[i]))
  }

  lemma HexPiecesCons(bytes: seq<byte>)
    requires bytes != []
    ensures HexPieces(bytes) == [PrintHex(bytes[0])] + HexPieces(bytes[1..])
  {
  }

  lemma OnlyPiece(bytes: seq<byte>, n: nat)
    requires |bytes| == 1 && n > 0
    ensures SplitN(PrintDevice(bytes), n, ':') == HexPieces(bytes)
  {
    HexHasNo(bytes[0], ':');
    hide PrintHex;
    SplitNone(PrintHex(bytes[0]), ':', n);
    assert HexPieces(bytes) == [PrintHex(bytes[0])];
  }

  lemma FirstPiece(bytes: seq<byte>, n: nat)
    requires |bytes| > 1 && n > 1
    requires SplitN(PrintDevice(bytes[1..]), n - 1, ':') == HexPieces(bytes[1..])
    ensures SplitN(PrintDevice(bytes), n, ':') == HexPieces(bytes)
  {
    HexHasNo(bytes[0], ':');
    HexPiecesCons(bytes);
    assert PrintDevice(bytes) == Join(PrintHex(bytes[0]), ':', PrintDevice(bytes[1..]));
    hide PrintHex, PrintDevice, HexPieces, Join, SplitN;
    SplitFirst(PrintHex(bytes[0]), ':', PrintDevice(bytes[1..]), n);
  }

  lemma {:induction false} PiecesOfDevice(bytes: seq<byte>, n: nat)
    requires 0 < |bytes| <= n
    ensures SplitN(PrintDevice(bytes), n, ':') == HexPieces(bytes)
    decreases |bytes|
  {
    hide PrintDevice, HexPieces, SplitN;
    if |bytes| == 1 {
      OnlyPiece(bytes, n);
    } else {
      PiecesOfDevice(bytes[1..], n - 1);
      FirstPiece(bytes, n);
    }
  }

  lemma {:induction false} HexPiecesReadBack(bytes: seq<byte>, n: nat)
    requires n <= |bytes|
    ensures ParseBytes(HexPieces(bytes), n) == Some(bytes[..n])
  {
    hide ParseUnsigned, PrintHex;
    if n > 0 {
      HexPiecesReadBack(bytes, n - 1);
      ParsePrintedHex(bytes[n - 1]);
      assert HexPieces(bytes)[n - 1] == PrintHex(bytes[n - 1]);
      assert bytes[..n - 1] + [bytes[n - 1]] == bytes[..n];
    }
  }

  lemma {:induction false} DeviceHasNoSlash(bytes: seq<byte>)
    ensures '/' !in PrintDevice(bytes)
    decreases |bytes|
  {
    if bytes != [] {
      HexHasNo(bytes[0], '/');
      if |bytes| > 1 {
        DeviceHasNoSlash(bytes[1..]);
        JoinAvoids(PrintHex(bytes[0]), ':', PrintDevice(bytes[1..]), '/');
      }
    }
  }

  /** Up to six printed bytes are read back, and zeros stand for those that are not there. */
  lemma ShortDeviceIsPadded(bytes: seq<byte>)
    requires 0 < |bytes| <= 6
    ensures var device := ParseDevice(PrintDevice(bytes));
            && device.Some?
            && device.value[..|bytes|] == bytes
            && forall j | |bytes| <= j < 6 :: device.value[j] == 0
  {
    PiecesOfDevice(bytes, 6);
    HexPiecesReadBack(bytes, |bytes|);
    assert bytes[..|bytes|] == bytes;
  }

  lemma DeviceRoundTrip(device: DeviceAddress)
    ensures ParseDevice(PrintDevice(device)) == Some(device)
    ensures '/' !in PrintDevice(device)
  {
    ShortDeviceIsPadded(device);
    assert ParseDevice(PrintDevice(device)).value[..6] == ParseDevice(PrintDevice(device)).value;
    DeviceHasNoSlash(device);
  }

  lemma IpAddressRoundTrip(v6: V6Text, ip: IpAddr, port: u16)
    requires Invertible(v6)
    ensures ParseIp(v6, Join(PrintIp(v6, ip), '/', PrintDecimal(port))) == Ok(Ip(ip, port))
  {
    hide PrintIp, PrintDecimal, ParseIpAddr, ParseUnsigned, Join, Invertible;
    IpRoundTrip(v6, ip);
    SplitFirst(PrintIp(v6, ip), '/', PrintDecimal(port), 2);
    ParsePrintedDecimal(port, 0x1_0000);
  }

  lemma BluetoothAddressRoundTrip(device: DeviceAddress, psm: u16)
    ensures ParseBluetooth(Join(PrintDevice(device), '/', PrintDecimal(psm))) == Ok(Device(device, psm))
  {
    DeviceRoundTrip(device);
    SplitFirst(PrintDevice(device), '/', PrintDecimal(psm), 0);
    SplitNone(PrintDecimal(psm), '/', 0);
    ParsePrintedDecimal(psm, 0x1_0000);
  }

  /** The parser finds the protocol, the family and the address where the printer puts them. */
  lemma ParsePieces(v6: V6Text, protocol: Protocol, family: string, rest: string, address: Address)
    requires '/' !in family && ParseAddress(v6, family, rest) == Ok(address)
    ensures ParsePeer(v6, Join("", '/', Join(PrintProtocol(protocol), '/', Join(family, '/', rest))))
         == Ok(Peer(protocol, address))
  {
    var name := PrintProtocol(protocol);
    ProtocolRoundTrip(protocol);
    hide ParseProtocol, ParseAddress, PrintProtocol, SplitN, Join;
    SplitNFour("", name, family, rest, '/');
    var pieces := [""] + ([name] + ([family] + [rest]));
    assert pieces[0] == "" && pieces[1] == name && pieces[2] == family && pieces[3] == rest;
  }

  lemma FamiliesAreLower()
    ensures ToLower("ip") == "ip" && ToLower("bluetooth") == "bluetooth"
    ensures '/' !in "ip" && '/' !in "bluetooth"
  {
  }

  /** Parsing what was printed gives back the same peer, whatever its protocol and address. */
  lemma PeerRoundTrip(v6: V6Text, peer: Peer)
    requires Invertible(v6)
    ensures ParsePeer(v6, PrintPeer(v6, peer)) == Ok(peer)
  {
    FamiliesAreLower();
    match peer.address
    case Ip(ip, port) =>
      IpAddressRoundTrip(v6, ip, port);
      ParsePieces(v6, peer.protocol, "ip", Join(PrintIp(v6, ip), '/', PrintDecimal(port)), peer.address);
    case Device(device, psm) =>
      BluetoothAddressRoundTrip(device, psm);
      ParsePieces(v6, peer.protocol, "bluetooth", Join(PrintDevice(device), '/', PrintDecimal(psm)), peer.address);
  }

  /** No two peers are printed alike. */
  lemma PrintingIsInjective(v6: V6Text, one: Peer, other: Peer)
    requires Invertible(v6)
    ensures PrintPeer(v6, one) == PrintPeer(v6, other) ==> one == other
  {
    PeerRoundTrip(v6, one);
    PeerRoundTrip(v6, other);
  }

  /** Printing what was parsed gives a text that parses to the same: a normal form. */
  lemma ReprintingIsStable(v6: V6Text, s: string)
    requires Invertible(v6) && ParsePeer(v6, s).Ok?
    ensures ParsePeer(v6, PrintPeer(v6, ParsePeer(v6, s).value)) == ParsePeer(v6, s)
  {
    PeerRoundTrip(v6, ParsePeer(v6, s).value);
  }

  /** A text is rejected for its form exactly when it does not start with a slash or has fewer than three. */
  lemma RejectedForFormExactly(v6: V6Text, s: string)
    ensures ParsePeer(v6, s) == Err(InvalidPeer) <==> s == "" || s[0] != '/' || Count(s, '/') < 3
  {
    hide ParseProtocol, ParseAddress;
    PiecesByCount(s, 4, '/');
    FirstPieceIsEmptyExactly(s, 4, '/');
  }

  lemma FirstPieceIsEmptyExactly(s: string, n: nat, c: char)
    requires n > 1
    ensures SplitN(s, n, c)[0] == "" <==> s == "" || s[0] == c
  {
  }

  // ----- the parser as it is written -----

  lemma {:induction false} OneBadPieceFailsAll(pieces: seq<string>, i: nat, n: nat)
    requires i < n <= |pieces| && ParseUnsigned(pieces[i], 16, 0x100).None?
    ensures ParseBytes(pieces, n) == None
  {
    if i + 1 < n {
      OneBadPieceFailsAll(pieces, i, n - 1);
    }
  }

  /** Fills the six bytes of a device one by one. */
  method ReadDevice(s: string) returns (r: Option<DeviceAddress>)
    ensures r == ParseDevice(s)
  {
    var pieces := SplitN(s, 6, ':');
    var bytes := new byte[6](_ => 0);
    for i := 0 to |pieces|
      invariant forall j | i <= j < 6 :: bytes[j] == 0
      invariant ParseBytes(pieces, i) == Some(bytes[..i])
    {
      var b := ParseUnsigned(pieces[i], 16, 0x100);
      if b.None? {
        OneBadPieceFailsAll(pieces, i, |pieces|);
        return None;
      }
      ghost var before := bytes[..i];
      bytes[i] := b.value;
      assert bytes[..i + 1] == before + [b.value];
    }
    assert bytes[..] == PadWithZeros(bytes[..|pieces|]);
    return Some(bytes[..]);
  }

  method FromStr(v6: V6Text, s: string) returns (r: Result<Peer>)
    ensures r == ParsePeer(v6, s)
  {
    var pieces := SplitN(s, 4, '/');
    if |pieces| < 4 || pieces[0] != "" {
      return Err(InvalidPeer);
    }
    var protocol := ParseProtocol(pieces[1]);
    if protocol.Err? {
      return Err(protocol.error);
    }
    var family := ToLower(pieces[2]);
    if family == "ip" {
      var address := ParseIp(v6, pieces[3]);
      return if address.Ok? then Ok(Peer(protocol.value, address.value)) else Err(address.error);
    }
    if family != "bluetooth" {
      return Err(InvalidAddress);
    }
    var parts := Split(pieces[3], '/');
    var device := ReadDevice(parts[0]);
    if device.None? || |parts| < 2 {
      return Err(InvalidAddress);
    }
    var psm := ParseUnsigned(parts[1], 10, 0x1_0000);
    if psm.None? {
      return Err(InvalidAddress);
    }
    return Ok(Peer(protocol.value, Device(device.value, psm.value)));
  }
}
