/** Reading the server name out of a TLS ClientHello, against an encoder for records that
    carry one (section 7.4.1.2 of RFC 5246, section 3 of RFC 6066). */
module TlsSniffer {
  import opened Bytes

  datatype SniffError = NoClue | NotTls | NotClientHello

  datatype Outcome = Host(name: seq<byte>) | Fail(error: SniffError)

  const HANDSHAKE: byte := 0x16
  const DOT: byte := 0x2E

  // ---------------------------------------------------------------- the parser as a function

  datatype Names = HostName(name: seq<byte>) | NoHostName | Malformed

  predicate EndsInDot(name: seq<byte>) {
    name != [] && name[|name| - 1] == DOT
  }

  /** The entries of a server name list. */
  function ParseNames(d: seq<byte>): Names
    decreases |d|
  {
    if d == [] then NoHostName
    else if |d| < 3 then Malformed
    else
      var nameLen := U16(d[1], d[2]);
      if |d| - 3 < nameLen then Malformed
      else if d[0] == 0 then
        if EndsInDot(d[3..3 + nameLen]) then Malformed else HostName(d[3..3 + nameLen])
      else ParseNames(d[3 + nameLen..])
  }

  /** The body of a server name extension. */
  function ParseServerNames(d: seq<byte>): Names {
    if |d| < 2 || |d| - 2 != U16(d[0], d[1]) then Malformed else ParseNames(d[2..])
  }

  function ParseExtensions(data: seq<byte>): Outcome
    decreases |data|
  {
    if data == [] then Fail(NotTls)
    else if |data| < 4 then Fail(NotClientHello)
    else
      var length := U16(data[2], data[3]);
      if |data| - 4 < length then Fail(NotClientHello)
      else
        var names := if U16(data[0], data[1]) == 0 then ParseServerNames(data[4..4 + length]) else NoHostName;
        match names
        case HostName(name) => Host(name)
        case Malformed => Fail(NotClientHello)
        case NoHostName => ParseExtensions(data[4 + length..])
  }

  /** From the cipher suites on. */
  function ParseSuites(data: seq<byte>): Outcome {
    if |data| < 2 then Fail(NoClue)
    else
      var suites := U16(data[0], data[1]);
      if suites % 2 == 1 || |data| < 2 + suites then Fail(NotClientHello)
      else ParseCompression(data[2 + suites..])
  }

  /** From the compression methods on. */
  function ParseCompression(data: seq<byte>): Outcome {
    if |data| < 1 || |data| < 1 + data[0] as nat then Fail(NoClue)
    else
      var rest := data[1 + data[0] as nat..];
      if |rest| < 2 || U16(rest[0], rest[1]) != |rest| - 2 then Fail(NotClientHello)
      else ParseExtensions(rest[2..])
  }

  function ParseClientHello(data: seq<byte>): Outcome {
    if |data| < 42 || data[38] > 32 || |data| < 39 + data[38] as nat then Fail(NoClue)
    else ParseSuites(data[39 + data[38] as nat..])
  }

  function ParseRecord(b: seq<byte>): Outcome {
    if |b| < 5 then Fail(NoClue)
    else if b[0] != HANDSHAKE || b[1] != 3 then Fail(NotTls)
    else if 5 + U16(b[3], b[4]) > |b| then Fail(NoClue)
    else ParseClientHello(b[5..5 + U16(b[3], b[4])])
  }

  // ---------------------------------------------------------------- the parser as written

  predicate IsValidTLSVersion(major: byte, minor: byte) {
    major == 3
  }

  /** One server name extension; NoHostName lets the caller go on to the next extension. */
  method ReadServerNames(body: seq<byte>) returns (r: Names)
    ensures r == ParseServerNames(body)
  {
    var d := body;
    if |d| < 2 {
      return Malformed;
    }
    var namesLen := U16(d[0], d[1]);
    d := d[2..];
    if |d| != namesLen {
      return Malformed;
    }
    while |d| > 0
      invariant ParseNames(d) == ParseServerNames(body)
    {
      if |d| < 3 {
        return Malformed;
      }
      var nameType, nameLen := d[0], U16(d[1], d[2]);
      ghost var entry := d;
      d := d[3..];
      if |d| < nameLen {
        return Malformed;
      }
      assert d[..nameLen] == entry[3..3 + nameLen] && d[nameLen..] == entry[3 + nameLen..];
      if nameType == 0 {
        var serverName := d[..nameLen];
        if EndsInDot(serverName) {
          return Malformed;
        }
        return HostName(serverName);
      }
      d := d[nameLen..];
    }
    return NoHostName;
  }

  method ReadExtensions(extensions: seq<byte>) returns (r: Outcome)
    ensures r == ParseExtensions(extensions)
  {
    var data := extensions;
    while |data| != 0
      invariant ParseExtensions(data) == ParseExtensions(extensions)
    {
      if |data| < 4 {
        return Fail(NotClientHello);
      }
      var extension, length := U16(data[0], data[1]), U16(data[2], data[3]);
      ghost var whole := data;
      data := data[4..];
      if |data| < length {
        return Fail(NotClientHello);
      }
      assert data[..length] == whole[4..4 + length] && data[length..] == whole[4 + length..];
      if extension == 0 {
        var names := ReadServerNames(data[..length]);
        match names {
          case HostName(name) => return Host(name);
          case Malformed => return Fail(NotClientHello);
          case NoHostName =>
        }
      }
      data := data[length..];
    }
    return Fail(NotTls);
  }

  /** From the cipher suites on. */
  method ReadSuites(hello: seq<byte>) returns (r: Outcome)
    ensures r == ParseSuites(hello)
  {
    var data := hello;
    if |data| < 2 {
      return Fail(NoClue);
    }
    var cipherSuiteLen := U16(data[0], data[1]);
    if cipherSuiteLen % 2 == 1 || |data| < 2 + cipherSuiteLen {
      return Fail(NotClientHello);
    }
    data := data[2 + cipherSuiteLen..];
    assert ParseSuites(hello) == ParseCompression(data);
    if |data| < 1 {
      return Fail(NoClue);
    }
    var compressionMethodsLen: nat := data[0];
    if |data| < 1 + compressionMethodsLen {
      return Fail(NoClue);
    }
    data := data[1 + compressionMethodsLen..];
    if |data| == 0 {
      return Fail(NotClientHello);
    }
    if |data| < 2 {
      return Fail(NotClientHello);
    }
    var extensionsLength := U16(data[0], data[1]);
    data := data[2..];
    if extensionsLength != |data| {
      return Fail(NotClientHello);
    }
    r := ReadExtensions(data);
  }

  method ReadClientHello(data: seq<byte>) returns (r: Outcome)
    ensures r == ParseClientHello(data)
  {
    if |data| < 42 {
      return Fail(NoClue);
    }
    var sessionIdLen: nat := data[38];
    if sessionIdLen > 32 || |data| < 39 + sessionIdLen {
      return Fail(NoClue);
    }
    r := ReadSuites(data[39 + sessionIdLen..]);
  }

  /** The sniffed host: found exactly when the bytes start with a well-formed record. */
  method SniffTLS(b: seq<byte>) returns (r: Outcome)
    ensures r == ParseRecord(b)
    ensures r.Host? ==> Carries(b, r.name)
    ensures forall h :: Carries(b, h) ==> r == Host(h)
  {
    EveryHost(b);
    if |b| < 5 {
      return Fail(NoClue);
    }
    if b[0] != HANDSHAKE {
      return Fail(NotTls);
    }
    if !IsValidTLSVersion(b[1], b[2]) {
      return Fail(NotTls);
    }
    var headerLen := U16(b[3], b[4]);
    if 5 + headerLen > |b| {
      return Fail(NoClue);
    }
    r := ReadClientHello(b[5..5 + headerLen]);
  }

  // ---------------------------------------------------------------- the encoder

  function Framed8(field: seq<byte>): (r: seq<byte>)
    requires |field| < 256
    ensures |r| == 1 + |field|
  {
    [|field|] + field
  }

  /** A framed field and what follows can be told apart again. */
  lemma Read8(field: seq<byte>, rest: seq<byte>)
    requires |field| < 256
    ensures var d := Framed8(field) + rest;
            d[0] == |field| && d[1..1 + |field|] == field && d[1 + |field|..] == rest
  {
  }

  lemma Read16(field: seq<byte>, rest: seq<byte>)
    requires |field| < 0x1_0000
    ensures var d := Framed16(field) + rest;
            U16(d[0], d[1]) == |field| && d[2..2 + |field|] == field && d[2 + |field|..] == rest
  {
    var d := Framed16(field) + rest;
    assert d[0] == U16Bytes(|field|)[0] && d[1] == U16Bytes(|field|)[1];
  }

  lemma Split8(d: seq<byte>)
    requires 1 <= |d| && 1 + d[0] as nat <= |d|
    ensures d == Framed8(d[1..1 + d[0] as nat]) + d[1 + d[0] as nat..]
  {
  }

  lemma Split16(d: seq<byte>)
    requires 2 <= |d| && 2 + U16(d[0], d[1]) <= |d|
    ensures d == Framed16(d[2..2 + U16(d[0], d[1])]) + d[2 + U16(d[0], d[1])..]
  {
    U16RoundTrip(d[0], d[1]);
  }

  /** Entries of a server name list that are not host names. */
  datatype NameEntry = NameEntry(nameType: byte, name: seq<byte>)
  {
    predicate WellFormed() {
      nameType != 0 && |name| < 0x1_0000
    }

    function Encode(): seq<byte>
      requires |name| < 0x1_0000
    {
      [nameType] + Framed16(name)
    }
  }

  predicate EntriesWellFormed(entries: seq<NameEntry>) {
    forall i :: 0 <= i < |entries| ==> entries[i].WellFormed()
  }

  function EncodeEntries(entries: seq<NameEntry>): seq<byte>
    requires EntriesWellFormed(entries)
  {
    if entries == [] then [] else entries[0].Encode() + EncodeEntries(entries[1..])
  }

  /** Extensions that name no host. */
  datatype Extension = Other(kind: nat, body: seq<byte>) | NoHost(entries: seq<NameEntry>)
  {
    predicate WellFormed() {
      match this
      case Other(kind, body) => 0 < kind < 0x1_0000 && |body| < 0x1_0000
      case NoHost(entries) => EntriesWellFormed(entries) && |EncodeEntries(entries)| < 0x1_0000 - 2
    }

    function Kind(): nat {
      match this
      case Other(kind, _) => kind
      case NoHost(_) => 0
    }

    function Body(): seq<byte>
      requires WellFormed()
    {
      match this
      case Other(_, body) => body
      case NoHost(entries) => Framed16(EncodeEntries(entries))
    }

    function Encode(): seq<byte>
      requires WellFormed()
    {
      U16Bytes(Kind()) + Framed16(Body())
    }
  }

  predicate ExtensionsWellFormed(extensions: seq<Extension>) {
    forall i :: 0 <= i < |extensions| ==> extensions[i].WellFormed()
  }

  function EncodeExtensions(extensions: seq<Extension>): seq<byte>
    requires ExtensionsWellFormed(extensions)
  {
    if extensions == [] then [] else extensions[0].Encode() + EncodeExtensions(extensions[1..])
  }

  /** A server name extension with a host name: other entries, the host, then anything. */
  datatype HostNames = HostNames(entriesBefore: seq<NameEntry>, host: seq<byte>, otherNames: seq<byte>)
  {
    predicate WellFormed() {
      && EntriesWellFormed(entriesBefore)
      && |host| < 0x1_0000 && !EndsInDot(host) && |NameList()| < 0x1_0000 - 2
    }

    function NameList(): seq<byte>
      requires EntriesWellFormed(entriesBefore) && |host| < 0x1_0000
    {
      EncodeEntries(entriesBefore) + ([0] + Framed16(host) + otherNames)
    }

    function Body(): seq<byte>
      requires WellFormed()
    {
      Framed16(NameList())
    }

    function Encode(): seq<byte>
      requires WellFormed()
    {
      U16Bytes(0) + Framed16(Body())
    }
  }

  /** A ClientHello with a host name: message header, version and random in `head`, then the
      fields up to the extensions, the extensions before the host name, and anything after. */
  datatype Hello = Hello(head: seq<byte>, sessionId: seq<byte>, suites: seq<byte>, compression: seq<byte>,
                         before: seq<Extension>, names: HostNames, otherExtensions: seq<byte>)
  {
    predicate WellFormed() {
      && |head| == 38 && |sessionId| <= 32
      && |suites| < 0x1_0000 && |suites| % 2 == 0 && |compression| < 256
      && ExtensionsWellFormed(before) && names.WellFormed()
      && |Extensions()| < 0x1_0000
    }

    function Extensions(): seq<byte>
      requires ExtensionsWellFormed(before) && names.WellFormed()
    {
      EncodeExtensions(before) + (names.Encode() + otherExtensions)
    }

    function EncodeCompression(): seq<byte>
      requires WellFormed()
    {
      Framed8(compression) + Framed16(Extensions())
    }

    function EncodeSuites(): seq<byte>
      requires WellFormed()
    {
      Framed16(suites) + EncodeCompression()
    }

    function Encode(): seq<byte>
      requires WellFormed()
    {
      head + (Framed8(sessionId) + EncodeSuites())
    }
  }

  /** A handshake record of any 3.x version, followed by anything. */
  datatype Record = Record(minor: byte, hello: Hello, trailing: seq<byte>)
  {
    predicate WellFormed() {
      hello.WellFormed() && |hello.Encode()| < 0x1_0000
    }

    function Encode(): seq<byte>
      requires WellFormed()
    {
      [HANDSHAKE, 3, minor] + (Framed16(hello.Encode()) + trailing)
    }
  }

  /** The bytes are an encoded record with `h` as its first host name, and what follows it. */
  ghost predicate Carries(b: seq<byte>, h: seq<byte>) {
    exists m: Record :: m.WellFormed() && m.hello.names.host == h && m.Encode() == b
  }

  // ---------------------------------------------------------------- parser against encoder

  /** One entry at the front of a name list. */
  lemma ParseEntry(nameType: byte, name: seq<byte>, rest: seq<byte>)
    requires |name| < 0x1_0000
    ensures ParseNames([nameType] + Framed16(name) + rest) ==
            if nameType != 0 then ParseNames(rest)
            else if EndsInDot(name) then Malformed else HostName(name)
  {
    var d, field := [nameType] + Framed16(name) + rest, Framed16(name) + rest;
    Read16(name, rest);
    assert d[1..] == field;
    assert d[1] == field[0] && d[2] == field[1];
    assert d[3..3 + |name|] == field[2..2 + |name|] && d[3 + |name|..] == field[2 + |name|..];
  }

  /** Entries that are not host names are skipped. */
  lemma {:induction false} ParseEntries(entries: seq<NameEntry>, rest: seq<byte>)
    requires EntriesWellFormed(entries)
    ensures ParseNames(EncodeEntries(entries) + rest) == ParseNames(rest)
    decreases |entries|
  {
    if entries == [] {
      assert EncodeEntries(entries) + rest == rest;
    } else {
      var e, tail := entries[0], EncodeEntries(entries[1..]) + rest;
      assert EncodeEntries(entries) + rest == [e.nameType] + Framed16(e.name) + tail;
      ParseEntry(e.nameType, e.name, tail);
      ParseEntries(entries[1..], rest);
    }
  }

  /** Splits off the first entry of a name list. */
  lemma SplitEntry(d: seq<byte>)
    requires 3 <= |d| && 3 + U16(d[1], d[2]) <= |d|
    ensures var name := d[3..3 + U16(d[1], d[2])];
            d == [d[0]] + Framed16(name) + d[3 + U16(d[1], d[2])..]
  {
    var field := d[1..];
    assert field[0] == d[1] && field[1] == d[2];
    Split16(field);
    assert d == [d[0]] + field;
    assert field[2..2 + U16(d[1], d[2])] == d[3..3 + U16(d[1], d[2])];
    assert field[2 + U16(d[1], d[2])..] == d[3 + U16(d[1], d[2])..];
  }

  /** Splits a name list where the parser stops: at a host entry, or at the end. */
  lemma {:induction false} SplitNames(d: seq<byte>) returns (entries: seq<NameEntry>, rest: seq<byte>)
    requires ParseNames(d) != Malformed
    ensures EntriesWellFormed(entries) && d == EncodeEntries(entries) + rest
    ensures ParseNames(d).NoHostName? ==> rest == []
    ensures ParseNames(d).HostName? ==> |rest| >= 3 && rest[0] == 0 && ParseNames(rest) == ParseNames(d)
    decreases |d|
  {
    if d == [] || d[0] == 0 {
      entries, rest := [], d;
    } else {
      var nameLen := U16(d[1], d[2]);
      SplitEntry(d);
      var e := NameEntry(d[0], d[3..3 + nameLen]);
      var more;
      more, rest := SplitNames(d[3 + nameLen..]);
      entries := [e] + more;
      EntriesAgain(e, more, rest);
    }
  }

  lemma EntriesAgain(e: NameEntry, more: seq<NameEntry>, rest: seq<byte>)
    requires e.WellFormed() && EntriesWellFormed(more)
    ensures EntriesWellFormed([e] + more)
    ensures EncodeEntries([e] + more) + rest == [e.nameType] + Framed16(e.name) + (EncodeEntries(more) + rest)
  {
    assert ([e] + more)[1..] == more;
  }

  /** One extension at the front of the list. */
  lemma ParseOne(kind: seq<byte>, body: seq<byte>, rest: seq<byte>)
    requires |kind| == 2 && |body| < 0x1_0000
    ensures ParseExtensions(kind + Framed16(body) + rest) ==
            match (if U16(kind[0], kind[1]) == 0 then ParseServerNames(body) else NoHostName)
            case HostName(name) => Host(name)
            case Malformed => Fail(NotClientHello)
            case NoHostName => ParseExtensions(rest)
  {
    var data, field := kind + Framed16(body) + rest, Framed16(body) + rest;
    Read16(body, rest);
    assert data[2..] == field;
    assert data[0] == kind[0] && data[1] == kind[1];
    assert data[2] == field[0] && data[3] == field[1];
    assert data[4..4 + |body|] == field[2..2 + |body|] && data[4 + |body|..] == field[2 + |body|..];
  }

  lemma ParseNameList(names: seq<byte>)
    requires |names| < 0x1_0000
    ensures ParseServerNames(Framed16(names)) == ParseNames(names)
  {
    Read16(names, []);
    assert Framed16(names) + [] == Framed16(names);
    assert Framed16(names)[2..] == names;
  }

  lemma NoHostBody(entries: seq<NameEntry>)
    requires EntriesWellFormed(entries) && |EncodeEntries(entries)| < 0x1_0000 - 2
    ensures ParseServerNames(Framed16(EncodeEntries(entries))) == NoHostName
  {
    ParseNameList(EncodeEntries(entries));
    ParseEntries(entries, []);
    assert EncodeEntries(entries) + [] == EncodeEntries(entries);
  }

  /** Extensions without a host name are skipped. */
  lemma {:induction false} ParseBefore(extensions: seq<Extension>, rest: seq<byte>)
    requires ExtensionsWellFormed(extensions)
    ensures ParseExtensions(EncodeExtensions(extensions) + rest) == ParseExtensions(rest)
    decreases |extensions|
  {
    if extensions == [] {
      assert EncodeExtensions(extensions) + rest == rest;
    } else {
      var e, tail := extensions[0], EncodeExtensions(extensions[1..]) + rest;
      assert EncodeExtensions(extensions) + rest == U16Bytes(e.Kind()) + Framed16(e.Body()) + tail;
      ParseOne(U16Bytes(e.Kind()), e.Body(), tail);
      if e.NoHost? {
        NoHostBody(e.entries);
      }
      ParseBefore(extensions[1..], rest);
    }
  }

  lemma ParseHostNames(n: HostNames)
    requires n.WellFormed()
    ensures ParseServerNames(n.Body()) == HostName(n.host)
  {
    ParseNameList(n.NameList());
    ParseEntries(n.entriesBefore, [0] + Framed16(n.host) + n.otherNames);
    ParseEntry(0, n.host, n.otherNames);
  }

  /** Every encoded list of extensions yields its first host name. */
  lemma ParseEncodedExtensions(m: Hello)
    requires m.WellFormed()
    ensures ParseExtensions(m.Extensions()) == Host(m.names.host)
  {
    ParseBefore(m.before, m.names.Encode() + m.otherExtensions);
    ParseHostNames(m.names);
    ParseOne(U16Bytes(0), m.names.Body(), m.otherExtensions);
  }

  lemma ParseFramedExtensions(compression: seq<byte>, extensions: seq<byte>)
    requires |compression| < 256 && |extensions| < 0x1_0000
    ensures ParseCompression(Framed8(compression) + Framed16(extensions)) == ParseExtensions(extensions)
  {
    Read8(compression, Framed16(extensions));
    Read16(extensions, []);
    assert Framed16(extensions) + [] == Framed16(extensions);
    assert Framed16(extensions)[2..] == extensions;
  }

  lemma ParseFramedSuites(suites: seq<byte>, rest: seq<byte>)
    requires |suites| < 0x1_0000 && |suites| % 2 == 0
    ensures ParseSuites(Framed16(suites) + rest) == ParseCompression(rest)
  {
    Read16(suites, rest);
  }

  lemma ParseFramedSession(head: seq<byte>, sessionId: seq<byte>, rest: seq<byte>)
    requires |head| == 38 && |sessionId| <= 32 && |rest| >= 3
    ensures ParseClientHello(head + (Framed8(sessionId) + rest)) == ParseSuites(rest)
  {
    var data, field := head + (Framed8(sessionId) + rest), Framed8(sessionId) + rest;
    Read8(sessionId, rest);
    assert data[38] == field[0];
    assert data[39 + |sessionId|..] == field[1 + |sessionId|..];
  }

  /** Sniffing an encoded ClientHello yields its host. */
  lemma ParseEncodedHello(m: Hello)
    requires m.WellFormed()
    ensures ParseClientHello(m.Encode()) == Host(m.names.host)
  {
    ParseEncodedExtensions(m);
    ParseFramedExtensions(m.compression, m.Extensions());
    ParseFramedSuites(m.suites, m.EncodeCompression());
    ParseFramedSession(m.head, m.sessionId, m.EncodeSuites());
  }

  // ---------------------------------------------------------------- encoder from parser

  lemma SplitHostNames(body: seq<byte>) returns (names: HostNames)
    requires ParseServerNames(body).HostName? && |body| < 0x1_0000
    ensures names.WellFormed() && names.Body() == body && names.host == ParseServerNames(body).name
  {
    var entries, after := SplitNames(body[2..]);
    Split16(body);
    assert body == Framed16(body[2..]);
    SplitEntry(after);
    var h := ParseServerNames(body).name;
    names := HostNames(entries, h, after[3 + |h|..]);
    assert names.NameList() == body[2..];
  }

  lemma SkippedExtension(kind: nat, body: seq<byte>) returns (e: Extension)
    requires kind < 0x1_0000 && |body| < 0x1_0000
    requires kind == 0 ==> ParseServerNames(body) == NoHostName
    ensures e.WellFormed() && e.Kind() == kind && e.Body() == body
  {
    if kind == 0 {
      var entries, rest := SplitNames(body[2..]);
      assert EncodeEntries(entries) + rest == EncodeEntries(entries);
      Split16(body);
      assert body == Framed16(body[2..]);
      e := NoHost(entries);
    } else {
      e := Other(kind, body);
    }
  }

  lemma SplitExtension(data: seq<byte>)
    requires 4 <= |data| && 4 + U16(data[2], data[3]) <= |data|
    ensures var length := U16(data[2], data[3]);
            data == U16Bytes(U16(data[0], data[1])) + Framed16(data[4..4 + length]) + data[4 + length..]
  {
    var field, length := data[2..], U16(data[2], data[3]);
    U16RoundTrip(data[0], data[1]);
    assert field[0] == data[2] && field[1] == data[3];
    Split16(field);
    assert data == data[..2] + field;
    assert field[2..2 + length] == data[4..4 + length] && field[2 + length..] == data[4 + length..];
  }

  lemma ExtensionsAgain(e: Extension, more: seq<Extension>, rest: seq<byte>)
    requires e.WellFormed() && ExtensionsWellFormed(more)
    ensures ExtensionsWellFormed([e] + more)
    ensures EncodeExtensions([e] + more) + rest
         == U16Bytes(e.Kind()) + Framed16(e.Body()) + (EncodeExtensions(more) + rest)
  {
    assert ([e] + more)[1..] == more;
  }

  /** The extensions that the parser went through before it found the host. */
  lemma {:induction false} SplitExtensions(data: seq<byte>)
    returns (before: seq<Extension>, names: HostNames, rest: seq<byte>)
    requires ParseExtensions(data).Host?
    ensures ExtensionsWellFormed(before) && names.WellFormed()
    ensures data == EncodeExtensions(before) + (names.Encode() + rest)
    ensures names.host == ParseExtensions(data).name
    decreases |data|
  {
    var kind, length := U16(data[0], data[1]), U16(data[2], data[3]);
    var body, tail := data[4..4 + length], data[4 + length..];
    SplitExtension(data);
    if kind == 0 && ParseServerNames(body).HostName? {
      names := SplitHostNames(body);
      before, rest := [], tail;
    } else {
      var e := SkippedExtension(kind, body);
      var more;
      more, names, rest := SplitExtensions(tail);
      before := [e] + more;
      ExtensionsAgain(e, more, names.Encode() + rest);
    }
  }

  lemma SplitCompression(data: seq<byte>)
    requires ParseCompression(data).Host?
    ensures var n := data[0] as nat;
            && n <= |data| - 3 && |data[3 + n..]| < 0x1_0000
            && ParseExtensions(data[3 + n..]) == ParseCompression(data)
            && data == Framed8(data[1..1 + n]) + Framed16(data[3 + n..])
  {
    var n := data[0] as nat;
    var rest := data[1 + n..];
    Split8(data);
    Split16(rest);
    assert rest[2..] == data[3 + n..];
    assert rest == Framed16(rest[2..]);
  }

  lemma SplitSession(data: seq<byte>)
    requires 39 <= |data| && 39 + data[38] as nat <= |data|
    ensures data == data[..38] + (Framed8(data[39..39 + data[38] as nat]) + data[39 + data[38] as nat..])
  {
    var field, n := data[38..], data[38] as nat;
    assert field[0] == data[38];
    Split8(field);
    assert data == data[..38] + field;
    assert field[1..1 + n] == data[39..39 + n] && field[1 + n..] == data[39 + n..];
  }

  lemma SplitSuites(data: seq<byte>)
    requires ParseSuites(data).Host?
    ensures var n := U16(data[0], data[1]);
            && n % 2 == 0 && 2 + n <= |data|
            && ParseCompression(data[2 + n..]) == ParseSuites(data)
            && data == Framed16(data[2..2 + n]) + data[2 + n..]
  {
    Split16(data);
  }

  /** A ClientHello in which a host is found is an encoded one. */
  lemma SplitHello(data: seq<byte>) returns (m: Hello)
    requires ParseClientHello(data).Host?
    ensures m.WellFormed() && m.Encode() == data && m.names.host == ParseClientHello(data).name
  {
    SplitSession(data);
    var sid := data[38] as nat;
    m := SplitAfterSession(data[..38], data[39..39 + sid], data[39 + sid..]);
  }

  lemma SplitAfterSession(head: seq<byte>, sessionId: seq<byte>, afterId: seq<byte>) returns (m: Hello)
    requires ParseSuites(afterId).Host? && |head| == 38 && |sessionId| <= 32
    ensures m.WellFormed() && m.names.host == ParseSuites(afterId).name
    ensures m.Encode() == head + (Framed8(sessionId) + afterId)
  {
    SplitSuites(afterId);
    var n := U16(afterId[0], afterId[1]);
    var afterSuites := afterId[2 + n..];
    SplitCompression(afterSuites);
    var c := afterSuites[0] as nat;
    var before, names, rest := SplitExtensions(afterSuites[3 + c..]);
    m := Hello(head, sessionId, afterId[2..2 + n], afterSuites[1..1 + c], before, names, rest);
    assert m.Extensions() == afterSuites[3 + c..];
  }

  lemma ParseEncodedRecord(m: Record)
    requires m.WellFormed()
    ensures ParseRecord(m.Encode()) == Host(m.hello.names.host)
  {
    ParseEncodedHello(m.hello);
    ParseFramedRecord(m.minor, m.hello.Encode(), m.trailing);
  }

  lemma ParseFramedRecord(minor: byte, hello: seq<byte>, trailing: seq<byte>)
    requires |hello| < 0x1_0000
    ensures ParseRecord([HANDSHAKE, 3, minor] + (Framed16(hello) + trailing)) == ParseClientHello(hello)
  {
    var field := Framed16(hello) + trailing;
    var b := [HANDSHAKE, 3, minor] + field;
    Read16(hello, trailing);
    assert b[3..] == field;
    assert b[3] == field[0] && b[4] == field[1];
    assert b[5..5 + |hello|] == field[2..2 + |hello|];
  }

  lemma SplitRecord(b: seq<byte>) returns (m: Record)
    requires ParseRecord(b).Host?
    ensures m.WellFormed() && m.Encode() == b && m.hello.names.host == ParseRecord(b).name
  {
    var field, headerLen := b[3..], U16(b[3], b[4]);
    assert field[0] == b[3] && field[1] == b[4];
    Split16(field);
    assert b == [HANDSHAKE, 3, b[2]] + field;
    assert field[2..2 + headerLen] == b[5..5 + headerLen];
    var hello := SplitHello(b[5..5 + headerLen]);
    m := Record(b[2], hello, field[2 + headerLen..]);
  }

  /** Sniffing returns a host exactly when the bytes start with a well-formed record that
      carries a ClientHello with that host as its first host name. */
  lemma RecordWithHost(b: seq<byte>, h: seq<byte>)
    ensures ParseRecord(b) == Host(h) <==> Carries(b, h)
  {
    forall m: Record | m.WellFormed() && m.hello.names.host == h && m.Encode() == b
      ensures ParseRecord(b) == Host(h)
    {
      ParseEncodedRecord(m);
    }
    if ParseRecord(b) == Host(h) {
      var m := SplitRecord(b);
    }
  }

  lemma EveryHost(b: seq<byte>)
    ensures ParseRecord(b).Host? ==> Carries(b, ParseRecord(b).name)
    ensures forall h :: Carries(b, h) ==> ParseRecord(b) == Host(h)
  {
    if ParseRecord(b).Host? {
      RecordWithHost(b, ParseRecord(b).name);
    }
    forall h | Carries(b, h) ensures ParseRecord(b) == Host(h) {
      RecordWithHost(b, h);
    }
  }

  /** A record cut short gives no clue, whatever else it would have carried. */
  lemma CutShort(m: Record, n: nat)
    requires m.WellFormed() && n < 5 + |m.hello.Encode()|
    ensures ParseRecord(m.Encode()[..n]) == Fail(NoClue)
  {
    var b, e := m.Encode(), m.hello.Encode();
    Read16(e, m.trailing);
    if n >= 5 {
      var field := Framed16(e) + m.trailing;
      assert b[..n][3] == field[0] && b[..n][4] == field[1];
    }
  }

  // ---------------------------------------------------------------- a record in plain bytes

  /** The bytes of a ClientHello behind its first 38: no session id, the suite 0x1301, no
      compression, and a server name extension with the host alone. Lengths are big-endian. */
  function PlainFields(h: seq<byte>): (r: seq<byte>)
    requires |h| < 0x1_0000 - 56
    ensures |r| == 18 + |h|
  {
    var n := |h|;
    [0,
     0, 2, 0x13, 0x01,
     1, 0,
     (n + 9) / 256, (n + 9) % 256,
     0, 0, (n + 5) / 256, (n + 5) % 256,
     (n + 3) / 256, (n + 3) % 256,
     0, n / 256, n % 256] + h
  }

  function PlainRecord(head: seq<byte>, h: seq<byte>): seq<byte>
    requires |head| == 38 && |h| < 0x1_0000 - 56
  {
    [0x16, 3, 1, (|h| + 56) / 256, (|h| + 56) % 256] + (head + PlainFields(h))
  }

  function PlainOutcome(h: seq<byte>): Outcome {
    if h != [] && h[|h| - 1] == 0x2E then Fail(NotClientHello) else Host(h)
  }

  lemma PlainNames(h: seq<byte>)
    requires |h| < 0x1_0000 - 56
    ensures ParseServerNames(PlainFields(h)[13..]) == if PlainOutcome(h).Host? then HostName(h) else Malformed
  {
    var d, names := PlainFields(h)[13..], PlainFields(h)[15..];
    assert d[2..] == names;
    assert names[3..3 + |h|] == h by {
      assert PlainFields(h)[18..] == h;
    }
  }

  lemma PlainExtensions(h: seq<byte>)
    requires |h| < 0x1_0000 - 56
    ensures ParseExtensions(PlainFields(h)[9..]) == PlainOutcome(h)
  {
    var d := PlainFields(h)[9..];
    PlainNames(h);
    assert d[4..4 + (|h| + 5)] == PlainFields(h)[13..];
    assert d[4 + (|h| + 5)..] == [];
  }

  lemma AfterOneSuite(d: seq<byte>)
    requires |d| >= 4 && d[0] == 0 && d[1] == 2
    ensures ParseSuites(d) == ParseCompression(d[4..])
  {
  }

  lemma AfterOneMethod(d: seq<byte>)
    requires |d| >= 4 && d[0] == 1 && d[2] as nat * 256 + d[3] as nat == |d| - 4
    ensures ParseCompression(d) == ParseExtensions(d[4..])
  {
    var rest := d[2..];
    assert rest[0] == d[2] && rest[1] == d[3] && rest[2..] == d[4..];
  }

  lemma PlainSuites(h: seq<byte>)
    requires |h| < 0x1_0000 - 56
    ensures ParseSuites(PlainFields(h)[1..]) == PlainOutcome(h)
  {
    var fields := PlainFields(h);
    AfterOneSuite(fields[1..]);
    assert fields[1..][4..] == fields[5..];
    AfterOneMethod(fields[5..]);
    assert fields[5..][4..] == fields[9..];
    PlainExtensions(h);
  }

  lemma PlainHello(head: seq<byte>, h: seq<byte>)
    requires |head| == 38 && |h| < 0x1_0000 - 56
    ensures ParseClientHello(head + PlainFields(h)) == PlainOutcome(h)
  {
    var data, fields := head + PlainFields(h), PlainFields(h);
    assert data[38] == fields[0] && data[39..] == fields[1..];
    PlainSuites(h);
  }

  /** The record with host `h`, byte by byte and whatever its first 38 bytes are, gives `h`, unless
      that ends in a dot; with any other first byte it is no TLS. */
  lemma PlainRecordGivesHost(head: seq<byte>, h: seq<byte>, first: byte, major: byte)
    requires |head| == 38 && |h| < 0x1_0000 - 56
    ensures ParseRecord(PlainRecord(head, h)) == PlainOutcome(h)
    ensures first != 0x16 || major != 3 ==> ParseRecord(PlainRecord(head, h)[0 := first][1 := major]) == Fail(NotTls)
  {
    var b := PlainRecord(head, h);
    assert b[5..5 + (|h| + 56)] == head + PlainFields(h);
    PlainHello(head, h);
  }
}
