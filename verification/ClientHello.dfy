/**
 The ClientHello peek of the SNI gateway (cmd/gateway/sni.go): record layer of section 5.1 of
 RFC 8446, ClientHello of section 4.1.2 of RFC 8446, extensions of section 4.2 of RFC 8446 and the
 server_name extension of section 3 of RFC 6066; with an encoder the parser is proved to undo.
 */
module ClientHello {
  import opened Base

  type Byte = x: int | 0 <= x < 256

  type Bytes = seq<Byte>

  datatype Error =
    | NotAHandshake | BadRecordLength | ShortRead
    | NotAClientHello | Truncated | NoExtensions | NoSni

  datatype Result<+T> = Ok(value: T) | Err(error: Error)

  function Uint16(b: Bytes): (n: nat)
    requires |b| >= 2
    ensures n < 65536
  {
    (b[0] as int) * 256 + b[1]
  }

  // ------------------------------------------------------------------ what it computes

  /** The first host_name of a server_name list body. */
  function NamesSni(ext: Bytes): (r: Result<Option<Bytes>>)
    ensures r.Err? ==> r.error == Truncated
    decreases |ext|
  {
    if |ext| < 3 then Ok(None)
    else
      var nameLen := Uint16(ext[1..]);
      if |ext| - 3 < nameLen then Err(Truncated)
      else if ext[0] == 0 then Ok(Some(ext[3..3 + nameLen]))
      else NamesSni(ext[3 + nameLen..])
  }

  /** The first host_name over the server_name extensions of an extensions block. */
  function ExtensionsSni(b: Bytes): (r: Result<Bytes>)
    ensures r.Err? ==> r.error == Truncated || r.error == NoSni
    decreases |b|
  {
    if |b| < 4 then Err(NoSni)
    else
      var elen := Uint16(b[2..]);
      if |b| - 4 < elen then Err(Truncated)
      else
        var ext, rest := b[4..4 + elen], b[4 + elen..];
        if Uint16(b) != 0 then ExtensionsSni(rest)
        else if |ext| < 2 then Err(Truncated)
        else
          match NamesSni(ext[2..])
          case Err(e) => Err(e)
          case Ok(Some(host)) => Ok(host)
          case Ok(None) => ExtensionsSni(rest)
  }

  /** Past a vector whose length prefix takes `prefix` bytes (1 or 2). */
  function SkipVector(b: Bytes, prefix: nat): (r: Result<Bytes>)
    requires prefix == 1 || prefix == 2
    ensures r.Err? ==> r.error == Truncated
  {
    if |b| < prefix then Err(Truncated)
    else
      var l := if prefix == 1 then b[0] else Uint16(b);
      if |b| - prefix < l then Err(Truncated) else Ok(b[prefix + l..])
  }

  /** Past session_id, cipher_suites and compression_methods. */
  function SkipVectors(b: Bytes, prefixes: seq<nat>): (r: Result<Bytes>)
    requires forall i | 0 <= i < |prefixes| :: prefixes[i] == 1 || prefixes[i] == 2
    ensures r.Err? ==> r.error == Truncated
  {
    if prefixes == [] then Ok(b)
    else
      match SkipVector(b, prefixes[0])
      case Err(e) => Err(e)
      case Ok(rest) => SkipVectors(rest, prefixes[1..])
  }

  function BlockSni(b: Bytes): Result<Bytes> {
    if |b| < 2 then Err(NoExtensions)
    else if |b| - 2 < Uint16(b) then Err(Truncated)
    else ExtensionsSni(b[2..2 + Uint16(b)])
  }

  function HelloSni(b: Bytes): Result<Bytes> {
    if |b| < 4 || b[0] != 1 then Err(NotAClientHello)
    else if |b| - 4 < 34 then Err(Truncated)
    else
      match SkipVectors(b[38..], [1, 2, 1])
      case Err(e) => Err(e)
      case Ok(rest) => BlockSni(rest)
  }

  // ------------------------------------------------------------------------ the loops

  /** The inner loop: over the names of one server_name extension. */
  method ScanNames(names: Bytes) returns (r: Result<Option<Bytes>>)
    ensures r == NamesSni(names)
  {
    var ext := names;
    while |ext| >= 3
      invariant NamesSni(ext) == NamesSni(names)
    {
      var nameType, nameLen := ext[0], Uint16(ext[1..]);
      ghost var entry := ext;
      ext := ext[3..];
      if |ext| < nameLen {
        return Err(Truncated);
      }
      if nameType == 0 {
        assert ext[..nameLen] == entry[3..3 + nameLen];
        return Ok(Some(ext[..nameLen]));
      }
      ext := ext[nameLen..];
      assert ext == entry[3 + nameLen..];
    }
    return Ok(None);
  }

  /** The outer loop: over the extensions block. */
  method ScanExtensions(block: Bytes) returns (r: Result<Bytes>)
    ensures r == ExtensionsSni(block)
  {
    var b := block;
    while |b| >= 4
      invariant ExtensionsSni(b) == ExtensionsSni(block)
    {
      var etype, elen := Uint16(b), Uint16(b[2..]);
      ghost var before := b;
      b := b[4..];
      if |b| < elen {
        return Err(Truncated);
      }
      var ext := b[..elen];
      b := b[elen..];
      assert ext == before[4..4 + elen] && b == before[4 + elen..];
      if etype == 0 {
        if |ext| < 2 {
          return Err(Truncated);
        }
        var name := ScanNames(ext[2..]);
        match name
        case Err(e) => return Err(e);
        case Ok(Some(host)) => return Ok(host);
        case Ok(None) =>
      }
    }
    return Err(NoSni);
  }

  method SniFromClientHello(hello: Bytes) returns (r: Result<Bytes>)
    ensures r == HelloSni(hello)
  {
    var b := hello;
    if |b| < 4 || b[0] != 1 {
      return Err(NotAClientHello);
    }
    b := b[4..];
    if |b| < 34 {
      return Err(Truncated);
    }
    b := b[34..];
    assert b == hello[38..];
    var skips: seq<nat> := [1, 2, 1];
    var i := 0;
    while i < |skips|
      invariant 0 <= i <= |skips|
      invariant SkipVectors(b, skips[i..]) == SkipVectors(hello[38..], skips)
    {
      var skip := skips[i];
      ghost var before := b;
      assert skips[i..][1..] == skips[i + 1..] && skips[i..][0] == skip;
      if |b| < skip {
        return Err(Truncated);
      }
      var l := if skip == 1 then b[0] else Uint16(b);
      b := b[skip..];
      if |b| < l {
        return Err(Truncated);
      }
      b := b[l..];
      assert b == before[skip + l..];
      i := i + 1;
    }
    assert SkipVectors(hello[38..], skips) == Ok(b);
    if |b| < 2 {
      return Err(NoExtensions);
    }
    var extLen := Uint16(b);
    if |b| - 2 < extLen {
      return Err(Truncated);
    }
    r := ScanExtensions(b[2..2 + extLen]);
  }

  /** A TCP stream seen as the bytes still to come. */
  class Reader {
    var pending: Bytes

    constructor (stream: Bytes)
      ensures pending == stream
    {
      pending := stream;
    }

    /** io.ReadFull into a zeroed buffer of n bytes; a failure has consumed what there was. */
    method ReadFull(n: nat) returns (data: Bytes, ok: bool)
      modifies this
      ensures ok <==> n <= |old(pending)|
      ensures data == Padded(old(pending), n)
      ensures pending == if ok then old(pending)[n..] else []
    {
      if n <= |pending| {
        data, pending := pending[..n], pending[n..];
        ok := true;
      } else {
        data, pending := pending + Zeros(n - |pending|), [];
        ok := false;
      }
    }
  }

  function Zeros(n: nat): Bytes { seq(n, _ => 0) }

  /** The first n bytes of a stream, zeros standing in for those that never came. */
  function Padded(stream: Bytes, n: nat): (b: Bytes)
    ensures |b| == n
  {
    if n <= |stream| then stream[..n] else stream + Zeros(n - |stream|)
  }

  const MAX_RECORD := 16384 + 2048

  /** What peeking a stream yields. */
  function PeekSni(stream: Bytes): Result<Bytes> {
    if |stream| < 5 then Err(ShortRead)
    else if stream[0] != 0x16 then Err(NotAHandshake)
    else
      var n := Uint16(stream[3..]);
      if n == 0 || n > MAX_RECORD then Err(BadRecordLength)
      else if |stream| - 5 < n then Err(ShortRead)
      else HelloSni(stream[5..5 + n])
  }

  /** Reads exactly the first record and returns the bytes to replay: unless the stream ended early,
      replaying them ahead of what the reader still holds restores the stream, whatever the verdict. */
  method PeekClientHelloSni(reader: Reader) returns (r: Result<Bytes>, raw: Bytes)
    modifies reader
    ensures r == PeekSni(old(reader.pending))
    ensures r != Err(ShortRead) ==> raw + reader.pending == old(reader.pending)
    ensures r.Ok? ==> |raw| == 5 + Uint16(old(reader.pending)[3..])
    ensures r == Err(ShortRead) ==>
      && reader.pending == []
      && raw == if |old(reader.pending)| < 5 then [] else Padded(old(reader.pending), 5 + Uint16(old(reader.pending)[3..]))
  {
    ghost var stream := reader.pending;
    var hdr, ok := reader.ReadFull(5);
    if !ok {
      return Err(ShortRead), [];
    }
    assert hdr == stream[..5] && hdr[3..] == stream[3..5];
    if hdr[0] != 0x16 {
      return Err(NotAHandshake), hdr;
    }
    var n := Uint16(hdr[3..]);
    assert n == Uint16(stream[3..]);
    if n == 0 || n > MAX_RECORD {
      return Err(BadRecordLength), hdr;
    }
    var body;
    body, ok := reader.ReadFull(n);
    raw := hdr + body;
    assert stream == hdr + stream[5..];
    if !ok {
      assert raw == Padded(stream, 5 + n);
      return Err(ShortRead), raw;
    }
    assert raw + reader.pending == stream;
    assert body == stream[5..5 + n];
    r := SniFromClientHello(body);
  }

  /** Nothing but a handshake record of 1 to 18432 bytes, there in full and holding a ClientHello, is ever
      accepted. */
  lemma AcceptsOnlyClientHellos(stream: Bytes)
    requires PeekSni(stream).Ok?
    ensures |stream| >= 9 && stream[0] == 22 && stream[5] == 1
    ensures var n: int := (stream[3] as int) * 256 + (stream[4] as int); 1 <= n <= 18432 && |stream| >= 5 + n
  {
    var n := Uint16(stream[3..]);
    assert stream[3..][0] == stream[3] && stream[3..][1] == stream[4];
    assert |stream[5..5 + n]| == n && stream[5..5 + n][0] == stream[5];
  }

  // ---------------------------------------------------------------------- the encoder

  function Encode16(n: nat): (b: Bytes)
    requires n < 65536
    ensures |b| == 2 && Uint16(b) == n
  {
    [n / 256, n % 256]
  }

  datatype Name = Name(kind: Byte, host: Bytes)

  datatype Extension = ServerName(names: seq<Name>) | Other(kind: nat, data: Bytes)

  datatype Hello = Hello(
    version: Bytes, random: Bytes, sessionId: Bytes, ciphers: Bytes, compression: Bytes, extensions: seq<Extension>)

  function EncodeNames(names: seq<Name>): Bytes
    requires forall i | 0 <= i < |names| :: |names[i].host| < 65536
  {
    if names == [] then []
    else [names[0].kind] + Encode16(|names[0].host|) + names[0].host + EncodeNames(names[1..])
  }

  predicate WellFormedExtension(e: Extension) {
    match e
    case ServerName(names) =>
      (forall i | 0 <= i < |names| :: |names[i].host| < 65536) && |EncodeNames(names)| < 65534
    case Other(kind, data) => 0 < kind < 65536 && |data| < 65536
  }

  function EncodeData(e: Extension): (b: Bytes)
    requires WellFormedExtension(e)
    ensures |b| < 65536
  {
    match e
    case ServerName(names) => Encode16(|EncodeNames(names)|) + EncodeNames(names)
    case Other(_, data) => data
  }

  function EncodeExtension(e: Extension): Bytes
    requires WellFormedExtension(e)
  {
    Encode16(if e.ServerName? then 0 else e.kind) + Encode16(|EncodeData(e)|) + EncodeData(e)
  }

  function EncodeExtensions(es: seq<Extension>): Bytes
    requires forall i | 0 <= i < |es| :: WellFormedExtension(es[i])
  {
    if es == [] then [] else EncodeExtension(es[0]) + EncodeExtensions(es[1..])
  }

  predicate WellFormed(h: Hello) {
    && |h.version| == 2 && |h.random| == 32
    && |h.sessionId| < 256 && |h.ciphers| < 65536 && |h.compression| < 256
    && (forall i | 0 <= i < |h.extensions| :: WellFormedExtension(h.extensions[i]))
    && |EncodeExtensions(h.extensions)| < 65536
  }

  /** Everything after the four-byte handshake header, up to the extensions block. */
  function EncodeVectors(h: Hello): Bytes
    requires WellFormed(h)
  {
    [|h.sessionId|] + h.sessionId + (Encode16(|h.ciphers|) + h.ciphers + ([|h.compression|] + h.compression))
  }

  function EncodeBlock(h: Hello): Bytes
    requires WellFormed(h)
  {
    Encode16(|EncodeExtensions(h.extensions)|) + EncodeExtensions(h.extensions)
  }

  function EncodeBody(h: Hello): Bytes
    requires WellFormed(h)
  {
    h.version + h.random + EncodeVectors(h) + EncodeBlock(h)
  }

  function EncodeHello(h: Hello): Bytes
    requires WellFormed(h)
  {
    var n := |EncodeBody(h)|;
    [1, n / 65536 % 256] + Encode16(n % 65536) + EncodeBody(h)
  }

  function EncodeRecord(h: Hello): Bytes
    requires WellFormed(h) && |EncodeHello(h)| <= 18432
  {
    [0x16, 3, 1] + Encode16(|EncodeHello(h)|) + EncodeHello(h)
  }

  // -------------------------------------------------------------------- the round trip

  /** The first host_name of a list of names. */
  function FirstHost(names: seq<Name>): Option<Bytes> {
    if names == [] then None
    else if names[0].kind == 0 then Some(names[0].host)
    else FirstHost(names[1..])
  }

  /** The first host_name over the server_name extensions. */
  function Sni(es: seq<Extension>): Option<Bytes> {
    if es == [] then None
    else if es[0].ServerName? && FirstHost(es[0].names).Some? then FirstHost(es[0].names)
    else Sni(es[1..])
  }

  lemma {:induction false} NamesRoundTrip(names: seq<Name>)
    requires forall i | 0 <= i < |names| :: |names[i].host| < 65536
    ensures NamesSni(EncodeNames(names)) == Ok(FirstHost(names))
  {
    if names != [] {
      var b, n, rest := EncodeNames(names), names[0], EncodeNames(names[1..]);
      NamesRoundTrip(names[1..]);
      var len := Encode16(|n.host|);
      assert b == [n.kind] + len + n.host + rest;
      assert b[1..][0] == len[0] && b[1..][1] == len[1];
      assert b[3..3 + |n.host|] == n.host && b[3 + |n.host|..] == rest;
    }
  }

  lemma ExtensionParts(kind: Bytes, len: Bytes, data: Bytes, rest: Bytes)
    requires |kind| == |len| == 2
    ensures var b := kind + len + data + rest;
      && Uint16(b) == Uint16(kind) && Uint16(b[2..]) == Uint16(len)
      && b[4..4 + |data|] == data && b[4 + |data|..] == rest
  {
  }

  lemma {:induction false} ExtensionsRoundTrip(es: seq<Extension>)
    requires forall i | 0 <= i < |es| :: WellFormedExtension(es[i])
    ensures ExtensionsSni(EncodeExtensions(es)) == match Sni(es) case Some(host) => Ok(host) case None => Err(NoSni)
  {
    if es != [] {
      var e, rest := es[0], EncodeExtensions(es[1..]);
      var kind, data := Encode16(if e.ServerName? then 0 else e.kind), EncodeData(e);
      var len := Encode16(|data|);
      var b := EncodeExtensions(es);
      assert b == kind + len + data + rest;
      ExtensionsRoundTrip(es[1..]);
      ExtensionParts(kind, len, data, rest);
      if e.ServerName? {
        assert data[2..] == EncodeNames(e.names);
        NamesRoundTrip(e.names);
      }
    }
  }

  lemma SkipEncodedVector(prefix: nat, len: Bytes, data: Bytes, rest: Bytes)
    requires (prefix == 1 && |data| < 256 && len == [|data|]) || (prefix == 2 && |data| < 65536 && len == Encode16(|data|))
    ensures SkipVector(len + data + rest, prefix) == Ok(rest)
  {
    var b := len + data + rest;
    assert b[0] == len[0] && (prefix == 2 ==> b[1] == len[1]);
    assert b[prefix + |data|..] == rest;
  }

  lemma VectorsRoundTrip(h: Hello, rest: Bytes)
    requires WellFormed(h)
    ensures SkipVectors(EncodeVectors(h) + rest, [1, 2, 1]) == Ok(rest)
  {
    var compression := [|h.compression|] + h.compression + rest;
    var ciphers := Encode16(|h.ciphers|) + h.ciphers + compression;
    assert EncodeVectors(h) + rest == [|h.sessionId|] + h.sessionId + ciphers;
    SkipEncodedVector(1, [|h.sessionId|], h.sessionId, ciphers);
    SkipEncodedVector(2, Encode16(|h.ciphers|), h.ciphers, compression);
    SkipEncodedVector(1, [|h.compression|], h.compression, rest);
    assert [1, 2, 1][1..] == [2, 1] && [2, 1][1..] == [1] && [1][1..] == [];
    assert SkipVectors(rest, []) == Ok(rest);
    assert SkipVectors(compression, [1]) == Ok(rest);
    assert SkipVectors(ciphers, [2, 1]) == Ok(rest);
  }

  /** Parsing the encoding of any well-formed ClientHello returns the first host_name over its
      server_name extensions, or the no-SNI error exactly when there is none, whatever follows the
      extensions block. */
  lemma HelloRoundTrip(h: Hello, trailer: Bytes)
    requires WellFormed(h)
    ensures HelloSni(EncodeHello(h) + trailer) == match Sni(h.extensions) case Some(host) => Ok(host) case None => Err(NoSni)
  {
    var b, block := EncodeHello(h) + trailer, EncodeExtensions(h.extensions);
    var rest := EncodeBlock(h) + trailer;
    assert |b| >= 38 && b[0] == 1 && b[38..] == EncodeVectors(h) + rest by {
      HelloParts(h, trailer);
    }
    VectorsRoundTrip(h, rest);
    assert BlockSni(rest) == ExtensionsSni(block) by {
      BlockParts(Encode16(|block|), block, trailer);
    }
    ExtensionsRoundTrip(h.extensions);
  }

  lemma HelloParts(h: Hello, trailer: Bytes)
    requires WellFormed(h)
    ensures var b := EncodeHello(h) + trailer;
      |b| >= 38 && b[0] == 1 && b[38..] == EncodeVectors(h) + (EncodeBlock(h) + trailer)
  {
    var n := |EncodeBody(h)|;
    var header: Bytes := [1, n / 65536 % 256] + Encode16(n % 65536) + h.version + h.random;
    assert |header| == 38;
    assert EncodeHello(h) + trailer == header + (EncodeVectors(h) + (EncodeBlock(h) + trailer));
  }

  lemma BlockParts(len: Bytes, block: Bytes, trailer: Bytes)
    requires |len| == 2 && Uint16(len) == |block|
    ensures BlockSni(len + block + trailer) == ExtensionsSni(block)
  {
    var b := len + block + trailer;
    assert Uint16(b) == |block| && b[2..2 + |block|] == block;
  }

  // -------------------------------------------------------------- trailing bytes

  lemma SkipVectorIgnoresTrailer(b: Bytes, trailer: Bytes, prefix: nat)
    requires (prefix == 1 || prefix == 2) && SkipVector(b, prefix).Ok?
    ensures SkipVector(b + trailer, prefix) == Ok(SkipVector(b, prefix).value + trailer)
  {
    var l := if prefix == 1 then b[0] else Uint16(b);
    assert (b + trailer)[prefix + l..] == b[prefix + l..] + trailer;
  }

  lemma {:induction false} SkipVectorsIgnoreTrailer(b: Bytes, trailer: Bytes, prefixes: seq<nat>)
    requires forall i | 0 <= i < |prefixes| :: prefixes[i] == 1 || prefixes[i] == 2
    requires SkipVectors(b, prefixes).Ok?
    ensures SkipVectors(b + trailer, prefixes) == Ok(SkipVectors(b, prefixes).value + trailer)
    decreases |prefixes|
  {
    if prefixes != [] {
      SkipVectorIgnoresTrailer(b, trailer, prefixes[0]);
      SkipVectorsIgnoreTrailer(SkipVector(b, prefixes[0]).value, trailer, prefixes[1..]);
    }
  }

  /** On ANY bytes, appending after a ClientHello that parsed never changes what it parsed to. */
  lemma TrailerNeverChangesSni(b: Bytes, trailer: Bytes)
    requires HelloSni(b).Ok? || HelloSni(b) == Err(NoSni)
    ensures HelloSni(b + trailer) == HelloSni(b)
  {
    assert (b + trailer)[38..] == b[38..] + trailer;
    SkipVectorsIgnoreTrailer(b[38..], trailer, [1, 2, 1]);
    var rest := SkipVectors(b[38..], [1, 2, 1]).value;
    assert Uint16(rest + trailer) == Uint16(rest);
    assert (rest + trailer)[2..2 + Uint16(rest)] == rest[2..2 + Uint16(rest)];
  }
}
