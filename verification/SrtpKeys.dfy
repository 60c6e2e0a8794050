/** DTLS-SRTP keying material (section 4.2 of RFC 5764). */
module SrtpKeys {
  import opened Bytes

  datatype Role = NoRole | Auto | Client | Server
  datatype Suite = AesCm128Sha80 | AesCm128Sha32 | AeadAes256Gcm | AeadAes128Gcm

  function KeyLength(s: Suite): nat {
    if s.AeadAes256Gcm? then 32 else 16
  }

  function SaltLength(s: Suite): nat {
    if s.AesCm128Sha80? || s.AesCm128Sha32? then 14 else 12
  }

  function MasterLength(s: Suite): nat {
    KeyLength(s) + SaltLength(s)
  }

  /** The exported block: both write keys, then both write salts, the client's first. */
  datatype Block = Block(clientKey: seq<byte>, serverKey: seq<byte>, clientSalt: seq<byte>, serverSalt: seq<byte>) {
    predicate Fits(s: Suite) {
      |clientKey| == |serverKey| == KeyLength(s) && |clientSalt| == |serverSalt| == SaltLength(s)
    }

    function Wire(): seq<byte> {
      clientKey + serverKey + clientSalt + serverSalt
    }
  }

  /** The four slices of an exported block; they tile it. */
  function Split(m: seq<byte>, s: Suite): (b: Block)
    requires |m| == 2 * MasterLength(s)
    ensures b.Fits(s) && b.Wire() == m
  {
    var k, t := KeyLength(s), SaltLength(s);
    Block(m[..k], m[k..2 * k], m[2 * k..2 * k + t], m[2 * k + t..])
  }

  /** The master key a role protects with is the one its peer unprotects with. */
  function LocalKey(b: Block, role: Role): seq<byte> {
    if role == Client then b.clientKey + b.clientSalt else b.serverKey + b.serverSalt
  }

  function RemoteKey(b: Block, role: Role): seq<byte> {
    if role == Client then b.serverKey + b.serverSalt else b.clientKey + b.clientSalt
  }

  /** Cut an exported block into the two master keys of a role. */
  method ExtractSrtpKeys(suite: Suite, material: seq<byte>, role: Role) returns (local: seq<byte>, remote: seq<byte>)
    requires |material| == 2 * MasterLength(suite) && (role == Client || role == Server)
    ensures local == LocalKey(Split(material, suite), role) && remote == RemoteKey(Split(material, suite), role)
    ensures |local| == |remote| == MasterLength(suite)
  {
    KeySlices(material, suite);
    hide Split, LocalKey, RemoteKey, Block.Wire, Block.Fits;
    var keyLength, saltLength := KeyLength(suite), SaltLength(suite);
    var localKey, remoteKey, localSalt, remoteSalt;
    if role == Server {
      remoteKey := 0;
      localKey := remoteKey + keyLength;
      remoteSalt := localKey + keyLength;
      localSalt := remoteSalt + saltLength;
    } else {
      localKey := 0;
      remoteKey := localKey + keyLength;
      localSalt := remoteKey + keyLength;
      remoteSalt := localSalt + saltLength;
    }
    local := Joined(material, localKey, localSalt, keyLength, saltLength);
    remote := Joined(material, remoteKey, remoteSalt, keyLength, saltLength);
  }

  /** Where the octets of each master key lie in the block. */
  lemma KeySlices(m: seq<byte>, s: Suite)
    requires |m| == 2 * MasterLength(s)
    ensures var b, k, t := Split(m, s), KeyLength(s), SaltLength(s);
            && LocalKey(b, Server) == RemoteKey(b, Client) == m[k..k + k] + m[k + k + t..k + k + t + t]
            && LocalKey(b, Client) == RemoteKey(b, Server) == m[0..0 + k] + m[k + k..k + k + t]
  {
  }

  /** The same in numbers: blocks of 60, 88 and 56 octets, the client's key and salt in front of the server's. */
  lemma KeyOctets(m: seq<byte>, s: Suite)
    requires |m| == 2 * MasterLength(s)
    ensures (s == AesCm128Sha80 || s == AesCm128Sha32) ==>
              && |m| == 60 && LocalKey(Split(m, s), Server) == RemoteKey(Split(m, s), Client) == m[16..32] + m[46..60]
              && RemoteKey(Split(m, s), Server) == LocalKey(Split(m, s), Client) == m[0..16] + m[32..46]
    ensures s == AeadAes256Gcm ==>
              && |m| == 88 && LocalKey(Split(m, s), Server) == RemoteKey(Split(m, s), Client) == m[32..64] + m[76..88]
              && RemoteKey(Split(m, s), Server) == LocalKey(Split(m, s), Client) == m[0..32] + m[64..76]
    ensures s == AeadAes128Gcm ==>
              && |m| == 56 && LocalKey(Split(m, s), Server) == RemoteKey(Split(m, s), Client) == m[16..32] + m[44..56]
              && RemoteKey(Split(m, s), Server) == LocalKey(Split(m, s), Client) == m[0..16] + m[32..44]
  {
    hide Split, LocalKey, RemoteKey, Block.Fits;
    KeySlices(m, s);
  }

  /** Key then salt, copied one behind the other. */
  method Joined(m: seq<byte>, key: nat, salt: nat, keyLength: nat, saltLength: nat) returns (r: seq<byte>)
    requires key + keyLength <= |m| && salt + saltLength <= |m|
    ensures r == m[key..key + keyLength] + m[salt..salt + saltLength]
  {
    hide Patch;
    var out := new byte[keyLength + saltLength];
    ghost var b := out[..];
    Copy(out, 0, m[key..key + keyLength]);
    Copy(out, keyLength, m[salt..salt + saltLength]);
    ghost var x := m[key..key + keyLength] + m[salt..salt + saltLength];
    PatchNext(b, 0, m[key..key + keyLength], m[salt..salt + saltLength]);
    PatchParts(b, 0, x);
    r := out[..];
    assert r[0..|x|] == r;
  }

  /**
   * Two peers that export the same block agree: each one's local key is the other's remote key, and the
   * block is read back exactly as section 4.2 of RFC 5764 lays it out, nothing shared, dropped or reordered.
   */
  lemma KeyAgreement(suite: Suite, b: Block)
    requires b.Fits(suite)
    ensures |b.Wire()| == 2 * MasterLength(suite) && Split(b.Wire(), suite) == b
    ensures var m := Split(b.Wire(), suite);
            && LocalKey(m, Server) == RemoteKey(m, Client) == b.serverKey + b.serverSalt
            && RemoteKey(m, Server) == LocalKey(m, Client) == b.clientKey + b.clientSalt
  {
    var m, k, t := b.Wire(), KeyLength(suite), SaltLength(suite);
    assert m[..k] == b.clientKey && m[k..2 * k] == b.serverKey;
    assert m[2 * k..2 * k + t] == b.clientSalt && m[2 * k + t..] == b.serverSalt;
  }
}
