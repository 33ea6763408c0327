/**
 Sealing and opening of records: [hmac(32)] [nonce(12)] [ciphertext].

 The two primitives are idealised as free symbols. A MAC byte is a symbol that carries the key and the whole
 authenticated message; a ciphertext byte is a symbol that carries the key, the nonce and the plaintext document.
 Records are flat sequences of such symbols and raw bytes, so that slicing and cutting behave as on disk.
 */
module Encrypt {
  import opened Wrappers
  import opened Text
  import opened Wal
  import opened Documents

  const HMAC_SIZE := 32
  const NONCE_SIZE := 12
  const GCM_OVERHEAD := 16
  const KEY_LEN := 32

  datatype Sym =
    | Raw(b: byte)
    | Mac(macKey: seq<byte>, msg: seq<Sym>, macPos: nat)
    | Cipher(blockKey: seq<byte>, nonce: seq<Sym>, plain: Doc, cipherPos: nat)

  type Blob = seq<Sym>

  type Nonce = s: seq<byte> | |s| == NONCE_SIZE
    witness [0, 0, 0, 0, 0, 0, 0, 0, 0, 0, 0, 0]

  /** The cipher's key schedule, the MAC key, and the length of a document's JSON text. */
  datatype Keys = Keys(block: seq<byte>, mac: seq<byte>, jsonLen: Doc -> nat)

  function RawBytes(bs: seq<byte>): (r: Blob)
    ensures |r| == |bs| && forall i :: 0 <= i < |r| ==> r[i] == Raw(bs[i])
  {
    seq(|bs|, i requires 0 <= i < |bs| => Raw(bs[i]))
  }

  // ---- Authenticated message ----

  /** uint64(ts), most significant byte first. */
  function BigEndian64(ts: int64): (r: seq<byte>)
    ensures |r| == 8
  {
    BigEndian(ts % 0x1_0000_0000_0000_0000, 8)
  }

  function BigEndian(u: nat, n: nat): (r: seq<byte>)
    ensures |r| == n
  {
    if n == 0 then [] else BigEndian(u / 256, n - 1) + [u % 256]
  }

  function Message(id: NodeId, ts: int64, nonce: Blob, ciphertext: Blob): Blob {
    RawBytes(id) + RawBytes(BigEndian64(ts)) + nonce + ciphertext
  }

  function Power256(n: nat): nat {
    if n == 0 then 1 else 256 * Power256(n - 1)
  }

  lemma {:induction false} BigEndianInjective(u: nat, v: nat, n: nat)
    requires u < Power256(n) && v < Power256(n)
    requires BigEndian(u, n) == BigEndian(v, n)
    ensures u == v
  {
    if n > 0 {
      var a, b := BigEndian(u, n), BigEndian(v, n);
      assert a[n - 1] == u % 256 && b[n - 1] == v % 256;
      assert a[..n - 1] == BigEndian(u / 256, n - 1) && b[..n - 1] == BigEndian(v / 256, n - 1);
      BigEndianInjective(u / 256, v / 256, n - 1);
    }
  }

  lemma EightBytes()
    ensures Power256(8) == 0x1_0000_0000_0000_0000
  {
    assert Power256(2) == 0x1_0000;
    assert Power256(4) == 0x1_0000_0000;
    assert Power256(6) == 0x1_0000_0000_0000;
  }

  lemma TimestampInjective(s: int64, t: int64)
    requires BigEndian64(s) == BigEndian64(t)
    ensures s == t
  {
    var limit := 0x1_0000_0000_0000_0000;
    EightBytes();
    hide BigEndian, Power256;
    BigEndianInjective(s % limit, t % limit, 8);
  }

  lemma RawBytesInjective(a: seq<byte>, b: seq<byte>)
    requires RawBytes(a) == RawBytes(b)
    ensures a == b
  {
    assert |a| == |b|;
    forall i | 0 <= i < |a|
      ensures a[i] == b[i]
    {
      assert RawBytes(a)[i] == RawBytes(b)[i];
    }
  }

  /** The authenticated byte string determines the id, the timestamp, the nonce and the ciphertext. */
  lemma MessageInjective(id: NodeId, ts: int64, nonce: Blob, ct: Blob, id': NodeId, ts': int64, nonce': Blob, ct': Blob)
    requires |nonce| == |nonce'| == NONCE_SIZE
    requires Message(id, ts, nonce, ct) == Message(id', ts', nonce', ct')
    ensures id == id' && ts == ts' && nonce == nonce' && ct == ct'
  {
    hide BigEndian64;
    var m, m' := Message(id, ts, nonce, ct), Message(id', ts', nonce', ct');
    assert m[..16] == RawBytes(id) && m'[..16] == RawBytes(id');
    assert m[16..24] == RawBytes(BigEndian64(ts)) && m'[16..24] == RawBytes(BigEndian64(ts'));
    assert m[24..36] == nonce && m'[24..36] == nonce';
    assert m[36..] == ct && m'[36..] == ct';
    RawBytesInjective(id, id');
    RawBytesInjective(BigEndian64(ts), BigEndian64(ts'));
    TimestampInjective(ts, ts');
  }

  // ---- Idealised primitives ----

  function MacOf(key: seq<byte>, msg: Blob): (r: Blob)
    ensures |r| == HMAC_SIZE && forall i :: 0 <= i < |r| ==> r[i] == Mac(key, msg, i)
  {
    seq(HMAC_SIZE, i requires 0 <= i => Mac(key, msg, i))
  }

  function GcmSeal(k: Keys, nonce: Blob, doc: Doc): (r: Blob)
    ensures |r| == k.jsonLen(doc) + GCM_OVERHEAD
    ensures forall i :: 0 <= i < |r| ==> r[i] == Cipher(k.block, nonce, doc, i)
  {
    seq(k.jsonLen(doc) + GCM_OVERHEAD, i requires 0 <= i => Cipher(k.block, nonce, doc, i))
  }

  /** Succeeds only on a complete ciphertext made under the same key and nonce. */
  function GcmOpen(k: Keys, nonce: Blob, ciphertext: Blob): Option<Doc> {
    if |ciphertext| >= GCM_OVERHEAD && ciphertext[0].Cipher? && ciphertext == GcmSeal(k, nonce, ciphertext[0].plain)
    then Some(ciphertext[0].plain)
    else None
  }

  // ---- Records ----

  datatype OpenError = TooShort | Tampered

  function SealRecord(k: Keys, id: NodeId, ts: int64, nonce: Blob, doc: Doc): Blob {
    var ciphertext := GcmSeal(k, nonce, doc);
    MacOf(k.mac, Message(id, ts, nonce, ciphertext)) + nonce + ciphertext
  }

  function Seal(k: Keys, id: NodeId, ts: int64, nonce: Nonce, doc: Doc): Blob {
    SealRecord(k, id, ts, RawBytes(nonce), doc)
  }

  function Open(k: Keys, id: NodeId, ts: int64, data: Blob): Result<Doc, OpenError> {
    if |data| < HMAC_SIZE + NONCE_SIZE then Err(TooShort)
    else
      var storedMac := data[..HMAC_SIZE];
      var nonce := data[HMAC_SIZE..HMAC_SIZE + NONCE_SIZE];
      var ciphertext := data[HMAC_SIZE + NONCE_SIZE..];
      if storedMac != MacOf(k.mac, Message(id, ts, nonce, ciphertext)) then Err(Tampered)
      else
        match GcmOpen(k, nonce, ciphertext)
        case Some(doc) => Ok(doc)
        case None => Err(Tampered)
  }

  lemma RecordParts(k: Keys, id: NodeId, ts: int64, nonce: Blob, doc: Doc)
    requires |nonce| == NONCE_SIZE
    ensures var data := SealRecord(k, id, ts, nonce, doc);
            var ct := GcmSeal(k, nonce, doc);
            && |data| == HMAC_SIZE + NONCE_SIZE + |ct|
            && data[..HMAC_SIZE] == MacOf(k.mac, Message(id, ts, nonce, ct))
            && data[HMAC_SIZE..HMAC_SIZE + NONCE_SIZE] == nonce
            && data[HMAC_SIZE + NONCE_SIZE..] == ct
            && data[0] == Mac(k.mac, Message(id, ts, nonce, ct), 0)
  {
  }

  /** The number that bytes spell, most significant first. */
  function ValueOf(bs: seq<byte>): nat {
    if bs == [] then 0 else 256 * ValueOf(bs[..|bs| - 1]) + bs[|bs| - 1]
  }

  lemma {:induction false} BigEndianSpells(u: nat, n: nat)
    requires u < Power256(n)
    ensures ValueOf(BigEndian(u, n)) == u
  {
    if n > 0 {
      BigEndianSpells(u / 256, n - 1);
      assert BigEndian(u, n)[..n - 1] == BigEndian(u / 256, n - 1);
    }
  }

  /**
   The layout on disk: 32 bytes of MAC, the 12 bytes of the nonce, the ciphertext; and what the MAC covers is the 16 bytes of
   the id, the timestamp as an unsigned 64-bit number, most significant byte first, the nonce and the ciphertext.
   */
  lemma RecordLayout(k: Keys, id: NodeId, ts: int64, nonce: Nonce, doc: Doc) returns (msg: Blob, time: seq<byte>)
    ensures var data := Seal(k, id, ts, nonce, doc);
            && |data| == 32 + 12 + k.jsonLen(doc) + 16
            && (forall i :: 0 <= i < 32 ==> data[i] == Mac(k.mac, msg, i))
            && (forall i :: 0 <= i < 12 ==> data[32 + i] == Raw(nonce[i]))
            && (forall i :: 44 <= i < |data| ==> data[i] == Cipher(k.block, data[32..44], doc, i - 44))
            && msg == RawBytes(id) + RawBytes(time) + data[32..]
    ensures |time| == 8 && ValueOf(time) == if ts < 0 then ts + 0x1_0000_0000_0000_0000 else ts
  {
    hide BigEndian, ValueOf, Power256, Message;
    RecordParts(k, id, ts, RawBytes(nonce), doc);
    var data, ct := Seal(k, id, ts, nonce, doc), GcmSeal(k, RawBytes(nonce), doc);
    time := BigEndian64(ts);
    msg := Message(id, ts, RawBytes(nonce), ct);
    EightBytes();
    BigEndianSpells(ts % 0x1_0000_0000_0000_0000, 8);
    assert data[32..] == data[32..44] + data[44..];
    MessageIs(id, ts, RawBytes(nonce), ct);
    forall i | 44 <= i < |data|
      ensures data[i] == Cipher(k.block, data[32..44], doc, i - 44)
    {
      assert data[i] == data[44..][i - 44] == ct[i - 44];
    }
    forall i | 0 <= i < 12
      ensures data[32 + i] == Raw(nonce[i])
    {
      assert data[32 + i] == data[32..44][i];
    }
    forall i | 0 <= i < 32
      ensures data[i] == Mac(k.mac, msg, i)
    {
      assert data[i] == data[..32][i];
    }
  }

  lemma MessageIs(id: NodeId, ts: int64, nonce: Blob, ct: Blob)
    ensures Message(id, ts, nonce, ct) == RawBytes(id) + RawBytes(BigEndian64(ts)) + (nonce + ct)
  {
    hide BigEndian64, RawBytes;
  }

  /** Whatever opens is exactly a record sealed under these keys for this id and timestamp, and every such record opens. */
  lemma OpensIffSealed(k: Keys, id: NodeId, ts: int64, data: Blob, doc: Doc)
    ensures Open(k, id, ts, data) == Ok(doc)
       <==> |data| >= HMAC_SIZE + NONCE_SIZE
            && data == SealRecord(k, id, ts, data[HMAC_SIZE..HMAC_SIZE + NONCE_SIZE], doc)
  {
    hide Message;
    if |data| >= HMAC_SIZE + NONCE_SIZE {
      var nonce := data[HMAC_SIZE..HMAC_SIZE + NONCE_SIZE];
      var ct := data[HMAC_SIZE + NONCE_SIZE..];
      RecordParts(k, id, ts, nonce, doc);
      if Open(k, id, ts, data) == Ok(doc) {
        assert data == data[..HMAC_SIZE] + nonce + ct;
      }
    }
  }

  /** Opening what was sealed gives the plaintext back, for every id, timestamp, nonce and document. */
  lemma OpenSeal(k: Keys, id: NodeId, ts: int64, nonce: Nonce, doc: Doc)
    ensures Open(k, id, ts, Seal(k, id, ts, nonce, doc)) == Ok(doc)
  {
    RecordParts(k, id, ts, RawBytes(nonce), doc);
    OpensIffSealed(k, id, ts, Seal(k, id, ts, nonce, doc), doc);
  }

  /** Two records that agree on their first symbol were sealed alike; so they have one length. */
  lemma FirstSymbolDetermines(k: Keys, id: NodeId, ts: int64, nonce: Blob, doc: Doc,
                              k': Keys, id': NodeId, ts': int64, nonce': Blob, doc': Doc)
    requires |nonce| == |nonce'| == NONCE_SIZE
    requires SealRecord(k, id, ts, nonce, doc)[0] == SealRecord(k', id', ts', nonce', doc')[0]
    ensures k.mac == k'.mac && k.block == k'.block
    ensures id == id' && ts == ts' && nonce == nonce' && doc == doc'
    ensures |SealRecord(k, id, ts, nonce, doc)| == |SealRecord(k', id', ts', nonce', doc')|
  {
    RecordParts(k, id, ts, nonce, doc);
    RecordParts(k', id', ts', nonce', doc');
    var ct, ct' := GcmSeal(k, nonce, doc), GcmSeal(k', nonce', doc');
    MessageInjective(id, ts, nonce, ct, id', ts', nonce', ct');
    assert ct[0] == ct'[0];
  }

  /** A sealed record opens under exactly its own keys, id and timestamp. */
  lemma OpenBinds(k: Keys, id: NodeId, ts: int64, nonce: Nonce, doc: Doc, k': Keys, id': NodeId, ts': int64)
    requires k.jsonLen == k'.jsonLen
    ensures Open(k', id', ts', Seal(k, id, ts, nonce, doc)).Ok?
       <==> k'.mac == k.mac && k'.block == k.block && id' == id && ts' == ts
  {
    hide Message;
    var data := Seal(k, id, ts, nonce, doc);
    if k'.mac == k.mac && k'.block == k.block && id' == id && ts' == ts {
      assert k' == k;
      OpenSeal(k, id, ts, nonce, doc);
    }
    var r := Open(k', id', ts', data);
    if r.Ok? {
      OpensIffSealed(k', id', ts', data, r.value);
      FirstSymbolDetermines(k, id, ts, RawBytes(nonce), doc, k', id', ts', data[HMAC_SIZE..HMAC_SIZE + NONCE_SIZE], r.value);
    }
  }

  /** A record that lost its tail, however little of it, opens for nobody. */
  lemma CutRecordNeverOpens(k: Keys, id: NodeId, ts: int64, nonce: Nonce, doc: Doc, cut: nat, k': Keys, id': NodeId,
                            ts': int64)
    requires cut < |Seal(k, id, ts, nonce, doc)|
    ensures Open(k', id', ts', Seal(k, id, ts, nonce, doc)[..cut]).Err?
  {
    hide Message;
    var data := Seal(k, id, ts, nonce, doc)[..cut];
    var r := Open(k', id', ts', data);
    if r.Ok? {
      OpensIffSealed(k', id', ts', data, r.value);
      FirstSymbolDetermines(k, id, ts, RawBytes(nonce), doc, k', id', ts', data[HMAC_SIZE..HMAC_SIZE + NONCE_SIZE], r.value);
    }
  }

  // ---- Generated ids and the index sentinel ----

  const SENTINEL_ID: NodeId :=
    [0x44, 0x47, 0x2d, 0x49, 0x44, 0x58, 0xff, 0xff, 0xff, 0xff, 0xff, 0xff, 0xff, 0xff, 0xff, 0xff]
  const SENTINEL_TIME: int64 := 0

  /** Sixteen random bytes with the version (0100) and variant (10) bits of section 5.4 of RFC 9562 forced. */
  function GenerateId(random: NodeId): NodeId {
    random[6 := random[6] % 16 + 0x40][8 := random[8] % 64 + 0x80]
  }

  /** The version is 4 and the variant 2; every other bit is random. */
  lemma GeneratedId(random: NodeId)
    ensures var id := GenerateId(random);
            && id[6] / 16 == 4 && id[6] % 16 == random[6] % 16
            && id[8] / 64 == 2 && id[8] % 64 == random[8] % 64
            && forall i :: 0 <= i < 16 && i != 6 && i != 8 ==> id[i] == random[i]
  {
    var id := GenerateId(random);
    assert id[6] == random[6] % 16 + 0x40 && id[8] == random[8] % 64 + 0x80;
  }

  /** The encrypted index, renamed over any generated node's file, is rejected there; and the other way round. */
  lemma IndexIsNoNode(k: Keys, random: NodeId, ts: int64, nonce: Nonce, doc: Doc)
    ensures Open(k, GenerateId(random), ts, Seal(k, SENTINEL_ID, SENTINEL_TIME, nonce, doc)).Err?
    ensures Open(k, SENTINEL_ID, SENTINEL_TIME, Seal(k, GenerateId(random), ts, nonce, doc)).Err?
  {
    assert GenerateId(random)[6] != SENTINEL_ID[6];
    OpenBinds(k, SENTINEL_ID, SENTINEL_TIME, nonce, doc, k, GenerateId(random), ts);
    OpenBinds(k, GenerateId(random), ts, nonce, doc, k, SENTINEL_ID, SENTINEL_TIME);
  }

  // ---- The encryptor object ----

  /** Holds the key slice it was given, not a copy, beside the cipher's own key schedule. */
  class Encryptor {
    const block: seq<byte>
    const key: array<byte>
    const jsonLen: Doc -> nat

    constructor (key: array<byte>, jsonLen: Doc -> nat)
      requires key.Length == KEY_LEN
      ensures this.key == key && block == key[..] && this.jsonLen == jsonLen
    {
      this.block := key[..];
      this.key := key;
      this.jsonLen := jsonLen;
    }

    function KeysNow(): Keys
      reads key
    {
      Keys(block, key[..], jsonLen)
    }

    method SealDoc(id: NodeId, ts: int64, nonce: Nonce, doc: Doc) returns (data: Blob)
      ensures data == Seal(KeysNow(), id, ts, nonce, doc)
      ensures Open(KeysNow(), id, ts, data) == Ok(doc)
    {
      data := Seal(KeysNow(), id, ts, nonce, doc);
      OpenSeal(KeysNow(), id, ts, nonce, doc);
    }

    method OpenRecord(id: NodeId, ts: int64, data: Blob) returns (r: Result<Doc, OpenError>)
      ensures r == Open(KeysNow(), id, ts, data)
    {
      r := Open(KeysNow(), id, ts, data);
    }

    method Close()
      modifies key
      ensures AllZero(key[..])
    {
      for i := 0 to key.Length
        invariant forall j :: 0 <= j < i ==> key[j] == 0
      {
        key[i] := 0;
      }
    }
  }

  predicate AllZero(bs: seq<byte>) { forall i :: 0 <= i < |bs| ==> bs[i] == 0 }

  /** Once the key is zeroed, nothing sealed before opens any more, unless the key was zero all along. */
  lemma ClosedEncryptorOpensNothing(before: Keys, after: Keys, id: NodeId, ts: int64, nonce: Nonce, doc: Doc)
    requires |before.mac| == |after.mac| && AllZero(after.mac)
    requires after.block == before.block && after.jsonLen == before.jsonLen
    ensures Open(after, id, ts, Seal(before, id, ts, nonce, doc)).Ok? <==> AllZero(before.mac)
  {
    OpenBinds(before, id, ts, nonce, doc, after, id, ts);
    if AllZero(before.mac) {
      assert before.mac == after.mac;
    }
  }

  /** The object's own life: what it sealed before Close, it opens after Close exactly if its key was zero all along. */
  method OpenAfterClose(e: Encryptor, id: NodeId, ts: int64, nonce: Nonce, doc: Doc) returns (r: Result<Doc, OpenError>)
    modifies e.key
    ensures AllZero(e.key[..])
    ensures r.Ok? <==> AllZero(old(e.key[..]))
  {
    hide Seal, Open, AllZero;
    var data := e.SealDoc(id, ts, nonce, doc);
    ghost var before := e.KeysNow();
    e.Close();
    ClosedEncryptorOpensNothing(before, e.KeysNow(), id, ts, nonce, doc);
    r := e.OpenRecord(id, ts, data);
  }
}
