/** The ZRTP cache as coreapi/lime.c uses it: a list of peer elements whose contents are hexadecimal texts. */
module LimeCache {
  import opened Wrappers
  import opened LimeCodec

  const LIME_OK := 0
  const LIME_INVALID_CACHE := 0x1001
  const LIME_UNABLE_TO_ENCRYPT_MESSAGE := 0x1004
  const LIME_UNABLE_TO_DECRYPT_MESSAGE := 0x1008
  const LIME_NO_VALID_KEY_FOUND_FOR_PEER := 0x1010
  const LIME_INVALID_ENCRYPTED_MESSAGE := 0x1020

  datatype Role = Sender | Receiver

  /** The key, session id and session index of one direction; an absent element is None. */
  datatype Fields = Fields(key: Option<Bytes>, sessionId: Option<Bytes>, index: Option<Bytes>) {
    predicate Complete() { key.Some? && sessionId.Some? && index.Some? }

    // Long enough for the fixed-length reads of the source.
    predicate Readable() {
      && (key.Some? ==> |key.value| >= 64)
      && (sessionId.Some? ==> |sessionId.value| >= 64)
      && (index.Some? ==> |index.value| >= 8)
    }
  }

  /** A peer element. Its ZID is its first child. */
  datatype Peer = Peer(zid: Bytes, uris: seq<Bytes>, snd: Fields, rcv: Fields, pvs: Option<Bytes>) {
    predicate Readable() {
      && |zid| >= 24 && snd.Readable() && rcv.Readable()
      && (pvs.Some? ==> |pvs.value| >= 2)
    }

    predicate Verified()
      requires Readable()
    {
      pvs.Some? && Parse(pvs.value[..2]) == [1]
    }

    function Side(role: Role): Fields { if role.Sender? then snd else rcv }

    function WithSide(role: Role, f: Fields): Peer { if role.Sender? then this.(snd := f) else this.(rcv := f) }
  }

  predicate AllReadable(peers: seq<Peer>) { forall p <- peers :: p.Readable() }

  /** The value of a limeKey_t. */
  datatype KeyState = KeyState(key: Bytes, sessionId: Bytes, sessionIndex: uint32, peerZid: Bytes) {
    predicate Sized() { |key| == 32 && |sessionId| == 32 && |peerZid| == 12 }
  }

  /** A limeKey_t: derivation overwrites its key and its index. */
  class LimeKey {
    var key: Bytes
    var sessionId: Bytes
    var sessionIndex: uint32
    var peerZid: Bytes

    function State(): KeyState
      reads this
    {
      KeyState(key, sessionId, sessionIndex, peerZid)
    }

    constructor (k: KeyState)
      ensures State() == k
    {
      key, sessionId, sessionIndex, peerZid := k.key, k.sessionId, k.sessionIndex, k.peerZid;
    }
  }

  class Cache {
    var selfZid: Option<Bytes>
    var peers: seq<Peer>

    constructor (selfZid: Option<Bytes>, peers: seq<Peer>)
      ensures this.selfZid == selfZid && this.peers == peers
    {
      this.selfZid, this.peers := selfZid, peers;
    }
  }

  function ReadKey(f: Fields, zid: Bytes): (k: KeyState)
    requires f.Complete() && f.Readable() && |zid| == 12
    ensures k.Sized()
  {
    KeyState(Parse(f.key.value[..64]), Parse(f.sessionId.value[..64]), IndexFromBuffer(f.index.value), zid)
  }

  // ---- reading

  /** The peer can be written to: all five elements are present and its pvs flag is 1. */
  predicate CanSend(p: Peer, uri: Bytes)
    requires p.Readable()
  {
    uri in p.uris && p.snd.Complete() && p.Verified()
  }

  // Who can be written to, element by element.
  lemma CanSendExactly(p: Peer, uri: Bytes)
    requires p.Readable()
    ensures CanSend(p, uri) <==>
              && uri in p.uris && p.snd.key.Some? && p.snd.sessionId.Some? && p.snd.index.Some?
              && p.pvs.Some? && Parse(p.pvs.value[..2]) == [1]
  {
  }

  function SndKey(p: Peer): KeyState
    requires p.Readable() && p.snd.Complete()
  {
    ReadKey(p.snd, Parse(p.zid[..24]))
  }

  function SndKeys(peers: seq<Peer>, uri: Bytes): (keys: seq<KeyState>)
    requires AllReadable(peers)
    ensures |keys| <= |peers|
    ensures forall k <- keys :: k.Sized()
  {
    if peers == [] then []
    else
      var last := peers[|peers| - 1];
      SndKeys(peers[..|peers| - 1], uri) + if CanSend(last, uri) then [SndKey(last)] else []
  }

  lemma SndKeysStep(peers: seq<Peer>, uri: Bytes, j: nat)
    requires AllReadable(peers) && j < |peers|
    ensures peers[j] in peers
    ensures AllReadable(peers[..j]) && AllReadable(peers[..j + 1])
    ensures SndKeys(peers[..j + 1], uri)
         == SndKeys(peers[..j], uri) + if CanSend(peers[j], uri) then [SndKey(peers[j])] else []
  {
    assert peers[j] in peers;
    assert peers[..j + 1][..j] == peers[..j];
  }

  method GetCachedSndKeysByURI(cache: Cache?, peerUri: Bytes) returns (code: int, keys: seq<LimeKey>)
    requires cache != null ==> AllReadable(cache.peers) && |cache.peers| < 0x1_0000
    ensures cache == null ==> code == LIME_INVALID_CACHE
    ensures cache != null ==> code == LIME_OK && |keys| == |SndKeys(cache.peers, peerUri)|
    ensures cache != null ==> forall i :: 0 <= i < |keys| ==> keys[i].State() == SndKeys(cache.peers, peerUri)[i]
    ensures forall i :: 0 <= i < |keys| ==> fresh(keys[i])
    ensures forall i, j :: 0 <= i < j < |keys| ==> keys[i] != keys[j]
  {
    hide SndKeys, SndKey;
    keys := [];
    if cache == null {
      return LIME_INVALID_CACHE, [];
    }
    var n := 0;
    while n < |cache.peers|
      invariant 0 <= n <= |cache.peers|
      invariant |keys| == |SndKeys(cache.peers[..n], peerUri)|
      invariant forall i :: 0 <= i < |keys| ==> keys[i].State() == SndKeys(cache.peers[..n], peerUri)[i]
      invariant forall i :: 0 <= i < |keys| ==> fresh(keys[i])
      invariant forall i, j :: 0 <= i < j < |keys| ==> keys[i] != keys[j]
    {
      var p := cache.peers[n];
      SndKeysStep(cache.peers, peerUri, n);
      var matching := false;
      var u := 0;
      while u < |p.uris| && !matching
        invariant 0 <= u <= |p.uris|
        invariant matching <==> peerUri in p.uris[..u]
        decreases |p.uris| - u, !matching
      {
        matching := p.uris[u] == peerUri;
        u := u + 1;
      }
      if matching {
        var itemFound := 1;
        var pvs: uint8 := 0;
        if p.snd.key.Some? { itemFound := itemFound + 1; }
        if p.snd.sessionId.Some? { itemFound := itemFound + 1; }
        if p.snd.index.Some? { itemFound := itemFound + 1; }
        if p.pvs.Some? { pvs := Parse(p.pvs.value[..2])[0]; itemFound := itemFound + 1; }
        if itemFound == 5 && pvs == 1 {
          assert Parse(p.pvs.value[..2]) == [1];
          var key := new LimeKey(SndKey(p));
          keys := keys + [key];
        }
      }
      n := n + 1;
    }
    assert cache.peers[..n] == cache.peers;
    code := LIME_OK;
  }

  function FirstPeer(peers: seq<Peer>, zidHex: Bytes): (i: nat)
    ensures i <= |peers|
    ensures i < |peers| ==> peers[i].zid == zidHex
    ensures forall j :: 0 <= j < i ==> peers[j].zid != zidHex
  {
    if peers == [] || peers[0].zid == zidHex then 0 else 1 + FirstPeer(peers[1..], zidHex)
  }

  function RcvKey(peers: seq<Peer>, zid: Bytes): (r: Option<KeyState>)
    requires AllReadable(peers) && |zid| == 12
    ensures r.Some? ==> r.value.Sized() && r.value.peerZid == zid
  {
    var i := FirstPeer(peers, Print(zid));
    if i < |peers| && peers[i].rcv.Complete() && peers[i].Verified() then Some(ReadKey(peers[i].rcv, zid)) else None
  }

  method GetCachedRcvKeyByZid(cache: Cache?, key: LimeKey) returns (code: int)
    requires cache != null ==> AllReadable(cache.peers)
    requires |key.peerZid| == 12
    modifies key
    ensures key.peerZid == old(key.peerZid)
    ensures cache == null ==> code == LIME_INVALID_CACHE
    ensures cache != null ==>
              match RcvKey(cache.peers, key.peerZid)
              case Some(k) => code == LIME_OK && key.State() == k
              case None => code == LIME_NO_VALID_KEY_FOUND_FOR_PEER
  {
    if cache == null {
      return LIME_INVALID_CACHE;
    }
    var zidHex := ToHex(key.peerZid);
    var itemFound := 0;
    var pvs: uint8 := 0;
    var i := 0;
    while i < |cache.peers| && cache.peers[i].zid != zidHex
      invariant 0 <= i <= |cache.peers|
      invariant forall j :: 0 <= j < i ==> cache.peers[j].zid != zidHex
    {
      i := i + 1;
    }
    assert i == FirstPeer(cache.peers, zidHex);
    if i < |cache.peers| {
      var p := cache.peers[i];
      assert p in cache.peers;
      if p.rcv.key.Some? { key.key := FromHex(p.rcv.key.value, 64); itemFound := itemFound + 1; }
      if p.rcv.sessionId.Some? { key.sessionId := FromHex(p.rcv.sessionId.value, 64); itemFound := itemFound + 1; }
      if p.rcv.index.Some? { key.sessionIndex := IndexFromBuffer(p.rcv.index.value); itemFound := itemFound + 1; }
      if p.pvs.Some? { pvs := Parse(p.pvs.value[..2])[0]; itemFound := itemFound + 1; }
      assert p.pvs.Some? ==> (Parse(p.pvs.value[..2]) == [1] <==> pvs == 1);
    }
    code := if pvs == 1 && itemFound == 4 then LIME_OK else LIME_NO_VALID_KEY_FOUND_FOR_PEER;
  }

  // ---- writing

  /** Overwrites the elements that exist, until three have been found; returns the new count. */
  function StoreFields(f: Fields, k: KeyState, found: nat): (r: (Fields, nat)) {
    var hasKey := f.key.Some? && found < 3;
    var found1 := if hasKey then found + 1 else found;
    var hasId := f.sessionId.Some? && found1 < 3;
    var found2 := if hasId then found1 + 1 else found1;
    var hasIndex := f.index.Some? && found2 < 3;
    (Fields(if hasKey then Some(Print(k.key)) else f.key,
            if hasId then Some(Print(k.sessionId)) else f.sessionId,
            if hasIndex then Some(IndexHex(k.sessionIndex)) else f.index),
     if hasIndex then found2 + 1 else found2)
  }

  function Store(peers: seq<Peer>, k: KeyState, role: Role, found: nat): (r: seq<Peer>)
    ensures |r| == |peers|
  {
    if peers == [] || found >= 3 then peers
    else if peers[0].zid != Print(k.peerZid) then [peers[0]] + Store(peers[1..], k, role, found)
    else
      var (f, n) := StoreFields(peers[0].Side(role), k, found);
      [peers[0].WithSide(role, f)] + Store(peers[1..], k, role, n)
  }

  method WriteFields(f: Fields, k: KeyState, found: nat) returns (written: Fields, itemFound: nat)
    ensures (written, itemFound) == StoreFields(f, k, found)
  {
    written, itemFound := f, found;
    if f.key.Some? && itemFound < 3 {
      var keyHex := ToHex(k.key);
      written, itemFound := written.(key := Some(keyHex)), itemFound + 1;
    }
    if f.sessionId.Some? && itemFound < 3 {
      var sessionIdHex := ToHex(k.sessionId);
      written, itemFound := written.(sessionId := Some(sessionIdHex)), itemFound + 1;
    }
    if f.index.Some? && itemFound < 3 {
      written, itemFound := written.(index := Some(IndexHex(k.sessionIndex))), itemFound + 1;
    }
  }

  // The first n peers are written; the others are as before.
  ghost predicate Stored(before: seq<Peer>, now: seq<Peer>, n: nat, k: KeyState, role: Role, found: nat) {
    && n <= |before| == |now| && now[n..] == before[n..]
    && now[..n] + Store(before[n..], k, role, found) == Store(before, k, role, 0)
  }

  lemma StoreHead(peers: seq<Peer>, n: nat, k: KeyState, role: Role, found: nat)
    requires n < |peers| && found < 3
    ensures Store(peers[n..], k, role, found)
         == if peers[n].zid != Print(k.peerZid) then [peers[n]] + Store(peers[n + 1..], k, role, found)
            else var (f, m) := StoreFields(peers[n].Side(role), k, found);
                 [peers[n].WithSide(role, f)] + Store(peers[n + 1..], k, role, m)
  {
    hide StoreFields, Print;
    assert peers[n..][0] == peers[n] && peers[n..][1..] == peers[n + 1..];
  }

  // One turn of the loop over the peers.
  lemma StoreStep(before: seq<Peer>, now: seq<Peer>, n: nat, k: KeyState, role: Role, found: nat)
    requires n < |before| && found < 3 && Stored(before, now, n, k, role, found)
    ensures now[n] == before[n]
    ensures now[n].zid != Print(k.peerZid) ==> Stored(before, now, n + 1, k, role, found)
    ensures now[n].zid == Print(k.peerZid) ==>
              var (f, m) := StoreFields(now[n].Side(role), k, found);
              Stored(before, now[n := now[n].WithSide(role, f)], n + 1, k, role, m)
  {
    hide Store, StoreFields, Print;
    StoreHead(before, n, k, role, found);
    assert now[n] == now[n..][0] == before[n..][0];
    assert now[n + 1..] == now[n..][1..] == before[n..][1..];
    if now[n].zid != Print(k.peerZid) {
      assert now[..n + 1] == now[..n] + [now[n]];
    } else {
      var (f, m) := StoreFields(now[n].Side(role), k, found);
      var next := now[n := now[n].WithSide(role, f)];
      assert next[..n + 1] == now[..n] + [next[n]];
      assert next[n + 1..] == now[n + 1..];
    }
  }

  lemma StoredStart(peers: seq<Peer>, k: KeyState, role: Role)
    ensures Stored(peers, peers, 0, k, role, 0)
  {
    hide StoreFields, Print;
    assert peers[0..] == peers;
  }

  lemma StoredEnd(before: seq<Peer>, now: seq<Peer>, n: nat, k: KeyState, role: Role, found: nat)
    requires Stored(before, now, n, k, role, found) && (n == |before| || found >= 3)
    ensures now == Store(before, k, role, 0)
  {
    hide StoreFields, Print;
    assert now == now[..n] + now[n..];
  }

  method SetCachedKey(cache: Cache?, k: KeyState, role: Role) returns (code: int)
    modifies if cache == null then {} else {cache}
    ensures cache == null ==> code == LIME_INVALID_CACHE
    ensures cache != null ==> code == LIME_OK
    ensures cache != null ==> cache.peers == Store(old(cache.peers), k, role, 0) && cache.selfZid == old(cache.selfZid)
  {
    hide Store, StoreFields, Stored, Print;
    if cache == null {
      return LIME_INVALID_CACHE;
    }
    var zidHex := ToHex(k.peerZid);
    var itemFound := 0;
    var n := 0;
    StoredStart(cache.peers, k, role);
    while n < |cache.peers| && itemFound < 3
      invariant 0 <= n <= |cache.peers| == |old(cache.peers)|
      invariant Stored(old(cache.peers), cache.peers, n, k, role, itemFound)
      invariant cache.selfZid == old(cache.selfZid)
      decreases |cache.peers| - n
    {
      var p := cache.peers[n];
      StoreStep(old(cache.peers), cache.peers, n, k, role, itemFound);
      if p.zid == zidHex {
        var f, found := WriteFields(p.Side(role), k, itemFound);
        itemFound := found;
        cache.peers := cache.peers[n := p.WithSide(role, f)];
      }
      n := n + 1;
    }
    StoredEnd(old(cache.peers), cache.peers, n, k, role, itemFound);
    code := LIME_OK;
  }

  // ---- what writing means on a well-formed cache

  /** What the ZRTP library writes: readable peers with pairwise distinct, lower-case hexadecimal ZIDs of 12 bytes. */
  predicate WellFormed(peers: seq<Peer>) {
    && AllReadable(peers)
    && (forall p <- peers :: |p.zid| == 24 && IsLowerHexText(p.zid))
    && (forall i, j :: 0 <= i < j < |peers| ==> peers[i].zid != peers[j].zid)
  }

  /** A complete direction overwritten with a key. */
  function KeyFields(k: KeyState): Fields {
    Fields(Some(Print(k.key)), Some(Print(k.sessionId)), Some(IndexHex(k.sessionIndex)))
  }

  // The stored key is the one read back.
  lemma ReadStored(k: KeyState)
    requires k.Sized()
    ensures KeyFields(k).Complete() && KeyFields(k).Readable()
    ensures ReadKey(KeyFields(k), k.peerZid) == k
  {
    ParseUndoesPrint(k.key);
    ParseUndoesPrint(k.sessionId);
    IndexRoundTrip(k.sessionIndex);
    assert Print(k.key)[..64] == Print(k.key) && Print(k.sessionId)[..64] == Print(k.sessionId);
  }

  lemma StoreNothing(peers: seq<Peer>, k: KeyState, role: Role, found: nat)
    requires found < 3 ==> forall p <- peers :: p.zid != Print(k.peerZid)
    ensures Store(peers, k, role, found) == peers
  {
    if peers != [] && found < 3 {
      StoreNothing(peers[1..], k, role, found);
      assert peers == [peers[0]] + peers[1..];
    }
  }

  // Storing a key rewrites exactly one direction of exactly one peer: the first one with its ZID, if it is complete.
  lemma StoreUpdatesOnePeer(peers: seq<Peer>, k: KeyState, role: Role, i: nat)
    requires i < |peers| && peers[i].zid == Print(k.peerZid) && peers[i].Side(role).Complete()
    requires forall a :: 0 <= a < i ==> peers[a].zid != peers[i].zid
    ensures Store(peers, k, role, 0) == peers[i := peers[i].WithSide(role, KeyFields(k))]
  {
    hide Print, IndexHex;
    var updated := peers[i := peers[i].WithSide(role, KeyFields(k))];
    if i == 0 {
      StoreNothing(peers[1..], k, role, 3);
      assert updated == [updated[0]] + peers[1..];
    } else {
      assert peers[0].zid != peers[i].zid;
      StoreUpdatesOnePeer(peers[1..], k, role, i - 1);
      assert updated == [peers[0]] + peers[1..][i - 1 := peers[i].WithSide(role, KeyFields(k))];
    }
  }

  /** f after writing k into it: an element that is absent stays absent, one that is present is kept or has k's value. */
  predicate Overwritten(f: Fields, after: Fields, k: KeyState) {
    && (after.key == f.key || (f.key.Some? && after.key == Some(Print(k.key))))
    && (after.sessionId == f.sessionId || (f.sessionId.Some? && after.sessionId == Some(Print(k.sessionId))))
    && (after.index == f.index || (f.index.Some? && after.index == Some(IndexHex(k.sessionIndex))))
  }

  // On any cache, repeated ZIDs and incomplete records included: nothing is created, only records with the key's ZID change,
  // only in the one direction, and nothing changes after the third element.
  lemma {:induction false} StoreOnlyOverwrites(peers: seq<Peer>, k: KeyState, role: Role, found: nat)
    ensures forall i :: 0 <= i < |peers| ==>
              var after := Store(peers, k, role, found)[i];
              && after == peers[i].WithSide(role, after.Side(role)) && Overwritten(peers[i].Side(role), after.Side(role), k)
              && (peers[i].zid != Print(k.peerZid) || found >= 3 ==> after == peers[i])
  {
    hide Print, IndexHex;
    if peers != [] && found < 3 {
      var n := if peers[0].zid == Print(k.peerZid) then StoreFields(peers[0].Side(role), k, found).1 else found;
      StoreOnlyOverwrites(peers[1..], k, role, n);
      forall i | 0 < i < |peers| ensures Store(peers, k, role, found)[i] == Store(peers[1..], k, role, n)[i - 1] {}
    }
  }

  // A record met before any element was counted is overwritten wherever it has elements.
  lemma FirstRecordOverwritten(f: Fields, k: KeyState)
    ensures StoreFields(f, k, 0).0 == Fields(if f.key.Some? then Some(Print(k.key)) else None,
                                             if f.sessionId.Some? then Some(Print(k.sessionId)) else None,
                                             if f.index.Some? then Some(IndexHex(k.sessionIndex)) else None)
  {
  }
}
