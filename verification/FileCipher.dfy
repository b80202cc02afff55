/** The file cipher of coreapi/lime.c and the upload and download callbacks of coreapi/chat.c that drive it in chunks.
    AES-GCM without tag is a keystream: a byte for every block and offset. Each gcm_update starts on a fresh block. */
module FileCipher {
  import opened Wrappers

  type Data = seq<bv8>
  type Keystream = (nat, nat) -> bv8

  function Blocks(length: nat): nat { (length + 15) / 16 }

  function Pad(ks: Keystream, block: nat, i: nat): bv8 { ks(block + i / 16, i % 16) }

  function Crypt(ks: Keystream, block: nat, text: Data): (r: Data)
    ensures |r| == |text|
  {
    seq(|text|, i requires 0 <= i < |text| => text[i] ^ Pad(ks, block, i))
  }

  // Each byte is combined with the keystream byte of its own block and offset.
  lemma CryptAt(ks: Keystream, block: nat, text: Data, i: nat)
    requires i < |text|
    ensures Crypt(ks, block, text)[i] == text[i] ^ ks(block + i / 16, i % 16)
  {
  }

  // No two bytes of a file share a keystream byte.
  lemma KeystreamIsNotReused(block: nat, i: nat, j: nat)
    ensures (forall ks: Keystream :: Pad(ks, block, i) == Pad(ks, block, j)) <==> i == j
  {
    if i != j {
      var ks: Keystream := (b, o) => if b == block + i / 16 && o == i % 16 then 1 else 0;
      assert Pad(ks, block, i) == 1 && Pad(ks, block, j) == 0;
    }
  }

  lemma CryptTwice(ks: Keystream, block: nat, text: Data)
    ensures Crypt(ks, block, Crypt(ks, block, text)) == text
  {
    hide Pad;
    forall i | 0 <= i < |text| ensures Crypt(ks, block, Crypt(ks, block, text))[i] == text[i] {
      assert Crypt(ks, block, text)[i] == text[i] ^ Pad(ks, block, i);
    }
  }

  lemma CryptSplit(ks: Keystream, block: nat, head: Data, tail: Data)
    requires |head| % 16 == 0
    ensures Crypt(ks, block, head + tail) == Crypt(ks, block, head) + Crypt(ks, block + Blocks(|head|), tail)
  {
    hide Pad;
    forall i | |head| <= i < |head| + |tail|
      ensures Pad(ks, block, i) == Pad(ks, block + Blocks(|head|), i - |head|)
    {
      PadShift(ks, block, |head|, i - |head|);
    }
  }

  lemma PadShift(ks: Keystream, block: nat, n: nat, i: nat)
    requires n % 16 == 0
    ensures Pad(ks, block, n + i) == Pad(ks, block + Blocks(n), i)
  {
  }

  // ---- the cipher context

  class GcmContext {
    const keystream: Keystream
    var block: nat

    constructor (keystream: Keystream)
      ensures this.keystream == keystream && block == 0
    {
      this.keystream, block := keystream, 0;
    }
  }

  /** The next block of an open context, and how many contexts were opened and closed so far. */
  datatype CryptState = CryptState(position: Option<nat>, openings: nat, closings: nat)

  /** The file transfer information of a message. */
  class Content {
    const size: nat
    const key: Option<Keystream>
    var cryptoContext: GcmContext?
    var openings: nat
    var closings: nat

    constructor (size: nat, key: Option<Keystream>)
      ensures this.size == size && this.key == key && cryptoContext == null
      ensures State() == CryptState(None, 0, 0)
    {
      this.size, this.key, cryptoContext, openings, closings := size, key, null, 0, 0;
    }

    ghost predicate Keyed()
      reads this, if cryptoContext == null then {} else {cryptoContext}
    {
      cryptoContext != null ==> key == Some(cryptoContext.keystream)
    }

    function State(): CryptState
      reads this, if cryptoContext == null then {} else {cryptoContext}
    {
      CryptState(if cryptoContext == null then None else Some(cryptoContext.block), openings, closings)
    }
  }

  /** One call of lime_encryptFile or lime_decryptFile: opens a context if there is none; an empty input closes it. */
  function CryptStep(ks: Keystream, st: CryptState, input: Data): (CryptState, Data) {
    var block := if st.position.None? then 0 else st.position.value;
    var openings := if st.position.None? then st.openings + 1 else st.openings;
    if input == [] then (CryptState(None, openings, st.closings + 1), [])
    else (CryptState(Some(block + Blocks(|input|)), openings, st.closings), Crypt(ks, block, input))
  }

  // The key may be absent only when the context is open.
  method CryptFile(content: Content, key: Option<Keystream>, input: Data) returns (output: Data)
    requires content.Keyed() && (key.Some? ==> key == content.key)
    requires content.cryptoContext == null ==> key.Some?
    modifies content, content.cryptoContext
    ensures content.Keyed() && content.key.Some?
    ensures content.cryptoContext == null || content.cryptoContext == old(content.cryptoContext) || fresh(content.cryptoContext)
    ensures (content.State(), output) == CryptStep(content.key.value, old(content.State()), input)
  {
    var gcm: GcmContext;
    if content.cryptoContext == null {
      gcm := new GcmContext(key.value);
      content.cryptoContext := gcm;
      content.openings := content.openings + 1;
    } else {
      gcm := content.cryptoContext;
    }
    if |input| != 0 {
      output := Crypt(gcm.keystream, gcm.block, input);
      gcm.block := gcm.block + Blocks(|input|);
    } else {
      output := [];
      content.cryptoContext := null;
      content.closings := content.closings + 1;
    }
  }

  // ---- sending

  /** What the callback is asked for: whole blocks, unless this is the last chunk of a file to encrypt. */
  function Requested(total: nat, encrypted: bool, offset: nat, size: nat): nat {
    if encrypted && offset + size < total then size - size % 16 else size
  }

  /** One chunk: what is sent for the callback's data. Reaching the end of the file closes the context. */
  function SendStep(key: Option<Keystream>, total: nat, offset: nat, st: CryptState, data: Data): (CryptState, Data) {
    if key.None? then (st, data)
    else
      var (next, sent) := CryptStep(key.value, st, data);
      if offset + |data| >= total then (CryptStep(key.value, next, []).0, sent) else (next, sent)
  }

  method OnSendBody(content: Content, provide: (nat, nat) -> Option<Data>, offset: nat, buffer: array<bv8>, size: nat)
    returns (newSize: nat)
    requires size <= buffer.Length && content.Keyed()
    requires forall n :: provide(offset, n).Some? ==> |provide(offset, n).value| <= n
    modifies content, content.cryptoContext, buffer
    ensures content.Keyed() && newSize <= buffer.Length
    ensures offset >= content.size ==>
              newSize == size && buffer[..] == old(buffer[..]) && content.State() == old(content.State())
    ensures offset < content.size ==>
              var answer := provide(offset, Requested(content.size, content.key.Some?, offset, size));
              var data := if answer.None? then [] else answer.value;
              && newSize == |data|
              && (content.State(), buffer[..newSize]) == SendStep(content.key, content.size, offset, old(content.State()), data)
    // without a key the callback is asked for exactly size bytes, and its answer is sent as it is
    ensures offset < content.size && content.key.None? ==>
              && content.State() == old(content.State())
              && buffer[..newSize] == (match provide(offset, size) case None => [] case Some(answer) => answer)
    // with a key it is asked for whole blocks before the end, and its answer is enciphered where the context stands;
    // an empty answer or the end of the file closes the context
    ensures offset < content.size && content.key.Some? ==>
              var asked := if offset + size < content.size then size - size % 16 else size;
              var data := match provide(offset, asked) case None => [] case Some(answer) => answer;
              var st := old(content.State());
              var block := match st.position case None => 0 case Some(b) => b;
              var closed := data == [] || offset + |data| >= content.size;
              && buffer[..newSize] == Crypt(content.key.value, block, data)
              && content.State().position == (if closed then None else Some(block + (|data| + 15) / 16))
    ensures newSize <= |old(buffer[..])| && buffer[newSize..] == old(buffer[newSize..])
  {
    newSize := size;
    if offset < content.size {
      newSize := Requested(content.size, content.key.Some?, offset, size);
      var answer := provide(offset, newSize);
      var data := if answer.None? then [] else answer.value;
      newSize := |data|;
      var sent := data;
      if content.key.Some? {
        sent := CryptFile(content, content.key, data);
        if offset + newSize >= content.size {
          var last := CryptFile(content, None, []);
        }
      }
      CryptNothing(if content.key.Some? then content.key.value else FirstByteKey(), 0);
      forall i | 0 <= i < newSize { buffer[i] := sent[i]; }
      assert buffer[..newSize] == sent;
    }
  }

  // ---- a whole upload, the callback filling every request from the file

  datatype Upload = Upload(offset: nat, state: CryptState, sent: Data)

  function Fill(file: Data, offset: nat, size: nat): Data
    requires offset <= |file|
  {
    if offset + size <= |file| then file[offset..offset + size] else file[offset..]
  }

  function SendChunk(key: Option<Keystream>, file: Data, up: Upload, size: nat): (r: Upload)
    requires up.offset <= |file|
    ensures r.offset <= |file|
  {
    if up.offset >= |file| then up
    else
      var data := Fill(file, up.offset, Requested(|file|, key.Some?, up.offset, size));
      var (state, sent) := SendStep(key, |file|, up.offset, up.state, data);
      Upload(up.offset + |data|, state, up.sent + sent)
  }

  function SendChunks(key: Option<Keystream>, file: Data, sizes: seq<nat>): (up: Upload)
    ensures up.offset <= |file|
  {
    if sizes == [] then Upload(0, CryptState(None, 0, 0), [])
    else SendChunk(key, file, SendChunks(key, file, sizes[..|sizes| - 1]), sizes[|sizes| - 1])
  }

  /** The offset does not depend on the key: each request moves it by what it asks for, to the end of the file at most. */
  function OffsetAfter(total: nat, sizes: seq<nat>): (offset: nat)
    ensures offset <= total
  {
    if sizes == [] then 0
    else
      var offset := OffsetAfter(total, sizes[..|sizes| - 1]);
      var n := Requested(total, true, offset, sizes[|sizes| - 1]);
      if offset + n <= total then offset + n else total
  }

  /** A buffer under one block, away from the end of the file, asks for nothing, and the empty input closes the context. */
  predicate Stalls(total: nat, sizes: seq<nat>, i: nat)
    requires i < |sizes|
  {
    sizes[i] < 16 && OffsetAfter(total, sizes[..i]) + sizes[i] < total
  }

  /** After the first block this makes the next chunk start with the first block of the keystream again. */
  predicate Restarts(total: nat, sizes: seq<nat>, i: nat)
    requires i < |sizes|
  {
    Stalls(total, sizes, i) && 0 < OffsetAfter(total, sizes[..i])
  }

  predicate NoRestarts(total: nat, sizes: seq<nat>) { forall i :: 0 <= i < |sizes| ==> !Restarts(total, sizes, i) }

  function StallCount(total: nat, sizes: seq<nat>): (n: nat)
    ensures n <= |sizes|
  {
    if sizes == [] then 0
    else StallCount(total, sizes[..|sizes| - 1]) + if Stalls(total, sizes, |sizes| - 1) then 1 else 0
  }

  // Whatever the key and the sizes: the offset, the size of what was sent, block boundaries until the end, and contexts:
  // one, and one more for every stall, each closed again.
  ghost predicate InStep(file: Data, sizes: seq<nat>, up: Upload) {
    var stalls := StallCount(|file|, sizes);
    && up.offset == |up.sent| == OffsetAfter(|file|, sizes)
    && (up.offset < |file| ==>
          && up.offset % 16 == 0 && up.offset + stalls >= |sizes|
          && up.state.closings == stalls && up.state.openings == stalls + if up.state.position.Some? then 1 else 0)
    && (up.offset == |file| > 0 ==> up.state == CryptState(None, stalls + 1, stalls + 1))
  }

  lemma SizesLess(total: nat, sizes: seq<nat>, size: nat)
    ensures OffsetAfter(total, (sizes + [size])[..|sizes|]) == OffsetAfter(total, sizes)
    ensures (sizes + [size])[..|sizes|] == sizes
  {
    assert (sizes + [size])[..|sizes|] == sizes;
  }

  // One request before the end of the file: how far it gets, and which contexts it opens and closes.
  lemma SendChunkCounts(ks: Keystream, file: Data, up: Upload, size: nat)
    requires up.offset < |file|
    ensures var n := if up.offset + size < |file| then size - size % 16 else |file| - up.offset;
            var after := SendChunk(Some(ks), file, up, size);
      && after.offset == up.offset + n && |after.sent| == |up.sent| + n
      && after.state.openings == up.state.openings + (if up.state.position.None? then 1 else 0)
      && after.state.closings == up.state.closings + (if n == 0 || after.offset == |file| then 1 else 0)
      && (after.state.position.None? <==> n == 0 || after.offset == |file|)
  {
    hide Crypt, Blocks;
  }

  lemma SendChunkInStep(ks: Keystream, file: Data, sizes: seq<nat>, up: Upload, size: nat)
    requires InStep(file, sizes, up)
    ensures InStep(file, sizes + [size], SendChunk(Some(ks), file, up, size))
  {
    hide SendChunk;
    SizesLess(|file|, sizes, size);
    if up.offset < |file| { SendChunkCounts(ks, file, up, size); } else { FileIsSent(ks, file, up, size); }
  }

  lemma WholeBlocks(m: nat, n: nat)
    requires m % 16 == 0 && n % 16 == 0
    ensures (m + n) % 16 == 0 && Blocks(m) == m / 16 && m / 16 + Blocks(n) == (m + n) / 16
  {
  }

  // The same for every key. A request that does not stall moves the offset, so enough of them complete the upload.
  lemma {:induction false} UploadInStep(ks: Keystream, file: Data, sizes: seq<nat>)
    ensures InStep(file, sizes, SendChunks(Some(ks), file, sizes))
    ensures |sizes| >= |file| + StallCount(|file|, sizes) ==> SendChunks(Some(ks), file, sizes).offset == |file|
  {
    hide SendChunk;
    if sizes != [] {
      var before, last := sizes[..|sizes| - 1], sizes[|sizes| - 1];
      UploadInStep(ks, file, before);
      SendChunkInStep(ks, file, before, SendChunks(Some(ks), file, before), last);
      assert before + [last] == sizes;
    }
  }

  /** Between chunks: what was sent so far is the one-shot encryption, and an open context is at the offset's block. */
  ghost predicate Uploading(ks: Keystream, file: Data, up: Upload) {
    && up.offset <= |file|
    && up.sent == Crypt(ks, 0, file[..up.offset])
    && (up.offset == 0 ==> up.state.position == None)
    && (0 < up.offset < |file| ==> up.offset % 16 == 0 && up.state.position == Some(up.offset / 16))
  }

  function BlockOf(st: CryptState): nat { if st.position.None? then 0 else st.position.value }

  // One request before the end of the file: what is sent, and where the context then is.
  lemma SendChunkIs(ks: Keystream, file: Data, up: Upload, size: nat)
    requires up.offset < |file|
    ensures var data := Fill(file, up.offset, Requested(|file|, true, up.offset, size));
            var block := BlockOf(up.state);
            var after := SendChunk(Some(ks), file, up, size);
      && data == file[up.offset..up.offset + |data|]
      && (if up.offset + size < |file| then |data| == size - size % 16 else up.offset + |data| == |file|)
      && after.offset == up.offset + |data| && after.sent == up.sent + Crypt(ks, block, data)
      && after.state.position == if data == [] || after.offset == |file| then None else Some(block + Blocks(|data|))
  {
    hide Pad;
  }

  lemma SendChunkKeeps(ks: Keystream, file: Data, up: Upload, size: nat)
    requires Uploading(ks, file, up)
    requires !(size < 16 && 0 < up.offset && up.offset + size < |file|)
    ensures Uploading(ks, file, SendChunk(Some(ks), file, up, size))
  {
    hide Crypt, SendChunk, Fill, Requested;
    if up.offset < |file| {
      var data := Fill(file, up.offset, Requested(|file|, true, up.offset, size));
      SendChunkIs(ks, file, up, size);
      assert file[..up.offset + |data|] == file[..up.offset] + data;
      CryptSplit(ks, 0, file[..up.offset], data);
      if up.offset + size < |file| { WholeBlocks(up.offset, |data|); }
    } else {
      FileIsSent(ks, file, up, size);
    }
  }

  lemma FileIsSent(ks: Keystream, file: Data, up: Upload, size: nat)
    requires up.offset == |file|
    ensures SendChunk(Some(ks), file, up, size) == up
  {
  }

  lemma CryptNothing(ks: Keystream, block: nat)
    ensures Crypt(ks, block, []) == []
  {
  }

  lemma NoRestartsBefore(total: nat, sizes: seq<nat>)
    requires NoRestarts(total, sizes) && sizes != []
    ensures NoRestarts(total, sizes[..|sizes| - 1]) && !Restarts(total, sizes, |sizes| - 1)
  {
    var before := sizes[..|sizes| - 1];
    forall i | 0 <= i < |before| ensures !Restarts(total, before, i) {
      assert before[..i] == sizes[..i] && !Restarts(total, sizes, i);
    }
  }

  // Without restarts, what was sent is at every point the one-shot encryption of the file so far.
  lemma {:induction false} UploadIsOneShot(ks: Keystream, file: Data, sizes: seq<nat>)
    requires NoRestarts(|file|, sizes)
    ensures var up := SendChunks(Some(ks), file, sizes); up.sent == Crypt(ks, 0, file[..up.offset])
    ensures Uploading(ks, file, SendChunks(Some(ks), file, sizes))
  {
    hide SendChunk;
    if sizes == [] {
      CryptNothing(ks, 0);
    } else {
      NoRestartsBefore(|file|, sizes);
      UploadIsOneShot(ks, file, sizes[..|sizes| - 1]);
      UploadInStep(ks, file, sizes[..|sizes| - 1]);
      SendChunkKeeps(ks, file, SendChunks(Some(ks), file, sizes[..|sizes| - 1]), sizes[|sizes| - 1]);
    }
  }

  // ---- uploads without a key

  function Total(sizes: seq<nat>): nat { if sizes == [] then 0 else Total(sizes[..|sizes| - 1]) + sizes[|sizes| - 1] }

  // The file is sent as it is, each request moves the offset by its whole size up to the end of the file, and no context is
  // ever opened or closed.
  lemma {:induction false} PlainUpload(file: Data, sizes: seq<nat>)
    ensures var up := SendChunks(None, file, sizes);
      && up.offset == (if Total(sizes) <= |file| then Total(sizes) else |file|)
      && up.sent == file[..up.offset] && up.state == CryptState(None, 0, 0)
  {
    hide SendChunk;
    if sizes != [] {
      PlainUpload(file, sizes[..|sizes| - 1]);
      PlainChunk(file, SendChunks(None, file, sizes[..|sizes| - 1]), sizes[|sizes| - 1]);
    }
  }

  lemma PlainChunk(file: Data, up: Upload, size: nat)
    requires up.offset <= |file| && up.sent == file[..up.offset]
    ensures var after := SendChunk(None, file, up, size);
      && after.offset == (if up.offset + size <= |file| then up.offset + size else |file|)
      && after.sent == file[..after.offset] && after.state == up.state
  {
    if up.offset < |file| {
      var data := Fill(file, up.offset, size);
      assert file[..up.offset + |data|] == file[..up.offset] + data;
    }
  }

  // ---- what restarts cost

  /** A key that tells the first byte of its stream from every other. */
  function FirstByteKey(): Keystream { (block, offset) => if block == 0 && offset == 0 then 1 else 0 }

  /** The context is closed at offset o, or the byte there was sealed with the first byte of the keystream. */
  ghost predicate Restarted(file: Data, o: nat, up: Upload) {
    && o <= up.offset <= |file| && up.offset == |up.sent|
    && (up.offset == o ==> up.state.position == None)
    && (o < up.offset ==> up.sent[o] == file[o] ^ 1)
  }

  lemma SendChunkRestarted(file: Data, o: nat, up: Upload, size: nat)
    requires Restarted(file, o, up)
    ensures Restarted(file, o, SendChunk(Some(FirstByteKey()), file, up, size))
  {
    hide SendChunk, Fill, Requested, Crypt;
    if up.offset < |file| {
      var data := Fill(file, up.offset, Requested(|file|, true, up.offset, size));
      SendChunkIs(FirstByteKey(), file, up, size);
      if up.offset == o && data != [] { FirstByteSealed(data); }
    } else {
      FileIsSent(FirstByteKey(), file, up, size);
    }
  }

  lemma FirstByteSealed(data: Data)
    requires data != []
    ensures Crypt(FirstByteKey(), 0, data)[0] == data[0] ^ 1
  {
  }

  lemma LaterBytesPlain(data: Data, o: nat)
    requires 16 <= o < |data|
    ensures Crypt(FirstByteKey(), 0, data)[o] == data[o] ^ 0 != data[o] ^ 1
  {
  }

  // Once restarted at the offset before request i, the byte there never becomes what the one-shot cipher makes of it.
  lemma {:induction false} RestartSpoils(file: Data, sizes: seq<nat>, i: nat)
    requires i < |sizes| && Restarts(|file|, sizes, i)
    ensures Restarted(file, OffsetAfter(|file|, sizes[..i]), SendChunks(Some(FirstByteKey()), file, sizes))
  {
    hide Crypt, SendChunk, Restarted;
    var before, o := sizes[..|sizes| - 1], OffsetAfter(|file|, sizes[..i]);
    UploadInStep(FirstByteKey(), file, before);
    if i == |sizes| - 1 {
      StallCloses(FirstByteKey(), file, SendChunks(Some(FirstByteKey()), file, before), sizes[i]);
    } else {
      assert before[..i] == sizes[..i];
      RestartSpoils(file, before, i);
      SendChunkRestarted(file, o, SendChunks(Some(FirstByteKey()), file, before), sizes[|sizes| - 1]);
    }
  }

  lemma StallCloses(ks: Keystream, file: Data, up: Upload, size: nat)
    requires up.offset == |up.sent| && size < 16 && up.offset + size < |file|
    ensures Restarted(file, up.offset, SendChunk(Some(ks), file, up, size))
  {
    hide Crypt;
    assert Fill(file, up.offset, Requested(|file|, true, up.offset, size)) == [];
  }

  // A completed upload is the one-shot encryption of the file, whatever the key, exactly when no buffer under one block
  // was offered between the first block and the end of the file.
  lemma UploadExact(file: Data, sizes: seq<nat>)
    requires OffsetAfter(|file|, sizes) == |file|
    ensures NoRestarts(|file|, sizes) <==>
              forall ks: Keystream :: SendChunks(Some(ks), file, sizes).sent == Crypt(ks, 0, file)
  {
    hide Crypt, SendChunks, FirstByteKey;
    if NoRestarts(|file|, sizes) {
      forall ks: Keystream ensures SendChunks(Some(ks), file, sizes).sent == Crypt(ks, 0, file) {
        UploadInStep(ks, file, sizes);
        UploadIsOneShot(ks, file, sizes);
        assert file[..|file|] == file;
      }
    } else {
      var i :| 0 <= i < |sizes| && Restarts(|file|, sizes, i);
      var ks, o := FirstByteKey(), OffsetAfter(|file|, sizes[..i]);
      RestartSpoils(file, sizes, i);
      UploadInStep(ks, file, sizes);
      UploadInStep(ks, file, sizes[..i]);
      LaterBytesPlain(file, o);
    }
  }

  // ---- receiving

  // The first call may have a zero size and is ignored. The plaintext is None when nothing is handed to the application.
  method OnRecvBody(content: Content, buffer: Data) returns (plain: Option<Data>)
    requires content.Keyed()
    modifies content, content.cryptoContext
    ensures content.Keyed()
    ensures buffer == [] ==> plain == None && content.State() == old(content.State())
    ensures buffer != [] && content.key.None? ==> plain == Some(buffer) && content.State() == old(content.State())
    ensures buffer != [] && content.key.Some? ==>
              plain.Some? && (content.State(), plain.value) == CryptStep(content.key.value, old(content.State()), buffer)
  {
    if |buffer| == 0 { return None; }
    if content.key.Some? {
      var output := CryptFile(content, content.key, buffer);
      plain := Some(output);
    } else {
      plain := Some(buffer);
    }
  }

  /** What a download hands to the application, chunk by chunk, from a given state. */
  function Download(ks: Keystream, st: CryptState, chunks: seq<Data>): Data
    decreases chunks
  {
    if chunks == [] then []
    else if chunks[0] == [] then Download(ks, st, chunks[1..])
    else
      var (next, plain) := CryptStep(ks, st, chunks[0]);
      plain + Download(ks, next, chunks[1..])
  }

  function Concat(chunks: seq<Data>): Data {
    if chunks == [] then [] else chunks[0] + Concat(chunks[1..])
  }

  /** Every chunk with data after it is a whole number of blocks. */
  predicate Aligned(chunks: seq<Data>) {
    chunks == [] || ((|chunks[0]| % 16 == 0 || Concat(chunks[1..]) == []) && Aligned(chunks[1..]))
  }

  lemma {:induction false} EmptyDownload(ks: Keystream, st: CryptState, chunks: seq<Data>)
    requires Concat(chunks) == []
    ensures Download(ks, st, chunks) == []
    decreases chunks
  {
    if chunks != [] { EmptyDownload(ks, st, chunks[1..]); }
  }

  lemma {:induction false} AlignedDownload(ks: Keystream, st: CryptState, chunks: seq<Data>)
    requires Aligned(chunks)
    ensures Download(ks, st, chunks) == Crypt(ks, BlockOf(st), Concat(chunks))
    decreases chunks
  {
    if chunks != [] {
      var c, rest := chunks[0], chunks[1..];
      if c == [] {
        AlignedDownload(ks, st, rest);
        assert Concat(chunks) == Concat(rest);
      } else {
        var next := CryptStep(ks, st, c).0;
        if Concat(rest) == [] {
          EmptyDownload(ks, next, rest);
          assert Concat(chunks) == c;
        } else {
          AlignedDownload(ks, next, rest);
          CryptSplit(ks, BlockOf(st), c, Concat(rest));
        }
      }
    }
  }

  lemma {:induction false} DownloadLength(ks: Keystream, st: CryptState, chunks: seq<Data>)
    ensures |Download(ks, st, chunks)| == |Concat(chunks)|
    decreases chunks
  {
    if chunks != [] {
      DownloadLength(ks, if chunks[0] == [] then st else CryptStep(ks, st, chunks[0]).0, chunks[1..]);
    }
  }

  // The first byte of a download.
  lemma {:induction false} DownloadHead(ks: Keystream, st: CryptState, chunks: seq<Data>)
    requires Concat(chunks) != []
    ensures |Download(ks, st, chunks)| > 0 && Download(ks, st, chunks)[0] == Concat(chunks)[0] ^ ks(BlockOf(st), 0)
    decreases chunks
  {
    if chunks[0] == [] { DownloadHead(ks, st, chunks[1..]); }
  }

  lemma {:induction false} AlignedRest(chunks: seq<Data>)
    ensures Concat(chunks) == [] ==> Aligned(chunks)
    decreases chunks
  {
    if chunks != [] { AlignedRest(chunks[1..]); }
  }

  // A chunk that ends inside a block, with data after it, spoils the download for some key.
  lemma {:induction false} MisalignedDownload(st: CryptState, chunks: seq<Data>) returns (ks: Keystream)
    requires !Aligned(chunks)
    ensures Download(ks, st, chunks) != Crypt(ks, BlockOf(st), Concat(chunks))
    decreases chunks
  {
    hide Crypt;
    var ks0: Keystream := (b, o) => 0;
    var c, rest := chunks[0], chunks[1..];
    if c == [] {
      ks := MisalignedDownload(st, rest);
      assert Concat(chunks) == Concat(rest);
    } else if |c| % 16 == 0 || Concat(rest) == [] {
      AlignedRest(rest);
      var next := CryptStep(ks0, st, c).0;
      ks := MisalignedDownload(next, rest);
      DownloadAfterBlocks(ks, ks0, st, c, rest);
      assert chunks == [c] + rest;
    } else {
      ks := InsideBlock(st, c, rest);
      assert chunks == [c] + rest;
    }
  }

  lemma DownloadAfterBlocks(ks: Keystream, ks0: Keystream, st: CryptState, c: Data, rest: seq<Data>)
    requires c != [] && |c| % 16 == 0
    requires var next := CryptStep(ks0, st, c).0; Download(ks, next, rest) != Crypt(ks, BlockOf(next), Concat(rest))
    ensures Download(ks, st, [c] + rest) != Crypt(ks, BlockOf(st), Concat([c] + rest))
  {
    hide Crypt;
    var chunks := [c] + rest;
    assert chunks[0] == c && chunks[1..] == rest;
    var next := CryptStep(ks, st, c).0;
    CryptSplit(ks, BlockOf(st), c, Concat(rest));
    SplitDiffers(Crypt(ks, BlockOf(st), c), Download(ks, next, rest), Crypt(ks, BlockOf(next), Concat(rest)));
  }

  // The next call starts on a fresh block, where the one-shot cipher is still inside the old one.
  lemma InsideBlock(st: CryptState, c: Data, rest: seq<Data>) returns (ks: Keystream)
    requires |c| % 16 != 0 && Concat(rest) != []
    ensures Download(ks, st, [c] + rest) != Crypt(ks, BlockOf(st), Concat([c] + rest))
  {
    var chunks := [c] + rest;
    assert chunks[0] == c && chunks[1..] == rest;
    var block := BlockOf(st) + Blocks(|c|);
    ks := (b, o) => if b == block && o == 0 then 1 else 0;
    var next := CryptStep(ks, st, c).0;
    DownloadHead(ks, next, rest);
    assert Download(ks, st, chunks)[|c|] == Download(ks, next, rest)[0] == Concat(rest)[0] ^ 1;
    assert Crypt(ks, BlockOf(st), Concat(chunks))[|c|] == Concat(rest)[0] ^ 0;
  }

  lemma SplitDiffers(head: Data, a: Data, b: Data)
    requires a != b
    ensures head + a != head + b
  {
    if |a| == |b| {
      var i :| 0 <= i < |a| && a[i] != b[i];
      assert (head + a)[|head| + i] != (head + b)[|head| + i];
    }
  }

  // Decrypting a received stream chunk by chunk gives the file back, whatever the key, exactly when every chunk with
  // data after it is a whole number of blocks.
  lemma DownloadReturnsFile(chunks: seq<Data>)
    ensures Aligned(chunks) <==>
              forall ks: Keystream, file: Data :: Crypt(ks, 0, file) == Concat(chunks) ==>
                Download(ks, CryptState(None, 0, 0), chunks) == file
  {
    var start := CryptState(None, 0, 0);
    if Aligned(chunks) {
      forall ks: Keystream, file: Data | Crypt(ks, 0, file) == Concat(chunks)
        ensures Download(ks, start, chunks) == file
      {
        AlignedDownload(ks, start, chunks);
        CryptTwice(ks, 0, file);
      }
    } else {
      var ks := MisalignedDownload(start, chunks);
      CryptTwice(ks, 0, Concat(chunks));
      assert Crypt(ks, 0, Crypt(ks, 0, Concat(chunks))) == Concat(chunks);
    }
  }

  // A completed upload without restarts, and only such a one, gives the file back to every download cut on block boundaries.
  lemma UploadThenDownload(file: Data, sizes: seq<nat>)
    requires OffsetAfter(|file|, sizes) == |file|
    ensures NoRestarts(|file|, sizes) <==>
              forall ks: Keystream, chunks: seq<Data> ::
                Concat(chunks) == SendChunks(Some(ks), file, sizes).sent && Aligned(chunks) ==>
                  Download(ks, CryptState(None, 0, 0), chunks) == file
  {
    UploadExact(file, sizes);
    var start := CryptState(None, 0, 0);
    if NoRestarts(|file|, sizes) {
      forall ks: Keystream, chunks: seq<Data> | Concat(chunks) == SendChunks(Some(ks), file, sizes).sent && Aligned(chunks)
        ensures Download(ks, start, chunks) == file
      {
        AlignedDownload(ks, start, chunks);
        CryptTwice(ks, 0, file);
      }
    } else {
      var ks: Keystream :| SendChunks(Some(ks), file, sizes).sent != Crypt(ks, 0, file);
      var sent := SendChunks(Some(ks), file, sizes).sent;
      assert Concat([sent]) == sent && Aligned([sent]);
      AlignedDownload(ks, start, [sent]);
      CryptTwice(ks, 0, sent);
    }
  }
}
