# Liblinphone core: a verified model

This project models six pieces of the liblinphone core (`coreapi/`) in Dafny 4.11 and proves what they keep over whole runs.

| module | what it models |
|---|---|
| `LimeCodec`, `LimeCache` | LIME's hexadecimal codecs and the ZRTP cache: a list of peer elements with hexadecimal contents, searched and rewritten by loops |
| `LimeMessage` | key derivation, encryption, multipart messages, the receiving window (`lime.c`) |
| `LimeDevices` | what sending and receiving do to a well-formed cache, and who can read which part |
| `LimeRatchet` | whole runs of any number of devices over a channel that loses, duplicates and reorders |
| `LimePairing` | two devices that share fresh keys: how their runs start, and how many lost messages they survive |
| `FileCipher` | the file cipher and the upload and download callbacks that drive it in chunks |
| `TunnelManager`, `TunnelRuns` | the tunnel manager's modes, states, client, event queue and UDP mirror detection, and all its runs |
| `TunnelConfig`, `TunnelTables` | tunnel server configurations as text, and the three server tables |
| `AuthLookup`, `AuthStore` | the credential lookup ladder, the credential list, and its sections in the configuration file |
| `MessageWindow` | suppression of duplicate messages |
| `FrozenPayloads` | payload type numbers frozen for a session |
| `MediaFallback` | retrying a refused call with a weaker media profile |
| `Composing` | the composing indication, as a protocol between two parties |

Code that updates state is a class or a method. Each is proved equal to a function of its old state, with its effect on each
field given outright beside it, and the theorems are about those functions and their iterations. HMAC-SHA256 and AES-GCM are parameters (`LimeMessage.Crypto`) with only the laws
that opening undoes sealing and that lengths are right. A heap object whose only role is its address is a position or a handle.

## Where the code does not do what one would expect

Each of these is proved, with the exact condition under which the expected behaviour does hold.

- The receiving window does not wrap with the 32-bit index: a message n keys ahead arrives exactly when n is at most 100 and
  the index has not wrapped in between (`LimeDevices.WindowDoesNotWrap`).
- An uploaded file is enciphered as a whole, whatever the key, exactly when no upload buffer under 16 bytes is offered after
  the first block and before the end of the file; such a buffer restarts the keystream (`FileCipher.UploadExact`).
- A received file decrypts correctly, whatever the key, exactly when every received chunk with data after it is a whole number
  of 16-byte blocks (`FileCipher.DownloadReturnsFile`); the download callback passes on whatever chunks the network delivers.
- The network callback ignores whether a detection could start, and gets stuck for good exactly when there is no mirror
  (`TunnelRuns.ReachableGetsStuck`, `TunnelRuns.StuckForever`).
- Removing servers does harm exactly when a detection is under way whose success is not yet in the queue. Then it is stuck for
  good, or the event loop will advance an invalid position (`TunnelRuns.CleanIsHarmlessExactly`, `TunnelRuns.HarmfulClean`).
  Runs without such removals and without the callback above are exactly those in which detection stays sound
  (`TunnelRuns.StaysHealthyExactly`).
- RTP factories stay installed after their client is deleted exactly when a detection that started from the ready state
  succeeds (`TunnelRuns.FactoriesKeepClientExactly`, `TunnelRuns.FactoriesStep`).
- Saved tunnel configurations survive exactly when every host is a word without a colon and every entry has a mirror port
  (`TunnelConfig.RoundTrip`).
- A tunnel configuration with more than four fields starts a new round and drops the field that starts it; the host stays the
  first one (`TunnelConfig.ParsedExactly`).
- Adding a new credential can replace another one, removing an unknown credential can delete another one, and restarting can
  lose stored ones (`AuthStore.AddNewKey`, `AuthStore.RemoveUnstoredKey`, `AuthStore.ReloadExact`; concrete cases in
  `AuthStore.ReloadLosesCredential` and `AuthStore.UnknownRemovalDeletes`).
- A session keeps everything it froze exactly when no stream beyond the old description's count has bindings at a new
  description (`FrozenPayloads.LosslessExactly`). Results no wider than the local description, as for outgoing offers, keep it
  (`FrozenPayloads.OrderlyIsLossless`); an incoming offer with more streams need not (`FrozenPayloads.WiderOfferLosesBinding`).
- A sent message ends composing without saying so. The parties disagree exactly from when such a message, the last on its way,
  is not processed, until the sender composes or writes again or the receiver's timer expires
  (`Composing.ComposingAgreement`, `Composing.UnprocessedTextDisagrees`).

## Model

| member | source | states |
|---|---|---|
| LimeCodec.CharToByte | coreapi/lime.c:36-55 | the value of a hexadecimal character is a nibble; the six characters below '0' that pass the first test wrap to 0xFA..0xFF |
| LimeCodec.ByteToChar | coreapi/lime.c:64-72 | the printed character of any byte's low nibble is lower-case hexadecimal |
| LimeCodec.CharValues | coreapi/lime.c:36-55 | digits and letters of either case have their hexadecimal values, the six characters below '0' wrap, and every other character reads as 0 |
| LimeCodec.StrToUint8 | coreapi/lime.c:82-87 | fills the first half-length bytes of the buffer with the parsed text and leaves the rest |
| LimeCodec.Int8ToStr | coreapi/lime.c:96-102 | fills twice the length with the printed bytes and leaves the rest |
| LimeCodec.ParseUndoesPrint | coreapi/lime.c:82-102 | parsing a printed byte array gives it back, for all byte arrays |
| LimeCodec.PrintUndoesParse | coreapi/lime.c:82-102 | printing undoes parsing exactly on the even-length lower-case hexadecimal texts |
| LimeCodec.IndexReadersAgree | coreapi/lime.c:211-215 | the byte-buffer parser and the nibble parser of a session index agree on every text, in either case |
| LimeCodec.IndexRoundTrip | coreapi/lime.c:349-357 | for every 32-bit index the nibble printer is undone by both parsers |
| LimeCodec.IndexIsHexNumber | coreapi/lime.c:744-751 | the first eight characters are read as a hexadecimal number, most significant first |
| LimeCodec.IndexBytesDecode | coreapi/lime.c:440-443 | the four big-endian bytes determine the index |
| LimeCache.GetCachedSndKeysByURI | coreapi/lime.c:149-245 | returns distinct fresh keys, one for each peer of the URI whose five elements are present and whose flag is 1, in cache order |
| LimeCache.CanSendExactly | coreapi/lime.c:185-238 | a peer can be written to exactly when it lists the URI, has the three sending elements, and its flag reads 1 |
| LimeCache.GetCachedRcvKeyByZid | coreapi/lime.c:247-318 | succeeds exactly when the first peer with that ZID has all receiving elements and the flag, and then fills the key from it |
| LimeCache.SetCachedKey | coreapi/lime.c:320-402 | rewrites the cache as the search loop with its count of three does, on every cache |
| LimeCache.ReadStored | coreapi/lime.c:345-357 | a stored key is read back unchanged through the hexadecimal texts |
| LimeCache.StoreUpdatesOnePeer | coreapi/lime.c:359-398 | storing a key changes one direction of the first peer with its ZID, when that is complete, and nothing else |
| LimeCache.StoreOnlyOverwrites | coreapi/lime.c:359-398 | on any cache nothing is created, only elements of the one direction of records with the ZID change, only to the values of the key, and nothing after the third |
| LimeMessage.DeriveKey | coreapi/lime.c:412-463 | the new key is the HMAC under the old key of the derivation data, the index goes up by one modulo 2^32, and session id and ZID stay |
| LimeMessage.DerivationLayout | coreapi/lime.c:424-448 | the derivation data by position: 00000001, "MessageKey", a zero, the session id, the index in four big-endian bytes, 00000100; 55 bytes |
| LimeMessage.DerivedKeysDiffer | coreapi/lime.c:424-457 | without a collision on the two inputs, two derivations give the same key exactly from the same key, session id and index |
| LimeMessage.ChainKeysDiffer | coreapi/lime.c:412-463 | no two steps of one chain give the same key, unless the HMAC collides there |
| LimeMessage.DerivationInputsDiffer | coreapi/lime.c:427-448 | the derivation data has 55 bytes and is equal exactly for the same session id and index |
| LimeMessage.AuthenticatedDataBinds | coreapi/lime.c:485-491 | the authenticated data has 28 bytes and determines sender, receiver and index |
| LimeMessage.DecryptUndoesEncrypt | coreapi/lime.c:551-574 | both ends build the same authenticated data, so matching keys recover the plaintext |
| LimeMessage.DecryptsExactly | coreapi/lime.c:551-574 | without forgery, what was sealed is recovered exactly by the end with the same key and index that both ZIDs name |
| LimeMessage.DeriveTimesMatching | coreapi/lime.c:412-463 | two ends that match still match after the same number of derivations |
| LimeMessage.CreateMultipartMessage | coreapi/lime.c:576-678 | error codes, the document and the cache after sending, with the error paths leaving the cache alone |
| LimeMessage.DecryptPart | coreapi/lime.c:776-809 | from the window check to the stored key: the plaintext and next key, or an error and an unchanged cache |
| LimeMessage.CatchUp | coreapi/lime.c:789-791 | derives exactly as often as the indices differ |
| LimeMessage.FindPart | coreapi/lime.c:733-765 | keeps the last element addressed to the device, and none exactly when no element is |
| LimeMessage.DecryptMultipartMessage | coreapi/lime.c:680-810 | every error code, the plaintext and the cache after receiving, for any readable document |
| LimeMessage.Receive | coreapi/lime.c:680-810 | a rejected message leaves the cache unchanged |
| LimeMessage.PartExactly | coreapi/lime.c:776-809 | a part outside the window of 100, or that does not open under the key reached with sender, receiver and index as authenticated data, is rejected with the cache unchanged; otherwise its text is delivered and the next key stored |
| LimeMessage.Refusals | coreapi/lime.c:690-774 | which error code a document is refused with before any decryption: no sender, unknown sender, no part for this device |
| LimeMessage.LastPartDecides | coreapi/lime.c:733-765 | of several parts addressed to the device only the last one has an effect |
| LimeDevices.CreateFrame | coreapi/lime.c:619-669 | sending moves the sending triple of every complete, verified record of the URI one key on, and changes nothing else |
| LimeDevices.BumpReads | coreapi/lime.c:666-668 | such a record then reads as the next key of its chain |
| LimeDevices.OnePartPerDevice | coreapi/lime.c:619-665 | the document has exactly one part for each record with all sending elements, the URI and the flag 1, sealed with that record's key, and none for the others |
| LimeDevices.NoPartForStrangers | coreapi/lime.c:619-665 | nobody else is addressed |
| LimeDevices.ReceiveExact | coreapi/lime.c:776-807 | a part made at index u is delivered with its plaintext exactly when r <= u <= r+100, leaving the receiver at u+1; otherwise the cache is unchanged |
| LimeDevices.MultiDeviceDelivery | coreapi/lime.c:576-810 | every device whose record can send extracts its own part and decrypts it to the one plaintext, exactly when its own key is at most 100 behind and not ahead; otherwise its cache is unchanged |
| LimeDevices.WindowDoesNotWrap | coreapi/lime.c:776-791 | a part sealed n keys ahead on the receiver's chain is delivered, and the receiver moved one key beyond it, exactly when n is at most 100 and the receiver's index plus n is below 2^32; otherwise the cache is unchanged |
| LimeRatchet.ReceiveFrame | coreapi/lime.c:680-810 | whatever is received, at most the receiving triple of the sender's record changes |
| LimeRatchet.RatchetStaysInSync | coreapi/lime.c:576-810 | in every run below 2^32 sends, both caches hold keys of one chain and the receiver's index is not ahead |
| LimeRatchet.DeliveryIsExact | coreapi/lime.c:776-807 | in every run, a message is accepted exactly inside the window, with the plaintext that was sent, and leaves the receiver at the next key of the chain; otherwise the receiver's cache is unchanged |
| LimeRatchet.DeliveriesAreASubsequence | coreapi/lime.c:680-810 | in every run, what is accepted is a subsequence of what was sent, without repeats, each with its own plaintext |
| LimePairing.NextMessageArrives | coreapi/lime.c:776-807 | after any run, what is sent next is accepted exactly when the receiver's key is at most 100 behind, and then both ends hold the same next key; otherwise nothing changes |
| LimePairing.PairedStarts | tester/message_tester.c:801-842 | two caches that name each other and hold the same keys crosswise start a link in each direction, and both records can send |
| FileCipher.CryptFile | coreapi/lime.c:502-548 | opens a context when there is none, enciphers from its block, closes it on an empty input |
| FileCipher.OnSendBody | coreapi/chat.c:164-208 | the callback is asked for the whole size without a key or at the end of the file, and for whole blocks otherwise; the buffer begins with its answer, enciphered where the context stands when there is a key, and the rest of the buffer stays; an empty answer or the end of the file closes the context |
| FileCipher.OnRecvBody | coreapi/chat.c:1096-1130 | an empty chunk is ignored; otherwise the chunk is deciphered from the context's block or passed on |
| FileCipher.CryptTwice | coreapi/lime.c:502-548 | the one-shot cipher is its own inverse |
| FileCipher.CryptSplit | coreapi/lime.c:515 | enciphering in two calls equals one call when the first is a whole number of blocks |
| FileCipher.CryptAt | coreapi/lime.c:515 | every byte is combined with the keystream byte of its own block and offset |
| FileCipher.KeystreamIsNotReused | coreapi/lime.c:515 | two bytes share a keystream byte, whatever the key, exactly when they are the same byte |
| FileCipher.UploadInStep | coreapi/chat.c:170-204 | for every key and all buffer sizes: chunks before the end leave the offset on a block boundary, a request that does not stall moves it, and one context is opened and closed, plus one for every stall |
| FileCipher.UploadIsOneShot | coreapi/chat.c:170-204 | when no buffer restarts the keystream, what was sent is after every chunk the one-shot encryption of the file so far |
| FileCipher.UploadExact | coreapi/chat.c:175-204 | a completed upload is the one-shot encryption, whatever the key, exactly when no buffer under 16 bytes was offered after the first block and before the end of the file |
| FileCipher.PlainUpload | coreapi/chat.c:164-208 | without a key, for all files and sizes: the file is sent as it is, each request moves the offset by its whole size up to the end, and no context is opened or closed |
| FileCipher.DownloadReturnsFile | coreapi/chat.c:1096-1130 | for all keys and files the download is the file exactly when every chunk with data after it is whole blocks |
| FileCipher.UploadThenDownload | coreapi/chat.c:164-208 | exactly the uploads without such a buffer are given back by every block-aligned download, whatever the key |
| TunnelManager.TunnelManager.AddServer | coreapi/TunnelManager.cc:39-46 | the address joins the list and a live client's list; a null ip is an empty string |
| TunnelManager.TunnelManager.AddServerWithMirror | coreapi/TunnelManager.cc:30-37 | as AddServer, and the mirror joins its list |
| TunnelManager.TunnelManager.CleanServers | coreapi/TunnelManager.cc:48-58 | empties all lists and a live client's list, and leaves no valid mirror position |
| TunnelManager.TunnelManager.StartClient | coreapi/TunnelManager.cc:95-107 | never called over a live client; the new client has every address in order |
| TunnelManager.TunnelManager.StartAutoDetection | coreapi/TunnelManager.cc:373-383 | starts the first mirror's test, or reports that there is none |
| TunnelManager.TunnelManager.SetMode | coreapi/TunnelManager.cc:198-246 | Enable starts a client from disabled, Disable deletes it from ready, Auto starts the first mirror's test from disabled or ready when there is one; every other change is refused and leaves everything as it was |
| TunnelManager.TunnelManager.NetworkReachable | coreapi/TunnelManager.cc:364-371 | in mode auto at rest the state becomes autodetecting, with the first mirror under test if there is one; otherwise nothing changes |
| TunnelManager.TunnelManager.ProcessTunnelEvent | coreapi/TunnelManager.cc:180-196 | only a connection while connecting makes the tunnel ready and installs the factories |
| TunnelManager.TunnelManager.ProcessUdpMirrorEvent | coreapi/TunnelManager.cc:320-348 | with a valid mirror position: success deletes the client and disables, a failure tests the next mirror, the last failure starts a client or returns to ready |
| TunnelManager.TunnelManager.OnIterate | coreapi/TunnelManager.cc:255-269 | drains the queue, event by event |
| TunnelManager.TunnelManager.IsActivated | coreapi/TunnelManager.cc:385-395 | true exactly when the state is not disabled |
| TunnelRuns.NewTunnelOk | coreapi/TunnelManager.cc:129-150 | a new manager satisfies every invariant below |
| TunnelRuns.TunnelAlwaysOk | coreapi/TunnelManager.cc:180-246 | in every run: disabled has no client, connecting and ready have one, ready has the factories, the mode fits the state, the client's servers are the manager's |
| TunnelRuns.SetModeExactly | coreapi/TunnelManager.cc:198-246 | a mode is taken up exactly when it was the mode, or for enable from disabled, disable from ready, auto at rest with a mirror; the state, client, factories and pending test it leads to; nothing changes otherwise |
| TunnelRuns.ListsStep | coreapi/TunnelManager.cc:30-58 | over every step: servers and mirrors are added at the end, events are queued at the end and taken from the front |
| TunnelRuns.ConnectingStep | coreapi/TunnelManager.cc:180-196 | a connecting tunnel becomes ready, with the factories, exactly when it takes a connection off the queue; no other step changes its mode or state |
| TunnelRuns.LateEventIsDropped | coreapi/TunnelManager.cc:180-196 | a tunnel event that is no connection while connecting, and an answer without detection, change nothing but the queue |
| TunnelRuns.ConnectionIsTaken | coreapi/TunnelManager.cc:255-269 | in any run from connecting with the first connection at position p of the queue: the tunnel keeps connecting for p turns of the event loop, and the next turn makes it ready with the factories, in the mode it was in |
| TunnelRuns.SwitchOnAndOff | coreapi/TunnelManager.cc:198-246 | from rest, enabling and a connection end ready with factories and a client that holds every server; disabling then undoes it |
| TunnelRuns.NewTunnelConnects | coreapi/TunnelManager.cc:129-246 | a new manager given a server, enabled and connected tunnels through that server |
| TunnelRuns.DetectionAlwaysOk | coreapi/TunnelManager.cc:320-383 | without removals every step is defined and exactly one test is pending exactly while detecting, with the mirrors tried in order |
| TunnelRuns.OnlyAnswersMoveDetection | coreapi/TunnelManager.cc:320-348 | while detecting, no other step moves the detection; an answer ends it or goes to the next mirror |
| TunnelRuns.DetectionOutcome | coreapi/TunnelManager.cc:320-348 | in any run without removals, whatever calls, callbacks and new mirrors come between, the answers taken off the queue decide: the first success disables the tunnel, the failure of every mirror starts it, otherwise the next mirror is under test; one mirror is tried for each answer, in order |
| TunnelRuns.QueuedAnswerIsTaken | coreapi/TunnelManager.cc:255-269 | an answer at position p of the queue is taken exactly when the run has more than p turns of the event loop |
| TunnelRuns.PendingTest | coreapi/TunnelManager.cc:350-362 | while detecting, the test is out and its callback queues the answer, or the answer is already in the queue |
| TunnelRuns.ReachableGetsStuck | coreapi/TunnelManager.cc:366-369 | the network callback leaves a detection without test exactly in mode auto, at rest, with no mirror |
| TunnelRuns.StuckForever | coreapi/TunnelManager.cc:198-246 | no run leaves such a detection |
| TunnelRuns.StuckIsReachable | coreapi/TunnelManager.cc:364-371 | a concrete run reaches it |
| TunnelRuns.HealthyStep | coreapi/TunnelManager.cc:48-58 | from a sound detection, a step keeps it sound exactly when it is no removal during a detection without queued success, and no network callback in mode auto at rest without mirrors |
| TunnelRuns.StaysHealthyExactly | coreapi/TunnelManager.cc:255-371 | over whole runs, removals included: every step is defined and detection stays sound exactly when all steps are harmless |
| TunnelRuns.CleanEffect | coreapi/TunnelManager.cc:48-58 | a removal gets stuck exactly when a test is out, and makes the next turn undefined exactly when a failure is next in the queue |
| TunnelRuns.HarmfulClean | coreapi/TunnelManager.cc:320-334 | a harmful removal is stuck for good, or every later run is defined exactly as long as the event loop does not reach the queued failure |
| TunnelRuns.CleanIsHarmlessExactly | coreapi/TunnelManager.cc:48-58 | every run after a removal, without another one or the network callback, is defined and never stuck exactly when no detection was under way or its success was queued |
| TunnelRuns.CleanDuringDetection | coreapi/TunnelManager.cc:48-58 | a concrete run after which a failed test advances an invalid position |
| TunnelRuns.FactoriesStep | coreapi/TunnelManager.cc:180-246 | exactly which steps leave installed factories without a client, and exactly which bring one back |
| TunnelRuns.FactoriesKeepClientExactly | coreapi/TunnelManager.cc:320-334 | over whole runs, the factories always have their client exactly when no detection from the ready state succeeds |
| TunnelRuns.FactoriesOutliveClient | coreapi/TunnelManager.cc:324-330 | a successful detection from the ready state deletes the client and keeps the factories |
| TunnelConfig.NextWord | coreapi/linphone_tunnel.cc:91-114 | takes the first word off a string, for both separators |
| TunnelConfig.ConfigFromString | coreapi/linphone_tunnel.cc:82-128 | the parsing loop with its position counter, equal to the parse that `ParsedExactly` describes |
| TunnelConfig.ParsedExactly | coreapi/linphone_tunnel.cc:89-128 | any number n of fields: refused exactly when n is 0 or n % 4 is 1; the host is the first field, port, mirror port and delay are the last fields since the last one that restarts the count, and 12345 and 1000 stand for fields not given |
| TunnelConfig.SaveConfig | coreapi/linphone_tunnel.cc:131-152 | joins the printed entries, skipping null hosts, as in `SavedText` |
| TunnelConfig.SavedText | coreapi/linphone_tunnel.cc:63-152 | a concrete list with and without mirror port and with a null host, and its text |
| TunnelConfig.LoadConfig | coreapi/linphone_tunnel.cc:169-192 | the words of the saved string that parse, in order |
| TunnelConfig.AtoiUndoesPrint | coreapi/linphone_tunnel.cc:98-104 | reading a printed integer gives it back, negative ones included |
| TunnelConfig.AtoiExactly | coreapi/linphone_tunnel.cc:98-104 | white space is skipped, a sign taken, what follows the digits ignored, and no digits read as 0 |
| TunnelConfig.OneConfigRoundTrip | coreapi/linphone_tunnel.cc:63-128 | a configuration survives printing and parsing; without a mirror only host and port do |
| TunnelConfig.LoadAfterSave | coreapi/linphone_tunnel.cc:131-192 | loading what was saved keeps the list and its order, dropping null hosts |
| TunnelConfig.RoundTrip | coreapi/linphone_tunnel.cc:131-192 | the list comes back exactly when every host is a word and every entry has a mirror port |
| TunnelTables.LinphoneTunnel.AddServerIntern | coreapi/linphone_tunnel.cc:155-166 | host and port join the manager's servers, the mirror port and delay as unsigned numbers its mirrors unless the mirror port is -1, and the list grows |
| TunnelTables.LinphoneTunnel.RefreshConfig | coreapi/linphone_tunnel.cc:194-203 | the manager's tables are rebuilt from the list, which is unchanged |
| TunnelTables.LinphoneTunnel.RemoveServer | coreapi/linphone_tunnel.cc:210-218 | an unknown entry changes nothing; a known one is removed from the list, the others stay in order, and tables and saved text follow |
| TunnelTables.LinphoneTunnel.CleanServers | coreapi/linphone_tunnel.cc:224-232 | everything is emptied |
| TunnelTables.LinphoneTunnel.LoadConfigs | coreapi/linphone_tunnel.cc:169-192 | loaded entries are appended and the tables still agree |
| TunnelTables.TablesAlwaysAgree | coreapi/linphone_tunnel.cc:155-232 | after any operations, addresses and mirrors are the projections of the list in order, and a live client has the addresses |
| AuthLookup.RealmMatchIsEquivalence | coreapi/authentication.c:195-219 | realm matching is equality of the stripped forms, and a quoted realm matches the bare one |
| AuthLookup.RealmMatchExactly | coreapi/authentication.c:195-219 | for any two realms, missing ones included: they match exactly when both are missing or their texts agree from after a leading quote up to the next quote |
| AuthLookup.QuotesDoNotMatter | coreapi/authentication.c:195-219 | two bare realms, each written with or without quotes and with any text after the closing one, match exactly when they are equal |
| AuthLookup.FitsExactly | coreapi/authentication.c:226-245 | which entries each of the four kinds of lookup accepts, field by field |
| AuthLookup.RealmsApart | coreapi/authentication.c:221-249 | of two entries of one user with different realms, a lookup by the second realm finds the second, and nothing when only the first is stored |
| AuthLookup.FindAuthInfo | coreapi/authentication.c:221-249 | the loop selects the only match for a realm alone and the first match otherwise |
| AuthLookup.CoreFindAuthInfo | coreapi/authentication.c:260-276 | the four steps in order |
| AuthLookup.LadderMeaning | coreapi/authentication.c:251-276 | an entry is the result exactly when a step that applies selects it and the steps before select nothing |
| AuthStore.LadderFindsKey | coreapi/authentication.c:311 | a stored full key is found whatever else is stored |
| AuthStore.StoredKey | coreapi/authentication.c:299-317 | adding an existing key replaces its entry, removing it deletes exactly that entry |
| AuthStore.AddExactly | coreapi/authentication.c:299-317 | for credentials of any shape: without a secret nothing is added; what the ladder finds makes way when the domains are the same; otherwise the entry is appended |
| AuthStore.RemoveExactly | coreapi/authentication.c:370-378 | for credentials of any shape, removing takes out what the ladder finds and nothing else |
| AuthStore.RemoveByUser | coreapi/authentication.c:370-378 | a user name alone removes the first entry of the user without ha1, if there is one |
| AuthStore.KeysStayUnique | coreapi/authentication.c:299-378 | no sequence of operations stores one full key twice |
| AuthStore.AddNewKey | coreapi/authentication.c:310-317 | adding a key that is not stored appends it exactly when its realm singles out an entry or no entry of the domain lacks ha1 |
| AuthStore.RemoveUnstoredKey | coreapi/authentication.c:370-378 | removing a key that is not stored changes nothing exactly when its realm singles out no entry and every entry of the user has ha1 |
| AuthStore.UnknownRemovalDeletes | coreapi/authentication.c:370-378 | a concrete list where removing an unknown credential deletes another one |
| AuthStore.WriteThenRead | coreapi/authentication.c:141-193 | a written section holds exactly the fields of the entry, the password only without ha1; it reads back with every field, other sections untouched |
| AuthStore.Core.WriteConfig | coreapi/authentication.c:141-172 | with storing on, the section has the ha1 of the entry or, when hashing is on and there are realm, password and a user, the one computed from user id or user name, realm and password; no password beside an ha1; otherwise the section is removed |
| AuthStore.Core.HashesHide | coreapi/authentication.c:150-168 | once written, no section has the clear password of an entry that had an ha1 or, with hashing on, a realm, a password and a user |
| AuthStore.Core.WriteAuthInfos | coreapi/authentication.c:278-288 | afterwards every position of the list has its section, with the computed ha1 and without a password where hashing applies, which reads back as that entry, and the next number is free; without storing, the sections up to there are only cleaned |
| AuthStore.Core.AddAuthInfo | coreapi/authentication.c:299-357 | the new list under every setting, unique keys, and the sections that mirror it, are cleaned, or stay |
| AuthStore.Core.RemoveAuthInfo | coreapi/authentication.c:370-378 | the new list under every setting, unique keys, and the sections that mirror it, are cleaned, or stay |
| AuthStore.Core.ClearAllAuthInfo | coreapi/authentication.c:392-402 | the list and its sections are gone |
| AuthStore.ReloadExact | coreapi/linphonecore.c:960-969 | adding the stored entries again at startup gives the list back exactly when none shadows an earlier one; otherwise it is shorter |
| AuthStore.ReloadLosesCredential | coreapi/linphonecore.c:960-969 | a sequence of adds and a removal after which a restart loses an entry |
| MessageWindow.Core.IsDuplicateMsg | coreapi/callbacks.c:1087-1106 | the answer and the window, with the shrinking case |
| MessageWindow.Core.TextReceived | coreapi/callbacks.c:1109-1117 | a message is delivered once; nothing happens while chat is denied |
| MessageWindow.WindowRefinesHistory | coreapi/callbacks.c:1087-1117 | for every sequence the window is the newest part of the full history, nine or ten long once full, and any ten consecutive deliveries are distinct |
| MessageWindow.DroppedExactlyWhenRecent | coreapi/callbacks.c:1087-1106 | a message is dropped exactly when it is among the newest deliveries that the window holds |
| MessageWindow.OldestIsForgotten | coreapi/callbacks.c:1101-1104 | ten is tight: a duplicate of the oldest pushes it out, and the next copy is delivered |
| FrozenPayloads.Call.IsPayloadTypeNumberAvailable | coreapi/linphonecall.c:272-279 | true exactly when no entry has the number |
| FrozenPayloads.Call.UpdateFrozenPayloads | coreapi/callbacks.c:103-118 | every negotiated stream's list is extended, the others are unchanged |
| FrozenPayloads.Call.MakeLocalDescription | coreapi/linphonecall.c:550-556 | the new description has the new number of streams; the lists of the old description's streams move to it, the others are empty |
| FrozenPayloads.SessionFreezes | coreapi/callbacks.c:103-118 | each list has distinct numbers, covers every number negotiated, and keeps the first codec bound to each |
| FrozenPayloads.SessionAppends | coreapi/callbacks.c:110-112 | each list only grows at its end |
| FrozenPayloads.LosslessExactly | coreapi/linphonecall.c:550-556 | at every point of a session the lists hold everything negotiated so far exactly when no new description meets bindings beyond the old stream count |
| FrozenPayloads.OrderlyIsLossless | coreapi/offeranswer.c:496-510 | when results are no wider than the local description, as for outgoing offers, and descriptions never lose streams, nothing is ever lost |
| FrozenPayloads.WiderOfferLosesBinding | coreapi/offeranswer.c:565-599 | an incoming offer with more streams than the local description freezes a number that the next description loses, and that another codec can then take |
| FrozenPayloads.RenewKeepsExactly | coreapi/linphonecall.c:550-556 | a new description keeps the lists exactly when no stream beyond the old count has bindings |
| MediaFallback.Call.NotAcceptable | coreapi/callbacks.c:889-921 | which profile is tried next, which stream loses its keys, or that the failure is reported |
| MediaFallback.AtMostTwoRestarts | coreapi/callbacks.c:889-921 | along any refusals, restarts equal the steps the profile went down, at most two |
| MediaFallback.PolicyRespected | coreapi/callbacks.c:899-916 | SRTP is kept while encryption is mandatory, dropped only after AVPF, and nothing is ever raised |
| MediaFallback.GivenUpExactlyAtTheBottom | coreapi/callbacks.c:892-920 | a refusal is final exactly when the call is in none of the four outgoing states, has no active stream, or has nothing left to lower |
| Composing.ChatRoom.Compose | coreapi/chat.c:1021-1037 | afterwards composing with both timers set, announced exactly when it was not before; the re-armed idle timer always exists |
| Composing.ChatRoom.StopComposing | coreapi/chat.c:1005-1013 | idle is announced and both timers are gone |
| Composing.ChatRoom.RefreshComposing | coreapi/chat.c:1015-1019 | the current state is announced again |
| Composing.ChatRoom.SendMessage | coreapi/chat.c:521-623 | the state is reset without an announcement, except while a file must be uploaded first |
| Composing.ChatRoom.MessageReceived | coreapi/chat.c:646-654 | a text stops the indication and leaves its timer |
| Composing.ChatRoom.RemoteRefreshExpired | coreapi/chat.c:770-777 | the indication and its timer are gone |
| Composing.ChatRoom.ProcessNotification | coreapi/chat.c:781-826 | the last node decides; without a state nothing changes |
| Composing.ComposingAgreement | coreapi/chat.c:1005-1037 | in every run, unprocessed texts included: the timers follow the state, a shown indication will expire, and with the channel drained the receiver shows composing although the sender is not exactly when the end of composing was lost |
| Composing.DrainedShows | coreapi/chat.c:781-826 | receiving all that is on its way shows what its last item says, and changes nothing of the sender |
| Composing.DrainedIsExact | coreapi/chat.c:1005-1037 | in every run where the receiver processes every text and its timer does not fire: once it has received everything it shows composing exactly when the sender does |
| Composing.StepKeepsAgreement | coreapi/callbacks.c:1109-1117 | agreement survives a step exactly unless it drops the last text on its way, while the indication is shown and the sender does not compose |
| Composing.StepRestoresAgreement | coreapi/chat.c:770-777 | once lost, agreement returns exactly when the sender composes or writes again or the receiver's timer expires |
| Composing.ProcessedTextsAgree | coreapi/chat.c:646-654 | in runs where every text is processed the end of composing is never lost |
| Composing.UnprocessedTextDisagrees | coreapi/chat.c:617-622 | a run with an unprocessed text that leaves the indication until the timer expires |

## Left out

- XML trees, base64, HTTP, SIP transport and RTP sockets: documents, words and events stand for them.
- Polarssl: HMAC-SHA256 and AES-GCM are parameters; `LimeMessage.DerivedKeysDiffer` and `LimeMessage.DecryptsExactly` assume that they do not collide or open a forgery on the very inputs they speak of, which no function of fixed length can promise for all.
- LimeCache.GetCachedSndKeysByURI: each element occurs at most once in a peer, contents are long enough for the fixed-length reads, and there are fewer than 65536 peers, as its 16-bit counter needs.
- LimeCache.SetCachedKey: the elements of one direction are visited in the order key, session id, index, which matters only when two peers share a ZID.
- LimeMessage.DecryptMultipartMessage: sender ZIDs have 24 characters, index texts 8 nibble characters and sealed texts at least 16 bytes; shorter ones are read past their end by the source.
- LimeDevices.CreateFrame: on caches with distinct lower-case ZIDs, as the ZRTP library writes them.
- LimeRatchet.RatchetStaysInSync: every message on the wire was made by one of the devices; the channel does not invent messages.
- Plaintexts are byte sequences without a terminating zero; the zero the source appends is not modelled.
- FileCipher.OnSendBody: the legacy callback is the same callback with a different signature; it does not answer more than was asked.
- File and memory body handlers that upload without this callback are not part of this model.
- TunnelRuns.DetectionOutcome: runs without removals; `TunnelRuns.StaysHealthyExactly` covers those with them.
- FileCipher.UploadExact: the application's callback fills every request; short answers are covered by `FileCipher.OnSendBody` alone.
- TunnelManager.TunnelManager.CleanServers: a stopped mirror test does not answer any more; the tunnel client library is not part of this model.
- TunnelManager.TunnelManager.OnIterate: no event arrives while the queue is being drained; in the runs of `TunnelRuns` events arrive between any two.
- Registration, HTTP proxy settings and local address of the tunnel manager, and the `sal` tunnel pointer.
- TunnelConfig.ConfigFromString: integers are unbounded, so overflow in `atoi` is not modelled.
- TunnelTables.TablesAlwaysAgree: settings of a configuration are not changed after it was added.
- AuthLookup.RealmMatchIsEquivalence: realms of 127 characters or more, which the source truncates without terminator, are not modelled.
- AuthStore.Core.AddAuthInfo: pending authentications are not restarted in the model.
- Credentials carry no empty strings, as their constructor and setters ensure; the text form of the configuration file is not part of this model.
- MediaFallback.Call.NotAcceptable: the rest of the call state machine, redirections and tones.
- FrozenPayloads.Call.MakeLocalDescription: how codec lists are chosen for the next offer.
- Composing.ComposingAgreement: timers fire at any time while set; their durations are not modelled.
- Friends, call logs, presence, conferences and the console: no protocol or invariant beyond those shown for the credential store.
