# A verified model of the LCP and LSD servers

This project models, in Dafny, the parts of the Readium LCP server whose behaviour is hardest to see from one
function at a time, and proves what they are for.

* **License status protocol** (`LsdProtocol`, `LsdEffects`, `LsdInvariants`, `LsdRuns`, `LsdDocuments`, `LsdServer`). A license lives in
  a row and an event log of the status server and in a row of the license server. Every handler reads its row, decides, and
  then carries out up to three effects, each of which may be refused or may succeed while its answer is lost; reading the row,
  a device or the events of a document may fail too, and a failed PATCH comes with any status code or none.
  `LsdProtocol` says on values what each handler decides (`PlanOf`) and what remains of it when effects fail
  (`Perform`, `Next`). `LsdServer` holds the classes with the tables; each method is proved to change its license exactly as
  `Next` says, to answer as `ReplyTo` says, and to leave all other licenses alone. `LsdEffects` proves what that is for each
  request: the new rows, the new event and the reply, the code of every refusal, what a fault leaves behind. `LsdInvariants` and `LsdRuns` prove what
  every call keeps and what holds in every reachable state. Handlers of one license run one at a time: the code takes no
  lock, so this is an assumption. The clock is shared by both servers and never goes back; a license is issued no earlier
  than one second after the zero time.
* **Streaming encryption** (`Bytes`, `Streams`, `Padding`, `Cbc`, `KeyWrap`). The padded reader over an arbitrarily chunked
  source, the block-at-a-time CBC loop over it, decryption in place, and the key wrap. AES under a key is any permutation of
  16-byte blocks together with its inverse.
* **Packaging** (`Urls`, `Epubs`, `EpubPackaging`, `RpfPackaging`, `Pipeline`). Which files of an EPUB are encrypted, the
  manifest that grows while it is searched, what a reading system gets back, the marking of a Readium Package, and the
  workers that encrypt posted files over one store and one index. Deflate and inflate are any functions that undo each other.
* **Codecs** (`Json`, `W3cCodec`, `MetadataCodec`, `StatusCodec`). The printers and parsers that choose between literal,
  object and array, and the bit that stands for a status.

Where the code falls short of what it is for, the model does what the code does, and the exact condition is proved:

* A renewal or extension to Go's zero time removes the end on the license server. This can happen exactly when the servers
  are connected, the original end lies before year 1 and the maximum does not (`LcpEndIsBounded`, `FaultlessEndsAgree`).
* Without a connection to the license server, a return is logged and then fails: a ready license then has a log. Otherwise
  its log is empty in every faultless run (`FaultlessReadyIsUnused`).
* The default renew link is offered on ready licenses and on licenses without a maximum end, and refused there
  (`RenewLinkIsHonoured`, `NewbornRenewIsRefused`, `RenewWithoutMaximumIsRefused`).
* The key wrap is that of RFC 3394 exactly up to 255 steps (`WrapIsStandardExactly`).
* The second copy of an encrypted EPUB path is written in clear although the manifest says otherwise. A resource reads back
  whatever its content, exactly when it stays in clear or is the first of its path (`EveryContentReadsBackExactly`); for one
  content the same holds unless it happens to decrypt and inflate to itself (`OutputReadsBackExactly`).
* `Do` does not look at the errors of writing mimetype and manifest: it can succeed without either. A reader that fails
  while its data is compressed goes unnoticed: what it delivered so far is what is encrypted (`EpubPackaging.Succeeds`).
* Process marks what it is for exactly when every marked link finds its file listed and every unmarked link with a file is
  the first of an href that unescaping leaves alone (`MarkedAsIntendedExactly`). Otherwise a file is encrypted under a new
  link (`EscapedHrefIsNotMarked`), or a link is marked with the length of another file (`EscapedHrefTakesAnotherLength`).
* A file of a Readium Package is lost for whoever follows a link that stays unmarked while the file is encrypted: an href with
  a single %20 is enough, and so is the repetition of an href (`EscapedHrefIsLost`, `RepeatedHrefIsLost`). For any reading
  order a link leads back exactly when it is newly marked if and only if the last link to its file was unmarked
  (`LinkLeadsBackExactly`).
* Without a storage configured the store answers without an error and keeps nothing, and the packager indexes an object that is
  nowhere, fresh ids or not. With fresh ids the index is honest exactly when the store keeps what it does not refuse
  (`FreshIndexIsHonestExactly`); for any ids the tasks must agree on what they write (`IndexIsHonestExactly`). When the random
  source fails, a task works under the empty id: the file system and S3 refuse it, and Post tells of that
  (`EmptyIdIsRefused`); a store that took it would overwrite one object with the next (`SameIdsCollide`).
* Nil lists come back from JSON as one empty element, and a list of contributors loses languages
  (`ContributorsRoundTripExactly`).
* A negative number whose absolute value is a power of two decodes to a status as well (`DecodesExactly`).

`dafny verify dfyconfig.toml` verifies the whole project.

## Model

| member | source | states |
|---|---|---|
| LsdServer.EventTable.Add | transactions/transactions.go:72-77 | the table gains this event at its end, or nothing |
| LsdServer.EventTable.CheckDeviceStatus | transactions/transactions.go:125-138 | fails with the query; else answers the kind of the latest event of a device on a row, and nothing exactly when the device has no event in the log of that row |
| LsdServer.EventTable.ListRegisteredDevices | transactions/transactions.go:104-121 | answers device, name and time of the register events of a row, in the order of the log, silently ending at the first one that cannot be read |
| LsdServer.ListedAreRegistered | lsdserver/api/license_status.go:762-792 | the listed devices are, one by one, those whose registration is counted, with the name and time of a register event |
| LsdServer.EventTable.GetByLicenseStatusId | lsdserver/api/license_status.go:1046-1062 | the document gets all events of the row, or silently the first ones, or an error |
| LsdServer.StatusTable.GetByLicenseID | license_statuses/license_statuses.go:139-180 | tells a row that cannot be read from one that is missing; else answers the first row of the license with the certificate date applied |
| LsdServer.StatusTable.Add | license_statuses/license_statuses.go:84-100 | appends the row under a fresh id and keeps all other rows, or appends nothing; the answer may be lost |
| LsdServer.StatusTable.Update | license_statuses/license_statuses.go:183-207 | overwrites the row of that id, or nothing, and keeps the rows of other licenses |
| LsdServer.LicenseServer.UpdateLicense | lcpserver/api/license.go:632-715 | merges the partial license into the stored one and stamps it, touching no other license; answers 200, 404 for a missing license, another code for a fault, and nothing when it crashes on missing rights |
| LsdServer.LicenseServer.TouchByContentID | license/store.go:166-174 | stamps exactly the licenses of the content |
| LsdServer.StatusServer.CreateLicenseStatusDocument | lsdserver/api/license_status.go:39-62 | a license without a status gets the row of `NewRow` and an empty log, whatever has been logged for others; a bad body and a failing insert are told |
| LsdServer.StatusServer.MakeLicenseStatus | lsdserver/api/license_status.go:1002-1043 | the new row: ready or active, count zero, and a maximum end only for a license with an end when renewing is allowed |
| LsdServer.StatusServer.UpdateLicense | lsdserver/api/license_status.go:1182-1228 | patches the end and nothing else; answers the code of the license server, or an error without a connection or an answer; it can succeed without saying so |
| LsdServer.StatusServer.GetLicenseStatusDocument | lsdserver/api/license_status.go:66-124 | changes and answers as `Next` and `ReplyTo` say, failing reads and writes included, and leaves all other licenses alone |
| LsdServer.StatusServer.RegisterDevice | lsdserver/api/license_status.go:129-239 | the same for registering: an unknown device is logged, counted and activates the license; a known one changes nothing |
| LsdServer.StatusServer.LendingReturn | lsdserver/api/license_status.go:243-345 | the same for returning: ready becomes cancelled, active and expired become returned, ended at the same second on both servers |
| LsdServer.StatusServer.LendingRenewal | lsdserver/api/license_status.go:356-521 | the same for renewing, with every refusal of status, end, maximum end and parameter |
| LsdServer.StatusServer.ExtendSubscription | lsdserver/api/license_status.go:531-677 | the same for extending a subscription |
| LsdServer.StatusServer.LendingCancellation | lsdserver/api/license_status.go:800-898 | the same for cancelling and revoking, where the license server is patched before the event is logged |
| LsdEffects.RegisteringActivates | lsdserver/api/license_status.go:183-216 | registering an unknown device stores the row as active with one device more and the event's second, logs exactly that event, and answers the row with its log |
| LsdEffects.RegisteringAgainKeeps | lsdserver/api/license_status.go:183-191 | a known device changes nothing and is answered |
| LsdEffects.RegistrationFaultsAreTold | lsdserver/api/license_status.go:193-233 | a registration writes its row only behind its event and tells of every fault |
| LsdEffects.RegisteringIsRefused | lsdserver/api/license_status.go:149-187 | the codes of bad parameters, goofy mode, a status that does not allow it and a failing query, in this order |
| LsdEffects.ReturningEnds | lsdserver/api/license_status.go:275-340 | a return cancels a ready license and returns an active or expired one, both ends at the event's second |
| LsdEffects.ReturningIsRefused | lsdserver/api/license_status.go:263-290 | the codes of a refused return |
| LsdEffects.ReturnFaultsAreTold | lsdserver/api/license_status.go:293-340 | the code of every fault of a return, that of the PATCH passed on |
| LsdEffects.RenewingMovesTheEnds | lsdserver/api/license_status.go:418-498 | a renewal puts both ends at the end asked for, by default the current end or the present plus the renewal days in 64-bit nanoseconds, and makes the row active |
| LsdEffects.RenewingOutOfBoundsKeeps | lsdserver/api/license_status.go:452-463 | an end before the current one or after the maximum is no error and changes nothing |
| LsdEffects.RenewingIsRefused | lsdserver/api/license_status.go:373-450 | the codes of a refused renewal |
| LsdEffects.RenewalFaultsAreTold | lsdserver/api/license_status.go:466-510 | the code of every fault of a renewal |
| LsdEffects.ExtendingMovesTheEnds | lsdserver/api/license_status.go:580-656 | an extension puts both ends at the end asked for, by default the current end plus the renewal days |
| LsdEffects.ExtendingIsRefused | lsdserver/api/license_status.go:554-624 | the codes of a refused extension, out of bounds included |
| LsdEffects.CancellingEnds | lsdserver/api/license_status.go:839-893 | a cancellation or revocation cancels a ready license and revokes an active one, both ends at the second of the call |
| LsdEffects.CancellingIsRefused | lsdserver/api/license_status.go:814-837 | the codes of a refused cancellation |
| LsdEffects.CancelFaultsAreTold | lsdserver/api/license_status.go:847-897 | the code of every fault of a cancellation |
| LsdEffects.GettingExpires | lsdserver/api/license_status.go:85-124 | a GET expires a ready or active license exactly when its end is past, and changes nothing else |
| LsdEffects.NoRowIsRefused | lsdserver/api/license_status.go:74-83 | 500 for a row that cannot be read, 404 for one that is missing, without effect |
| LsdEffects.LoggedThenPatchedThenWritten | lsdserver/api/license_status.go:291-330 | return, renewal and extension patch only behind their event and write only behind their PATCH |
| LsdEffects.PatchedThenLoggedThenWritten | lsdserver/api/license_status.go:845-893 | cancelling logs only behind its PATCH and writes only behind its event |
| LsdEffects.NewbornRow | lsdserver/api/license_status.go:1002-1043 | the row of a new license, whose maximum end is the later of its end and its issue plus the renting days |
| LsdEffects.DaysAreWrapped | lsdserver/api/license_status.go:430-437 | a product of days is the int64 congruent to its nanoseconds, equal to them while they fit |
| LsdEffects.TruncatedToSeconds | lsdserver/api/license_status.go:1157-1157 | truncation gives the last whole second |
| LsdEffects.RowIsRead | license_statuses/license_statuses.go:146-172 | an unset maximum is none and the license date is at least that of the certificate |
| LsdEffects.RowIsWritten | license_statuses/license_statuses.go:190-200 | only an unset maximum is changed when a row is written |
| LsdEffects.LicenseIsServed | lcpserver/api/license.go:154-162 | the served update date becomes the certificate date exactly when issue and update lie before it |
| LsdEffects.LicenseIsPatched | lcpserver/api/license.go:658-710 | a PATCH field by field: what is not asked for stays, a count or time becomes the value of the same field or goes, the issue stays, the update is stamped |
| LsdEffects.PatchIsMerged | lcpserver/api/license.go:658-710 | the same for what the license server makes of any body |
| LsdEffects.ContentIsTouched | license/store.go:166-174 | an update of the content stamps the license and changes nothing else |
| LsdEffects.EventsAreListed | lsdserver/api/license_status.go:1046-1062 | a document has all the events, the first ones, or is an error |
| LsdEffects.LinksAreOffered | lsdserver/api/license_status.go:1065-1137 | each link is offered exactly under its conditions |
| LsdInvariants.RowFollowsLog | lsdserver/api/license_status.go:293-340 | whatever fails, a row is never written before the event that explains it is in the log |
| LsdInvariants.StatusMoves | lsdserver/api/license_status.go:176-216 | any call with any faults makes at most one move of the status diagram, and leaves a terminal row as it was |
| LsdInvariants.LogGrows | lsdserver/api/license_status.go:1153-1162 | any call with any faults appends at most one event of this row to the log |
| LsdInvariants.TerminalIsJustified | lsdserver/api/license_status.go:834-893 | any call keeps: a returned, revoked or cancelled row has a matching event in the log |
| LsdInvariants.StaysFresh | lsdserver/api/license_status.go:470-498 | any call on either server keeps: the row's license date never exceeds issue, update and certificate date of the license |
| LsdInvariants.ClientNeverBehind | lcpserver/api/license.go:154-162 | the license served is at least as recent as the date its status row announces |
| LsdInvariants.FreshestGrows | license/store.go:128-140 | no call on either server makes the license any older |
| LsdInvariants.DocumentsAreFresh | lsdserver/api/license_status.go:470-498 | whatever handler answers a document, the license is by then as recent as it announces |
| LsdInvariants.EndsStayInRange | lsdserver/api/license_status.go:412-463 | any call keeps: until terminal, original end <= end <= maximum end, the maximum is as at creation, and without one the end is constant |
| LsdInvariants.DevicesStayCounted | lsdserver/api/license_status.go:183-216 | any call keeps: no device registered twice, count between zero and the register events, and the nil count is never dereferenced |
| LsdInvariants.LcpStaysBounded | lsdserver/api/license_status.go:303-314 | any call that is not a direct patch keeps the license server's end below the maximum or the clock |
| LsdInvariants.OnlyTheEndIsPatched | lsdserver/api/license_status.go:1182-1192 | the status server changes the end and the update date of a license and no other right |
| LsdInvariants.CountStaysExact | lsdserver/api/license_status.go:183-216 | any faultless call on either server keeps the device count equal to the registered devices |
| LsdInvariants.ReadyStaysUnused | lsdserver/api/license_status.go:275-296 | any faultless call on connected servers keeps the log of a ready row empty |
| LsdInvariants.EndsStayAgreed | lsdserver/api/license_status.go:855-887 | a faultless call that is not a direct patch keeps both ends equal |
| LsdRuns.HistoryIsAPath | lsdserver/api/license_status.go:88-103 | over any run with any faults, consecutive stored statuses are a move of the diagram |
| LsdRuns.TerminalRowsNeverChange | lsdserver/api/license_status.go:275-296 | over any run, once returned, revoked or cancelled the row never changes again |
| LsdRuns.ReachableIsSound | lsdserver/api/license_status.go:1009-1026 | in every state reachable from creation all of the above hold, day products wrapping at 64 bits included |
| LsdRuns.ReachableIsFresh | license_statuses/license_statuses.go:160-172 | after any run, whichever handler answers a document and whatever is called before the client fetches the license, the license is no older than the document announced |
| LsdRuns.ReachableIsServed | lsdserver/api/license_status.go:66-124 | in every reachable state a faultless GET answers a document |
| LsdRuns.CountIsNeverNil | lsdserver/api/license_status.go:205-216 | in no reachable state does a handler increment a nil device count |
| LsdRuns.LcpEndIsBounded | lsdserver/api/license_status.go:479-492 | the license server's end stays below the maximum or the clock in every reachable state exactly when no end before year 1 can be extended to the zero time |
| LsdRuns.FaultlessRunsCountDevices | lsdserver/api/license_status.go:183-216 | over every faultless run, direct patches included, the device count is the number of register events and of registered devices, none twice |
| LsdRuns.FaultlessReadyIsUnused | lsdserver/api/license_status.go:293-323 | over faultless runs a ready license has an empty log exactly when the servers are connected or no license is ever ready |
| LsdRuns.FaultlessEndsAgree | lcpserver/api/license.go:658-710 | faultless runs without direct patches keep both ends equal exactly when no end before year 1 can be extended to the zero time |
| LsdRuns.BoundLost | lcpserver/api/license.go:690-710 | the run that loses the end: an extension to the zero time |
| LsdDocuments.ServedIsCurrent | lsdserver/api/license_status.go:85-107 | a license served as ready or active is not past its end at the clock of the request |
| LsdDocuments.GetIsIdempotent | lsdserver/api/license_status.go:66-124 | at a fixed clock a second GET changes nothing and answers the same |
| LsdDocuments.RegisterAndReturnLinksAreHonoured | lsdserver/api/license_status.go:1065-1137 | a register or return link is offered only where the next well-formed request is accepted |
| LsdDocuments.RenewLinkIsHonoured | lsdserver/api/license_status.go:397-416 | a default renew link is honoured exactly when the license is not ready and has a maximum end |
| LsdDocuments.NewbornRenewIsRefused | lsdserver/api/license_status.go:391-400 | a license born ready offers the renew link and refuses it |
| LsdDocuments.RenewWithoutMaximumIsRefused | lsdserver/api/license_status.go:411-416 | so does an active one without a maximum end |
| Bytes.XorUndoes | crypto/encrypt.go:94-96 | exclusive or with the same number twice changes nothing |
| Streams.Source.Read | crypto/pad.go:50-57 | a reader hands out a prefix of what is left, in chunks of any size, and an error only at the end |
| Padding.PaddedReader.Read | crypto/pad.go:43-75 | the bytes read so far, by any sequence of buffers, are a prefix of the data and a valid padding; EOF exactly when nothing is left, nothing after it |
| Padding.PaddedReader.Pad | crypto/pad.go:77-103 | pad bytes up to the buffer's end: the last one is the length, the others are the length or between 1 and 254 |
| Padding.PaddedReader.constructor | crypto/pad.go:108-110 | a new reader has delivered nothing and will deliver all its source holds |
| Padding.ReadFull | crypto/aes_cbc.go:73-85 | fills the buffer or says why not; a source that ends with EOF is cut exactly at the end of the padding |
| Padding.PaddingMeans | crypto/pad.go:84-93 | what the two paddings are, byte by byte |
| Padding.PaddingFills | crypto/pad.go:66-68 | the pad length is the only one between 1 and the size that fills the last block |
| Cbc.NextBlock | crypto/aes_cbc.go:73-85 | on a source that ends with EOF the loop sees whole blocks, then EOF, never a partial block |
| Cbc.ReadToTheEnd | crypto/pad.go:43-103 | a padded stream read to its end is the data and a padding of 1 to size bytes |
| Cbc.CbcEquations | crypto/aes_cbc.go:68-85 | every ciphertext block is the encryption of its plaintext block xored with the block before it |
| Cbc.CbcAppend | crypto/aes_cbc.go:68-85 | encrypting one block more, with the chaining state kept, is encrypting the longer message |
| Cbc.CbcRoundTrip | crypto/aes_cbc.go:101-104 | CBC decryption undoes CBC encryption for all blocks, keys and initial vectors |
| Cbc.Encrypt | crypto/aes_cbc.go:52-87 | succeeds exactly with a key, random bytes, a source that ends with EOF and room in the writer; what it wrote is an initial vector and the encryption of the padded data, whatever the chunks |
| Cbc.EncryptBlocks | crypto/aes_cbc.go:73-87 | the loop over blocks writes the whole-message encryption of everything read |
| Cbc.CryptBlocks | crypto/aes_cbc.go:103-103 | in-place decryption from the last block to the first equals whole-message decryption |
| Cbc.Decrypt | crypto/aes_cbc.go:89-108 | writes the unpadded plaintext, and panics exactly on less than a block, a partial block or a pad length into the initial vector |
| Cbc.DecryptUndoesEncrypt | crypto/aes_cbc.go:52-108 | decryption gives back the plaintext for every initial vector and every choice of pad bytes |
| Cbc.EncryptedSize | crypto/pad.go:53-62 | the ciphertext has the length of the data, its padding and one block |
| Cbc.EncryptedLengthIs | crypto/aes_cbc.go:63-85 | what is written for n bytes |
| Cbc.DecryptedIsShorter | crypto/aes_cbc.go:101-106 | what decryption writes is shorter than what it read |
| Cbc.RoundTrip | crypto/aes_cbc.go:52-108 | both methods one after the other give back the source's bytes, however it chunked them |
| KeyWrap.KeyWrap | crypto/encrypt.go:77-102 | the two arrays end as `Wrap` with the one-byte counter says; a bad key encryption key panics as soon as there is a register |
| KeyWrap.RoundInPlace | crypto/encrypt.go:88-98 | the inner loop over the arrays is one round on values |
| KeyWrap.WrapMeetsItsEquations | crypto/encrypt.go:84-100 | the wrap is a run of 6n steps from the standard's initial value and the key, each as section 2.2.1 of RFC 3394 says but for the counter, and its result is A and the registers |
| KeyWrap.MaskSpellsTheCounter | crypto/encrypt.go:94-96 | the standard's counter is xored in as eight bytes, the code's as its lowest byte |
| KeyWrap.UnwrapUndoesWrap | crypto/encrypt.go:77-102 | unwrapping recovers key and initial value for keys of any length, whatever is xored in at each step |
| KeyWrap.WrapIsStandardExactly | crypto/encrypt.go:88-98 | for keys of n words the wrap is that of RFC 3394 under every cipher exactly when 6n <= 255 |
| KeyWrap.WrapDiffers | crypto/encrypt.go:94-96 | beyond 255 steps the identity permutation tells the two apart on every key |
| Urls.ResourcePathEscape | xmlenc/encryption.go:23-33 | escaping segment by segment is escaping byte by byte with slashes kept |
| Urls.EscapeIsInjective | xmlenc/encryption.go:23-33 | different paths have different escaped paths |
| Urls.QueryUnescapeKeeps | pack/rwppackage.go:157-162 | unescaping leaves exactly the hrefs without percent and plus signs alone |
| Urls.ByteIsEscaped | xmlenc/encryption.go:23-33 | which bytes stay, and that all others become % and two upper-case digits |
| Urls.PathIsEscaped | xmlenc/encryption.go:23-33 | slashes stay, every other byte is escaped by itself |
| Urls.HrefIsUnescaped | pack/rwppackage.go:159-162 | unescaping byte by byte, failing on % without two digits |
| Urls.QueryUnescapeUndoes | pack/rwppackage.go:159-162 | unescaping undoes escaping for paths without a plus sign |
| Epubs.Read | epub/reader.go:67-195 | succeeds exactly when all that is looked for is there and all that is opened opens; the clear-text list is sorted and holds exactly the paths that must stay clear; the resources are the files but mimetype and encryption.xml |
| Epubs.AddCleartextResources | epub/reader.go:199-219 | adds exactly cover, navigation, NCX and page-map items |
| Epubs.ItemsThatStayClear | epub/reader.go:199-219 | which items stay in clear, and that no others do |
| Epubs.PathsThatStayClear | epub/reader.go:83-192 | which paths stay in clear, and that no others do |
| Epubs.ResourcesAreFiles | epub/reader.go:150-186 | the resources are the files that are no directories, mimetype and encryption.xml left out |
| Epubs.FirstFileIsFound | epub/reader.go:68-90 | of several files of one path the first is found |
| Epubs.CanEncrypt | epub/epub.go:90-94 | true exactly for paths outside the clear-text list |
| Epubs.SearchStrings | epub/epub.go:90-94 | the first index whose string is not before the one searched |
| Epubs.SortStrings | epub/reader.go:192-192 | an ordered permutation |
| EpubPackaging.Manifest.DataForFile | xmlenc/encryption.go:36-46 | the first entry whose URI is the escaped path |
| EpubPackaging.MustCompressBeforeEncryption | pack/pack.go:164-173 | everything is compressed but images, videos, audio and PDF |
| EpubPackaging.EncryptEpubResource | pack/pack.go:226-278 | appends the entry with algorithm, escaped path, compression method and size, and writes an encryption of the content, deflated if asked to; exact success |
| EpubPackaging.Do | pack/pack.go:110-159 | exact success, faults of the archive writer included; the manifest keeps what it had as a prefix and gains one entry per selected path in resource order, up to a failure; every resource is in the output in order, encrypted exactly if selected |
| EpubPackaging.SelectedIsEncrypted | pack/pack.go:238-278 | an encryptable, unlisted, first resource has exactly one entry, with compression 8 for texts and 0 for images, videos, audio and PDF and the original size, and its file decrypts to the content, deflated accordingly |
| EpubPackaging.OthersAreCopied | pack/pack.go:140-146 | any other resource is copied as it is and gets no entry |
| EpubPackaging.SuccessTakes | pack/pack.go:131-148 | what success of one resource takes, spelled out |
| EpubPackaging.FirstEntryIsFound | xmlenc/encryption.go:36-46 | of several entries of one path the first is found |
| EpubPackaging.GrownManifest | pack/pack.go:131-148 | what a lookup finds in the growing manifest: the old entry, or that of the first resource of the path |
| EpubPackaging.LookupDecides | pack/pack.go:132-137 | the lookup on the growing manifest selects the encryptable paths absent from the input manifest and not seen before |
| EpubPackaging.OutputReadsBack | pack/pack.go:226-278 | reading the output with its manifest and key gives back, byte for byte and in order, every resource that stays in clear or is the first of its path |
| EpubPackaging.OutputReadsBackExactly | pack/pack.go:131-148 | and no other resource, unless its content is in whole blocks and stands behind a deflated one |
| EpubPackaging.EveryContentReadsBackExactly | pack/pack.go:131-148 | a resource reads back whatever its content exactly when it stays in clear or is the first of its path |
| EpubPackaging.ListedIsKept | pack/pack.go:132-146 | what the input manifest lists is carried over with its entry |
| EpubPackaging.SecondCopyIsLost | pack/pack.go:131-148 | the second copy of an encrypted path cannot be read at all when it is not in whole blocks |
| EpubPackaging.SecondPassAddsNothing | pack/pack.go:131-148 | opened again with its manifest, what was written for a publication that was read gets nothing more encrypted |
| RpfPackaging.Resources | pack/rwppackage.go:150-173 | the links with a file, in order, marked or not |
| RpfPackaging.RpfWriter.NewFile | pack/rwppackage.go:296-316 | a link is added exactly when its href is missing, even when the archive refuses the file |
| RpfPackaging.RpfWriter.MarkAsEncrypted | pack/rwppackage.go:321-339 | the first link of the path, and no other, gets algorithm and original length and keeps its href, type and layout |
| RpfPackaging.EncryptRpfResource | pack/pack.go:187-223 | exact success; writes an encryption of the file under its name and marks the link, even when encrypting fails, but not when the file cannot be created or opened |
| RpfPackaging.CopyTo | pack/rwppackage.go:257-284 | exact success, closing included; writes the file as it is and marks nothing |
| RpfPackaging.Process | pack/pack.go:63-105 | exact success, faults of the archive writer included; every listed resource is in the output in order, and the reading order is as `After` says |
| RpfPackaging.SuccessTakes | pack/pack.go:187-223 | what success of one resource takes, spelled out |
| RpfPackaging.MarkedEntryIsCopied | pack/rwppackage.go:257-284 | a resource that was marked is in the output byte for byte, with its name and storage method |
| RpfPackaging.FileNamedIsLast | pack/rwppackage.go:151-155 | of several files of one name the last is taken |
| RpfPackaging.NameIsUnescaped | pack/rwppackage.go:159-162 | a malformed href stands for the empty name |
| RpfPackaging.LinksAfter | pack/pack.go:79-97 | for any reading order: links keep their place, and a link is marked anew exactly when it is the first of its href and an unmarked resource has that name |
| RpfPackaging.EncryptsByLinks | pack/rwppackage.go:157-170 | a file is encrypted exactly when some unmarked link stands for it |
| RpfPackaging.NothingAddedExactly | pack/rwppackage.go:305-314 | the reading order grows by nothing exactly when every file it leads to is an href of it |
| RpfPackaging.MarkedAsIntendedExactly | pack/pack.go:79-97 | for any reading order and archive: exactly the unmarked links whose file exists are marked, with its length, and nothing is added, exactly when marked links find their file listed and unmarked ones with a file are the first of an href that unescaping leaves alone |
| RpfPackaging.PlainOrdersAreMarkedAsIntended | pack/pack.go:79-97 | so it is with distinct hrefs that unescaping leaves alone |
| RpfPackaging.LinkLeadsBackExactly | pack/pack.go:79-97 | for any reading order and archive: following an output link, decrypting what is marked, gives what the same input link gave, exactly when the link is newly marked if and only if the last link to its file was unmarked |
| RpfPackaging.NewlyMarkedExactly | pack/rwppackage.go:321-339 | a link comes out marked exactly when it was, or is the first of its href and some unmarked link stands for a file of this name |
| RpfPackaging.UnmarkedLinkIsLost | pack/pack.go:79-97 | an unmarked link that is not newly marked leads to a ciphertext when its file is encrypted |
| RpfPackaging.EscapedHrefIsLost | pack/rwppackage.go:159-166 | whoever follows a single escaped href gets a ciphertext |
| RpfPackaging.RepeatedHrefIsLost | pack/rwppackage.go:323-337 | whoever follows the second of two equal hrefs gets a ciphertext |
| RpfPackaging.LinksLeadBackExactly | pack/pack.go:79-97 | when Process marks what it is for, all links lead back exactly when no marked and unmarked link lead to one file |
| RpfPackaging.EscapedHrefIsNotMarked | pack/rwppackage.go:159-166 | a single escaped href stays unmarked while its file is encrypted under a new link |
| RpfPackaging.EscapedHrefTakesAnotherLength | pack/rwppackage.go:321-339 | of two escaped hrefs, the one that spells the name of the other's file is marked with the size of that file |
| RpfPackaging.EncryptedEntryReadsBack | pack/pack.go:213-222 | an encrypted entry is stored under its name without compression and decrypts to the file, whatever the random bytes |
| Pipeline.Packager.WorkOn | pack/pipeline.go:90-104 | the stages on the mutable result, store and index, in turn, are `Alone` |
| Pipeline.Packager.Encrypt | pack/pipeline.go:139-173 | hands on file, length, digest and key, or the error of the temporary file, the packaging or the hash, the last one winning |
| Pipeline.Packager.AddToStore | pack/pipeline.go:175-184 | nothing after an error; otherwise the object is kept under the task's id, or dropped without an error, or refused with an error that may leave anything behind |
| Pipeline.Packager.AddToIndex | pack/pipeline.go:186-191 | nothing after an error; an entry under the task's id unless there is one |
| Pipeline.EveryStepCounts | pack/pipeline.go:90-104 | every step of any interleaving lowers the work left by one, and every task is in one place |
| Pipeline.NoDeadlock | pack/pipeline.go:57-81 | with a worker, some step is possible until every Post has returned |
| Pipeline.EveryPostReturnsOnce | pack/pipeline.go:78-81 | a run cannot go on exactly after nine steps per task, exactly when every Post has returned exactly one result |
| Pipeline.NothingAfterAnError | pack/pipeline.go:175-191 | once the work on a task has failed in any run, no later stage of it changes store or index, and its Post never returns anything but that failure |
| Pipeline.EveryScheduleIsAlone | pack/pipeline.go:90-104 | with fresh ids, at every moment of every interleaving each task stands as it would in a world of its own, and all other ids are untouched |
| Pipeline.AtTheEnd | pack/pipeline.go:90-104 | with fresh ids each Post returns its own result, the first fault of its task, and store and index hold exactly what each task left, dropped objects not being there |
| Pipeline.WhatPostReturns | pack/pipeline.go:90-191 | the same spelled out for one Post: the first fault in order, or no error and an entry with key, name, length and digest |
| Pipeline.SchedulesAgree | pack/pipeline.go:194-201 | any two complete runs, of however many workers, end with the same store, index and results |
| Pipeline.WorkersActLikeOne | pack/pipeline.go:90-104 | a complete run does what one worker does that takes the tasks in turn |
| Pipeline.IndexIsHonestExactly | pack/pipeline.go:175-191 | with ids of any kind, any store and any number of workers: every index entry names, at every moment of every run, a stored object of the same id, length and digest, exactly when no task writes other bytes under an id that is indexed or that a task without an error may index, and no such task has its object dropped |
| Pipeline.FreshIndexIsHonestExactly | storage/nostore.go:36-38 | with fresh ids exactly when the store keeps the object of every task that reports no error |
| Pipeline.TruthIsLostExactly | pack/pipeline.go:175-191 | a step makes the index lie, now or later, exactly when it writes other bytes under an id that is indexed or about to be, or has an object dropped that is not there anyway |
| Pipeline.InTurnIsARun | pack/pipeline.go:90-104 | the tasks taken in turn by the first of any number of workers are a complete run, fresh ids or not |
| Pipeline.SameIdsCollide | pack/pipeline.go:106-116 | the run of two tasks of one id over a store that keeps both: the entry of the first names the object of the second, and only the second Post tells of an error |
| Pipeline.EmptyIdIsRefused | storage/fs.go:58-62 | without a random id, and with a store that refuses the empty one, a task tells of an error and leaves no trace |
| Pipeline.Packager.Work | pack/pipeline.go:90-104 | the loop of a worker over the tasks it receives is `InTurn` |
| Json.StringsRoundTrip | rwpm/metadata.go:447-480 | parsing a MultiString undoes printing exactly for non-empty lists |
| Json.FormsOfStrings | rwpm/metadata.go:468-480 | one string as itself, none as null, several as an array |
| Json.StringsVariable.MarshalJSON | rwpm/metadata.go:468-480 | a literal for one string, null for none, else an array |
| W3cCodec.TextsRoundTrip | rwpm/w3cpublication.go:161-206 | parsing a W3CMultiLanguage undoes printing exactly when it is not nil |
| W3cCodec.LocalizedRoundTrip | rwpm/w3cpublication.go:220-253 | parsing a W3CLocalized undoes printing |
| W3cCodec.LinkRoundTrip | rwpm/w3cpublication.go:306-339 | parsing a link undoes printing, empty lists becoming nil at any depth |
| W3cCodec.LinksRoundTrip | rwpm/w3cpublication.go:259-303 | the same for lists of links of any length and trees of any depth |
| W3cCodec.LinksRoundTripExactly | rwpm/w3cpublication.go:259-339 | the very same tree comes back exactly when it has no empty list that is not nil |
| W3cCodec.FormsOfLinks | rwpm/w3cpublication.go:289-309 | one bare link as its URL, any other as an object, several as an array |
| W3cCodec.FieldsByKey | rwpm/w3cpublication.go:46-55 | the fields of a printed link by key, empty ones left out |
| W3cCodec.FormsOfTexts | rwpm/w3cpublication.go:189-206 | one undetermined text as itself, any other as an object, several as an array |
| W3cCodec.ElementsPrintAlone | rwpm/w3cpublication.go:326-339 | an element of an array is printed as a list of its own would be |
| W3cCodec.FormsThatAreRead | rwpm/w3cpublication.go:259-286 | a text, null, an object or an array is read, anything else is an error |
| W3cCodec.ObjectsThatAreRead | rwpm/w3cpublication.go:306-324 | an object is read exactly when all its fields can be |
| W3cCodec.LinksAreReadOneByOne | rwpm/w3cpublication.go:275-281 | an array is read exactly when all its elements can be, one after the other |
| W3cCodec.LinksVariable.UnmarshalJSON | rwpm/w3cpublication.go:259-286 | the receiver takes the first of the three forms that can be read, and stays as it was when none can |
| MetadataCodec.SubjectsRoundTrip | rwpm/metadata.go:158-242 | parsing Subjects undoes printing exactly when they are not nil |
| MetadataCodec.FormsOfSubjects | rwpm/metadata.go:188-206 | one bare subject as its name, any other as an object, several as an array |
| MetadataCodec.NameRoundTrip | rwpm/metadata.go:379-415 | parsing a MultiLanguage undoes printing for every map, nil becoming empty |
| MetadataCodec.ContributorsComeBack | rwpm/metadata.go:262-307 | what comes back of any list of contributors |
| MetadataCodec.ContributorsRoundTripExactly | rwpm/metadata.go:262-371 | nothing is lost exactly when each short name is the contributor's only name, under "und" |
| MetadataCodec.TextSurvives | rwpm/metadata.go:289-307 | for any list every contributor keeps its text and other fields, and printing again gives the same JSON |
| MetadataCodec.FormsOfContributors | rwpm/metadata.go:289-307 | one contributor with nothing but a text as that text, any other as an object, several as an array |
| MetadataCodec.ElementsOfArrays | rwpm/metadata.go:361-371 | in an array only an undetermined name stands for a contributor |
| MetadataCodec.FormsOfNames | rwpm/metadata.go:402-415 | one undetermined text as itself, anything else by language |
| MetadataCodec.TextIs | rwpm/metadata.go:417-430 | the undetermined text, else the only one, else none |
| MetadataCodec.ObjectsThatAreRead | rwpm/metadata.go:340-358 | an object is read exactly when all its fields can be |
| MetadataCodec.ContributorsVariable.UnmarshalJSON | rwpm/metadata.go:262-287 | the receiver takes the first of the three forms that can be read, and stays as it was when none can |
| StatusCodec.DecodesExactly | status/status.go:57-68 | a number decodes exactly when its absolute value is a power of two below 2^6, to the exponent |
| StatusCodec.SetUndoesGet | status/status.go:57-85 | setting what was got gives the number back |
| StatusCodec.GetUndoesSet | status/status.go:57-85 | getting what was set gives the status back |
| StatusCodec.NumbersOfStatuses | status/status.go:36-43 | the numbers of the six statuses |
| StatusCodec.ReversedTwice | status/status.go:87-93 | reversing twice changes nothing |
| StatusCodec.Reverse | status/status.go:87-93 | the in-place swaps reverse the string |
| StatusCodec.GetStatus | status/status.go:57-68 | writes through the pointer exactly when the number decodes |
| StatusCodec.SetStatus | status/status.go:71-85 | the number does not depend on the order in which the map is walked |

## Left out

- Routing, authentication, problem documents, SQL, HTTP and the text of JSON: handlers become calls with a reply, tables become sequences and maps, JSON a datatype. Object keys are unique and matched exactly; Go also takes them in any letter case.
- Handlers that run at the same time on one license: nothing in the code prevents them, and the row invariants do not hold of them.
- The texts and URLs of the links of a document, its message, and an error while the reply is being written.
- LsdInvariants.LcpStaysBounded: does not model direct PATCHes of the end, which may set any end; they are steps of the freshness and the device properties.
- LsdInvariants.EndsStayAgreed: does not model direct PATCHes of the end either, for the same reason.
- A license that is patched between its issue and its announcement to the status server, which then starts from other rights.
- The certificate date is the same on both servers and does not change during a run.
- The event type "expire" and event paging: no handler writes the one, the other is SQL.
- Padding.PaddedReader.Read: does not model slices whose capacity exceeds their length, where the code indexes up to the capacity and panics; all its callers pass slices of full length.
- The size of memory: buffers and temporary files are unbounded, except for writers that refuse to take more.
- EpubPackaging.Do: does not model what is left in the archive after a failure, nor that it changes the storage method of the caller's resource.
- Epubs.Read: does not model XML parsing and path joining, nor a manifest that does not parse, which the code takes as far as it got.
- RpfPackaging.Process: does not model what is left in the archive after a failure, the ancillary files that are copied before, nor that the writer starts from the reader's manifest, whose links it then marks; the list of resources is made before.
- Pipeline.EveryPostReturnsOnce: does not model a task posted twice, nor a Post before the source is connected, which waits for ever.
- Pipeline.AtTheEnd: does not model elapsed times, the content type and the temporary file that stays behind after a failure; what the packager, the readers and the store answer is fixed for each task beforehand.
- W3CContributors, which is printed like W3CLinks, and its Name that may be empty, where the code panics.
- Strings that are not valid Unicode, which Go's JSON printer replaces.
- AES itself, AES-GCM, signatures, SHA-256, deflate, zip and XML, covers and PDF files, configuration and the frontend.
