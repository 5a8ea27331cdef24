# All-Ears Mail: storage, accounts, protocols and codecs in Dafny

A Dafny model of the parts of All-Ears Mail where data must survive: the mailbox
store of AEM-Storage, the user table of AEM-Account, the encrypted request and
response between the processes, and the encodings that have to undo each other.
Code that updates state in place is modelled in place (classes, arrays, loops),
each method against a function or a plain abstract state; what that function or
state promises is then proved as lemmas. Beside the functions stand relations that
say from the inputs alone when an operation succeeds, what it answers and what it
leaves (`Mailbox.Answers`, `Accounts.Steps`, `IntCom.Returns`, `Post.Acceptable` and
others); functions and methods are proved against both.

- `Bytes`, `Crypto`: octets, little-endian integers, XOR; the cryptographic
  primitives as function values with only the laws used (lengths, commutative key
  agreement as in section 6.1 of RFC 7748, authenticated decryption undoing
  encryption).
- `Envelope`: message header, 222-bit signature, padding, 16-bit block count, the
  unused-ID search, in-place encryption, and the recipient's inverse.
- `Mailbox`, `Runs`, `Storage`: a user's flat file and two index columns stand for
  a list of envelopes. `Mailbox` has the list operations, `Storage` the class with
  counts, columns and files, `Runs` whole runs over all users. Every file call may
  fail. `Storage.Valid` (file and index agree) is shown to survive each operation
  exactly when the fault is not one of two: truncation done and the notice not
  written, or the tail moved and the old end not cut off. Saving the index may fail on
  opening (nothing happens) or on writing (the file is left empty); what a restart
  finds is decided exactly, after one call and after whole runs.
- `Browse`: paging, one page at a time and whole sessions in either direction.
  `Stindex`: the saved index. `Charset`: the secret character sets and what they name.
  `Accounts` and `AccountTable`: the account operations as functions on the table, and
  the class that updates the array. `Addresses`: which names cannot be addresses.
- `IntCom`, `IntComPeers`: an exchange as two step machines under every
  interleaving, and as the two sequential programs with the nonce in a buffer.
- `Post`, `SendMail`, `Respond`, `Deliver` (with the search in `Memmem`): the path of an
  email, and `Smtp`: what the whole path keeps.
- `Dns`, `Base64`, `Addr32`, `Trim`: the other text and wire codecs.

Where the code does not do what its comments or constants suggest, the model follows
the code and says exactly when it matters:

- Backward paging never weighs envelope 0. `Browse.OlderPage` and `Browse.NewestPage`
  say for which sizes the page still reaches the envelope asked about;
  `Browse.GatherOlderIff` and `Browse.GatherFromNewestIff` say for which sizes a client
  that keeps asking for older mail is shown all of it. `Browse.OlderPagesSkip` names the
  envelope that is left out when the two oldest do not fit one page.
- The save functions open with truncation and do not undo it: a write that fails leaves
  `Stindex.aem` or `Account.aem` empty. Storage then starts without anybody's mail, every
  file an orphan (`Storage.Storage.Restart`); Account does not start
  (`AccountTable.AccountTable.Restart`). `Storage.Storage.DoCallThenRestart`,
  `Storage.Storage.RunThenRestart`, `AccountTable.FileAfterStep` and
  `AccountTable.AccountTable.RunThenRestart` say exactly when a restart finds everything.
- An accepted account request that only reads is not saved, so a restart goes back to the
  timestamp before it (`AccountTable.FileAfterStep`).
- The 16-bit envelope count wraps at 65535: the file is then one the index no longer
  knows (`Storage.Storage.StorageWrite`).
- `Respond.ReceivedChunks`: the end-of-data marker is found exactly when the last chunk
  holds all five octets of it.
- `Dns.SelfPointerSucceeds`: the read a compression pointer leads to may fail
  unnoticed. `Dns.WholeIff` says when it does not.
- `Addresses.ForbiddenNames`: the check for names "ending with" administrator looks at the
  third to fifteenth of sixteen symbols; "system" is let through with a character after it
  that has no symbol, and a name of such characters only does not count as empty.
- `Addr32.StoredIsEncoded`: a name that ends in a character outside the alphabet
  leaves a mark among its symbols unless it has fifteen or more.
- `Trim.ThreeOctetTable`: where the comments name one space each, U+202F to U+203F, U+205F to
  U+207F and U+3000 to U+303F all become plain spaces; so does a word joiner, which is in
  two of the tables (`Trim.JoinerBecomesSpace`).
- `Trim.NewlineLost`: a newline after the first character is dropped, not only one
  that is the first character, which can merge two words; `Trim.CleanWords` says
  exactly when.

`dafny verify dfyconfig.toml` checks the project.

## Model

| member | source | states |
|---|---|---|
| Envelope.MsgInit | Common/Message.c:9-21 | The first 32 octets of the buffer become the header (signature bits zero, two type bits, 32-bit time since the epoch of the system, 1 if it does not fit); the rest stays. |
| Envelope.HeaderFields | Common/Message.c:9-21 | The header octet by octet: no signature, two type bits, and in 32 bits the seconds since the start of 2025, of the time given or else of the clock, 1 where they do not fit. |
| Envelope.SignMessage | Common/Signature.c:17-28 | In place: 27 octets and six bits of keyed hash, type bits, time and content untouched; nothing happens to a message of 32 octets or less. |
| Envelope.SignatureOctets | Common/Signature.c:17-35 | What the two keyed hashes cover, where their bits go, and what the server compares. |
| Envelope.SignedVerifies | Common/Signature.c:17-35 | For every message with zero signature bits, what a recipient extracts is accepted by the server check, and the covered octets are the original ones. |
| Envelope.SignedMessage | Common/Signature.c:17-35 | After init and sign, type, time and content read back and the signature verifies. |
| Envelope.EnvelopeIdPrefix | Common/Envelope.c:10-17 | The envelope ID depends on the first 32 octets only. |
| Envelope.EnvelopeIdBits | Common/Envelope.c:10-17 | Each bit of the ID is the parity of that bit over one half of the first 32 octets. |
| Envelope.Padding | Common/Envelope.c:26 | Less than a block, and fills the envelope up to a whole block. |
| Envelope.BlockCountExact | Common/Envelope.c:26-27 | For every message length accepted, the 16-bit block count loses nothing: (count + 3) * 32 is the exact length, and 65535 is reached exactly by the largest messages. |
| Envelope.UsedScan | Common/Envelope.c:40-46 | The inner loop finds an ID in the list if and only if it is there. |
| Envelope.DrawKey | Common/Envelope.c:35-55 | The key loop ends with the first drawn key whose envelope ID is unused (or zero, without a list). |
| Envelope.PickKeyIsFirst | Common/Envelope.c:35-55 | The first draw whose ID is not in the list (or is zero, without a list) is picked, and nothing exactly if there is none. |
| Envelope.EncryptInPlace | Common/Envelope.c:78-86 | Everything after the public key is XORed with the key stream, the key itself is left alone. |
| Envelope.SealInPlace | Common/Envelope.c:57-89 | Filling the buffer, deriving the key and encrypting in place computes the sealing function. |
| Envelope.Msg2Evp | Common/Envelope.c:23-90 | The whole function refines sealing on values, refusals included. |
| Envelope.SealShape | Common/Envelope.c:23-90 | Every envelope is whole blocks, exactly the length its count stands for, under an ID not in the list (zero when there is none). |
| Envelope.SealOutcome | Common/Envelope.c:23-90 | A message is sealed exactly when its length is in range, some draw has an ID that will do, and key agreement works with the first that does; still waiting exactly when none does. |
| Envelope.SealedOctets | Common/Envelope.c:57-89 | Every octet of an envelope: public key; then padding amount, message and padding, XORed with the ChaCha20 stream under nonce, counter and key hashed from shared secret, recipient key and block count. |
| Envelope.OpenInvertsSeal | Common/Envelope.c:23-90 | The recipient, from envelope and secret key alone, gets back exactly the sealed message. |
| Envelope.MessageRoundTrip | Common/Envelope.c:23-90 | Init, sign, seal, open for every content up to the limit: the signed message returns, type and content unchanged, signature accepted; sealing yields nothing exactly when no key was found or key agreement failed. |
| Mailbox.CutFlatten | storage/IO.c:197-264 | Cutting concatenated envelopes by their block counts gives the envelopes. |
| Mailbox.FlattenCut | storage/IO.c:378-461 | Concatenating the cut envelopes gives back the file. |
| Mailbox.CutRemove | storage/IO.c:395-451 | Dropping one envelope from the file and its count from the column is dropping it from the list. |
| Mailbox.StepKeepsSlotOk | storage/IO.c:197-555 | Every operation keeps a mailbox a nonempty list of at most 65535 distinctly named envelopes, or no mailbox. |
| Mailbox.SysSealShape | storage/IO.c:185-195 | A system message is whole blocks under ID 0, and its recipient finds an internal, dated, signed notice with the given text. |
| Mailbox.WriteSealShape | storage/IO.c:478-502 | An arriving message is sealed under an ID no stored envelope has, and its recipient finds that message, signed. |
| Mailbox.AppendUser | storage/IO.c:488-515 | Appending to the file and to both columns appends one envelope to the list. |
| Mailbox.RemoveUser | storage/IO.c:418-451 | Moving the tail of the file down and closing the gap in both columns removes one envelope from the list. |
| Mailbox.TruncatedDisagrees | storage/IO.c:535-546 | A truncated file never agrees with a nonempty index. |
| Mailbox.ShiftedDisagrees | storage/IO.c:431-445 | A file whose tail was moved but not cut off never agrees with the index. |
| Mailbox.DeleteSpec | storage/IO.c:378-461 | NotExist exactly when the file opens and no envelope has the ID; Ok exactly when one has, and the calls it needs work: truncation, and reading and writing unless it is the newest. On Ok exactly that envelope is gone; otherwise nothing changes. |
| Mailbox.WriteSpec | storage/IO.c:463-519 | Stored exactly when the user has mail, the length is in range, the keys came, a key is found and agrees, and the file takes it; then one envelope more is at the end, under a new ID, that opens to the message with a valid signature. Otherwise nothing changes. |
| Mailbox.CreateSpec | storage/IO.c:197-236 | A mailbox is made exactly when there is neither mail nor file and the welcome can be sealed and written; it then holds the welcome alone. What a failed write leaves, too. |
| Mailbox.EmptySpec | storage/IO.c:521-555 | Emptied exactly when the keys came and the notice can be sealed and written; then the notice is all there is. |
| Mailbox.StepAnswers | storage/IO.c:197-555 | Every operation answers and leaves what these say; account deletion leaves nothing exactly when the unlink works. |
| Mailbox.BreaksOnlyThen | storage/IO.c:418-546 | File and index part in two cases only, named by the calls that fail. |
| Runs.RunIsolatesUsers | storage/IO.c:197-555 | In every run, what a user's mailbox becomes depends only on that user's own calls. |
| Runs.ReceivingKeepsMail | storage/IO.c:463-519 | While a user only receives, every stored envelope keeps its octets and place. |
| Stindex.ImageRoundTrip | storage/IO.c:64-148 | Saving then loading is the identity on every index. |
| Stindex.ImageOctets | storage/IO.c:106-124 | The image octet by octet: counts in front, then per user block counts and IDs, two octets each. |
| Stindex.SaveImage | storage/IO.c:106-124 | The copying loop writes the counts and then each user's two columns. |
| Stindex.LoadImage | storage/IO.c:83-99 | The loading loop reads the columns the counts announce. |
| Stindex.CreatorImageIs | utils/Creator.c:76-80 | The octets Creator writes are the image of an index with one envelope, of user 0, ID 0. |
| Charset.FirstsShape | storage/IO.c:42-62 | First-occurrence order lists each symbol of the stream once, and only those. |
| Charset.CharsetPlace | storage/IO.c:42-62 | The charset character by character: a symbol stands at the place given by the number of different symbols before its first occurrence. |
| Charset.FindUnused | storage/IO.c:50-57 | The scan stops at the first symbol not yet used. |
| Charset.RescanningCharset | storage/IO.c:42-62 | Scanning again from the start for each character gives the symbols in first-occurrence order, and question marks for what never occurs. |
| Charset.SinglePassCharset | api/MessageId.c:24-38 | One pass gives the same order when every symbol occurs. |
| Charset.CharsetPermutes | storage/IO.c:42-62 | When every symbol occurs, the charset is a permutation of the alphabet. |
| Charset.FirstCharAgrees | utils/Creator.c:22-27 | Creator, from one octet of the stream, and Storage, from all of it, agree on the first character. |
| Charset.PathInjective | storage/IO.c:38-39 | Distinct user numbers have distinct file names. |
| Charset.PathOf | storage/IO.c:38 | The two characters of a file name are those of the lower and the upper six bits of the user number. |
| Charset.MsgIdText | api/MessageId.c:69-74 | The nested loops spell 128 bits as 26 characters, five bits each. |
| Charset.IdSymbolBits | api/MessageId.c:69-74 | Which five bits of the 128 each of the 26 characters holds. |
| Charset.ReadInvertsMsgId | api/MessageId.c:69-74 | The 26 characters read back to the 128 bits. |
| Charset.MessageIdReveals | api/MessageId.c:24-75 | For every key stream in which all 32 symbols occur, the charset built from it serves: a Message-ID spelled in it gives back time, user number, four bits of the clock, and address. |
| Charset.MessageIdsDiffer | api/MessageId.c:24-75 | So two Message-IDs are the same only for the same second, user and address. |
| Storage.OnlyUserMatters | storage/IO.c:38-39 | A change to one user's columns and file leaves every other mailbox alone, and the whole storage agrees exactly when that user does. |
| Storage.FindEnvelope | storage/IO.c:395-402 | The scan finds the first entry with the ID, and adds up exactly the file position of its envelope. |
| Storage.CloseGap | storage/IO.c:449-451 | The two memmoves, with the moved file, make columns and file agree on the list without that envelope. |
| Storage.MovedOnly | storage/IO.c:431-445 | With the tail moved and the end not cut off, file and index disagree. |
| Storage.Storage.Start | storage/IO.c:150-154 | Start-up names files by the charset of the key stream, padded where a symbol is missing, and takes the index from its file, or none if that cannot be read. |
| Storage.Storage.Restart | storage/IO.c:64-154 | Starting again gives every user the same mailbox if and only if the index file holds the index in memory; from a truncated one every mailbox is a file nobody knows. |
| Storage.SameStart | storage/IO.c:64-154 | The mailboxes a start finds are the old ones exactly when it loads the old index. |
| Storage.ForgottenStart | storage/IO.c:64-154 | From an empty index, index and files agree, and every mailbox is an orphaned file. |
| Storage.Storage.StartFromCreator | utils/Creator.c:59-89 | From Creator's disk, Storage starts in agreement, with the master administrator's sealed welcome and no other mailbox; there is no such disk exactly when the welcome cannot be sealed. |
| Storage.Storage.SaveStindex | storage/IO.c:106-148 | The index file as it was if it cannot be opened, empty if it was opened and not written, else one that loads back to the index in memory. |
| Storage.RecordedCurrent | storage/IO.c:106-148 | If the index file was up to date, it is so after an operation exactly when nothing had to be saved, or it was written, or it was truncated while nobody has mail, or it could not be opened and the operation left the index as it was. |
| Storage.LiveDescribes | storage/IO.c:106-124 | What is saved is the index of the mailboxes: block counts and IDs of their envelopes. |
| Mailbox.SameIndexOnlyWhenEmptied | storage/IO.c:197-555 | Of the operations that save, exactly emptying a mailbox of one envelope under ID 0 and of the notice's size leaves the index as it was. |
| Storage.Storage.SysMsg | storage/IO.c:185-195 | Builds, signs and seals the system message. |
| Storage.Storage.AccStorageCreate | storage/IO.c:197-236 | Refines creating a mailbox on lists, under every file fault, with the outcome that spells out; agreement survives and no other user changes. |
| Storage.Storage.AccStorageDelete | storage/IO.c:238-264 | Refines deleting a mailbox; a failed unlink leaves a file the index does not know. |
| Storage.Storage.StorageWrite | storage/IO.c:463-519 | Refines appending one envelope with a new ID, including the wrap of the 16-bit count at 65535; the envelope stored opens to the message that arrived, signed, and when it is stored is decided exactly. |
| Storage.Storage.StorageDelete | storage/IO.c:378-461 | Refines removing one envelope: gone and Ok exactly when it was there and the calls needed work; agreement is lost exactly when the tail was moved and the file not shortened. |
| Storage.Storage.ShiftFile | storage/IO.c:418-445 | Read back, overwrite and truncate take exactly the envelope's octets out of the file. |
| Storage.Storage.StorageEmpty | storage/IO.c:521-555 | Refines replacing the list by one notice; agreement is lost exactly when the file was truncated and the notice not written. |
| Storage.Storage.ApiMessageBrowse | storage/IO.c:283-376 | Answers what the paging function says of the mailbox, from index and file. |
| Storage.Storage.Apply | storage/IO.c:197-555 | One dispatched call refines one step on the list, and leaves the index file as its save did. |
| Storage.Storage.DoCall | storage/IO.c:197-555 | The same for all mailboxes together, with what the call answers and leaves said from its inputs alone, and what the index file announces afterwards. |
| Storage.Storage.DoCallThenRestart | storage/IO.c:106-154 | From an up-to-date index file, a restart after any call finds every mailbox as the call left it exactly when the call did not save, or its save worked, or it truncated the file while nobody had mail, or it could not open the file and left the index as it was. |
| Storage.Storage.Run | storage/IO.c:197-555 | Every run of calls keeps all files and index entries in agreement, with the replies and final mailboxes of the run on plain lists, and the index file that the run of saves leaves. |
| Storage.Storage.RunThenRestart | storage/IO.c:64-555 | A restart after any run finds every mailbox exactly when what the saves of the run, failed ones included, left in the index file describes the mailboxes there are. |
| Runs.WorkingSavesAnnounce | storage/IO.c:106-148 | While every save works, the index file describes the mailboxes after every run, whatever other file calls fail. |
| Browse.BackSpec | storage/IO.c:309-328 | What the backward scan finds, by weight alone: where it stops at the limit, the slice fits and one more envelope would not. |
| Browse.PageSpec | storage/IO.c:338-346 | A page in range holds at least one envelope, at most 2097216 octets, and ends only where the next would not fit. |
| Browse.OlderPage | storage/IO.c:302-316 | The page reaches the envelope just before the one asked about if and only if the older envelopes without the oldest weigh more than a page or all of them fit one; it starts at the oldest exactly when the others fit one page, else as early as the limit allows. |
| Browse.NewestPage | storage/IO.c:319-328 | The newest page reaches the newest envelope if and only if all envelopes but the oldest weigh more than a page or all of them fit one; otherwise as for older pages. |
| Browse.BackReaches | storage/IO.c:309-328 | The page the backward scan starts reaches the position it scanned back from if and only if everything before it but the oldest weighs more than a page, or all of it fits one. |
| Browse.GatherOlderIff | storage/IO.c:302-316 | A client that asks again and again for what came before the first envelope it was shown is shown every earlier envelope if and only if all those before the last point the greedy packing comes down to fit one page together. |
| Browse.GatherFromNewestIff | storage/IO.c:302-328 | The same from the newest page on: the whole mailbox is listed under exactly that condition. |
| Browse.ShownBackIff | storage/IO.c:309-316 | The same by positions. |
| Browse.OlderPagesSkip | storage/IO.c:309-316 | In every mailbox whose two oldest envelopes do not fit one page, the second is never listed, from wherever a client goes back. |
| Browse.SkippingBox | storage/IO.c:309-316 | There is such a mailbox: the smallest envelope under ID 0 and then one of the largest size. |
| Browse.GatherIsComplete | storage/IO.c:283-306 | Forward paging with the ID computed from the last envelope of each page ends, and yields every later envelope once and in order, no page empty. |
| Browse.ResponseReadsBack | storage/IO.c:338-375 | Cutting the sent octets by the sent block counts gives exactly the envelopes of the page; count and size of the mailbox, page length, block counts and envelopes stand at their positions. |
| Browse.BrowseSpec | storage/IO.c:283-376 | Which answer a request gets: no such ID exactly when it is absent, nothing more exactly at that end, a failure, or a page, from the oldest envelope on if older mail is asked for without an ID. |
| Browse.OlderReplyReadsBack | storage/IO.c:283-376 | What a working storage answers a request for older mail reads back as the page the client's gathering takes. |
| Browse.NewerReplyReadsBack | storage/IO.c:283-376 | What a working storage answers a request for newer mail reads back as the page that the client's gathering takes. |
| Browse.FindFromEnd | storage/IO.c:292-299 | The search from the newest entry finds the ID exactly when it is there. |
| Browse.BackScan | storage/IO.c:309-316 | The loop over block counts finds the start the list scan defines. |
| Browse.FillPage | storage/IO.c:338-346 | The loop counts the envelopes and octets of the page. |
| Browse.InfoBytes | storage/IO.c:273-281 | Number of envelopes, and blocks as a 32-bit sum. |
| Browse.SelectStart | storage/IO.c:283-328 | The first half of the request: where the page starts, or why there is none. |
| Browse.BuildResponse | storage/IO.c:330-375 | The second half: position, page and octets make up the response. |
| Accounts.LookupIsOwner | account/IO.c:187-200 | With addresses unique, the linear scan names a user exactly when that user owns the address, and nobody exactly when nobody does. |
| Accounts.Want | account/IO.c:296-328 | Refused as over the limit exactly when the user has as many addresses of that kind as the level allows; a normal address has the requested nonzero hash, is not the system's, and is forbidden to all but administrators if it is one of theirs; a Shield address is drawn, marked and hashed. |
| Accounts.AddressCreateSpec | account/IO.c:296-342 | Creation gives the address to this user alone, takes nothing from anyone, and happens exactly when there is room, the address is allowed and nobody owns it. |
| Accounts.AddressDeleteSpec | account/IO.c:344-365 | Deletion takes exactly one address from this user and touches nobody else; refused exactly when the user has none with that hash. |
| Accounts.AddressCreateExact | account/IO.c:296-342 | Every refusal of a new address under its exact condition, and otherwise the slot it gets, its settings and the answer. |
| Accounts.CountShieldIs | account/IO.c:232-241 | What is counted against the limit is the number of slots of that kind. |
| Accounts.AddressDeleteExact | account/IO.c:344-365 | The first slot with the hash goes, the later ones move up, and nothing else changes. |
| Accounts.AccountDeleteSpec | account/IO.c:268-281 | Who may delete whom: every refusal exactly under its condition; otherwise the account named is gone and no other is touched. |
| Accounts.AccountUpdateSpec | account/IO.c:283-294 | Who may change whose level, every refusal exactly under its condition; otherwise the level is the lower two bits asked for and nothing else changes. |
| Accounts.AccountCreateSpec | account/IO.c:441-459 | A new account, at the number its key gives: level 0, the two keys sent, no addresses, everything else zero; refused exactly on length or if the number is taken. |
| Accounts.PrivateUpdateSpec | account/IO.c:461-475 | The private field and nothing else changes, refused exactly on length or a zero key. |
| Accounts.ActSpec | account/IntCom_Action.c:14-89 | Which of these each command number of either kind of request stands for, and that every other one changes nothing. |
| Accounts.CommandReads | account/IO.c:560-569 | A client that XORs command and data with the key for its timestamp is understood. |
| Accounts.AuthSpec | account/IO.c:539-558 | Whom a request is accepted for: the first user for whose key its code is right, if it is newer than the last one accepted and within five seconds of the clock. |
| Accounts.StepSpec | account/IntCom_Action.c:14-89 | A request that is not accepted changes nothing; an accepted one records its timestamp and does what its command stands for. |
| Accounts.LowLevelSparesOthers | account/IntCom_Action.c:14-89 | A request accepted for anyone below the highest level leaves every other existing account exactly as it was. |
| Accounts.RunSparesOthers | account/IntCom_Action.c:14-89 | So does every run without a request accepted for that user or for an administrator. |
| Accounts.ReplaceKeepsOk | account/IO.c:268-365 | When replacing one entry of the table keeps every invariant, and what it changes of who owns what. |
| Accounts.StepKeepsOk | account/IntCom_Action.c:14-89 | Every request, accepted or not, keeps the table in order: bounds, addresses owned once, no zero hash, user 0 at the highest level. |
| Accounts.OnlyAdminRaises | account/IO.c:268-294 | A request accepted for anyone below the highest level raises nobody's level. |
| Accounts.StepStamps | account/IO.c:539-558 | An accepted request is newer than the recorded time and becomes it; any other step leaves it. |
| Accounts.AcceptedIncrease | account/IO.c:539-558 | While an account lives, the timestamps accepted for it strictly increase, so none is accepted twice. |
| Accounts.RunKeepsOrder | account/IO.c:187-580 | In every run of requests: uniqueness, nonzero hashes, at most 31 addresses, scan equal to owner map, user 0 at the highest level. |
| AccountTable.SaveLoad | account/IO.c:100-185 | Saving then loading is the identity on every user table. |
| AccountTable.FileAfterStep | account/IO.c:100-144 | From a file that holds the table, a request leaves one that holds the new table exactly when it was refused or was saved and the save worked; one that cannot be loaded exactly when it was opened and not written. |
| AccountTable.CollectRecords | account/IO.c:111-119 | The collecting loop writes the existing users in order. |
| AccountTable.RecordsInOrder | account/IO.c:111-119 | The records are the existing users, by number. |
| AccountTable.ChangesAreSaved | account/IO.c:100-144 | Everything an accepted request changes but the timestamp is saved. |
| AccountTable.CreatorFileIsOk | utils/Creator.c:91-116 | What Account loads from Creator's file is the master administrator as user 0 at the highest level and nobody else, and satisfies every invariant. |
| AccountTable.GenSmk | utils/Creator.c:145-163 | The loop ends with the first draw whose user number is 0. |
| AccountTable.PickMasterIsFirst | utils/Creator.c:145-163 | The first draw with user number 0 is picked, and nobody exactly if there is none. |
| AccountTable.AccountTable.Load | account/IO.c:170-184 | Loading lays the records over an empty table; the result is in order exactly when that table is. |
| AccountTable.AccountTable.Start | account/IO.c:146-185 | Start-up fails exactly when the file cannot be read or names a user number out of range. |
| AccountTable.AccountTable.SaveUser | account/IO.c:100-144 | The account file as it was if it cannot be opened, empty if it was opened and not written, else the records of the table. |
| AccountTable.AccountTable.Restart | account/IO.c:100-185 | Starting again finds every account as it was if and only if the file holds the table in memory. |
| AccountTable.AccountTable.HashToUid | account/IO.c:187-200 | The nested loops compute the lookup, and hand out the flags of the slot found. |
| AccountTable.AccountTable.NumAddresses | account/IO.c:232-241 | Counts the active slots of one kind. |
| AccountTable.AccountTable.ApiAddressCreate | account/IO.c:296-342 | In place: refines creation on the table value and keeps all invariants, with every refusal under its exact condition spelled out; the account file is left as the save, if one was due, left it. |
| AccountTable.AccountTable.ApiAddressDelete | account/IO.c:344-365 | In place: search, shift, count; refines deletion on the table value, with the slot removed and no other changed spelled out; the account file is left as the save, if one was due, left it. |
| AccountTable.AccountTable.ShiftDown | account/IO.c:355-360 | The shifting loop is a memmove of both columns. |
| AccountTable.AccountTable.ApiAccountDelete | account/IO.c:268-281 | Refines account deletion; user 0 is never deleted, with who may delete whom, and that nobody else is touched spelled out; the account file is left as the save, if one was due, left it. |
| AccountTable.AccountTable.ApiAccountUpdate | account/IO.c:283-294 | Refines the level change; user 0 is never changed, with who may change whose level spelled out; the account file is left as the save, if one was due, left it. |
| AccountTable.AccountTable.ApiAccountCreate | account/IO.c:441-459 | Refines account creation, with the new record spelled out; the account file is left as the save, if one was due, left it. |
| AccountTable.AccountTable.ApiPrivateUpdate | account/IO.c:461-475 | Refines the update of the private field, with the field alone spelled out; the account file is left as the save, if one was due, left it. |
| AccountTable.AccountTable.ApiAuth | account/IO.c:539-580 | Finds the first user whose key fits; on success only that user's timestamp changes, otherwise nothing does. |
| AccountTable.AccountTable.ConnApi | account/IntCom_Action.c:14-89 | Authentication and dispatch refine one step on the table value, with what each command stands for spelled out; the account file is left as the save, if one was due, left it. |
| AccountTable.AccountTable.ConnApiThenRestart | account/IntCom_Action.c:14-89 | A restart after a request finds every account as it left them exactly when it was refused or was saved; the program does not start exactly when the save truncated the file and could not write it. |
| AccountTable.AccountTable.RunRequests | account/IntCom_Action.c:14-89 | A run of requests on array and file ends as the run on values. |
| AccountTable.AccountTable.RunThenRestart | account/IntCom_Action.c:14-89 | A restart after any run finds every account exactly when what its saves left in the file is the final table. |
| AccountTable.AccountTable.MtaGetUid | account/IO.c:583-607 | Mail is delivered exactly when the address is owned and its settings take outside mail, to the owner and with four of the settings; otherwise a normal address looks as if it existed, and a Shield address does not. |
| AccountTable.SettingsBits | account/IO.c:583-607 | Bit 1 of the settings admits outside mail, bits 2 to 5 go with it. |
| AccountTable.NewAddressTakesMail | account/IO.c:296-342 | Mail to a new address is delivered, all versions and attachments admitted. |
| Addresses.ForbiddenNames | account/IO.c:203-219 | Which names have no hash: the empty one, "system" in any spelling that ends with a letter or digit, and those of sixteen or more symbols whose third to fifteenth read "administrator", the first of these up to its top bit. |
| Addresses.StoredAsSystem | Global.h:87 | A name is stored as the octets of the forbidden one exactly when these are its symbols and it ends with one. |
| Addresses.NamesSpelled | Global.h:86-87 | The two names in letters have those symbols. |
| IntCom.NoncesDiffer | IntCom/Client.c:101-153 | The first 256 nonces of an exchange are pairwise different. |
| IntCom.NonceValue | IntCom/Client.c:101-153 | The nonces count up by one, little-endian, and wrap. |
| IntCom.CodeRoundTrip | IntCom/Server.c:154-158 | A signed 32-bit code survives its four octets. |
| IntCom.MoveKeepsInv | IntCom/Client.c:78-162 | Every move of either side keeps phases, nonces, streams and record consistent. |
| IntCom.RunKeepsInv | IntCom/Server.c:77-182 | So does every interleaving. |
| IntCom.Lockstep | IntCom/Server.c:77-182 | In every interleaving, everything opened was sealed under the nonce it was opened with, no nonce repeats, the handler gets the request, and the client returns what the handler answered: code and octets, the code alone, or an error, case by case. |
| IntCom.RequestOctets | IntCom/Client.c:81-119 | The request octet by octet. |
| IntCom.MovesAdvance | IntCom/Client.c:78-162 | No exchange takes more than nine moves. |
| IntCom.NeverStuck | IntCom/Client.c:78-162 | Until the client has its result, some move is possible. |
| IntComPeers.Increment | IntCom/Client.c:112 | In-place little-endian increment of the nonce inside the header buffer, with carry, nothing else touched. |
| IntComPeers.SendRequest | IntCom/Client.c:101-119 | The client sends header and message under the first nonces and leaves the buffer's nonce at the last one used. |
| IntComPeers.Intcom | IntCom/Client.c:78-162 | Whatever the server sends, the client returns what that stream is worth, every error path included: octets exactly when code and length open under the next two nonces and were asked for. |
| IntComPeers.SendReply | IntCom/Server.c:148-178 | The response goes out under the next two nonces: the handler's code and that many octets; the code alone if it is not positive; an error for a positive code without a response. |
| IntComPeers.ServeOne | IntCom/Server.c:77-182 | Whatever the client sends, one round of the service answers a request that opens under its nonces with what the handler says, and nothing else. |
| IntComPeers.ExchangeCompletes | IntCom/Client.c:78-162 | The two programs together: the client returns exactly what the handler answered, for every request and response length. |
| Post.SendEmailBody | api/post.c:132-177 | The copying and trimming loops compute the posted body, or the same refusal, and accept exactly the acceptable texts. |
| Post.CopiedIs | api/post.c:141-170 | What is copied is the posted text with every LF as CRLF, and the posted text has no CR. |
| Post.WithoutCrInverts | api/post.c:141-170 | Nothing is lost: without its carriage returns the copy is the posted text. |
| Post.PostedBody | api/post.c:132-177 | An accepted body is the posted text with CRLF line breaks, its trailing white space replaced by one CRLF; in it CR and LF occur only as pairs. |
| Post.AcceptedIff | api/post.c:132-177 | A body is accepted exactly when it is 5 to 99999 octets of UTF-8, all tabs, line feeds and printable ASCII, no line over 998 octets, at most 950 line feeds, and not only white space after the first twelve octets. |
| Post.RefusedBecause | api/post.c:132-177 | The reason a refusal gives is there in the text. |
| SendMail.RotateHeaders | api/SendMail.c:215-217 | Copying past the end and moving back rotates the header block. |
| SendMail.StuffBody | api/SendMail.c:222-231 | The loop doubles every dot at the start of a line. |
| SendMail.FinishEmail | api/SendMail.c:215-236 | Rotated headers, blank line, stuffed body and terminator are what is transmitted. |
| SendMail.RotationKeepsHeaders | api/SendMail.c:215-217 | Rotation puts the part from the signature on first, loses no octet and starts no line with a dot. |
| SendMail.StuffedDots | api/SendMail.c:222-231 | In a stuffed body every dot at the start of a line is followed by another. |
| Smtp.OnlyMarker | api/SendMail.c:215-236 | In the transmitted text the end-of-data marker occurs exactly once, at the very end. |
| Respond.ReceiveData | mta/respond.c:385-400 | The receive loop passes on what the chunks say, up to marker or size limit. |
| Respond.ReceivedChunks | mta/respond.c:385-400 | However the text is cut into chunks, the marker is removed exactly when the last chunk holds all of it. |
| Respond.ReceivedMarked | mta/respond.c:385-400 | With a marker, everything before the first one that lies whole in a chunk, and nothing after it. |
| Respond.ReceivedUnmarked | mta/respond.c:385-400 | Without a marker everything is passed on, up to 4194304 octets. |
| Deliver.ConvertLineDots | deliver/deliver.c:15-27 | Searching and moving in place removes one dot of each stuffed pair. |
| Deliver.DeliverEmail | deliver/deliver.c:62-72 | Then the final CRLF and a NUL are added. |
| Smtp.UnstuffStuff | deliver/deliver.c:15-27 | Un-stuffing inverts stuffing, from the start of a line and from its middle. |
| Smtp.StuffLines | api/SendMail.c:222-231 | Stuffing line by line: each line that starts with a dot gets one more. |
| Smtp.UnstuffLines | deliver/deliver.c:15-27 | Un-stuffing line by line, of any text: every line but the first loses one of two dots it starts with. |
| Smtp.Transparency | deliver/deliver.c:62-72 | For every acceptable text, every header block whose lines start with no dot, together within the size limit, and every cutting into chunks with the marker in the last one, the delivered text is the headers, a blank line and the posted text with CRLF line breaks. |
| Dns.IsValidDomain | Common/ValidDomain.c:17-45 | The scan accepts a domain if and only if it is 4 to 127 octets, not reserved, and two or more letter-digit-hyphen labels of 1 to 63 octets, the last with two or more octets and a letter. |
| Dns.ValidDomainIs | Common/ValidDomain.c:17-45 | The same domains character by character, without speaking of labels. |
| Dns.ReservedNames | Common/ValidDomain.c:17-45 | The three reserved names in letters. |
| Dns.JoinSplit | Common/ValidDomain.c:17-45 | The labels joined by dots are the domain. |
| Dns.DomainToQuestion | enquiry/DNS_protocol.c:16-43 | The loop writes each label after its length, then the root, type and class. |
| Dns.QuestionOctets | enquiry/DNS_protocol.c:16-43 | The question octet by octet: label lengths in place of the dots and in front, zero, type, class. |
| Dns.RrGetName | enquiry/DNS_protocol.c:79-114 | Ends on every message, cyclic pointers included, never grows the name past 127 octets, and computes the reading function in the caller's buffer. |
| Dns.GetName | enquiry/DNS_protocol.c:79-114 | The name only grows, stays within 127 octets, and a successful read ends after its start and at most one octet past the message. |
| Dns.ReadsSpelled | enquiry/DNS_protocol.c:79-114 | Every name laid out as in section 4.1.4 of RFC 1035 that fits and has no pointer straight to a pointer is read as its labels joined by dots, ending after its zero octet or first pointer. |
| Dns.SpelledWhenWhole | enquiry/DNS_protocol.c:79-114 | Conversely, a name read without any failure on the way has such a layout. |
| Dns.WholeIff | enquiry/DNS_protocol.c:79-114 | A name is read without any failure if and only if some layout with spaced pointers that fits spells it, and then the result is its labels joined by dots, and the end that layout has. |
| Dns.SucceedsIff | enquiry/DNS_protocol.c:79-114 | A read succeeds exactly when a row of labels that fits leads to a zero octet or a pointer, and ends right after it, whatever the pointer leads to. |
| Dns.SelfPointerSucceeds | enquiry/DNS_protocol.c:84-88 | A pointer to itself spells no name, yet reading it succeeds with an empty one. |
| Dns.AppendedJoin | enquiry/DNS_protocol.c:95-104 | Appending label by label with dots is joining. |
| Dns.QuestionReadsBack | enquiry/DNS_protocol.c:16-43 | For every valid domain, wherever its question lies in a message, the reader returns exactly that domain and ends right after it. |
| Trim.PrevCharAt | Common/Trim.c:63-72 | The backward scan over the output. |
| Trim.NextCharAt | Common/Trim.c:74-81 | The forward scan over the input. |
| Trim.CleanOne | Common/Trim.c:86-140 | One round in the buffer: the write position stays at or behind the read position, unread octets stay, and the round is that of the out-of-place function. |
| Trim.CleanText | Common/Trim.c:83-149 | In place: computes the out-of-place cleaning of the original text. |
| Trim.CleanIsTidy | Common/Trim.c:83-149 | For every text: no blank first, no blank last, no space after a space or newline and no third newline in a row, counting over control characters. |
| Trim.CleanedText | Common/Trim.c:83-149 | The same read off for neighbouring octets. |
| Trim.SpaceRounds | Common/Trim.c:100-116 | Any space of the tables becomes a plain one, or goes: first, after a blank, before a newline. |
| Trim.NewlineRounds | Common/Trim.c:118-131 | Any newline becomes a plain one, or goes: among the first two octets, after two others. |
| Trim.InvisibleRounds | Common/Trim.c:89-98 | An invisible character goes before a blank, and with another that follows; alone it stays. |
| Trim.CleanKeeps | Common/Trim.c:83-149 | A text without blanks and invisible characters is unchanged. |
| Trim.TwoOctetTable | Common/Trim.c:23-61 | The tables by code point, for two octets. |
| Trim.ThreeOctetTable | Common/Trim.c:23-61 | The tables by code point, for three octets, whole ranges included. |
| Trim.JoinerBecomesSpace | Common/Trim.c:23-52 | A word joiner between letters becomes a space. |
| Trim.CleanWords | Common/Trim.c:83-149 | For ASCII text, the words stay the same and in order, if and only if not just one character is left before the second word; then the first two become one. |
| Trim.NewlineLost | Common/Trim.c:119-128 | Two one-character lines are joined. |
| Trim.RemoveControlChars | Common/Trim.c:7-21 | In place: drops control characters and turns tabs into spaces. |
| Trim.ControlsOneByOne | Common/Trim.c:7-21 | What becomes of each octet. |
| Trim.NoControlLeft | Common/Trim.c:7-21 | None is left, and a text without any is unchanged. |
| Base64.ReadFour | Common/base64.c:24-29 | The inner loop takes the next four alphabet characters, or as many as there are. |
| Base64.Base642Bin | Common/base64.c:17-45 | In place: no unread character is overwritten, and the result is the out-of-place decoding. |
| Base64.Pack | Common/base64.c:31-41 | n values give floor(6n/8) octets. |
| Base64.GroupBits | Common/base64.c:31-41 | Four values and three octets are the same 24 bits. |
| Base64.Alphabet | Common/base64.c:8-15 | The alphabet, character by character. |
| Base64.OnlyAlphabet | Common/base64.c:8-15 | Nothing else has a value but the hyphen and the underscore. |
| Base64.SextetsStripped | Common/base64.c:8-15 | Only alphabet characters matter. |
| Base64.DecodeInvertsEncode | Common/base64.c:17-45 | Any text whose alphabet characters are those of the encoding of b (section 4 of RFC 4648), with anything in between and with or without padding, decodes to b. |
| Base64.UnpackPack | Common/base64.c:31-41 | Nothing is lost exactly when no value is left over and no spare bits are set. |
| Addr32.ReadSymbols | Common/Addr32.c:88-95 | The reading loop leaves the first sixteen symbols, the mark of a refused last character, and zeros. |
| Addr32.Addr32Store | Common/Addr32.c:87-109 | The ten octets are those of the stored form of the name; nothing else is written. |
| Addr32.StoredIsEncoded | Common/Addr32.c:87-109 | The octets depend only on the first sixteen symbols if and only if the name is empty, ends with a letter or digit, or has fifteen of them. |
| Addr32.ShieldBit | Common/Addr32.c:97 | The top bit is set exactly at sixteen symbols or more, for every name. |
| Addr32.UnpackedEncoded | Common/Addr32.c:97-108 | The octets give back length and symbols, the sixteenth up to its top bit. |
| Addr32.SameOctets | Common/Addr32.c:97-108 | Two symbol lists share their octets exactly when they agree but for that bit. |
| Addr32.BlockFields | Common/Addr32.c:97-108 | The shifts and masks of five octets keep seven symbols apart, on eight-bit words. |
| Addr32.BlockBits | Common/Addr32.c:97-108 | Five octets hold their five leading bits and seven symbols in order. |
| Addr32.OnlyLettersAndDigits | Common/Addr32.c:14-85 | Small letters are read as capitals, and nothing but letters and digits has a value. |

## Left out

- Running out of memory: every allocation succeeds.
- Partial reads and writes: each open, read, write, truncate and unlink completes or fails before it has any effect. Which calls fail is a parameter, so lost agreement is only described for whole calls.
- Index columns and files are `seq` and `map` fields of the class rather than separately allocated blocks; user records are values in an array. Aliasing between users' blocks is therefore not in the model.
- Randomness, clocks and keys are parameters. A key search that has used up its draws is `Drawing` or `Pending`, where the source would go on drawing.
- Cryptography: X25519, BLAKE2b, ChaCha20, AEGIS-256, AES and Argon2 are functions with the laws in `Crypto` or none; nothing is said about secrecy or forgery.
- Storage.Storage.StorageEmpty: requires a user with mail, because the source writes to the first entry of columns that would not be there.
- Storage.Storage.ApiMessageBrowse: the newest page, asked for without an envelope ID, requires a user with mail, because the source would start before the first entry; user numbers are below 4096, as its callers send them; a short read that the source lets pass is not modelled.
- Storage.Storage.Start: requires the decrypted index to hold what its counts announce, which the source does not check.
- Storage.Storage.AccStorageCreate: the keys are a parameter, because the source reads them at an offset counted in whole structures past the message.
- Reporting storage amounts and setting storage limits, which only read file sizes or copy four octets.
- Accounts: the browse, lookup and message-creation replies, the settings file, and the two key fields no operation uses. The resubmission that completes a Continue request is not followed across the two requests.
- AccountTable.SaveLoad: on records, not on the octets of the structure, whose layout belongs to the compiler.
- IntCom.Lockstep: both sides run without socket errors, and the octets in between are not tampered with; peer and key checks before the exchange are left out.
- IntComPeers.ServeOne: one round per client; accepting connections is left out.
- Post.SendEmailBody: the UTF-8 check before the loop is a parameter.
- SendMail.FinishEmail: header values and the DKIM signature are a header block given as octets, with the position the search for the signature finds.
- Dns.RrGetName: requires room for one label after the end of the message, which the source relies on without checking.
- Trim.CleanText: lengths fit the source's `int` parameters.
- Base64.Base642Bin, bit operations: the shifts and masks are written as division and remainder.
- HTML conversion, DKIM verification, MIME, header cleaning, the web server, TLS, sockets, processes, the manager and the command-line tools other than Creator's initial images.
