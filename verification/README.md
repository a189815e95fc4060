# Harpoon's deployment control plane, modelled and proved in Dafny

This project models the parts of Harpoon that keep a deployment trustworthy across crashes, concurrent processes and
arbitrary input, and proves what they promise. `dafny verify dfyconfig.toml` checks everything (Dafny 4.11).

Where the source changes state step by step the model does too: classes with fields and `modifies` clauses, loops with
invariants, each method proved equal to (or against) a specification function about which the laws are proved as lemmas.
Where the source computes values the model uses functions and lemmas. Faults, short reads, process deaths and the answers
of Docker, SQLite and the Keychain are parameters, so every theorem holds for all of them.

## What is modelled

**The append-only journal.** `JournalFormat` is the line format (framing, `recover`) and `Checksum` its CRC-32;
`JournalDamage` says which damage they find. `WalRuns` is the journal as a state machine over single calls on the file,
each of which may fail or be torn, with a death or a power loss between any two; a power loss may leave any content the
file had since its last successful sync. `WalSafety` proves the crash theorem over all runs, and `FileJournal` proves that
the methods of the handle (`open_with`, `append_line`, `mark_interrupted`) are runs of that machine that succeed exactly
when no call in them failed.

**The SQLite journal and its one-way upgrade.** `SqliteStore` has transactions whose every statement may fail or be the
last thing the process does; `JournalUpgrade` has the backup that comes before the first removal.

**The Git registration protocol.** `GitRegistry` holds the records, their replay and what each command may append under
the writer lock; `GitReplay` says what a replayed journal means in terms of its records, and `GitPlans` exactly when each
command is recorded; `GitRuns` interleaves any number of processes that look without the lock, take it, look again and
append record by record; `GitSafety` proves what every run keeps; `GitPolling` is the poll pass and the ids that
de-duplicate it. `Destinations` reads an address, `Wildcards` holds the branch filters.

**Streams and text.** `Utf8`, `BuildOutput` and `BuildPipes` (incremental decoding of build output), `JsonText` and
`JsonParser` (printer and parser), `JsonGrammar`, `JsonReads`, `JsonAccepted` and `JsonRoundTrip` (the spellings of
RFC 8259 and that exactly these are accepted), `HttpText`, `HttpLines` and `HttpReader` (the response reader),
`HttpFraming` and `HttpResponses` (exactly what it accepts, and the responses that are written out), `WebhookRequest` and
`WebhookAccepted` (the request reader and exactly what it accepts), `SshCommand` (the shell-quoted SSH command), `Sha256`
and `Sha256Answers` (SHA-256, HMAC, hex, a published digest). `Arrivals` is the vocabulary for bytes that arrive in
pieces, and `Bytes`, `Words` and `Characters` hold what several modules share.

**Build context.** `IgnoreFile` and `Wildcards` (which paths a `.dockerignore` excludes), `ContextWalk` (the pruned size
walk and the pruned snapshot copy against the unpruned sum).

**Runtime state.** `Teardown` and `TeardownEnds` (containers, then images, then leases; when that completes) and
`HealthCheck` (attempts of any number tied to one container).

## What the proofs found

Each of these is a lemma that gives the exact condition, with the failing family inside it.

- *Polling is not idempotent across a restart.* A process that dies between queuing the event of a moved head and
  recording the observation leaves an event whose source says whether it was found on the first pass. The next pass over
  that head is refused exactly when one of the two passes was a first pass and the other was not
  (`GitPolling.RequeueIsIdempotentIff`), although the comment at deploy-cli/src/git_cmds.rs:1528 says the re-queue is
  idempotent. `GitPolling.PollRefusedIff` gives the condition for a whole pass.
- *Long names and SHA-256 commits.* A delivery id may have 128 characters; a name of 59 to 64 characters with 64-digit
  commits exceeds it, so no moved head of such a repository is ever queued (`GitPolling.LongNamesLosePolling`).
- *The clock carries the credential rule.* An edit compares the registration it started from with the live one. As long
  as no registration is recorded a second time to the letter, a saved credential keeps its place, whatever the clock shows
  (`GitSafety.CredentialKeepsItsPlace`), and a clock that moves on at every reading is enough for that
  (`GitSafety.MovingClockTellsApart`); with one that may repeat, every edit to another host has a run that moves the
  credential (`GitSafety.RepeatedClockMovesACredential`).
- *Two pipes and one carry.* The output and the error output of a build go through one decoder. Each is shown as it would
  be alone, piece by piece, exactly when no byte of one pipe arrives inside a character of the other
  (`BuildPipes.PipesStayApartIff`); one letter is enough to destroy a character (`BuildPipes.OneByteTears`).
- *A star in a branch name.* The filter loop compares letters before it looks for a star, so a name that itself holds a
  star is matched wrongly by some filter, and only such a name (`Wildcards.FilterIsItsMeaningIff`).
- *Reading while the store is being created.* `read_only` fails, instead of reading the legacy journal, exactly while
  the SQLite file exists without its records table (`SqliteStore.ReadsTheSameIff`).
- *A legacy journal without deployment and ledger records is imported at every open* (`SqliteStore.TwoOpensImportOnceIff`),
  and one that already held a removal record would be imported without the schema stamp
  (`JournalUpgrade.LegacyRemovalIsNotStamped`). The file journal itself writes only deployments and ledger records
  (deploy/src/engine.rs:39-59 refuses the rest), so either input takes a file that another writer made.
- *The word instead of the record.* The backup refuses any journal that mentions `gitdrop`, so registering a repository
  of that name makes the first removal impossible (`JournalUpgrade.NameStandsInTheWay`).
- *Limits that depend on the reads.* A response line whose end lies at or beyond its limit, and a request head that ends
  in the last three bytes allowed, are accepted or refused depending on how the bytes arrive (`HttpLines.LineIsOneIff`,
  `WebhookRequest.ReplyIsOneIff`).
- *A leading plus sign* is taken as part of a hexadecimal number, so `from_hex` accepts texts that no bytes are written
  as (`Sha256.HexIsItsWritingIff`).
- *A workspace path that starts with a tilde* is accepted, and is the only one for which ssh would look elsewhere for the
  known hosts (`SshCommand.CommandNamesItsFilesIff`).

## Model

| member | source | states |
|---|---|---|
| `WalSafety.ReopenFindsWhatWasAcknowledged` | deploy-journal/src/lib.rs:239-386 | after any run of opens, appends, failures, torn writes, cuts and deaths, whatever a power loss leaves opens again, holds every confirmed record in order, at most one unconfirmed record at the end of each session and never part of one, and replays |
| `WalSafety.NextKeeps` | deploy-journal/src/lib.rs:354-386 | the invariant behind it survives every single call on the file and every death or power loss |
| `WalSafety.RunKeeps` | deploy-journal/src/lib.rs:239-386 | and so every run from an empty directory |
| `WalSafety.ExplainsIff` | deploy-journal/src/lib.rs:1-22 | the records found are exactly a selection of the requests, in order, that leaves out no confirmed one |
| `WalSafety.BrokenIsFinal` | deploy-journal/src/lib.rs:355-359 | once a write failed, whatever the handle is asked for as long as it lives, the file, what a power loss could leave of it and the view stay as they are |
| `WalSafety.HealedLeavesNothing` | deploy-journal/src/lib.rs:364-377 | a failed append that was cut back and synced leaves the file as it was before it |
| `FileJournal.OpenWith` | deploy-journal/src/lib.rs:239-319 | for any file: a journal that may not be opened is refused and left untouched; any other is opened exactly when no call on the file failed, with exactly its whole records, exactly its torn tail discarded and nothing written unless there is something to repair; every open is a run of the machine |
| `FileJournal.AcceptsIff` | deploy-journal/src/lib.rs:239-319 | what may be opened: without a newline a part of the header line, otherwise a file that is recovered and replays |
| `FileJournal.Handle.AppendLine` | deploy-journal/src/lib.rs:354-386 | one append is a run of the machine whatever the file answers; it succeeds exactly when no call in it failed, and then exactly the line is appended and synced |
| `FileJournal.Handle.CutBack` | deploy-journal/src/lib.rs:364-377 | the latch is set whatever the cut and its sync answer |
| `FileJournal.Handle.Record` | deploy-journal/src/lib.rs:389-400 | a record is confirmed exactly when the latch is not set and no call failed; then it is the last of the journal, otherwise the view stays as it was |
| `FileJournal.Handle.MarkInterrupted` | deploy-journal/src/lib.rs:324-334 | exactly when no call fails all changed snapshots are persisted in order; otherwise a proper prefix of them is and the handle is broken; nothing is written when nothing changed |
| `FileJournal.ReadyLength` | deploy-journal/src/lib.rs:340-348 | without a failure `len` is the length of the file, and the file is the header and the records |
| `FileJournal.RunJoin` | deploy-journal/src/lib.rs:239-386 | what one call after another does is one run |
| `JournalFormat.RecoverFile` | deploy/src/journal_format.rs:607-657 | the loop is the recursive definition of recovery on every file |
| `JournalFormat.RecoverImage` | deploy/src/journal_format.rs:607-657 | header, whole records and any tail without a newline: exactly those records are recovered and exactly that tail is discarded |
| `JournalFormat.RecoverTornHeader` | deploy/src/journal_format.rs:607-620 | any part of a header is an empty journal |
| `JournalFormat.FrameRoundTrip` | deploy/src/journal_format.rs:66-68 | a framed body is decoded as itself, checksum included |
| `JournalFormat.HeaderRoundTrip` | deploy/src/journal_format.rs:71-73 | the header line is decoded as this version's header |
| `JournalFormat.HexRoundTrip` | deploy/src/journal_format.rs:66-68 | a number written in hexadecimal with leading zeros reads back |
| `JournalFormat.FrameIsText` | deploy/src/journal_format.rs:494-550 | a frame of valid text without a newline is valid text without a newline |
| `JournalDamage.LineIff` | deploy/src/journal_format.rs:494-550 | a later line is a record exactly when it is text, no header, and its first field writes the checksum of the rest; any other is corruption of that line |
| `JournalDamage.DamageIsFound` | deploy/src/journal_format.rs:607-657 | a committed line damaged in up to four bytes in a row is refused with its number, wherever it stands and whatever follows it |
| `JournalDamage.SecondHeader` | deploy/src/journal_format.rs:641-646 | a second header is corruption of its line |
| `JournalDamage.OtherVersion` | deploy/src/journal_format.rs:634-639 | a file whose header is of another version is refused as that version |
| `JournalDamage.RecordIsNoHeader` | deploy/src/journal_format.rs:640-640 | a file that begins with a record is refused |
| `Checksum.ComputeCrc32` | deploy/src/ledger.rs:668-681 | the loops over bytes and bits compute the CRC |
| `Checksum.ChecksumFindsDamage` | deploy/src/ledger.rs:668-681 | texts of any length that differ in up to four bytes in a row have different checksums |
| `Checksum.CheckValue` | deploy/src/ledger.rs:668-681 | the published check value of this CRC |
| `Utf8.LookIsTheStandard` | deploy-docker/src/buildx_run.rs:137-164 | the byte-wise look at the front is section 3.9 of the Unicode Standard: a well-formed sequence, a maximal subpart, or a proper start |
| `BuildOutput.Decoder.DecodeChunk` | deploy-docker/src/buildx_run.rs:137-164 | one call returns the decoding of carry and chunk and keeps a proper start of one sequence, at most three bytes |
| `BuildOutput.Decoder.Show` | deploy-docker/src/buildx_run.rs:248-254 | all the texts and the final flush are the lossy decoding of the whole, whatever the chunks |
| `BuildOutput.DecodeSplit` | deploy-docker/src/buildx_run.rs:137-164 | decoding in two steps with a carry is decoding at once |
| `BuildOutput.CarryIsOneStart` | deploy-docker/src/buildx_run.rs:137-164 | what waits never contains a whole sequence and is at most three bytes |
| `BuildOutput.DecodeIsLossy` | deploy-docker/src/buildx_run.rs:294-296 | decoding with a flush at the end is maximal-subpart substitution |
| `BuildOutput.FlushIsLossy` | deploy-docker/src/buildx_run.rs:294-296 | what waits at the end decodes lossily to one replacement |
| `BuildOutput.FineIsValid` | deploy-docker/src/buildx_run.rs:137-164 | the strict decoder accepts exactly the valid strings |
| `BuildOutput.LossyKeepsValid` | deploy-docker/src/buildx_run.rs:137-164 | valid text is shown unchanged |
| `BuildOutput.LossyIsValid` | deploy-docker/src/buildx_run.rs:137-164 | what is shown is always valid |
| `BuildPipes.PipesStayApartIff` | deploy-docker/src/buildx_run.rs:220-254 | for chunks of two pipes in any order of arrival, every piece shown is one of its own pipe's pieces, in order, exactly when no character of one pipe is torn by a byte of the other |
| `BuildPipes.EachPipeReads` | deploy-docker/src/buildx_run.rs:248-296 | then the pieces of each pipe, put together, are the lossy decoding of what it sent |
| `BuildPipes.ShownIsPieces` | deploy-docker/src/buildx_run.rs:137-164 | the text shown is the decoder's pieces, one after the other |
| `BuildPipes.OneByteTears` | deploy-docker/src/buildx_run.rs:248-273 | a letter on one pipe between the two bytes of a character on the other destroys it |
| `JsonRoundTrip.ParsePrints` | deploy-docker/src/json.rs:31-43 | what is printed is parsed back as itself, escapes and duplicate keys in order, exactly when it nests no deeper than allowed; anything deeper is refused |
| `JsonRoundTrip.PrintingIsInjective` | deploy-docker/src/json.rs:86-127 | different values print differently |
| `JsonRoundTrip.ValueReadsBack` | deploy-docker/src/json.rs:189-254 | a printed value followed by anything that may follow one is read with exactly its length, at every depth |
| `JsonRoundTrip.StringReadsBack` | deploy-docker/src/json.rs:304-363 | every string, controls, quotes and escapes included, reads back from its printed form |
| `JsonRoundTrip.NumberReadsBack` | deploy-docker/src/json.rs:255-292 | every integer below 9e15 in magnitude reads back |
| `JsonAccepted.ParseIff` | deploy-docker/src/json.rs:31-43 | a text is accepted as a value exactly when it is, with any white space around it, a spelling of that value (RFC 8259, and leading zeros and a plus sign in an escape besides) that nests no deeper than allowed |
| `JsonReads.SpelledReads` | deploy-docker/src/json.rs:189-254 | every spelling of a value, in any context, is read as that value with exactly its length |
| `JsonReads.EncodedIff` | deploy-docker/src/json.rs:304-363 | what an escape becomes is the one well-formed sequence of its scalar value |
| `JsonParser.ParseText` | deploy-docker/src/json.rs:31-43 | the cursor parser computes the recursive definition for every text, and terminates |
| `JsonParser.P.ValueAt` | deploy-docker/src/json.rs:189-254 | the value at the cursor and where the cursor stops |
| `JsonParser.P.Array` | deploy-docker/src/json.rs:199-220 | the array loop reads the items of the definition |
| `JsonParser.P.Object` | deploy-docker/src/json.rs:221-253 | the object loop reads the members of the definition, in order and with duplicates |
| `JsonParser.P.StringLiteral` | deploy-docker/src/json.rs:304-363 | the string loop, surrogate pairs included |
| `JsonParser.P.NumberValue` | deploy-docker/src/json.rs:255-292 | the number scanner with its fraction and exponent |
| `JsonParser.P.HexDigits4` | deploy-docker/src/json.rs:293-303 | the four digits of an escape, as leniently as the source reads them |
| `JsonParser.Write` | deploy-docker/src/json.rs:92-127 | the printer appends exactly the printed form |
| `JsonParser.WriteString` | deploy-docker/src/json.rs:142-156 | the string printer appends exactly the escaped form |
| `HttpReader.ReadResponse` | deploy-docker/src/http.rs:216-326 | however the bytes arrive: unless a line passes its limit the result is one function of them, and with a limit below 2^63 it is a response exactly when the bytes are that response; a response written out with its fields, in chunks, with a length, to the end or without a body comes back whole, or is refused for the size of its body alone |
| `HttpReader.Reader.Fill` | deploy-docker/src/http.rs:153-173 | a read moves the next bytes into the buffer and loses nothing |
| `HttpReader.Reader.ReadLine` | deploy-docker/src/http.rs:182-198 | the line before the first CRLF, exactly as the scan over the reads decides |
| `HttpReader.Reader.ReadExactly` | deploy-docker/src/http.rs:199-213 | exactly the next bytes, or the limit's or the connection's error |
| `HttpReader.Reader.ReadHeaders` | deploy-docker/src/http.rs:250-265 | the header loop reads the headers of the definition and stops after the blank line |
| `HttpReader.Reader.ReadChunks` | deploy-docker/src/http.rs:278-302 | the chunk loop reads the body of the definition |
| `HttpReader.Reader.ReadToEnd` | deploy-docker/src/http.rs:308-320 | without framing the body is everything to the end, within the limit |
| `HttpFraming.ChunkedReadsBack` | deploy-docker/src/http.rs:278-302 | any division into non-empty chunks, with extensions and trailers, gives the body back when it is within the limit and `TooLarge` otherwise |
| `HttpFraming.LengthReadsBack` | deploy-docker/src/http.rs:303-307 | a body of declared length comes back, or `TooLarge` |
| `HttpFraming.BodyBounded` | deploy-docker/src/http.rs:272-320 | no framing returns more than the limit |
| `HttpFraming.ChunksBounded` | deploy-docker/src/http.rs:293-296 | the sum that may wrap cannot be fooled while twice the limit is below 2^64 |
| `HttpFraming.HeadersReadBack` | deploy-docker/src/http.rs:250-265 | headers read back within the limit of their total length and are refused beyond it |
| `HttpFraming.ResponseReadsBack` | deploy-docker/src/http.rs:229-326 | the head decides the framing and the framing reads the body |
| `HttpFraming.ReadIff` | deploy-docker/src/http.rs:229-326 | a response is accepted exactly when the bytes are a head of its code and headers and a body its framing cuts out |
| `HttpFraming.ChunksIff` | deploy-docker/src/http.rs:278-302 | a chunked body is accepted exactly when it is sent in such chunks, with a last size of zero, trailers and a blank line, and within the limit |
| `HttpFraming.HeaderIff` | deploy-docker/src/http.rs:261-264 | a header is the name and the value around the first colon, without the white space around them; a line without a colon is none |
| `HttpFraming.StatusIff` | deploy-docker/src/http.rs:238-249 | the code of a status line is the number between its first two spaces, from 100 to 599, in one of the two versions |
| `HttpFraming.SizeIff` | deploy-docker/src/http.rs:284-287 | the size of a chunk is the hexadecimal number before its extension, below 2^64 |
| `HttpResponses.FieldReads` | deploy-docker/src/http.rs:250-265 | a field written as name, colon and value, with white space around them, is read as that name and that value |
| `HttpResponses.FramingIs` | deploy-docker/src/http.rs:266-321 | which framing the code and the fields ask for: none, chunks when the first `Transfer-Encoding` mentions them, else the first `Content-Length`, else the end of the stream |
| `HttpResponses.ChunkedResponseReadsBack` | deploy-docker/src/http.rs:229-326 | a status line and fields written out as text that ask for chunks, and any chunks with extensions and trailers, are read as that response with those headers, or as `TooLarge` for the size of the body alone |
| `HttpResponses.SizedResponseReadsBack` | deploy-docker/src/http.rs:303-307 | the same for a written `Content-Length`, whatever follows the body |
| `HttpResponses.OpenResponseReadsBack` | deploy-docker/src/http.rs:308-320 | the same for a body that runs to the end of the stream |
| `HttpResponses.AloneReadsBack` | deploy-docker/src/http.rs:271-274 | a response that has no body is read without one, whatever its fields say |
| `HttpLines.ScanIs` | deploy-docker/src/http.rs:182-198 | what the loop over the reads returns, in terms of where the line ends and where the reads stop |
| `HttpLines.LineIsOneIff` | deploy-docker/src/http.rs:182-198 | a line reads the same for all ways to arrive exactly when it has no end, has its end before the limit, or has it so far beyond that no single read can bring it |
| `WebhookRequest.ReadRequest` | deploy-git/src/webhook.rs:220-300 | the reply is a function of the bytes, unless some read ends beyond the limit inside the blank line, which is refused |
| `WebhookRequest.ReadBody` | deploy-git/src/webhook.rs:282-298 | the body is the declared number of bytes after the blank line, from the buffer and then the reads |
| `WebhookRequest.ReplyIsOneIff` | deploy-git/src/webhook.rs:220-249 | the reply is one for all ways to arrive exactly when the head does not end in the last three bytes allowed, or declares a body beyond the limit |
| `WebhookRequest.ReadsDoNotMatter` | deploy-git/src/webhook.rs:224-249 | away from that edge a refusal for length is the reply to the bytes themselves |
| `WebhookRequest.AcceptedIsBounded` | deploy-git/src/webhook.rs:273-305 | what is accepted keeps both limits and its body is exactly the declared bytes |
| `WebhookAccepted.AcceptedIff` | deploy-git/src/webhook.rs:220-306 | a request is accepted exactly when the bytes are a head within its limit, a blank line and a body of the declared length, not chunked and within its limit; and then it is that request |
| `WebhookAccepted.TooMuchIff` | deploy-git/src/webhook.rs:224-280 | too much is exactly a head beyond its limit, ended or not, or a declared body beyond its own |
| `SshCommand.WordReads` | deploy-git/src/runner.rs:225-237 | every text, quotes included, is one shell word in its quoted form |
| `SshCommand.OptionReads` | deploy-git/src/runner.rs:241-247 | the known-hosts option is one shell word whatever the path |
| `SshCommand.CommandReads` | deploy-git/src/runner.rs:213-223 | for every directory the shell reads one fixed list of arguments, with the key file as one of them |
| `SshCommand.CommandNamesItsFilesIff` | deploy-git/src/runner.rs:213-247 | from end to end: the shell makes of the command a list of arguments with the workspace's key, and the option value it delivers is read by ssh as exactly the workspace's known-hosts file if and only if the path does not start with a tilde |
| `SshCommand.KnownHostsIsRootIff` | deploy-git/src/runner.rs:114-130 | the same for the value that is written, for every accepted workspace |
| `Sha256.Sha256` | deploy-git/src/sha256.rs:16-68 | the loops over arrays compute SHA-256 as FIPS 180-4 defines it, for every message below 2^61 bytes |
| `Sha256.PadMessage` | deploy-git/src/sha256.rs:20-25 | the padding loop is the padding of section 5.1.1 |
| `Sha256.Schedule` | deploy-git/src/sha256.rs:27-35 | the array holds the message schedule |
| `Sha256.WNext` | deploy-git/src/sha256.rs:31-35 | the order in which the loop adds makes no difference |
| `Sha256.CompressInto` | deploy-git/src/sha256.rs:26-62 | one block turns the hash value into its compression |
| `Sha256Answers.KnownAnswer` | deploy-git/src/sha256.rs:117-120 | the digest of "abc" is the one FIPS 180-4 publishes |
| `Sha256.PaddingIsInjective` | deploy-git/src/sha256.rs:20-25 | different messages are padded differently |
| `Sha256.HmacSha256` | deploy-git/src/sha256.rs:70-83 | HMAC of RFC 2104 for keys of any length |
| `Sha256.KeysThatCountTheSame` | deploy-git/src/sha256.rs:71-76 | a key longer than a block counts as its hash, a full one as itself, and zeros after a short one for nothing |
| `Sha256.HmacIs` | deploy-git/src/sha256.rs:70-83 | for a key of up to a block: the hash of the outer pad and the hash of the inner pad and the data, each pad the key with zeros behind it changed by its own byte |
| `Sha256.ConstantTimeEq` | deploy-git/src/sha256.rs:99-104 | true exactly for equal byte strings |
| `Sha256.HexReadsBack` | deploy-git/src/sha256.rs:85-97 | bytes written in hexadecimal read back |
| `Sha256.HexIsItsWritingIff` | deploy-git/src/sha256.rs:89-97 | a text that reads is the writing of its bytes, but for case, exactly when it holds no plus sign |
| `Destinations.ReadsWhatIsWritten` | deploy/src/git.rs:219-285 | a schemed address with a plain host or a numeric one in brackets, any user, with or without its port, is read as its transport, its host in lower case and its port |
| `Destinations.ReadsScpStyle` | deploy/src/git.rs:275-283 | `[user@]host:path` is read as ssh at port 22 |
| `Destinations.DestinationIff` | deploy/src/git.rs:259-285 | an address says where it leads exactly when it is one of the allowed forms, and then it leads to the transport, the host and the port it writes |
| `Wildcards.RunGlobMatch` | deploy/src/git.rs:288-311 | the loop decides what its scan decides |
| `Wildcards.FilterIsItsMeaningIff` | deploy/src/git.rs:288-311 | it decides the declarative meaning of every filter on a name exactly when the name holds no star |
| `Wildcards.ScanIsFits` | deploy/src/git.rs:288-311 | coming back to the last star alone misses nothing |
| `Wildcards.NewStarIsEnough` | deploy/src/git.rs:297-300 | whatever an earlier star could still reach, the later one can |
| `Wildcards.GlobIsItsMeaning` | deploy-docker/src/ignore.rs:95-101 | a segment matches exactly when each star can be replaced by some bytes |
| `Wildcards.SegMatchIsItsMeaning` | deploy-docker/src/ignore.rs:80-92 | a path matches exactly when each double star can be replaced by some segments |
| `IgnoreFile.Parse` | deploy-docker/src/ignore.rs:27-66 | the line loop builds the rules of the definition |
| `IgnoreFile.ParsedExcludesIff` | deploy-docker/src/ignore.rs:27-77 | a path is excluded exactly when no line is an exception and some understood line means it or a folder it is in |
| `IgnoreFile.WrittenExcludesIff` | deploy-docker/src/ignore.rs:27-77 | for a file written out line by line: a path is excluded exactly when no line is an exception and a line that names segments for certain means it |
| `IgnoreFile.NotesAreTold` | deploy-docker/src/ignore.rs:27-66 | there are exactly as many notes as exceptions and paths that are not certain, and exactly an exception disables the file |
| `IgnoreFile.ExcludesIsItsMeaning` | deploy-docker/src/ignore.rs:73-77 | exclusion is meaning, for the path or a folder above it |
| `IgnoreFile.ExcludesMore` | deploy-docker/src/ignore.rs:73-77 | exclusion goes down the tree and grows with the patterns |
| `ContextWalk.ContextSize` | deploy-docker/src/preflight.rs:18-49 | a result within the limit is the exact unpruned sum of the files sent, one above it means the sum is above it |
| `ContextWalk.CopyTree` | deploy-docker/src/snapshot.rs:116-189 | too large exactly when that sum is above the limit; otherwise the copy is exactly the items sent, with their contents |
| `ContextWalk.CopyFile` | deploy-docker/src/snapshot.rs:164-177 | one file in reads of any sizes is copied exactly, or given up exactly when it does not fit |
| `ContextWalk.SkipsIsNothing` | deploy-docker/src/preflight.rs:32-37 | nothing in what a walk passes over is sent |
| `ContextWalk.TakenIff` | deploy-docker/src/snapshot.rs:116-189 | something is taken exactly when it is somewhere in the tree and is sent |
| `SqliteStore.Connection.Open` | deploy-journal/src/sqlite.rs:356-382 | it succeeds exactly when its statements are carried out and what is to be read is readable; whatever fails or dies, the tables only grow and the rows are as before or have the whole legacy journal behind them |
| `SqliteStore.Connection.Migrate` | deploy-journal/src/sqlite.rs:226-228 | it succeeds exactly when its three statements are carried out, and they touch no row |
| `SqliteStore.Connection.ImportLegacy` | deploy-journal/src/sqlite.rs:491-511 | all legacy records in order, exactly when every statement and the commit are carried out, or none |
| `SqliteStore.Connection.Insert` | deploy-journal/src/sqlite.rs:524-534 | the row is confirmed exactly when its statements are carried out, and absent when it was refused to a living process |
| `SqliteStore.Connection.RemoveRegistration` | deploy-journal/src/sqlite.rs:455-481 | the stamp and the record together, exactly when every statement and the commit are carried out, or neither; the first removal is told |
| `SqliteStore.ImportedExactlyOnce` | deploy-journal/src/sqlite.rs:356-382 | after any opens and writes, removals among them, whatever failed or died, the rows are the legacy records once and then the writes |
| `SqliteStore.ReadsTheSameIff` | deploy-journal/src/sqlite.rs:403-416 | in every such run a reader sees the legacy records and then the writes at all times but one: while the file is there without its records table |
| `SqliteStore.TwoOpensImportOnceIff` | deploy-journal/src/sqlite.rs:370-380 | two opens import once exactly when the legacy journal holds a deployment or ledger record, or nothing |
| `JournalUpgrade.Folder.BackupBeforeSchema2` | deploy-cli/src/journal_upgrade.rs:101-203 | success proves a flushed copy with exactly the rows and at most schema 1; a failure whose clean-up worked leaves the folder as it was; without faults it succeeds exactly when the copy is faithful and no row mentions a removal |
| `JournalUpgrade.Folder.CleanUp` | deploy-cli/src/journal_upgrade.rs:121-125 | only the two files of this backup are removed |
| `JournalUpgrade.Folder.Proofs` | deploy-cli/src/journal_upgrade.rs:138-176 | what passes the proofs is a faithful copy, whatever the copy is |
| `JournalUpgrade.RemoveCommand` | deploy-cli/src/git_cmds.rs:722-752 | the removal is written whole or not at all, never without a proven backup when it is the first, and no older backup is touched; without faults it goes through exactly when it is not the first or the backup goes through |
| `JournalUpgrade.RemovalIsAlwaysBackedUp` | deploy-cli/src/git_cmds.rs:722-752 | in every run with crashes and power losses a removal record is there exactly when schema 2 is declared, and then a backup of exactly the rows before the first removal |
| `JournalUpgrade.LegacyRemovalIsNotStamped` | deploy-journal/src/sqlite.rs:491-511 | a legacy removal record would be imported without the stamp |
| `JournalUpgrade.NameStandsInTheWay` | deploy-cli/src/journal_upgrade.rs:161-165 | the registration of a repository called `gitdrop` is no removal and is taken for one |
| `GitSafety.JournalAlwaysReplays` | deploy-cli/src/git_cmds.rs:1113-1150 | in every interleaving the journal and each of its beginnings replay, and every record says what the operation that appended it asked for: its registration, its removal, its commit and ref and trigger, its secret, its heads |
| `GitSafety.SourceIsWhatWasCheckedOut` | deploy-cli/src/git_cmds.rs:1113-1150 | every source on record has the commit that a started run checked out, what that run was asked for, its trigger and delivery, and the name and address of the registration it was fetched from |
| `GitPlans.PlanIff` | deploy-cli/src/git_cmds.rs:220-262 | for each command, exactly which registrations and records must stand under the lock for it to be recorded, as one record |
| `GitPlans.EditIsRecordedIff` | deploy-cli/src/git_cmds.rs:394-425 | in every run an edit is recorded exactly when the registration is still the one it was opened on |
| `GitPlans.PassIsComplete` | deploy-cli/src/git_cmds.rs:1480-1536 | a pass that is not refused covers every head: each that is not skipped gets its observation, and each that moved its event, in the pass or queued before it with the same source and revision |
| `GitReplay.LiveIff` | deploy/src/git.rs:781-855 | a registration is live exactly when its record is the last one that registers or removes its name |
| `GitReplay.BaselineIff` | deploy-cli/src/git_cmds.rs:1484-1494 | a commit is the baseline of a ref exactly when the last record about the ref observed it, no earlier than the registration was made |
| `GitReplay.AppliesIff` | deploy/src/git.rs:781-855 | exactly when a record may follow: a removal matches the live registration in all it names, an observation and a source have a live name, a deployment has one source, the versions of a secret grow, a delivery is new |
| `GitReplay.KeptInOrder` | deploy/src/git.rs:781-855 | sources, removals and events are kept as they came, and of each secret its latest version |
| `GitReplay.WantedIff` | deploy/src/git.rs:451-456 | the registered branch, or any that one of the filters means |
| `GitReplay.IncarnationGrows` | deploy/src/git.rs:865-868 | every removal of an application begins another incarnation, and nothing else does |
| `GitReplay.SamePlaceIff` | deploy-cli/src/git_cmds.rs:484-514 | two addresses are the same place exactly when they are one text, or both are readable and lead to one place |
| `GitSafety.CredentialKeepsItsPlace` | deploy-cli/src/git_cmds.rs:484-514 | whatever the clock shows, after a credential is saved under a name every later registration of it keeps the address or a readable equal destination, as long as no registration before it was recorded twice |
| `GitSafety.MovingClockTellsApart` | deploy-cli/src/git_cmds.rs:379-398 | with a clock that moves on at every reading none ever is |
| `GitSafety.RepeatedClockMovesACredential` | deploy-cli/src/git_cmds.rs:379-398 | with a clock that may repeat, every edit to another place has a run that breaks this |
| `GitSafety.OneNamePerApplication` | deploy-cli/src/git_cmds.rs:516-565 | no application is ever registered under two names |
| `GitSafety.MovedHeadIsQueuedFirst` | deploy-cli/src/git_cmds.rs:1480-1536 | an observation that moves a ref comes after the record that queued that commit |
| `GitSafety.QueuedOnce` | deploy/src/control.rs:901-925 | no delivery of an application is queued twice in any run |
| `GitRuns.RunKeeps` | deploy-cli/src/git_cmds.rs:1113-1150 | the invariant survives every step of every process, dying at any append included |
| `GitRuns.PlanIsGood` | deploy-cli/src/git_cmds.rs:690-752 | whatever an operation appends after looking again keeps the journal good |
| `GitRuns.AddIsOk` | deploy-cli/src/git_cmds.rs:220-262 | an addition keeps a live name's application and passes the destination guard under the lock |
| `GitRuns.UpdateIsOk` | deploy-cli/src/git_cmds.rs:394-425 | an edit that was guarded before the lock is still allowed under it, because the registration is unchanged |
| `GitRuns.NoneSavedMeanwhile` | deploy-cli/src/git_cmds.rs:394-398 | between two times at which a registration without a credential is the same, none was saved for it, as long as no registration is recorded twice |
| `GitRuns.RunIsOk` | deploy-cli/src/git_cmds.rs:1113-1150 | a source is recorded only for the very registration it was fetched from, with the commit and the request of its run |
| `GitRuns.SaveIsOk` | deploy-cli/src/git_cmds.rs:882-935 | a saved version follows the last one and belongs to a registration with a credential |
| `GitRuns.PollIsGood` | deploy-cli/src/git_cmds.rs:1480-1536 | a pass keeps the journal good record by record, although it decides by what it read at the start |
| `GitRuns.QueueThenSee` | deploy-cli/src/git_cmds.rs:1497-1533 | a moved head's event is there before its observation |
| `GitRuns.CredentialIdReads` | deploy/src/git.rs:440-444 | the id of a saved credential says whose it is |
| `GitPolling.Writer.PollRepo` | deploy-cli/src/git_cmds.rs:1480-1538 | the loop over the heads appends exactly the plan of the pass and counts what it queued, up to exactly the first write that failed |
| `GitPolling.Writer.PollHead` | deploy-cli/src/git_cmds.rs:1482-1536 | one head: nothing, its observation, or its event and then its observation, up to exactly the first write that failed |
| `GitPolling.Writer.QueueEvent` | deploy/src/control.rs:901-925 | nothing is written unless the event is new, it is queued exactly when that write goes through, and nothing is known of it otherwise |
| `GitPolling.PollRefusedIff` | deploy-cli/src/git_cmds.rs:1496-1513 | a pass is refused exactly when a moved head's id is invalid or recorded with another source or revision before it began |
| `GitPolling.RequeueIsIdempotentIff` | deploy-cli/src/git_cmds.rs:1497-1533 | after a death between event and observation the next pass completes exactly when both passes name the same source |
| `GitPolling.DeliveryReads` | deploy/src/git.rs:425-438 | a poll's id says the repository, the incarnation and the commit |
| `GitPolling.DeliveryOkIff` | deploy/src/control.rs:183-200 | the id of a valid commit is accepted exactly up to a total length |
| `GitPolling.LongNamesLosePolling` | deploy/src/control.rs:183-200 | never removed, an id is accepted exactly for SHA-1 commits or names of at most 58 characters |
| `Teardown.Command.Teardown` | deploy-cli/src/commands.rs:3161-3480 | it ends as the pure run of the same answers does, its trace in order at every point; complete means everything is released but images shown in use; incomplete has its reason on record |
| `Teardown.Command.Execute` | deploy/src/engine.rs:622-694 | one action is an attempt, the request and its result, all in order; a removal ends released exactly when Docker says that the object is gone; no other entry is touched |
| `Teardown.Command.AskDocker` | deploy/src/engine.rs:672-690 | one request, and a result that counts as gone exactly when Docker says so |
| `Teardown.Command.WriteRecord` | deploy/src/engine.rs:485-491 | the ledger's rules and the journal both agree, or nothing changes |
| `Teardown.Command.PlanContainers` | deploy-cli/src/commands.rs:3280-3293 | every open container gets the action its listing decides, in order; `ActionIsRight` says which |
| `Teardown.Command.RunContainers` | deploy-cli/src/commands.rs:3324-3355 | either every action's container is released or a result that is no release is on record and nothing follows it |
| `Teardown.Command.RunImages` | deploy-cli/src/commands.rs:3374-3421 | every image has its result or a listed container that uses it |
| `Teardown.Command.RunLeases` | deploy-cli/src/commands.rs:3423-3445 | every lease is released or its port is shown mapped |
| `Teardown.Command.MayStart` | deploy-cli/src/commands.rs:3215-3256 | a start is refused for refused entries and missing receipts, and there is nothing to do only when everything is released |
| `Teardown.UncleanEndsEverything` | deploy-cli/src/commands.rs:3320-3355 | after a container that is not released nothing else is touched |
| `Teardown.FindFinds` | deploy-cli/src/commands.rs:3113-3143 | what is located has the recorded id and kind, and what is not is not listed |
| `Teardown.LocateIff` | deploy-cli/src/commands.rs:3113-3143 | an object is ours exactly when the first one listed with the recorded id and kind has this deployment's labels and, but for images, the recorded name; it is absent exactly when neither its id nor a container's name is listed |
| `Teardown.PortIff` | deploy-cli/src/commands.rs:3423-3445 | a lease's name is a port exactly when it writes a number of sixteen bits |
| `TeardownEnds.ActionIsRight` | deploy-cli/src/commands.rs:3280-3293 | an open entry is removed, recorded as absent or refused exactly as it is listed: as ours, not at all, or as something else |
| `TeardownEnds.StartIff` | deploy-cli/src/commands.rs:3215-3256 | exactly when a teardown starts, and when there is nothing to do |
| `TeardownEnds.NeverCutShort` | deploy-cli/src/commands.rs:3161-3480 | with a journal that can be written and listings that are given, a teardown that may start always ends complete or incomplete |
| `TeardownEnds.CompletesWhenFree` | deploy-cli/src/commands.rs:3161-3480 | and when everything open is listed as ours or not at all, no image is used, no port is mapped and Docker removes what it is asked to, it is complete and every entry is released |
| `HealthCheck.Health` | deploy-docker/src/backend.rs:651-800 | a pass, exactly: enough successes at the end, one container throughout, the mapping checked before and after, and for an unmarked answer the path proven then and again; and when the last attempts required all got an accepted marked answer from the same running container it does pass, as this container's own |
| `HealthCheck.RunHealth` | deploy/src/health.rs:257-298 | the loop stops at the first reason to stop and its evidence is what the attempts were; healthy evidence validates |
| `HealthCheck.HealthyValidates` | deploy/src/health.rs:134-165 | the evidence of a healthy run passes its own validation with exactly the required trailing successes |
| `HealthCheck.Probe.Try` | deploy-docker/src/probe.rs:378-450 | one attempt observes what it should and keeps the cells in step with all attempts so far; `SuccessIff` says of the attempts alone what that is |
| `HealthCheck.SuccessIff` | deploy-docker/src/probe.rs:378-450 | an attempt is a success exactly when the container was seen running, was not another one when that is watched, and the answer was its marked one, or an unmarked one at an open gate, with an accepted status |
| `HealthCheck.ExitIff` | deploy/src/health.rs:257-298 | the check ends with the container's exit exactly when the last inspection answered and found it not running |
| `HealthCheck.MarkedStops` | deploy/src/health.rs:257-298 | the required number of accepted marked answers at the end stops the loop there and not earlier |
| `HealthCheck.RecordedIff` | deploy-docker/src/probe.rs:325-350 | the recorded identity is that of the first attempt that identified the container |
| `HealthCheck.LongestIff` | deploy/src/health.rs:257-298 | what the evidence reached is the longest run of successes |
| `HealthCheck.MappingIff` | deploy-docker/src/backend.rs:606-635 | the mapping is right exactly when Docker publishes, over TCP, only the leased port and only on addresses of this host |
| `HealthCheck.PathIff` | deploy-docker/src/backend.rs:823-840 | a path is proven exactly when the container runs, its published port is the leased one on all addresses or on the loopback alone, and the proof holds |
| `HealthCheck.Probe.Accept` | deploy-docker/src/backend.rs:843-850 | the gate opens with a proof and stays open |
| `HealthCheck.PassRestsOn` | deploy/src/health.rs:264-285 | each success a pass rests on found the container running, and the same one |
| `HealthCheck.FirstAcceptedIsProven` | deploy-docker/src/backend.rs:843-850 | the first unmarked answer that is accepted is one at which the path was proven |
| `HealthCheck.OneContainerThroughout` | deploy-docker/src/probe.rs:325-350 | from the first recorded identity on, every running container seen is the same, started once, from the same image |

## Left out

- Sockets, files, processes, the Keychain, SQLite and Docker themselves: their answers are parameters; deadlines and sleeps appear only as a bit that says time is up.
- WalSafety.ReopenFindsWhatWasAcknowledged: records are any bodies without a newline that replay in order. A sync that succeeds is taken to settle all that is in the file, also after one that failed in an earlier session; deploy-journal/src/lib.rs:18-20 warns that a retried sync can lie, and against a disk that forgets what a failed sync should have written the source has no defence beyond refusing further writes until the journal is reopened.
- JournalFormat.RecoverFile: the typed fields inside a snapshot or ledger record are not decoded, so damage that only they would show is not refused.
- FileJournal.OpenWith: the lock file, the file's mode, the errors of creating and reading the file, and the counters of appends and syncs are not modelled, and all refusals are one. The clause about the run's own history holds for journals this handle wrote; what is found, kept and discarded is said of every file.
- FileJournal.Handle.MarkInterrupted: which snapshots an interrupted start changes is an input.
- BuildOutput.Decoder.Show: all that arrives is shown; a deadline or a pipe that a grandchild holds open may end the real loop earlier.
- JsonRoundTrip.ParsePrints: numbers are exact, so the rounding of a binary double and the printing of non-integers are not modelled.
- JsonParser.ParseText: a number is the exact value of its digits; the source rounds it to the nearest double.
- JsonParser.P.NumberValue: the same.
- JsonParser.Write: numbers that are not integers, which the source prints through the standard library's formatting of doubles.
- HttpReader.ReadResponse: a failed read is one error, whatever its kind, and white space around header fields is ASCII.
- HttpReader.Reader.Fill: timeouts and interrupted reads are a failed read or none.
- WebhookRequest.ReadRequest: timeouts and read errors other than the end of the connection, signature checks and event fields.
- WebhookRequest.ReadBody: the same read errors.
- Checksum.ChecksumFindsDamage: damage further apart than four bytes may leave the checksum as it is, as with any checksum of 32 bits.
- Sha256.HmacSha256: no published digest of RFC 4231 is computed; `Sha256.HmacIs` ties it to the hash.
- Sha256.ConstantTimeEq: the result; that the loop looks at every byte takes no part in it.
- SshCommand.CommandReads: the shell reader gives no answer for unquoted special characters instead of expanding them.
- SshCommand.CommandNamesItsFilesIff: ssh's reader is section-by-section what ssh_config(5) says of quoting and expansion, not its code.
- ContextWalk.ContextSize: a tree that changes during the walk, names that are not UTF-8 and failing reads of folders.
- ContextWalk.CopyTree: the check that the opened file is the listed one, and the modes of the copies.
- IgnoreFile.Parse: the wording of the notes, and white space that is not ASCII.
- SqliteStore.ReadsTheSameIff: which deployments and ledger entries rows replay to is a parameter; the theorem is about the rows.
- SqliteStore.ImportedExactlyOnce: power losses under SQLite's own durability; a committed transaction stays.
- JournalUpgrade.Folder.BackupBeforeSchema2: the sidecar's digest and text, file modes and the folder's ownership.
- JournalUpgrade.RemoveCommand: the capability gate and the second look at the registration under the lock; `GitRuns` has the latter.
- JournalUpgrade.RemovalIsAlwaysBackedUp: the removal marker and the build's gate come before any journal is opened.
- GitRuns.AddIsOk: field validation and the refusal while Git events are held only remove runs, so they are not modelled.
- GitRuns.UpdateIsOk: the confirmation for deployed applications and the refusal while events are held, for the same reason.
- GitRuns.PlanIsGood: deployments, pauses, resumes and executions share the journal but no rule here reads them.
- GitRuns.SaveIsOk: the Keychain's duplicate answers are a number of versions to skip, at most eight.
- GitPolling.Writer.QueueEvent: the source and revision of an event are taken as well formed; those of a poll always are.
- GitSafety.JournalAlwaysReplays: a generated deployment id is never given twice; Git lists each ref once.
- Teardown.Command.Teardown: which ledger entries belong to a release is a parameter; the dry run and the messages are not modelled.
- HealthCheck.Health: container logs, simulated evidence, and the reading of markers out of responses.
- Argument tables, `status`, `plan`, `doctor` and `inventory` output, Dockerfile checks, guest probes, the desktop application and its Swift sources.
- The log redactor, the release router, serving and rollback decisions, and the deployment engine's step machine.
