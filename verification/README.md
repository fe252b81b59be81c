# Verified model of xray's dump capture

xray captures JVM dumps from a running pod: it injects a toolbox container, runs the dump
commands in it, streams a gzipped tar back, scrubs heap dumps on the way, and stores the
result as one archive or as a directory. This project models that path in Dafny and proves
what it is for. `dafny verify dfyconfig.toml` checks everything.

| file | contents |
|---|---|
| `Bytes.dfy` | bytes, big-endian numbers, the two ways an input can end |
| `HprofMachine.dfy` | a scrubbing run as a function of the input: a stack of pending items and a byte budget; non-interference, budget |
| `HprofGrammar.dfy` | heap dumps as values, their printed form, what scrubbing means for them; printing is injective |
| `HprofRefinement.dfy` | the run over a printed dump: it is accepted, and the printed form of the scrubbed dump comes out |
| `HprofTheorems.dfy` | the converse, and the main results: exact acceptance, idempotence, truncation, the object graph |
| `HprofMasking.dfy`, `HprofPayload.dfy` | masking on runs that fail: of any input, exactly what it reads as primitive array values is blanked |
| `HprofErrors.dfy` | what a run reports when an input goes wrong, and what it has emitted by then |
| `Streams.dfy`, `Hprof.dfy` | the scrubber as a class with its reader, writer, scratch buffer and budget, proved to carry out the run whatever the writer does |
| `Lines.dfy` | the line redactor |
| `Archive.dfy` | size caps, atomic file replacement, counting and unpacking a tar member on a disk that may fail at any operation |
| `Bundle.dfy` | rewriting a bundle entry by entry; redacting commutes with unpacking |
| `Capture.dfy` | the stores, and a whole capture with its outcome |
| `Pipeline.dfy`, `PipelineOutcomes.dfy` | the goroutines and synchronous pipes of a capture, over all interleavings: safety, termination, and when a run can hang |
| `Toolbox.dfy` | the idle loop and the command wrapper with their two marker files, over all interleavings |
| `Injection.dfy` | adding a container under optimistic concurrency, for one client and for many |

How it is put together:

- The heap dump scrubber appears three times: as a grammar with a printer and a `Scrub`
  function that know nothing of parsing, with the format's constants written out once more, as an abstract run (`Scan`) that yields a trace of
  copied and blanked segments and a verdict, and as the imperative class. The class is
  proved against the run, the run against the grammar in both directions.
- Faults are nondeterministic. A write may fail having written any prefix, a disk operation
  may fail or half-succeed, chunk sizes are arbitrary, an input may end in a clean end of
  file or in an error at any byte. Contracts separate what holds in every case from what
  holds when no fault occurred.
- A gzipped tar member is its list of entries and the way it ends: good footer, bad footer,
  or cut in a header or in the body of an entry (RFC 1952 for gzip, the POSIX pax utility's
  ustar format for tar).
- The concurrent parts are state machines over small steps, with theorems over all infinite
  runs.

Some properties hold only under a condition, which is proved exactly:

- A command that marks itself started between the idle loop's last look and its giving up
  is killed all the same. `Toolbox.TimesOutIff` gives the condition,
  `Toolbox.MarkCanBeLate` such a run for every limit.
- A client of the injection that fails has not added its container, unless an update of its
  was applied and only the reply lost (`Injection.FailedAddedIff`); there is such a run
  (`Injection.FailedCanBeAdded`).
- A capture need not end if its producer does not: the exec goroutine is cancelled only
  after an error, and only once the redactor has finished. `PipelineOutcomes.EndsIff` says from
  which states all ways of going on end, for every state after the store is done: those
  that are not `Pipeline.CanHang`, that is, unless the producer is endless and either the
  redactor may go on reading it without writing, as it does while it looks for a footer, or
  nothing has failed. `PipelineOutcomes.EndlessDrainHangs` is a run that hangs although the store
  has failed.

The tar writer of Go's `archive/tar` refuses a regular file whose name ends in a slash
("filename may not have trailing slash"). `Bundle` copies headers through that writer, so
after a successful redaction every name tested for the `.hprof` suffix keeps it in the name
it is stored under (`Bundle.SuffixKept`), and no raw dump is stored
(`Bundle.StoredDumpsScrubbed`).

## Model

| member | source | states |
|---|---|---|
| HprofTheorems.AcceptsExactlyDumps | internal/redact/hprof.go:41-251 | An input is accepted if and only if it is the printed form of a well-formed dump; that dump is unique, and what comes out is the printed form of the dump with its primitive arrays zeroed, exactly their values having been blanked. |
| HprofErrors.HeapByTag | internal/redact/hprof.go:67-68 | Behind whole records, a record tagged 0x0C or 0x1C with well-formed sub-records is emitted with exactly its primitive array values zeroed, and the run goes on behind it; at the end of the input it is accepted. |
| HprofErrors.PlainByTag | internal/redact/hprof.go:69-71 | A record with any other tag is emitted unchanged, whatever its body, and the run goes on behind it. |
| HprofGrammar.ValueSize | internal/redact/hprof.go:178-189 | The widths of the basic types as the format lists them are those the run goes by. |
| HprofGrammar.NamesFormat | internal/redact/hprof.go:43 | What begins with the characters "JAVA PROFILE 1.0." is what the run takes for the name of the format. |
| HprofGrammar.IsDumpTag | internal/redact/hprof.go:36-39 | The tags 0x0C and 0x1C are those whose records the run looks into. |
| HprofGrammar.Num4 | internal/redact/hprof.go:201-207 | A count printed in base 256, last digit last, is what the run decodes as that count. |
| HprofErrors.NotADump | internal/redact/hprof.go:42-45 | Input without a NUL, or without the name of the format before it, is reported as no heap dump, and nothing is emitted. |
| HprofErrors.ShortHeader | internal/redact/hprof.go:49-52 | A file header that is cut short is reported as input that ends too early, or as the read error it ends in. |
| HprofErrors.BadSize | internal/redact/hprof.go:53-56 | An identifier size other than 4 and 8 is reported, behind the whole header. |
| HprofErrors.RecordCut | internal/redact/hprof.go:58-74 | Input that ends in a record header or in the body of a record that is not for a heap dump is reported so; of the body what is there was emitted. |
| HprofErrors.BehindSubs | internal/redact/hprof.go:88-138 | What a run reports and emits behind whole records and whole sub-records is what it does with the rest of the record. |
| HprofErrors.MissingSub | internal/redact/hprof.go:90-94 | Input that ends where a sub-record is due is reported so. |
| HprofErrors.UnknownTag | internal/redact/hprof.go:130-131 | A sub-record tag that is none of the format's is emitted and reported. |
| HprofErrors.UnknownArrayType | internal/redact/hprof.go:190 | An array of a type that is none of the format's is emitted up to the type, which is reported. |
| HprofErrors.ValuesCut | internal/redact/hprof.go:236-251 | Input that ends within an array's values is reported so, after zeros for every full chunk of 32 KiB of them. |
| HprofErrors.SubOverruns | internal/redact/hprof.go:209-215 | A sub-record of any kind that does not fit what is left of its record is reported as running over it. |
| HprofErrors.SubCut | internal/redact/hprof.go:217-232 | A sub-record of any kind that fits, but of which only a part is there, is reported as input that ends too early. |
| HprofRefinement.PrintedIsScrubbed | internal/redact/hprof.go:41-251 | Every well-formed dump, printed, is accepted and comes out as the printed form of its scrubbed self, which is well-formed again. |
| HprofRefinement.ScanPrinted | internal/redact/hprof.go:41-76 | The run over a printed dump takes the dump's structure step for step, however its input ends after it. |
| HprofTheorems.AcceptedIsPrinted | internal/redact/hprof.go:41-251 | From every accepted input a well-formed dump can be decoded whose printed form is that input. |
| HprofTheorems.DecodeSub | internal/redact/hprof.go:88-138 | Accepted bytes inside a heap dump record start with the printed form of one well-formed sub-record that fits the record's budget. |
| HprofTheorems.DecodeTable | internal/redact/hprof.go:147-164 | Accepted bytes at a class dump table are a count and that many entries, each with a value of its type's size. |
| HprofTheorems.DecodeRecord | internal/redact/hprof.go:57-75 | Accepted bytes at a record boundary are a whole record, heap dump or other, and then accepted bytes at a boundary again. |
| HprofGrammar.PrintUnique | internal/redact/hprof.go:41-170 | Two well-formed dumps with the same printed form are the same dump. |
| HprofGrammar.BodyUnique | internal/redact/hprof.go:95-132 | Two well-formed sub-records of one tag with the same printed form in front of whatever follows are equal, and so is what follows. |
| HprofGrammar.SubsLength | internal/redact/hprof.go:88-138 | Printed sub-records take exactly the bytes that their sizes charge to the record. |
| HprofRefinement.RunSub | internal/redact/hprof.go:95-132 | A printed sub-record of any tag is got through in its own steps, using up exactly its size. |
| HprofRefinement.RunClass | internal/redact/hprof.go:140-170 | The same for a class dump with its three tables. |
| HprofRefinement.RunEntries | internal/redact/hprof.go:152-163 | A table's entries are got through one by one, each with a value as long as its type says. |
| HprofRefinement.RunOneRecord | internal/redact/hprof.go:57-75 | A printed record is got through whole and leaves the run at a record boundary. |
| HprofRefinement.SubOut | internal/redact/hprof.go:95-132 | Of a sub-record, what is emitted is the printed form of the scrubbed sub-record. |
| HprofMachine.ScanMasks | internal/redact/hprof.go:15-26 | At whatever point a run stops, what was emitted is the input with zeros where the run blanks; on success it is as long as the input. Where that is, the rows of HprofPayload and HprofMasking say. |
| HprofPayload.BlankedIffPayload | internal/redact/hprof.go:15-26 | Of any input, accepted or not, a byte the run gets to is blanked if and only if the input reads, up to that byte, as whole records and a heap dump record with sub-records in which the byte is a primitive array value. |
| HprofPayload.EmittedAsRead | internal/redact/hprof.go:15-26 | On every run, failing ones included, the emitted bytes are those of the input with exactly these values zeroed. |
| HprofPayload.ReadSubs | internal/redact/hprof.go:88-138 | However the contents of a heap dump record begin, they read as well-formed sub-records up to the record's end or to where nothing more is blanked. |
| HprofPayload.LocateMark | internal/redact/hprof.go:57-75 | Every blanked byte is in a heap dump record behind whole records, within what the record reads as. |
| HprofMasking.BrokenOffDump | internal/redact/hprof.go:15-26 | A dump that breaks off at any byte, in a clean end or a read error, has a beginning of the scrubbed dump emitted for it. |
| HprofMasking.BeginsLikeDump | internal/redact/hprof.go:15-26 | An input that agrees with a dump on its first n bytes and goes wrong later is marked like the dump, and has the scrubbed dump's bytes emitted, as far as the run gets within these. |
| HprofMasking.StrayRecordMasked | internal/redact/hprof.go:88-138 | Behind whole records, a heap dump record of any declared length that begins like sub-records is masked like these, whether or not they fit it. |
| HprofMasking.ScanAlike | internal/redact/hprof.go:41-76 | Two inputs with their first n bytes in common have the same done to each of these, as far as both runs get, however the inputs go on or end. |
| HprofMachine.ScanIgnoresPayload | internal/redact/hprof.go:88-138 | Inputs that differ only inside primitive array values get the same run, hence the same verdict, and identical output. |
| HprofMachine.LengthsBounded | internal/redact/hprof.go:88-170 | From any record boundary, after any number of steps over any input, every length the run has pending is below 2^36, so no 64-bit arithmetic overflows. |
| HprofMachine.RunGoesOn | internal/redact/hprof.go:88-138 | These steps are the run: what it does is what it does in one step and then what it does from there. |
| HprofMachine.RespondBounded | internal/redact/hprof.go:95-132 | Whatever an item asks for next, however large the counts in the input, keeps all pending lengths below 2^36. |
| HprofMachine.AcceptedUsesBudget | internal/redact/hprof.go:209-215 | A run with `left` bytes to go in a record accepts only if the input still has that many, and no item reads past them. |
| HprofMachine.RecordConfined | internal/redact/hprof.go:57-76 | A record that is got through consumes exactly its declared length: the same record in front of any other input is run the same way, followed by what a run at a record boundary does there. |
| HprofTheorems.BrokenNeverAccepted | internal/redact/hprof.go:58-64 | An input that ends in a read error is never accepted, even at a record boundary. |
| HprofTheorems.ScrubbedStaysScrubbed | internal/redact/hprof.go:15-19 | Scrubbing the output of an accepted input succeeds in the same steps and returns it unchanged. |
| HprofTheorems.ScrubChangesBytes | internal/redact/hprof.go:15-19 | The output differs from the input whenever some primitive array value is not zero. |
| HprofTheorems.CutAcceptedIffAtRecordEnd | internal/redact/hprof.go:41-76 | A prefix of a dump is accepted if and only if it has the whole file header and ends at the end of a top-level record. |
| HprofTheorems.CutInsideRecord | internal/redact/hprof.go:58-64 | A cut inside a record's header or body is rejected. |
| HprofTheorems.CutMagic | internal/redact/hprof.go:41-48 | A cut inside the magic string, including its final zero byte, is reported as not being a heap dump. |
| HprofTheorems.ScrubKeepsGraph | internal/redact/hprof.go:15-19 | Scrubbing keeps roots, classes, instance bytes, references, array lengths and element types, in order. |
| HprofTheorems.SameNodeIff | internal/redact/hprof.go:15-19 | The graph leaves out nothing but primitive array values: two sub-records have the same node if and only if they are equal once scrubbed. |
| HprofTheorems.SameGraphReadBack | internal/redact/hprof.go:15-19 | The dump read back from the output has the same object graph, header and identifier size as the one read from the input. |
| Hprof.Scrub | internal/redact/hprof.go:20-26 | The scrubber accepts exactly the dumps, emits exactly the scrubbed dump, consumes all its input and keeps its length; on any failure it emitted what the run does up to there, or, if a write failed, a prefix of it. |
| Hprof.Scrubber.Run | internal/redact/hprof.go:41-76 | The whole pass carries out the abstract run: same output, same verdict and error, input used up on success. |
| Hprof.Scrubber.FileHeader | internal/redact/hprof.go:49-56 | The file header is copied and the identifier size taken from it; sizes other than 4 and 8 and cut headers are the errors of the run. |
| Hprof.Scrubber.Record | internal/redact/hprof.go:57-75 | One top-level record is got through and the run's outcome is unchanged; the end of the input is success only where a record would start. |
| Hprof.Scrubber.Header | internal/redact/hprof.go:78-86 | Copies k bytes and holds them in the scratch buffer; tells a clean end of file from a short read and from a read error. |
| Hprof.Scrubber.HeapDump | internal/redact/hprof.go:88-138 | A heap dump record is got through in exactly its declared length, ending with nothing left. |
| Hprof.Scrubber.SubRecord | internal/redact/hprof.go:95-135 | Each sub-record tag leads to what the format lists for it; an unknown tag is an error with nothing emitted. |
| Hprof.Scrubber.Instance | internal/redact/hprof.go:106-112 | An instance keeps position plus budget constant and the run's outcome unchanged. |
| Hprof.Scrubber.ObjectArray | internal/redact/hprof.go:113-119 | The same for an object array. |
| Hprof.Scrubber.PrimitiveArray | internal/redact/hprof.go:120-129 | The same for a primitive array, whose values are blanked. |
| Hprof.Scrubber.ClassDump | internal/redact/hprof.go:140-170 | The same for a class dump, through all three tables. |
| Hprof.Scrubber.CopyTable | internal/redact/hprof.go:147-164 | The same for a table of as many entries as its count says. |
| Hprof.Scrubber.TableEntry | internal/redact/hprof.go:152-163 | The same for one table entry with a value as long as its type says. |
| Hprof.Scrubber.TypeSize | internal/redact/hprof.go:172-191 | The size returned makes the rest of the run what the type byte asks for; a type outside the format is the run's error. |
| Hprof.Scrubber.TakeU2 | internal/redact/hprof.go:193-199 | The number returned is the one the rest of the run depends on, below 2^16. |
| Hprof.Scrubber.TakeU4 | internal/redact/hprof.go:201-207 | The number returned is the one the rest of the run depends on, below 2^32. |
| Hprof.Scrubber.Claim | internal/redact/hprof.go:209-215 | Draws k bytes from the record's budget, or reports an overrun and leaves it alone. |
| Hprof.Scrubber.Take | internal/redact/hprof.go:217-224 | Copies an item that is looked at, with the budget drawn first, and leaves in the buffer what decides how the run goes on. |
| Hprof.Scrubber.Copy | internal/redact/hprof.go:226-232 | Copies k bytes unseen within the budget; position plus budget stays constant and the run's outcome unchanged. |
| Hprof.Scrubber.Zero | internal/redact/hprof.go:236-251 | Blanks k bytes within the budget; position plus budget stays constant and the run's outcome unchanged. |
| Hprof.Scrubber.Blank | internal/redact/hprof.go:234-251 | Emits k zeros for k bytes, chunk by chunk; an input that ends early has had only whole chunks of zeros emitted. |
| Lines.LineHidesValue | internal/redact/redact.go:25-34 | A redacted line is its key and the mask, the same for every value that is redacted at all. |
| Lines.LineDecision | internal/redact/redact.go:25-34 | A line with an equals sign is redacted exactly if its key or its value, cut at the first such sign, looks secret; a line without one never is. |
| Lines.LineInCharacters | internal/redact/redact.go:10-34 | A line cut at its first '=' becomes its key and "=***REDACTED***" if either test says so, and is unchanged otherwise. |
| Lines.SplitInCharacters | internal/redact/redact.go:58-64 | Lines end at '\n', which is not part of them. |
| Lines.CountAdds | internal/redact/redact.go:81-85 | Every line that is redacted is counted once, and no other. |
| Lines.LineFixed | internal/redact/redact.go:25-34 | Redacting a redacted line changes nothing, for any two tests, and keeps its key; a second pass counts it again exactly if the key or the mask looks secret. |
| Lines.RedactedFixed | internal/redact/redact.go:25-34 | A second pass over a redacted text leaves it unchanged, and its lines are the input's lines redacted one by one. |
| Lines.SplitJoin | internal/redact/redact.go:55-69 | Splitting what was joined from lines gives these lines. |
| Lines.JoinSplit | internal/redact/redact.go:55-69 | Joining a text's lines gives the text. |
| Lines.Pieces | internal/redact/redact.go:55-69 | However a text is cut in two, its complete lines, their count and its tail are those of the first piece followed by those of its tail and the second. |
| Lines.RedactedIsReady | internal/redact/redact.go:55-79 | The redacted text is its complete lines redacted and then the unfinished one; likewise the count. |
| Lines.Writer.Write | internal/redact/redact.go:55-69 | Emits the redacted complete lines of what was buffered and p, keeps exactly the newline-free tail and counts the redacted lines; after a sink error the output is a prefix of that. |
| Lines.Writer.Flush | internal/redact/redact.go:71-79 | Emits the buffered unfinished line redacted and empties the buffer. |
| Lines.Writer.Emit | internal/redact/redact.go:81-88 | Writes one redacted line and counts it if it was redacted, even if the sink fails. |
| Lines.Session | internal/redact/redact.go:45-79 | For every way of cutting the input into writes, followed by a flush, the output is the line-wise redaction of the whole input and N the number of its redacted lines; if the sink fails it is a beginning of that. |
| Archive.UnpackedLastWins | internal/archive/archive.go:82-106 | After unpacking, a name holds the body of the last regular entry with that base name, and is untouched if there is none. |
| Archive.LastOneStays | internal/archive/archive.go:82-106 | By position: a name written to by some entries holds the body of one behind which none writes to it; all other names are untouched. |
| Archive.BaseOf | internal/archive/archive.go:94 | The base name of any path is the element behind the last slash that has one, whatever directories are before it and however many slashes follow; "/" for slashes only, "." for nothing. |
| Archive.BaseIsOneElement | internal/archive/archive.go:94 | A base name other than "/" contains no slash. |
| Archive.CountIsOfRegulars | internal/archive/archive.go:72-74 | What is counted is the set of positions of regular entries. |
| Archive.NamesInOrder | internal/archive/archive.go:103-105 | The paths returned are the base names of the regular entries, in order. |
| Archive.NamesCounted | internal/archive/archive.go:54-106 | An extraction returns as many paths as counting finds regular entries. |
| Archive.CapWrite | internal/archive/archive.go:161-172 | A write that does not fit what is left of the budget fails and changes nothing; any other draws its length from the budget. |
| Archive.NewLimiter | internal/archive/archive.go:144-150 | A cap that is not positive is no limit; any other is the budget. |
| Archive.CopyInto | internal/archive/archive.go:95-98 | For every way of cutting data into chunks, the cap trips exactly if data does not fit, and at every step the file is within the cap. |
| Archive.FillAndRename | internal/archive/archive.go:126-138 | At every step nothing but the temporary file differs from before and that file is within the cap, or the rename has put the complete content in place; only a complete input gets there. |
| Archive.WriteFile | internal/archive/archive.go:108-139 | At every step the path holds its previous content or the complete new one, and no more is written than the cap allows; after an error everything is as before, but for a temporary file that could not be removed. |
| Archive.CountTarEntries | internal/archive/archive.go:50-78 | Succeeds exactly for a complete member with a good footer, and then counts its regular entries. |
| Archive.Write | internal/archive/archive.go:16-27 | The reader stops at some point behind the member's end or reads to the end of the stream. On success the file holds the bytes that were read and n is the number of regular entries they read as; any failure, a bad footer or a cut included, leaves the previous file; the cap trips exactly if the bytes read exceed it. |
| Archive.ExtractTar | internal/archive/archive.go:80-106 | The entries are unpacked in order under one budget, which the total of their bodies exceeds exactly if the cap trips; at every step what is in place and what is in the temporary file together are within it. |
| Archive.Extract | internal/archive/archive.go:29-48 | On success the directory is the last-wins unpacking of all entries; the cap trips exactly if their bodies exceed it in total; a failure leaves the unpacking of some of the entries; no name added or returned on success contains a slash; at every step each path is old or complete and the bytes written in all are within the cap; a fault is reported only if a disk operation failed. |
| Bundle.CopyBody | internal/redact/hprof.go:282-289 | An entry's bytes go through scrubbed or as they are; success means that all of them did and as many came out. |
| Bundle.CopyEntry | internal/redact/hprof.go:279-289 | One entry is copied under its header; unless a write fails this succeeds exactly if the header can be written, its bytes are all there and those of a .hprof entry are a dump. |
| Bundle.Rewrite | internal/redact/hprof.go:260-298 | Unless a write fails it reports the first failure in the member, and succeeds exactly for a complete input with a good footer, dumps in all .hprof entries and headers that can be written; the output is then that member redacted and unpacks to the redacted files of the input. Otherwise the output is an unfinished prefix of it. A tar header never disagrees with the length of what follows it. |
| Bundle.FirstFailure | internal/redact/hprof.go:271-290 | The failure reported is that of the first entry that fails, if one does. |
| Bundle.EntrySucceedsIff | internal/redact/hprof.go:279-289 | An entry succeeds exactly if its header can be written and, if its name ends in .hprof, its bytes are a heap dump. |
| Bundle.CompleteIff | internal/redact/hprof.go:262-298 | No failure in a member means exactly that it can be redacted. |
| Bundle.HprofNames | internal/redact/hprof.go:282 | The names of heap dumps are exactly those of the form stem + ".hprof". |
| Bundle.UnwritableNames | internal/redact/hprof.go:279-281 | The headers a tar writer refuses for their names are exactly those of regular files named stem + "/". |
| Bundle.TarWriter.WriteHeader | internal/redact/hprof.go:279-281 | A new entry starts only when the previous one has got all its bytes; a regular file whose name ends in a slash is refused. |
| Bundle.TarWriter.Close | internal/redact/hprof.go:294-297 | The stream is sealed only when its last entry has got all its bytes. |
| Bundle.RedactKeeps | internal/redact/hprof.go:15-19 | Redacting keeps an entry's name and kind and, if it is accepted, its length. |
| Bundle.RedactedCounts | internal/redact/hprof.go:262-298 | Redacting keeps the number of regular entries, their base names in order and, if all are accepted, their total size. |
| Bundle.CapUnaffected | internal/archive/archive.go:29-48 | Redaction never changes whether the cap of an extraction trips. |
| Bundle.RedactionCommutesWithUnpacking | internal/redact/hprof.go:262-298 | For every member whose headers can be written, and so every member whose redaction succeeds, unpacking it redacted gives the files of the original, those from .hprof entries scrubbed and all others identical, whatever was in the directory. |
| Bundle.StoredDumpsScrubbed | internal/redact/hprof.go:282-286 | After unpacking a redacted member, every .hprof file that came from it is a well-formed dump that scrubbing leaves unchanged. |
| Bundle.SuffixOfBase | internal/archive/archive.go:94 | An entry whose name has the suffix is stored under a name that has it. |
| Bundle.SuffixKept | internal/archive/archive.go:94 | For a regular file whose header can be written, the entry's name has the suffix if and only if the name it is stored under has it. |
| Capture.Put | internal/xray/dump.go:35-50 | Both stores succeed exactly for a complete member within the cap, if the disk does not fail, whatever follows the member in the stream; they return the same number and then hold the bytes read or the member's unpacking. |
| Capture.Redactor | internal/xray/dump.go:59-63 | Whatever the redactor has written at some point reads as a complete member only if it is all of the redacted one; unless a write fails it gets there exactly for a member that can be redacted. |
| Capture.WrittenIsLawful | internal/xray/dump.go:59-63 | No part of a stream that comes to the redacted member, or to an unfinished one, reads as a complete member other than the redacted one. |
| Capture.RedactPut | internal/xray/dump.go:56-70 | Success means that the redacted member is stored. The redactor's own failure is always the one reported; unless a write or the disk fails, the result is that failure, or the store's that the cap is exceeded, or success, in this order. |
| Capture.CaptureBundle | internal/xray/dump.go:185-206 | Success means the command ended without error, the footer was good, exactly the wanted number of regular entries arrived and, when redacting, no raw dump is stored. Without a fault each result has the first of its causes: an exit code, input that cannot be stored, a stream that broke off, a wrong count; and success comes exactly if there is none. |
| Capture.SuccessSideBySide | internal/xray/dump.go:161-205 | With command, redactor and store running side by side in any interleaving, a capture that reports success had the whole output of a command that ended without error, and its store read the complete member this is, redacted if it was to be, with the wanted number of regular entries. What it asks of redactor and store is what Capture.Redactor and Capture.Put promise. |
| Pipeline.NeverStuck | internal/xray/dump.go:56-70 | In every interleaving some step other than a failure of the producer is possible until the main flow has finished, and then both goroutines have. |
| Pipeline.EveryRunFinishes | internal/xray/dump.go:161-190 | Every run of a producer that makes only so many writes ends with both goroutines finished and both results received. |
| PipelineOutcomes.EndsIff | internal/xray/dump.go:185-190 | In every state after the store is done, with or without an error, all ways in which the run can go on end, with everything finished and received, if and only if it is not so that the producer is endless and either the redactor may read it for ever or nothing has failed and so nothing is cancelled. |
| PipelineOutcomes.HangsFrom | internal/xray/dump.go:185-190 | Every run can go on from such a state in a way that never ends. |
| Pipeline.FailedStoreFinishes | internal/xray/dump.go:185-190 | However much the producer would still write, a run whose store has failed ends, since the producer is cancelled, unless the redactor may go on reading for ever without writing. |
| Pipeline.FailedPutFinishes | internal/xray/dump.go:185-190 | The same, without a condition, once storing has returned with an error of the store or of the redactor. |
| PipelineOutcomes.EndlessDrainHangs | internal/xray/dump.go:65-66 | There is a run in which the store fails at once and a redactor that drains an endless stream is waited for for ever. |
| Pipeline.StepFalls | internal/xray/dump.go:185-190 | Every step after a failure of the store uses up a stage of the main flow, work of the redactor, or what the producer can do without a reader. |
| Pipeline.StepDescends | internal/xray/dump.go:56-70 | Every step uses up bytes of the producer, work of the redactor or a stage of the main flow. |
| Pipeline.RunKeeps | internal/xray/dump.go:161-190 | In every reachable state the ends of the pipes and the results are waited for in the same order, and both pipes have delivered what was written, in order. |
| Pipeline.StoreReadsInOrder | internal/xray/dump.go:56-70 | At every point the store has read a prefix of what its writer wrote; it sees a clean end only after all of it, from a writer that ended without error; a producer that ends without error was read to its end. |
| Pipeline.DoneWithoutError | internal/xray/dump.go:56-70 | When all is done without an error the store has read something final from the beginning of what its writer wrote. |
| PipelineOutcomes.NoFaultNoError | internal/xray/dump.go:56-70 | No error is made up: if the command does not fail, the redactor finds nothing wrong and the store succeeds, every run of a producer that ends is over without an error and with the whole stream read. |
| PipelineOutcomes.RedactorErrorKept | internal/xray/dump.go:66-69 | An error of the redactor makes the whole an error, whatever the store says. |
| Pipeline.RawFlowStep | internal/xray/dump.go:161-190 | Whoever reads the first pipe, no byte of it is lost, repeated or reordered. |
| Pipeline.RedactedFlowStep | internal/xray/dump.go:56-70 | The same for the second pipe while its reader is there. |
| Toolbox.NeverStartedTimesOut | internal/xray/ephemeral.go:36-42 | A toolbox whose command never starts exits with code 1 after exactly the given number of sleeps. |
| Toolbox.ExitCodes | internal/xray/ephemeral.go:40-51 | The loop exits with 1 only after exactly that many sleeps, and with 0 only once the command was started and has ended. |
| Toolbox.StartedInTime | internal/xray/ephemeral.go:40-51 | A started mark made before the loop's last look keeps it from ever timing out; it does not exit before the command has ended. |
| Toolbox.HeadIsInTime | internal/xray/ephemeral.go:41 | At the head of the loop the count has not passed the limit, so that a mark appearing there is in time. |
| Toolbox.TimesOutIff | internal/xray/ephemeral.go:40-51 | Once the started mark is there, the loop times out if and only if it had already taken its last look when the mark appeared. |
| Toolbox.MarkCanBeLate | internal/xray/ephemeral.go:40-51 | For every limit there is a run in which a started command is cut off that way. |
| Toolbox.TrapsMarkDone | internal/xray/ephemeral.go:44-51 | Once its traps are installed the wrapper cannot end, by itself or by a signal, without the done mark. |
| Toolbox.LeavingStopsLoop | internal/xray/ephemeral.go:44-51 | A wrapper that runs its EXIT trap makes the done mark, and the idle loop exits with code 0. |
| Toolbox.EndedCommandStopsToolbox | internal/xray/ephemeral.go:44-51 | A command started in time under its traps stops the idle loop with code 0 once it is over, by itself or by a signal. |
| Toolbox.MarkIsMade | internal/xray/ephemeral.go:49-51 | A wrapper that can make its started mark does so, unless the toolbox gives up before. |
| Toolbox.StartedCommandRuns | internal/xray/ephemeral.go:49-51 | A wrapper that made its mark in time gets to run its command, unless a signal kills it before its traps are there. |
| Toolbox.LeavesAfterCommand | internal/xray/ephemeral.go:49-51 | The traps run, and the done mark is made, only after the command has been run. |
| Injection.Inject | internal/xray/ephemeral.go:176-197 | Whatever others write meanwhile, nothing in the list is dropped; the container is added once on success, not at all on a conflict, and otherwise once or not at all as the lost update was applied or not. Unless the server is not reached or a reply is lost, the first update that is not refused succeeds, and a conflict is reported exactly after five refusals, each because of a write by others. |
| Injection.Server.Update | internal/xray/ephemeral.go:180-197 | Unless the reply is lost, the update is applied exactly if the list was not written since it was fetched, and refused otherwise. |
| Injection.StepKeepsList | internal/xray/ephemeral.go:176-197 | Every step of every client only adds to the end of the list and gives all other clients what they rely on. |
| Injection.InjectedExactlyOnce | internal/xray/ephemeral.go:176-197 | In every run each successful client's container is in the list exactly once, at the end of the list it was given, which begins the list ever after; one of a client still trying or out of attempts is not in it. |
| Injection.GivesUpAfterFive | internal/xray/ephemeral.go:184-192 | Of many clients, each has gone back to fetch the list after every refusal but the fifth, and gives up on conflicts exactly at the fifth. |
| Injection.FailureHasCause | internal/xray/ephemeral.go:184-195 | A client fails otherwise only where the server could not be reached or an answer of it was lost. |
| Injection.FailedAddedIff | internal/xray/ephemeral.go:187-191 | The container of a client that failed otherwise is in the list if and only if some step of the run applied its update and lost the reply. |
| Injection.FailedCanBeAdded | internal/xray/ephemeral.go:187-191 | There is a run in which a failed client's container is in the list. |
| Injection.NothingDropped | internal/xray/ephemeral.go:176-197 | In every run the list only grows at its end, whoever wrote it. |

## Left out

- The network: Kubernetes client calls, exec streaming, watches and logs. The API server is a versioned list with compare-and-swap; that clients do not share a container name is assumed.
- Injection.NothingDropped: that other writers only add to the list is assumed of them, as the API server lets no one remove or change an ephemeral container.
- Capture.CaptureBundle: of the archive format it is assumed that reading stops at a footer and that what the redactor of the member at hand can write reads as what it is.
- DEFLATE, CRC-32 and tar header encoding: a member is a list of entries and an ending, so header fields other than name, kind and size are not modelled. Of the headers a tar writer refuses, a regular file's name with a trailing slash is; any other refusal is a write fault.
- Hprof.Scrub: leaves out the two 64 KiB buffers and the final flush. Writes reach the sink at once, so on a failing run the real destination may hold fewer bytes than the model's sink.
- Hprof.Scrubber.Header: destination errors that are themselves `io.EOF`. A write fault is a fault of its own in the model, while the code would take such an error for the end of the input.
- File modes, fsync and directories: `Chmod`, `Sync` and `Close` are operations that may fail and change no contents. One flat directory is modelled. Names that are directories cannot be replaced.
- Archive.Write: how bytes read as a member is an arbitrary function. Counting comes before writing rather than chunk by chunk beside it, and the number returned with an error is not specified.
- Archive.WriteFile: cleaning up may fail, in which case a temporary file is left behind; the contract says so. Retries of the random temporary name are one failure.
- Capture.RedactPut: redactor and store run one after the other, so a store that stops early is a failed write that may come at any point. Side by side they are in `Pipeline` and Capture.SuccessSideBySide.
- Redactor, store and command in one method: how the command ended is a parameter of Capture.CaptureBundle, and cancellation is in `Pipeline`.
- Pipeline.EveryRunFinishes: writes of no bytes are not modelled, nor that a cancelled exec goroutine may never notice: it does after some number of further writes.
- The contents of the secret patterns: `Lines` takes any two predicates over bytes.
- Toolbox.TrapsMarkDone: creating the done mark is assumed to work, as creating the started mark did, and not to be interrupted: a further signal while the EXIT trap runs could keep the mark from being made. SIGKILL is left out; a signal before the traps are installed kills the wrapper without a done mark.
- Toolbox.NeverStartedTimesOut: assumes that the idle loop is always scheduled again; nothing is assumed of the wrapper. The theorems on what the wrapper does assume that it is scheduled again too, but not that its command ends.
- Shell scripts of the dump steps, command line flags, choice of pod and user, and the debug terminal.
