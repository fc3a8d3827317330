# ipcap, verified

ipcap ships captured packets from an agent to a collector exactly once. A capture
process appends packets to a segmented spool on disk and numbers them (gpidx); a
read-only serve process tails the spool and streams frames; a collector dedupes the
frames and commits them into mirror session files with a crash-safe resume point.
This project models that protocol in Dafny and proves what it promises, from the
bytes of a record up to whole runs of the system.

The headline result is `ExactlyOnce.ExactlyOnce`. A run interleaves, in any order,
writes, syncs, rotations, reaps, agent crashes and recoveries, agent wipes, the three
separate reads of a reader's refresh, batch flushes, gaps, connections cut at any byte,
and collector crashes between any two durable steps. In every state of every run a
packet between the start of an epoch's first session and the end of its last is held by
exactly one of them, or by none and its file had been reaped. (The first epoch's first
session starts at 0; where a later one starts is finding 4.) What is held is the record
the writer gave that gpidx after the link's conversion, which is that record exactly when
its microseconds survive a 32-bit multiplication by 1000.

`Delivery.EverythingGetsThrough` is its partner: from every reachable state whose spool
is up, steps in which nothing crashes and nothing is written or lost commit the whole log,
provided that serve takes a large enough snaplen from the newest file. `Stall.DeliveryIff`
shows that the proviso is exact. Under "Assumptions" stands what a run does not contain.

## Layout

| file | part |
|---|---|
| `Bytes.dfy`, `Pcap.dfy` | fixed-width integers; libpcap records, the torn-tail scanner and the other record walkers |
| `Recovery.dfy`, `Spool.dfy`, `Writer.dfy` | crash recovery of any disk; the spool as a state machine; the writer and janitor as an object that takes its steps |
| `Reader.dfy` | the tailing reader: refresh under interleaving, the cached seek position |
| `Wire.dfy`, `Frames.dfy`, `Link.dfy` | batch payloads, CRC frames cut anywhere, and what a cut byte stream means to the collector |
| `Stream.dfy`, `Serve.dfy` | the shape of a lawful event stream, and the serve loop that emits one |
| `Mirror.dfy`, `Demux.dfy` | the mirror's durable steps, crash and reopen; commit, gaps, epochs, dispatch |
| `History.dfy`, `System.dfy` | sessions judged against the logs; the whole system as one machine, down to the bytes on the link |
| `ExactlyOnce.dfy`, `Paths.dfy`, `Delivery.dfy`, `Stall.dfy`, `Epochs.dfy` | results over its runs: safety, delivery and when it stalls, epoch changes |
| `Refinement.dfy` | every pass of the serve loop is a sequence of the system's serve steps, and the collector's steps on a message come to the operation that handles it |
| `Keylog.dfy`, `Nss.dfy`, `FanOut.dfy` | the keylog merge, the line test it uses, and the PCAP-over-IP client loop |

Steps and invariants are stated on values (`Spool.Spool`, `Mirror.Mirror`,
`System.System`). Code that updates an object in place is a class. The methods of the
writer, the mirror and the demux are proved equal to runs of the machines' steps, and a
pass of the serve loop is proved to do what a function of its state says
(`Serve.Turned`), which `Refinement.TurnIsSteps` shows to be a sequence of the system's
serve steps. The reader is proved against the durable log, the keylog merge against the
plain meaning of a file.

## Assumptions

What the machines take for granted, and so what no run contains:

- Every I/O step succeeds or the process crashes there. fsync is honest: a crash keeps
  every synced byte, may keep anything after it in the newest file, and may lose an
  unsynced manifest entry, an unsynced new file or the contents of the head pointer. The
  latest unlinks may be undone by a crash; they reach the disk in the order they were
  made. What survives a crash is then stable. The manifest loses whole entries only.
- The head pointer does not go back to an older published one: its rename is followed by
  a sync of the directory (internal/pcapio/durable.go:49-52).
- Writing a small file atomically (head pointer, resume state) is one step, and a
  published snapshot of the mirror is read in one step.
- A spool that is down recovers only if its disk is anchored: its oldest file is sealed or
  starts the history. A run that would recover any other disk stops there; finding 1 is
  what the code then does.
- A spool instance restarts with the snaplen it had, and a collector with one no smaller
  than the agent's. Findings 3, 7 and 8 are what happens otherwise. Serve's own snaplen is
  whatever the newest file's header says.
- Captured data is no longer than the snaplen; gpidx stay below 2^64; a flushed batch is
  within the wire's count and payload limits, as `Serve.DefaultsFit` shows for the
  defaults. Microseconds are any 32-bit value.
- Wiping an agent starts a new spool instance with a new epoch and ends the serve
  process of the old one; bytes already on the link may still arrive.
- The checksum, the compressor and the merge's line test are arbitrary functions; of the
  compressor it is asked that the collector can undo it.

## Findings

Eight properties one might expect of the code are false as stated. Each has an input and
its exact condition:

1. Recovery can reissue gpidx. When the janitor has removed every sealed file, the lone
   active file is unsealed and recovery starts it at 0
   (`Spool.ReapingEverySealedFileReissues` is such a run). Ranges come back unshifted
   exactly when the oldest file is sealed or starts the history
   (`Spool.RecoveryExactIff`); a byte cap that leaves room for the active file and the
   newest sealed one keeps it so (`Writer.CapKeepsSealed`, `Spool.SealedFileAnchors`).
2. `recordOffsetForCount` counts a record whose body is torn (`Pcap.TornBodyCounted`); it
   agrees with the scanner exactly when there is no such tail or it is not reached
   (`Pcap.WalkersAgreeIff`).
3. `OpenMirror` lowers the commit point, a branch described as one that should not
   happen, exactly when a committed record exceeds the snaplen it is started with
   (`Mirror.LoweringLoses`, `Mirror.LoweringIff`).
4. An epoch change can pass over packets the fresh spool still holds
   (`Epochs.RealignmentSkips` is such a run, `Epochs.SkippedForever` its consequence),
   exactly when the old commit point lies above its oldest packet and not past its head
   (`Epochs.RetainedSkippedIff`).
5. A record survives the link exactly when its microseconds are at most 4294967, and a
   batch exactly when it has fewer than 65536 records (`Wire.ConversionIff`,
   `Wire.BatchRoundTrip`).
6. The keylog merge depends on how its reads are cut. The line test trims blanks before it
   measures, so it accepts a key followed by 300 blanks, and that line is lost when its
   newline comes in another read (`Nss.MergeDependsOnReads`). A file's relay is
   independent of its reads exactly when each of its lines over 256 bytes is invalid or
   repeats a key already out (`Keylog.ChunkFreeIff`).
7. A spool restarted with a smaller snaplen can reissue gpidx
   (`Spool.SmallerSnaplenReissues` is such a run): its durable records survive exactly
   when those of the active file all fit (`Spool.SnaplenIff`).
8. A durable packet can be undeliverable. Serve takes its snaplen from the header of the
   newest file, and a crash right after that file was created can leave a header no one
   wrote, which recovery keeps (`Stall.BogusHeaderStalls` is such a run). As long as the
   spool stays as it is, the log can be committed exactly when every packet from where a
   connection starts fits that snaplen (`Stall.DeliveryIff`). Nothing but a crash brings
   in such a header (`Spool.HeadersStay`, `Delivery.OwnHeadersServe`).

## Model

| member | source | states |
|---|---|---|
| `Bytes.ByteAt` | internal/proto/frame.go:39-49 | byte i of an integer is its i-th digit base 256, counted from the front little-endian and from the end big-endian |
| `Pcap.FirstRecordIff` | internal/pcapio/pcapio.go:79-99 | parsing the front of any byte string yields r exactly when the string begins with r's encoding and r fits the snaplen |
| `Pcap.StrictPrefixHasNoRecord` | internal/pcapio/pcapio.go:140-175 | a record cut anywhere parses as no record |
| `Pcap.ScanSound` | internal/pcapio/pcapio.go:140-175 | on every byte string, the records accepted re-encode to exactly the bytes accepted, and what follows holds no further record |
| `Pcap.ScanAppend` | internal/pcapio/pcapio.go:140-175 | encoded records followed by anything scan to those records followed by a scan of the rest |
| `Pcap.ScanIsMaximal` | internal/pcapio/pcapio.go:140-175 | no longer list of fitting records is a prefix of the bytes |
| `Pcap.ScanIdempotent` | internal/spool/recover.go:134-182 | scanning the truncated file gives the same records and no residue |
| `Pcap.ScanTornTail` | internal/pcapio/pcapio.go:140-175 | records plus any strict prefix of one more scan to exactly those records |
| `Pcap.ScanOfPrefix` | internal/pcapio/pcapio.go:140-175 | a scan of any prefix of encoded records is a prefix of the records |
| `Pcap.EncodeAllInjective` | internal/pcapio/pcapio.go:79-87 | record lists with equal bytes are equal |
| `Pcap.RecordBytes` | internal/pcapio/pcapio.go:79-87 | a record is seconds, microseconds, captured length and original length in four little-endian words, then its data |
| `Pcap.HeaderBytes` | internal/pcapio/pcapio.go:34-51 | the global header has each constant and field at its offset |
| `Pcap.ScanRecords` | internal/pcapio/pcapio.go:140-175 | the scanning loop returns the records and the byte length of the specification scan |
| `Pcap.EncodeRecords` | internal/collector/mirror.go:217-224 | the append buffer is the concatenated encodings |
| `Pcap.ReadRecordAtIff` | internal/pcapio/pcapio.go:108-130 | on any file and at any offset a record is read if and only if it fits the snaplen and its whole encoding lies there within the limit |
| `Pcap.ReadsWithinLimit` | internal/pcapio/pcapio.go:100-107 | files that agree up to the limit give the same result, whatever lies past it |
| `Pcap.ReadRecordAtOffset` | internal/pcapio/pcapio.go:108-130 | at the offset of record n, reading within the durable length returns record n and the offset of n+1, and at the end reports that there is nothing yet |
| `Pcap.SkipTo` | internal/spool/reader.go:198-208 | on every file, position's loop ends where the headers lead, or fails past the end |
| `Pcap.WalkToFinds` | internal/spool/reader.go:198-208 | in a file of records the n-th header is where the n-th record is |
| `Pcap.ReadsFitting` | internal/pcapio/pcapio.go:108-130 | a reader with any snaplen gets record n exactly if it fits, an error if not, nothing at the end |
| `Pcap.HeaderRoundTrip` | internal/pcapio/pcapio.go:34-64 | parsing an encoded global header gives it back, whatever follows |
| `Pcap.RecordOffsetForCount` | internal/collector/mirror.go:163-178 | on every file the loop stops where the scanner's records, one torn body and the wanted count say |
| `Pcap.WalkersAgreeIff` | internal/collector/mirror.go:163-178 | its count equals the scanner's, capped, if and only if the wanted count is within the scan or no torn body follows it |
| `Pcap.WalkFinds` | internal/collector/mirror.go:163-178 | on a file carrying n fitting records, asking for n stops exactly past the n-th |
| `Pcap.StopsAtOversize` | internal/collector/mirror.go:171-173 | both the scan and the walk stop at the first record longer than the snaplen |
| `Pcap.TornBodyCounted` | internal/collector/mirror.go:163-178 | a file of one record cut in its body: the scanner finds none, the walk counts one and points past the end |
| `Recovery.LoadManifest` | internal/spool/manifest.go:65-96 | the loaded map holds the last entry per segment number |
| `Recovery.PastEverything` | internal/spool/recover.go:40-69 | with no files, head and next number are the least past every entry of the loaded manifest |
| `Recovery.RecoverSpool` | internal/spool/recover.go:33-127 | on every disk and manifest, recovery succeeds if and only if some contiguous chain of ranges fits, and then returns it with head, oldest, active, repaired file and the exact re-seal list; with no files it goes on past the loaded manifest |
| `Recovery.ChainUnique` | internal/spool/recover.go:70-119 | at most one chain fits a disk |
| `Recovery.ChainIff` | internal/spool/recover.go:70-119 | a chain fits if and only if every listed file starts where the running counter stands and every other file but the newest has a good header |
| `Recovery.ChainRuns` | internal/spool/recover.go:70-119 | a chain's ranges lie between the values of the running counter before and after each file |
| `Recovery.ChainIsContiguous` | internal/spool/recover.go:81-83 | each range starts where the previous ends |
| `Recovery.Resealed` | internal/spool/recover.go:111-117 | the manifest recovery writes says of every file what it said before, and of each re-sealed one its range |
| `Recovery.RecoverTwice` | internal/spool/recover.go:70-126 | recovering the disk and manifest that recovery left finds the same ranges, for every disk and manifest |
| `Recovery.RepairHolds` | internal/spool/recover.go:134-200 | the repaired active file is a header and exactly the scanned records: a front part of what it was, or with a bad header just a new one |
| `Recovery.ScanFileKeeps` | internal/spool/recover.go:134-182 | whatever bytes follow the durable ones, the scan begins with the durable records |
| `Recovery.RecoveryRebuildsChain` | internal/spool/recover.go:70-126 | from an anchored disk, with any manifest entries lost, recovery finds every true range |
| `Recovery.UnanchoredShifts` | internal/spool/recover.go:91-97 | the oldest file's start comes back right if and only if the disk is anchored |
| `Spool.WriteKeeps` | internal/spool/spool.go:182-210 | appending a record keeps the invariant and everything durable |
| `Spool.SyncKeeps` | internal/spool/spool.go:231-240 | so does the data sync |
| `Spool.PublishKeeps` | internal/spool/spool.go:243-252 | so does publishing the head pointer, which then claims only synced records |
| `Spool.SealKeeps` | internal/spool/spool.go:256-270 | so does appending a manifest entry for a synced, published segment |
| `Spool.SealSyncKeeps` | internal/spool/spool.go:281-295 | so does syncing the entry |
| `Spool.CreateKeeps` | internal/spool/spool.go:140-150 | so does creating the next file, whatever it holds before it is written |
| `Spool.OpenKeeps` | internal/spool/spool.go:140-178 | so does writing its header |
| `Spool.ReapKeeps` | internal/spool/janitor.go:66-83 | so does unlinking the oldest of several files |
| `Spool.ReturnKeeps` | internal/spool/janitor.go:89-102 | so does a crash undoing unlinks that never reached the disk |
| `Spool.CrashKeeps` | internal/spool/spool.go:231-295 | a crash between any two steps leaves a state that satisfies the invariant and keeps every durable record and sealed range |
| `Spool.RecoveredRanges` | internal/spool/recover.go:70-126 | from a crashed, anchored spool the only chain recovery can find is the true one |
| `Spool.RecoverKeeps` | internal/spool/recover.go:33-127 | recovery keeps every durable record and every sealed range, and restores the invariant |
| `Spool.StepKeeps` | internal/spool/spool.go:182-295 | every step of the spool machine keeps the invariant and only extends what is durable |
| `Spool.NoReissue` | internal/spool/recover.go:25-32 | between any two states of any run every durable gpidx keeps its record and every sealed segment its range |
| `Spool.SnaplenIff` | internal/spool/recover.go:168-176 | restarted with another snaplen, a spool keeps its durable records if and only if those of the active file all fit it |
| `Spool.SmallerSnaplenReissues` | internal/spool/recover.go:168-176 | a run after which a restart with a smaller snaplen starts again at a durable gpidx |
| `Spool.BogusHeader` | internal/spool/recover.go:154-176 | a run after which the newest file has a header with snaplen 0 that no one wrote, and the spool goes on |
| `Spool.HeadersStay` | internal/spool/spool.go:140-178 | only a crash can bring in a header that is not the spool's own |
| `Spool.ChainUnder` | internal/spool/recover.go:33-127 | recovery refuses no disk a crash can leave, anchored or not, whatever its snaplen |
| `Spool.RecoveryExactIff` | internal/spool/recover.go:91-97 | a crashed spool's ranges come back unshifted if and only if its oldest file is sealed or starts the history |
| `Spool.RecoverySucceeds` | internal/spool/recover.go:33-127 | recovery refuses no disk a crash of an anchored spool can leave |
| `Spool.SealedFileAnchors` | internal/spool/janitor.go:37-85 | steps whose reaps leave a sealed file behind keep the spool anchored |
| `Spool.CutTailRecoversPrefix` | internal/spool/recover.go:134-182 | if the crash left a prefix of what was written, recovery ends between the durable and the pre-crash head |
| `Spool.ReapingEverySealedFileReissues` | internal/spool/recover.go:91-97 | a run in which every sealed file is reaped and recovery gives a durable gpidx to another record |
| `Reader.RefreshSeesTrueChain` | internal/spool/reader.go:77-116 | whatever happens between the listing, the manifest and the head read, the view is a hole-free chain of true ranges from the oldest file listed, none beyond the durable end |
| `Reader.RefreshIsTrueView` | internal/spool/reader.go:77-116 | such a view is ascending, disjoint and within each segment's durable extent |
| `Reader.LaterGrows` | internal/spool/reader.go:131-181 | what readers believe of a spool only grows |
| `Reader.OpenAt` | internal/spool/reader.go:44-64 | a resume point in range is kept, one older than retention or past the head becomes the oldest packet, and only the former counts as reaped |
| `Reader.FileBacks` | internal/spool/reader.go:185-221 | a file on disk holds what any true view claims of it |
| `Reader.TailReader.constructor` | internal/spool/reader.go:44-64 | a new reader has the view of one refresh and stands at the opening position |
| `Reader.TailReader.Refresh` | internal/spool/reader.go:77-116 | the loop builds the specified view with its oldest and head |
| `Reader.TailReader.Owning` | internal/spool/reader.go:119-126 | finds an entry that owns the gpidx, or none does |
| `Reader.TailReader.Position` | internal/spool/reader.go:185-210 | succeeds exactly when the file can be opened, and leaves the offset a fresh scan gives |
| `Reader.TailReader.ReadsLog` | internal/spool/reader.go:214-221 | the record at the cached offset is the log record at the reader's gpidx, read exactly if it fits the reader's snaplen |
| `Reader.TailReader.Next` | internal/spool/reader.go:131-181 | with any snaplen, returns the log record at its position and advances by one, or says truthfully that it is reaped, absent, gone or too long; absent only of a view refreshed in this call, gone only when the file is neither open nor on disk; terminates; the cached offset stays what a scan would give |
| `Reader.TailReader.ReadOwned` | internal/spool/reader.go:162-180 | reads the owned record unless its file can no longer be opened or it exceeds the snaplen |
| `Reader.TailReader.StaysValid` | internal/spool/reader.go:131-221 | nothing the spool does later spoils the view or the cached offset |
| `Writer.SpoolWriter.constructor` | internal/spool/spool.go:72-136 | on every disk a crash can leave and with any header, the writer goes on from the one chain recovery finds; on an anchored disk with its own header that is recovery, then a new segment if none is active, then a published head |
| `Writer.SpoolWriter.PublishHead` | internal/spool/spool.go:243-252 | is the machine's publish step |
| `Writer.SpoolWriter.Sync` | internal/spool/spool.go:231-240 | is sync then publish, and clears the pending bytes |
| `Writer.SpoolWriter.SealToManifest` | internal/spool/spool.go:281-295 | is seal then sync of the entry |
| `Writer.SpoolWriter.OpenNewSegment` | internal/spool/spool.go:140-178 | is create then open, starting at the head |
| `Writer.SpoolWriter.Rotate` | internal/spool/spool.go:256-277 | is sync, publish, seal, sync, create, open, publish, in that order |
| `Writer.SpoolWriter.WritePacket` | internal/spool/spool.go:182-210 | assigns the old head, logs the record (with a zero original length filled in), then syncs and rotates exactly when due; when anything was due all is durable and the published head is the head, and a rotation leaves an empty segment there |
| `Writer.SyncedIs` | internal/spool/spool.go:231-252 | after a sync all that is logged is durable, the published head names its end and byte length, and nothing else has moved |
| `Writer.RotatedIs` | internal/spool/spool.go:256-277 | after a rotation the old newest segment is sealed with its whole range, and an empty one that starts at the head is the newest and the published one |
| `Writer.WrittenIs` | internal/spool/spool.go:182-210 | after a write the packet is durable and published if a sync or rotation was due, and otherwise durable end and head pointer are as before; only a rotation starts a segment |
| `Writer.SpoolWriter.Tick` | internal/spool/spool.go:214-228 | syncs pending bytes and rotates a non-empty segment when due, and assigns nothing |
| `Writer.SpoolWriter.SpoolBytes` | internal/spool/janitor.go:18-30 | is the total size of the files |
| `Writer.TotalBytesAdds` | internal/spool/janitor.go:18-30 | that total is the sum of the lengths, however the files are grouped |
| `Writer.SpoolWriter.ReapOver` | internal/spool/janitor.go:37-85 | removes an oldest-first prefix of sealed files, none locked, not one more than needed, and stops only at the cap, a lock or the last file |
| `Writer.ReapedByIs` | internal/spool/janitor.go:37-85 | after any number of reaps only the oldest files are gone and nothing durable is lost |
| `Writer.CapKeepsSealed` | internal/spool/janitor.go:37-85 | a cap with room for the active and the newest sealed file leaves a sealed file behind |
| `Writer.Restarted` | internal/spool/spool.go:72-136 | a restart ends idle with all that was durable and nothing unsynced |
| `Wire.BatchRoundTrip` | internal/proto/types.go:129-156 | decoding an encoded batch gives its first count mod 65536 packets, and all of them if and only if there are fewer than 65536 |
| `Wire.EncodePktBatch` | internal/proto/types.go:129-136 | the loop writes the specified payload |
| `Wire.DecodePktBatch` | internal/proto/types.go:140-156 | the loop returns the specified packets or reports truncation |
| `Wire.DecodeBatchIff` | internal/proto/types.go:140-156 | a payload decodes to given packets if and only if it begins with their count and encodings, all intact; any other is refused |
| `Wire.ParsePktIff` | internal/proto/types.go:109-125 | bytes parse as a packet if and only if they begin with its encoding and its captured length is that of its data, within the cap |
| `Wire.PktBytes` | internal/proto/types.go:95-104 | a packet has each field at its offset, high byte first, then its data |
| `Wire.BatchBytes` | internal/proto/types.go:129-136 | a batch is its count in two bytes and the packets in order |
| `Wire.ConversionIff` | internal/agent/serve_cmd.go:222-230 | conversion to the wire and back keeps everything but the microseconds, and those if and only if they are at most 4294967 |
| `Wire.WireBytes` | internal/agent/serve_cmd.go:222-230 | the fields of a converted record on the wire, offset by offset |
| `Wire.RecordFidelity` | internal/collector/demux.go:226-233 | spool record, wire record, payload, wire record, mirror record: every shippable batch arrives record by record converted, and unchanged if and only if no microsecond field wraps |
| `Frames.ReadFrameIff` | internal/proto/frame.go:72-109 | of any bytes and under any checksum, a frame is read if and only if its encoding, with both checksums right and the payload within the cap, is at the front |
| `Frames.ReadFrameRefuses` | internal/proto/frame.go:72-100 | each refusal has its cause, in the order of the checks: short, magic, version, header checksum, length, payload checksum |
| `Frames.HeaderBytes` | internal/proto/frame.go:39-49 | the header has magic, version, type and each field at its offset, high byte first |
| `Frames.FrameBytes` | internal/proto/frame.go:52-60 | a frame is header, its checksum, payload, its checksum |
| `Frames.ReadEncoded` | internal/proto/frame.go:72-109 | an encoded frame followed by anything reads back whole, for any checksum |
| `Frames.ReadCut` | internal/proto/frame.go:72-109 | a frame cut anywhere reads as the end of the stream |
| `Frames.CutAnywhere` | internal/proto/frame.go:39-109 | from any prefix of a frame stream, repeated reads return exactly the frames wholly inside it, then end |
| `Frames.ReadAllIff` | internal/collector/demux.go:67-79 | of any bytes, the frames read are given ones and the reason to stop a given one if and only if the bytes are those frames, encoded, and then something that is refused for that reason |
| `Frames.Drain` | internal/collector/demux.go:67-79 | the read loop returns the frames read and the error it stopped at |
| `Stream.BatchBase` | internal/agent/serve_cmd.go:102-198 | each batch's i-th record is the log's at base+i, and its base is the opening position, the end of the previous batch or the end of a gap sent since |
| `Serve.Streamer.constructor` | internal/agent/serve_cmd.go:39-111 | applies the defaults, advertises the opening position and announces a reaped resume point as a gap |
| `Serve.Streamer.Flush` | internal/agent/serve_cmd.go:113-123 | sends the pending batch at its base and clears it, and nothing else, keeping the stream lawful |
| `Serve.Streamer.Push` | internal/agent/serve_cmd.go:148-160 | takes the record at the reader's position into the batch and flushes at either limit |
| `Serve.Streamer.Reopen` | internal/agent/serve_cmd.go:182-193 | opens a new reader at the lost position, clamped to retention, and sends exactly the gap between the two, which ends within what retention dropped |
| `Serve.Streamer.Turn` | internal/agent/serve_cmd.go:141-198 | one pass reads once and does exactly what its specification says of the outcome, which is the reader's truth: no data only of a view just refreshed, reaped only below the view's oldest packet; the stream stays lawful, sized and ends where the reader or the pending batch begins |
| `Serve.PassShips` | internal/agent/serve_cmd.go:141-198 | a pass with no data, or overtaken by retention, leaves nothing pending and sends the pending batch first, at its base; so does a packet that reaches a limit; a beat comes last, as does the gap of a reopening; nothing else is sent |
| `Serve.PassConserves` | internal/agent/serve_cmd.go:141-198 | what a pass sends and leaves pending is what was pending and what was read, in order |
| `Refinement.TurnIsSteps` | internal/agent/serve_cmd.go:141-198 | every pass is a sequence of the system's serve steps that ends in the same state and sends the same events |
| `Refinement.GotIsTruthful` | internal/spool/reader.go:131-181 | the record the reader returns is what the system's reader finds in the bytes on disk |
| `Refinement.HelloIsReconcile` | internal/collector/demux.go:132-146 | the system's steps on a preamble come to the specified reconciliation with the advertised start |
| `Refinement.BatchIsCommit` | internal/collector/demux.go:150-180 | the system's steps on a batch in hand come to the specified commit: refused together, otherwise the same mirror |
| `Refinement.GapIsHandled` | internal/collector/demux.go:185-203 | the system's steps on a gap in hand come to the specified skip |
| `Serve.Streamer.Run` | internal/agent/serve_cmd.go:141-198 | so does the whole loop, over a spool that grows between passes |
| `Serve.SizeBound` | internal/agent/serve_cmd.go:148-160 | every batch's payload is at most 2 + (max bytes - 1) + 16 + snaplen + 4 * max packets |
| `Serve.DefaultsFit` | internal/agent/serve_cmd.go:40-45 | with the defaults and a snaplen up to 65536 neither the u16 count nor the frame cap is reached |
| `Mirror.StepKeeps` | internal/collector/mirror.go:217-283 | every durable step of the mirror, crashes and reopening included, keeps finished sessions and the committed records on disk |
| `Mirror.ReopenRestores` | internal/collector/mirror.go:107-159 | after a crash between any two steps, reopening restores the last saved commit point, session and epoch together, with a file of a header and exactly the committed records |
| `Mirror.LoweringIff` | internal/collector/mirror.go:136-141 | the commit point is left alone if and only if every committed record fits the given snaplen |
| `Mirror.LowersTo` | internal/collector/mirror.go:126-146 | otherwise it becomes the gpidx of the first committed record over the snaplen, and the file is cut just before that record |
| `Mirror.LoweringLoses` | internal/collector/mirror.go:136-141 | a mirror of one committed record reopened with a smaller snaplen has commit point 0 |
| `Mirror.PastIsFinal` | internal/collector/mirror.go:243-258 | a finished session's file is never written again |
| `Mirror.OpenFile` | internal/collector/mirror.go:107-159 | on every file, truncates to the walk's offset or rewrites a torn header, and reports how many records it trusts |
| `Mirror.OpensHeader` | internal/collector/mirror.go:118-130 | an opened file keeps the header it has, or gets the collector's when it has none or a torn one |
| `Mirror.MirrorStore.constructor` | internal/collector/mirror.go:79-92 | goes on with exactly what was committed when the records fit, with the lowered commit point otherwise |
| `Mirror.MirrorStore.Publish` | internal/collector/mirror.go:52-57 | makes the published values those of the saved state |
| `Mirror.MirrorStore.Append` | internal/collector/mirror.go:217-239 | is write, sync, save: the file, the records and the commit point grow by exactly the given records |
| `Mirror.MirrorStore.NewSession` | internal/collector/mirror.go:243-258 | closes the session as it is and opens an empty one at the given start in the same epoch |
| `Mirror.MirrorStore.ResetForEpoch` | internal/collector/mirror.go:280-283 | the same with a new epoch, saved together |
| `Mirror.MirrorStore.AdoptEpoch` | internal/collector/mirror.go:267-273 | records the epoch and nothing else |
| `Mirror.MirrorStore.SetHeader` | internal/collector/mirror.go:189-211 | rewrites the file only when the session has no committed record |
| `Demux.GapRoundTrip` | internal/proto/types.go:190-213 | decoding an encoded gap gives it back |
| `Demux.GapBytes` | internal/proto/types.go:196-213 | a payload decodes to a gap if and only if it begins with its encoding, field by field, and to none if shorter |
| `Demux.CommitPointwise` | internal/collector/demux.go:150-180 | a batch is refused if and only if it is not empty and starts past the commit point; otherwise every gpidx the session had keeps its record, every later one gets the batch's record for it, and the commit point becomes the larger of the old one and the batch's end |
| `Demux.CommitIdempotent` | internal/collector/demux.go:150-180 | committing a batch twice is committing it once |
| `Demux.CommitFollowsLog` | internal/collector/demux.go:150-180 | a batch cut from the log that does not jump ahead extends the session by exactly the log records it lacks |
| `Demux.GapOn` | internal/collector/demux.go:185-203 | a gap moves the commit point forward to its end, never back |
| `Demux.EpochOn` | internal/collector/demux.go:132-146 | no epoch or the known one changes nothing, first contact changes the epoch alone, another one closes the session as it was and opens an empty one at the advertised start |
| `Demux.FrameDemux.Commit` | internal/collector/demux.go:150-180 | the loop refuses exactly a batch that starts past the commit point, with no change, and otherwise appends exactly the missing records |
| `Demux.FrameDemux.HandleGap` | internal/collector/demux.go:185-203 | refuses exactly an undecodable payload, otherwise skips forward into a new session |
| `Demux.FrameDemux.ReconcileEpoch` | internal/collector/demux.go:132-146 | ignores an absent or known epoch, adopts on first contact, and on another goes on from the advertised start in a new session |
| `Demux.FrameDemux.Dispatch` | internal/collector/demux.go:80-121 | each frame has the specified effect, and ends the connection exactly where specified |
| `Demux.FrameDemux.Run` | internal/collector/demux.go:65-124 | the frames of a connection have the effect of their fold up to the first that ends it |
| `Demux.SaysNothing` | internal/collector/demux.go:78-120 | another source's frame, and one that is skippable or carries no packets, leaves the mirror alone |
| `Demux.SaysPackets` | internal/collector/demux.go:82-101 | a batch, inflated if flagged, says its packets at its base, and a gap its two ends |
| `Demux.EndsConnection` | internal/collector/demux.go:78-121 | a frame ends the connection by itself if and only if it is this source's and undecodable or of an unknown unskippable type |
| `Demux.OnFramesStops` | internal/collector/demux.go:65-124 | frames are handled in order, and none after the first that ends the connection counts |
| `Link.FrameMeans` | internal/agent/serve_cmd.go:246-315 | a frame, of packets, a gap, a heartbeat, stats or a key, means to the collector exactly what its event meant to serve, up to the record conversion, compressed or not |
| `Link.Hears` | internal/proto/frame.go:72-109 | whatever front part of serve's bytes is left, the next read is serve's next event or the end of the stream |
| `Link.CutLinkDeliversPrefix` | internal/collector/demux.go:46-124 | whatever byte a connection dies at, the mirror is what a whole number of serve's events, from the first, makes of it |
| `Link.StreamFollows` | internal/collector/demux.go:150-203 | along a lawful stream no batch is refused and the session stays equal to the converted log up to the commit point |
| `Link.ConnectionFollowsLog` | internal/collector/demux.go:46-124 | the frames of a lawful stream, cut at any byte, leave the session equal to the converted log up to a commit point no lower than before |
| `History.AtMostOnce` | internal/collector/demux.go:150-203 | no packet is in two sessions of an epoch |
| `History.NoneMissing` | internal/collector/demux.go:150-203 | below the end of a session every packet is held by it, as logged, or was reaped |
| `History.SoundGrows` | internal/collector/mirror.go:217-283 | growth of the agents' logs leaves what the mirror holds right |
| `System.SpoolMoves` | internal/spool/spool.go:182-295 | any agent step, under a live reader, frames in flight and an operation of the collector under way, keeps the system invariant |
| `System.WipeKeeps` | internal/spool/epoch.go:28-66 | so does a wiped agent with a new epoch |
| `System.ReadsTruth` | internal/spool/reader.go:131-221 | what the reader finds in the bytes on disk, or through a handle on an unlinked file, is the log record of its gpidx |
| `System.PointedView` | internal/spool/reader.go:77-116 | a refresh finished under interleaving gives a true view that begins no later than retention |
| `System.ServeKeeps` | internal/agent/serve_cmd.go:102-198 | every step of the serve process keeps the system invariant |
| `System.TakeKeeps` | internal/collector/demux.go:71-79 | reading the next frame off the link, whatever is left of it, keeps the invariant, and never ends the connection |
| `System.HelloKeeps` | internal/collector/demux.go:46-62 | every durable step on the preamble keeps it |
| `System.MessageKeeps` | internal/collector/demux.go:80-203 | every durable step on the message in hand keeps it |
| `System.CutKeeps` | internal/proto/frame.go:72-109 | a connection cut at any byte keeps it |
| `System.CrashKeeps` | internal/collector/mirror.go:107-159 | a collector crash at any step keeps it and what was saved |
| `System.StartKeeps` | internal/collector/mirror.go:79-92 | restarting the collector keeps it and restores everything committed |
| `System.StepKeeps` | README.md:10-12 | every step of the whole system keeps the invariant |
| `ExactlyOnce.ExactlyOnce` | README.md:10-12 | in every state of every run, connections cut at any byte included, a packet in range is held by exactly one session of its epoch, or by none and its file had been reaped; what is held is the writer's record after the link's conversion, equal to it if and only if its microseconds are at most 4294967 |
| `ExactlyOnce.FilesHoldTheLog` | internal/collector/mirror.go:217-239 | the session files' bytes are a header and the converted log records of their ranges, the log's own if and only if none wrapped, and the commit point never exceeds the agent's durable end |
| `ExactlyOnce.NeverRefused` | internal/collector/demux.go:158-166 | every read off the link is a frame the collector understands or the end of the stream, and the forward-jump check never fires |
| `ExactlyOnce.CommittedForGood` | internal/collector/mirror.go:217-283 | between any two states of a run every session keeps its start, epoch and records, and finished files are untouched |
| `Delivery.Finishes` | internal/collector/mirror.go:189-283 | from every reachable state the collector can complete what it is at, or be started, without a crash |
| `Delivery.Settles` | internal/spool/spool.go:231-295 | a spool in the middle of any writer operation can be brought to a published head at the end of its log |
| `Delivery.EverythingGetsThrough` | README.md:10-12 | every run that ends with the newest spool up can be continued, with no crash and nothing written, reaped or wiped, until the collector has committed that spool's log to the end, if the newest header's snaplen is no obstacle or a fresh one is on its way |
| `Delivery.OwnHeadersServe` | internal/spool/reader.go:235-253 | where no crash has left a foreign header, the snaplen is no obstacle |
| `Stall.DeliveryIff` | internal/agent/serve_cmd.go:50-73 | while the spool stays as it is, its log can be committed to the end if and only if every packet from where a connection starts fits the snaplen in the newest file's header |
| `Stall.BogusHeaderStalls` | internal/spool/reader.go:235-253 | a run from the first start that ends with a durable, published packet no continuation over that spool commits |
| `Delivery.ComesUp` | internal/spool/recover.go:33-127 | every run that ends with an anchored spool down can be continued to one that is up with all that was durable |
| `Delivery.UncompressedIsRoomy` | internal/proto/types.go:18 | without compression any one packet fits a frame when the snaplen and 22 bytes are within the cap |
| `Epochs.EpochChange` | internal/collector/demux.go:132-146 | a new epoch's preamble closes all sessions as they were and commits from the advertised start |
| `Epochs.RetainedSkippedIff` | internal/spool/reader.go:49-63 | retained packets are passed over if and only if the old commit point lies above the oldest and not past the head; past the head it starts at the oldest |
| `Epochs.RealignmentSkips` | internal/collector/demux.go:132-146 | a run from the first start whose epoch change passes over a packet the fresh spool holds |
| `Epochs.SkippedForever` | internal/collector/demux.go:150-203 | packets below an epoch's first session are in none of its sessions, ever |
| `Keylog.EatSplits` | internal/tls/reconcile.go:189-231 | one read relays the lines it completes and leaves their tail pending or known too long, wherever it was cut, if the over-long lines so far are harmless |
| `Keylog.ChunkFreeIff` | internal/tls/reconcile.go:189-231 | a file's relay is independent of how its bytes arrive if and only if each of its lines over 256 bytes is invalid or repeats a key already out |
| `Keylog.AlwaysChunkFreeIff` | internal/tls/reconcile.go:189-231 | that is so of every file if and only if the test accepts no line over 256 bytes |
| `Keylog.CutLongLine` | internal/tls/reconcile.go:200-208 | a long line and its newline in two reads is dropped, though its plain meaning would keep it if valid |
| `Nss.TrailingBlank` | internal/keylog/keylog.go:36-52 | the line test and the key are blind to trailing blanks |
| `Nss.TrimIs` | internal/keylog/keylog.go:37 | trimming takes the blanks at both ends and nothing else |
| `Nss.KeyLineIff` | internal/keylog/keylog.go:36-64 | a line of three words passes if and only if they are a known label, 1 to 64 hex digits and 1 to 96 |
| `Nss.LongLineIsValid` | internal/keylog/keylog.go:36-52 | the line test accepts a short key followed by 300 blanks |
| `Nss.MergeDependsOnReads` | internal/tls/reconcile.go:200-208 | with the code's own test a one-line file is relayed or lost depending on where a read ends |
| `Keylog.Reconciler.Consume` | internal/tls/reconcile.go:195-226 | the inner loop has the effect of the specified read and consumes every byte of it |
| `Keylog.Reconciler.MergeTail` | internal/tls/reconcile.go:189-231 | on a file whose new over-long lines are harmless, relays exactly the unseen keys of the lines completed since the mark, and leaves the mark at the start of the unfinished line unless skipping |
| `Keylog.Reconciler.Ticks` | internal/tls/reconcile.go:135-158 | over any growth and any reads, the relay gets the unseen keys of the finished lines, in order, once each, and the mark ends at the unfinished line |
| `Keylog.Reconciler.MergeOnce` | internal/tls/reconcile.go:166-181 | files are merged in turn and deduplicated together; each listed file that is there ends with its mark at its unfinished line, and no other mark moves |
| `Keylog.SplitIff` | internal/tls/reconcile.go:195-226 | the split of bytes is the one list of newline-free lines and tail that spells them |
| `Keylog.FreshOnce` | internal/tls/reconcile.go:214-220 | the keys relayed are those of the valid lines not yet seen, each once, earlier lines' first |
| `Keylog.AddedIs` | internal/tls/reconcile.go:166-181 | a file adds its lines past those behind its mark, all of them without one, and nothing if it is not there |
| `FanOut.StepEvolves` | internal/collector/mirror.go:217-283 | while a collector runs, its session only grows until a later one replaces it |
| `FanOut.LivesPolls` | internal/pcapoverip/server.go:80-89 | whatever moments a client polls at while the collector lives, it sees what serving asks for |
| `FanOut.Pump` | internal/pcapoverip/server.go:91-101 | sends every record between the cursor and the durable length, or those before the first that exceeds the snaplen, and nothing past it |
| `FanOut.Serve` | internal/pcapoverip/server.go:68-110 | a client gets one header and then whole consecutive records of one session from its connect cursor, up to what was committed when that session was last seen or to the first that exceeds the snaplen it was told |

## Left out

- Noise handshake, ciphers and keys: the link is a byte stream that may be cut anywhere.
- zstd and CBOR: the compressor is a parameter with an inverse; the preamble is a value, not bytes.
- AF_PACKET capture, packet exclusion and ring sizing.
- Creation of the epoch file: an epoch is a number per spool instance.
- JSON text, file names and directory listing: the manifest, head pointer and resume state are typed values.
- I/O errors a running process survives, timers, backoff, configuration, locks on the mirror directory, metrics and the command line; due times are parameters.
- TLS discovery, hook processes and priming the set of seen keys from the relay file; only the merge is modelled.
- ACK frames, and what heartbeat, stats and key payloads say: they change nothing durable.
- The very first start on an empty directory: `Recovery.RecoverSpool` covers it, and the spool machine begins right after it.
- Spool.NoReissue: runs recover anchored disks only and keep their snaplen; `Spool.RecoveryExactIff` and `Spool.SnaplenIff` say what happens otherwise.
- Spool.CrashKeeps: the head pointer never goes back to an older published one, because its rename is followed by a directory sync.
- Mirror.MirrorStore.constructor: after a lowered commit point only the opened state is given; the code lowers it in memory before it is next saved, and runs on from there are not followed.
- Nss.LongLineIsValid: white space beyond ASCII, which the trimming in the code also removes, is not modelled.
- Reader.TailReader.Next: has no branch for an incomplete record, since `Reader.TailReader.ReadsLog` shows that the read of an owned gpidx succeeds or finds a record over the snaplen.
- Serve.Streamer.Run: a file that vanished before it could be opened ends the connection, as in the code; the retry is the next connection.
- Frames.CutAnywhere: covers cuts; of altered bytes `Frames.ReadFrameIff` says that they are accepted only where an arbitrary checksum does not tell, and runs of the system contain none.
