/**
  * Files arriving at the agent: chunked push through a temporary file, delta patches and streamed
  * pushes, over a file system that may fail at each operation.
  */
module FileTransfer {
  import opened Prelude
  import DeltaSync
  import Streaming

  type Bytes = seq<byte>
  type Path = string
  type FileSystem = map<Path, Bytes>

  /**
    * What the operating system does to a request. `stop` says after how many bytes a write fails, and
    * `silent` that the failure of a write that is not flushed goes unreported.
    */
  datatype Disk = Disk(
    openFails: bool, stop: Option<nat>, silent: bool, readFails: bool, renameFails: bool, removeFails: bool)

  const Sound := Disk(false, None, false, false, false, false)

  datatype Request =
    | Push(path: Path, offset: nat, content: Option<Bytes>, done: bool) // None: undecodable compression
    | Patch(path: Path, blockSize: nat, patches: map<nat, Bytes>, total: nat)
    | Stream(path: Path, temp: Path, frames: seq<Bytes>, total: nat)

  /** A request with the answers of the policy and of the operating system. */
  datatype Call = Call(request: Request, checksum: Option<Digest>, allowed: bool, limit: nat, disk: Disk)

  datatype Reply = Denied | Failed | Ack(offset: nat, finalized: bool) | Applied | StreamDone(bytes: nat)

  datatype After = After(fs: FileSystem, reply: Reply)

  predicate Success(reply: Reply) {
    reply.Applied? || reply.StreamDone? || (reply.Ack? && reply.finalized)
  }

  function TransferTemp(path: Path): Path {
    path + ".rf_transfer"
  }

  function TempOf(r: Request): Path {
    match r
    case Push(path, _, _, _) => TransferTemp(path)
    case Patch(path, _, _, _) => path + ".rf_delta"
    case Stream(_, temp, _, _) => temp
  }

  // ---- File contents -------------------------------------------------------------------------

  /** Writing at an offset: a gap reads as zeros, and writing nothing changes nothing. */
  function Overlay(file: Bytes, offset: nat, data: Bytes): (r: Bytes)
    ensures |r| == if data == [] then |file| else Max(|file|, offset + |data|)
    ensures forall p :: 0 <= p < |r| ==>
              r[p] == if offset <= p < offset + |data| then data[p - offset] else DeltaSync.PadAt(file, p)
  {
    if data == [] then file
    else
      var head := if |file| < offset then file + seq(offset - |file|, _ => 0) else file[..offset];
      head + data + if offset + |data| < |file| then file[offset + |data|..] else []
  }

  datatype Chunk = Chunk(offset: nat, data: Bytes)

  /** The file that a sequence of writes leaves, starting from an empty one. */
  function Written(chunks: seq<Chunk>): Bytes {
    if chunks == [] then [] else Overlay(Written(Front(chunks)), Last(chunks).offset, Last(chunks).data)
  }

  predicate Covers(c: Chunk, p: nat) {
    c.offset <= p < c.offset + |c.data|
  }

  /** Each byte comes from the last write that covers it, and is zero if none does. */
  lemma {:induction false} WrittenAt(chunks: seq<Chunk>, p: nat, i: nat)
    requires p < |Written(chunks)|
    requires i < |chunks| && Covers(chunks[i], p)
    requires forall j :: i < j < |chunks| ==> !Covers(chunks[j], p)
    ensures Written(chunks)[p] == chunks[i].data[p - chunks[i].offset]
  {
    if i < |chunks| - 1 {
      assert !Covers(chunks[|chunks| - 1], p);
      assert Covers(Front(chunks)[i], p);
      WrittenReaches(Front(chunks), p, i);
      WrittenAt(Front(chunks), p, i);
    }
  }

  lemma {:induction false} WrittenReaches(chunks: seq<Chunk>, p: nat, i: nat)
    requires i < |chunks| && Covers(chunks[i], p)
    ensures p < |Written(chunks)|
  {
    if i < |chunks| - 1 {
      WrittenReaches(Front(chunks), p, i);
    }
  }

  lemma {:induction false} WrittenZero(chunks: seq<Chunk>, p: nat)
    requires p < |Written(chunks)|
    requires forall j :: 0 <= j < |chunks| ==> !Covers(chunks[j], p)
    ensures Written(chunks)[p] == 0
  {
    if chunks != [] {
      assert !Covers(chunks[|chunks| - 1], p);
      if p < |Written(Front(chunks))| {
        assert forall j :: 0 <= j < |Front(chunks)| ==> !Covers(Front(chunks)[j], p);
        WrittenZero(Front(chunks), p);
      }
    }
  }

  /** No write past the limit, no file past the limit. */
  lemma {:induction false} WrittenWithin(chunks: seq<Chunk>, limit: nat)
    requires forall i :: 0 <= i < |chunks| ==> chunks[i].offset + |chunks[i].data| <= limit
    ensures |Written(chunks)| <= limit
  {
    if chunks != [] {
      assert forall i :: 0 <= i < |Front(chunks)| ==> Front(chunks)[i] == chunks[i];
      WrittenWithin(Front(chunks), limit);
      assert Last(chunks) == chunks[|chunks| - 1];
    }
  }

  // ---- What the handlers do ----------------------------------------------------------------------

  function Remove(fs: FileSystem, path: Path, fails: bool): FileSystem {
    if fails then fs else fs - {path}
  }

  function Rename(fs: FileSystem, from: Path, to: Path): FileSystem
    requires from in fs
  {
    (fs - {from})[to := fs[from]]
  }

  /** The part of the data that reached the disk. */
  function Reached(data: Bytes, disk: Disk): Bytes {
    if disk.stop.Some? && disk.stop.value < |data| then data[..disk.stop.value] else data
  }

  /** A push notices that its write failed, unless it wrote at a later offset, where it does not flush. */
  predicate PushNotices(offset: nat, data: Bytes, disk: Disk) {
    Reached(data, disk) != data && (offset == 0 || !disk.silent)
  }

  /** The old file as a delta patch reads it: one that cannot be read counts as empty. */
  function OldContent(old': Option<Bytes>, disk: Disk): Bytes {
    if disk.readFails then [] else old'.GetOr([])
  }

  function Lookup(fs: FileSystem, path: Path): Option<Bytes> {
    if path in fs then Some(fs[path]) else None
  }

  function ContentAt(fs: FileSystem, path: Path): Bytes {
    if path in fs then fs[path] else []
  }

  /** The temporary file after a chunk: offset 0 starts it afresh. */
  function WriteChunk(fs: FileSystem, temp: Path, offset: nat, data: Bytes): FileSystem {
    fs[temp := if offset == 0 then data else Overlay(ContentAt(fs, temp), offset, data)]
  }

  function MatchesChecksum(sha: DeltaSync.Sha, data: Bytes, checksum: Option<Digest>): bool {
    checksum == None || sha(data) == checksum.value
  }

  /** The common end of all three: check the temporary file, then rename it over the destination. */
  function Finish(sha: DeltaSync.Sha, fs: FileSystem, temp: Path, call: Call, reply: Reply): After
    requires temp in fs
  {
    if call.checksum.Some? && call.disk.readFails then After(Remove(fs, temp, call.disk.removeFails), Failed)
    else if !MatchesChecksum(sha, fs[temp], call.checksum) then After(Remove(fs, temp, call.disk.removeFails), Failed)
    else if call.disk.renameFails then After(Remove(fs, temp, call.disk.removeFails), Failed)
    else After(Rename(fs, temp, call.request.path), reply)
  }

  function HandlePush(sha: DeltaSync.Sha, fs: FileSystem, call: Call): After
    requires call.request.Push?
  {
    var r := call.request;
    if !call.allowed then After(fs, Denied)
    else if r.content == None then After(fs, Failed)
    else
      var data := r.content.value;
      if r.offset + |data| > call.limit then After(fs, Denied)
      else if call.disk.openFails then After(fs, Failed)
      else
        var fs' := WriteChunk(fs, TransferTemp(r.path), r.offset, Reached(data, call.disk));
        if PushNotices(r.offset, data, call.disk) then After(fs', Failed)
        else if !r.done then After(fs', Ack(r.offset + |data|, false))
        else Finish(sha, fs', TransferTemp(r.path), call, Ack(r.offset + |data|, true))
  }

  function HandlePatch(sha: DeltaSync.Sha, fs: FileSystem, call: Call): After
    requires call.request.Patch?
  {
    var r := call.request;
    if !call.allowed || r.total > call.limit then After(fs, Denied)
    else
      var old' := OldContent(Lookup(fs, r.path), call.disk);
      var file := DeltaSync.Rebuild(old', r.patches, DeltaSync.AgentBlock(r.blockSize), r.total);
      if !MatchesChecksum(sha, file, call.checksum) then After(fs, Failed)
      else if call.disk.openFails then After(fs, Failed)
      else
        var fs' := fs[TempOf(r) := Reached(file, call.disk)];
        if Reached(file, call.disk) != file then After(fs', Failed)
        else if call.disk.renameFails then After(Remove(fs', TempOf(r), call.disk.removeFails), Failed)
        else After(Rename(fs', TempOf(r), r.path), Applied)
  }

  /** What of a stream is on disk when the receiving loop ends, and whether it ended well. */
  function StreamedPart(frames: seq<Bytes>, total: nat, got: Bytes): Bytes
    decreases |frames|
  {
    if |got| >= total || frames == [] || frames[0] == [] || |got| + |frames[0]| > total then got
    else StreamedPart(frames[1..], total, got + frames[0])
  }

  function HandleStream(sha: DeltaSync.Sha, fs: FileSystem, call: Call): After
    requires call.request.Stream?
  {
    var r := call.request;
    if !call.allowed then After(fs, Denied)
    else if call.limit > 0 && r.total > call.limit then After(fs, Failed)
    else if call.disk.openFails then After(Remove(fs, r.temp, call.disk.removeFails), Failed)
    else
      var part := StreamedPart(r.frames, r.total, []);
      var fs' := fs[r.temp := Reached(part, call.disk)];
      if !Streaming.Collect(r.frames, r.total, []).Done? || Reached(part, call.disk) != part
      then After(Remove(fs', r.temp, call.disk.removeFails), Failed)
      else Finish(sha, fs', r.temp, call.(disk := call.disk.(readFails := false)), StreamDone(r.total))
  }

  function Handle(sha: DeltaSync.Sha, fs: FileSystem, call: Call): After {
    match call.request
    case Push(_, _, _, _) => HandlePush(sha, fs, call)
    case Patch(_, _, _, _) => HandlePatch(sha, fs, call)
    case Stream(_, _, _, _) => HandleStream(sha, fs, call)
  }

  // ---- One request -----------------------------------------------------------------------------------

  /**
    * A file changes only if it is the request's temporary file, or its destination and the request
    * succeeded; so an error or a denial leaves the destination as it was.
    */
  lemma OnlyRenameChangesDestination(sha: DeltaSync.Sha, fs: FileSystem, call: Call, path: Path)
    requires path != TempOf(call.request)
    ensures var after := Handle(sha, fs, call);
            Lookup(after.fs, path) != Lookup(fs, path) ==> path == call.request.path && Success(after.reply)
  {
    hide StreamedPart, Streaming.Collect, DeltaSync.Rebuild, Overlay, MatchesChecksum;
  }

  /**
    * Over any run: without a successful request of its own, a file that is no request's temporary file
    * keeps its content.
    */
  lemma {:induction false} UnchangedWithoutSuccess(sha: DeltaSync.Sha, fs: FileSystem, calls: seq<Call>, path: Path)
    requires forall i :: 0 <= i < |calls| ==> path != TempOf(calls[i].request)
    requires forall i :: 0 <= i < |calls| && calls[i].request.path == path ==>
               !Success(Handle(sha, Run(sha, fs, calls[..i]), calls[i]).reply)
    ensures Lookup(Run(sha, fs, calls), path) == Lookup(fs, path)
  {
    hide Handle;
    if calls != [] {
      var before, call := Front(calls), Last(calls);
      forall i | 0 <= i < |before| ensures before[..i] == calls[..i] {
      }
      UnchangedWithoutSuccess(sha, fs, before, path);
      assert calls[..|calls| - 1] == before;
      OnlyRenameChangesDestination(sha, Run(sha, fs, before), call, path);
    }
  }

  /** A success reply means the destination holds a file that matches the supplied checksum. */
  lemma SuccessMatchesChecksum(sha: DeltaSync.Sha, fs: FileSystem, call: Call)
    requires Success(Handle(sha, fs, call).reply)
    ensures var after := Handle(sha, fs, call);
            && call.request.path in after.fs
            && (call.checksum.Some? ==> sha(after.fs[call.request.path]) == call.checksum.value)
  {
  }

  /** With the checksum of the intended file, success leaves that file or a SHA-256 collision, whatever the disk did. */
  lemma ChecksumPinsFile(sha: DeltaSync.Sha, fs: FileSystem, call: Call, intended: Bytes)
    requires Success(Handle(sha, fs, call).reply) && call.checksum == Some(sha(intended))
    ensures var after := Handle(sha, fs, call).fs;
            && call.request.path in after
            && (after[call.request.path] == intended || Collide(sha, after[call.request.path], intended))
  {
    hide Handle;
    SuccessMatchesChecksum(sha, fs, call);
  }

  // ---- Exactly when each answer is given -------------------------------------------------------------------

  /** The request would take a file past the limit; a streamed push knows no limit if it is 0. */
  predicate PastLimit(call: Call) {
    match call.request
    case Push(_, offset, content, _) => content.Some? && offset + |content.value| > call.limit
    case Patch(_, _, _, total) => total > call.limit
    case Stream(_, _, _, total) => total > call.limit > 0
  }

  predicate WritesAll(disk: Disk, size: nat) {
    disk.stop == None || disk.stop.value >= size
  }

  /**
    * Denied exactly when the policy forbids it or, except for a stream, the limit would be passed; in both
    * cases, and for a stream past the limit, nothing at all changes and the request does not succeed.
    */
  lemma DeniedIff(sha: DeltaSync.Sha, fs: FileSystem, call: Call)
    ensures var after := Handle(sha, fs, call);
            && (after.reply == Denied <==> !call.allowed || (PastLimit(call) && !call.request.Stream?))
            && (!call.allowed || PastLimit(call) ==> after.fs == fs && !Success(after.reply))
  {
    hide StreamedPart, Streaming.Collect, DeltaSync.Rebuild, Overlay, MatchesChecksum, WriteChunk, Reached;
  }

  /**
    * A pushed chunk is acknowledged, with the offset behind it, exactly when it is allowed, readable and
    * within the limit, its write succeeds or fails unseen, and the last one also passes its checks.
    */
  lemma ChunkAcknowledgedIff(sha: DeltaSync.Sha, fs: FileSystem, call: Call)
    requires call.request.Push?
    ensures var r, disk, reply := call.request, call.disk, Handle(sha, fs, call).reply;
            && (reply.Ack? <==>
                && call.allowed && r.content.Some? && !PastLimit(call) && !disk.openFails
                && (WritesAll(disk, |r.content.value|) || (r.offset > 0 && disk.silent))
                && (r.done ==> !disk.renameFails && (call.checksum.Some? ==>
                      var file := WriteChunk(fs, TempOf(r), r.offset, Reached(r.content.value, disk))[TempOf(r)];
                      !disk.readFails && sha(file) == call.checksum.value)))
            && (reply.Ack? ==> reply == Ack(r.offset + |r.content.value|, r.done))
  {
    hide Overlay;
  }

  /** A patch is applied exactly when it is allowed, within the limit, of the right checksum, written and renamed. */
  lemma PatchAppliedIff(sha: DeltaSync.Sha, fs: FileSystem, call: Call)
    requires call.request.Patch?
    ensures var r, disk := call.request, call.disk;
            var file := DeltaSync.Rebuild(
              OldContent(Lookup(fs, r.path), disk), r.patches, DeltaSync.AgentBlock(r.blockSize), r.total);
            Handle(sha, fs, call).reply == Applied <==>
            && call.allowed && r.total <= call.limit
            && (call.checksum.Some? ==> sha(file) == call.checksum.value)
            && !disk.openFails && WritesAll(disk, r.total) && !disk.renameFails
  {
    hide OldContent;
  }

  /** The first frames that are not empty and add up to the announced size. */
  ghost predicate Announced(frames: seq<Bytes>, total: nat, k: nat) {
    k <= |frames| && Streaming.NonEmpty(frames[..k]) && |Streaming.Join(frames[..k])| == total
  }

  /** Two such runs of frames are the same data. */
  lemma AnnouncedOnce(frames: seq<Bytes>, total: nat, k: nat)
    requires Announced(frames, total, k)
    ensures var c := Streaming.Collect(frames, total, []); c.Done? && c.data == Streaming.Join(frames[..k])
  {
    hide Streaming.Collect, Streaming.Join;
    Streaming.CollectComplete(frames[..k], frames[k..], total, []);
    assert frames[..k] + frames[k..] == frames;
  }

  /**
    * A streamed push succeeds exactly when it is allowed, within the limit if one is set, some of its first
    * frames, none of them empty, are together as long as announced and match the checksum, and the disk
    * plays along; then the destination holds the data of those frames.
    */
  lemma StreamSucceedsIff(sha: DeltaSync.Sha, fs: FileSystem, call: Call)
    requires call.request.Stream?
    ensures var r, disk, after := call.request, call.disk, Handle(sha, fs, call);
            && (after.reply.StreamDone? <==>
                && call.allowed && (call.limit == 0 || r.total <= call.limit)
                && !disk.openFails && WritesAll(disk, r.total) && !disk.renameFails
                && exists k: nat :: Announced(r.frames, r.total, k)
                               && (call.checksum.Some? ==>
                                     sha(Streaming.Join(r.frames[..k])) == call.checksum.value))
            && (after.reply.StreamDone? ==> after.reply == StreamDone(r.total))
            && (forall k: nat :: after.reply.StreamDone? && Announced(r.frames, r.total, k) ==>
                  Lookup(after.fs, r.path) == Some(Streaming.Join(r.frames[..k])))
  {
    hide StreamedPart, Streaming.Collect, Streaming.Join;
    var r := call.request;
    var c := Streaming.Collect(r.frames, r.total, []);
    var k := Streaming.CollectEnds(r.frames, r.total, []);
    if c.Done? {
      StreamedPartDone(r.frames, r.total, []);
      assert Announced(r.frames, r.total, k);
      assert [] + Streaming.Join(r.frames[..k]) == Streaming.Join(r.frames[..k]);
    }
    forall k: nat | Announced(r.frames, r.total, k)
      ensures c.Done? && c.data == Streaming.Join(r.frames[..k]) && |c.data| == r.total
    {
      AnnouncedOnce(r.frames, r.total, k);
    }
  }

  /**
    * After a success the temporary file is gone. After a failed stream it is gone too, unless its removal
    * failed; what another failed request wrote is left behind only if its write was cut off as well.
    */
  lemma TempFilesCleanedUp(sha: DeltaSync.Sha, fs: FileSystem, call: Call)
    ensures var r, after := call.request, Handle(sha, fs, call);
            var left := TempOf(r) in after.fs && Lookup(after.fs, TempOf(r)) != Lookup(fs, TempOf(r));
            && (Success(after.reply) && TempOf(r) != r.path ==> TempOf(r) !in after.fs)
            && (after.reply == Failed && !call.disk.removeFails ==>
                  match r
                  case Stream(_, temp, _, _) => temp !in after.fs || PastLimit(call)
                  case Push(_, _, content, _) => left ==> content.Some? && !WritesAll(call.disk, |content.value|)
                  case Patch(_, _, _, total) => left ==> !WritesAll(call.disk, total))
  {
    hide StreamedPart, Streaming.Collect, DeltaSync.Rebuild, Overlay, MatchesChecksum;
  }

  /** A patch whose write is cut off leaves the part that was written in the temporary file. */
  lemma CutPatchStays(sha: DeltaSync.Sha, fs: FileSystem, call: Call)
    requires call.request.Patch? && call.allowed && call.request.total <= call.limit && !call.disk.openFails
    requires call.checksum == None && !WritesAll(call.disk, call.request.total)
    ensures var r, after := call.request, Handle(sha, fs, call);
            && after.reply == Failed
            && TempOf(r) in after.fs && |after.fs[TempOf(r)]| == call.disk.stop.value
  {
    hide OldContent;
  }

  // ---- What an applied patch keeps ------------------------------------------------------------------------

  /** Position `p` lies in no patched block. */
  predicate Unpatched(r: Request, p: nat)
    requires r.Patch?
  {
    DeltaSync.BlockStart(p, DeltaSync.AgentBlock(r.blockSize)) !in r.patches
  }

  lemma AppliedFile(sha: DeltaSync.Sha, fs: FileSystem, call: Call)
    requires call.request.Patch? && Handle(sha, fs, call).reply == Applied
    ensures var r := call.request;
            var old' := OldContent(Lookup(fs, r.path), call.disk);
            Lookup(Handle(sha, fs, call).fs, r.path) ==
            Some(DeltaSync.Rebuild(old', r.patches, DeltaSync.AgentBlock(r.blockSize), r.total))
  {
    hide DeltaSync.Rebuild, OldContent, MatchesChecksum;
  }

  /**
    * An applied patch keeps the old bytes outside its patches exactly when the old file could be
    * read, or already reads as zero there: a failed read is taken for an empty file.
    */
  lemma PatchKeepsOldIff(sha: DeltaSync.Sha, fs: FileSystem, call: Call)
    requires call.request.Patch? && Handle(sha, fs, call).reply == Applied
    ensures var r := call.request;
            var old', after := ContentAt(fs, r.path), ContentAt(Handle(sha, fs, call).fs, r.path);
            && |after| == r.total
            && ((forall p :: 0 <= p < r.total && Unpatched(r, p) ==> after[p] == DeltaSync.PadAt(old', p)) <==>
                !call.disk.readFails
                || forall p :: 0 <= p < r.total && Unpatched(r, p) ==> DeltaSync.PadAt(old', p) == 0)
  {
    hide Handle, DeltaSync.BlockStart;
    AppliedFile(sha, fs, call);
    var r := call.request;
    var after := ContentAt(Handle(sha, fs, call).fs, r.path);
    forall p | 0 <= p < r.total && Unpatched(r, p)
      ensures after[p] == if call.disk.readFails then 0 else DeltaSync.PadAt(ContentAt(fs, r.path), p)
    {
      assert after[p] == DeltaSync.RebuiltByte(OldContent(Lookup(fs, r.path), call.disk), r.patches,
                                               DeltaSync.AgentBlock(r.blockSize), p);
    }
  }

  /** A patch that changes nothing, without a checksum, turns a file the agent cannot read into zeros. */
  lemma UnreadableFileZeroed(sha: DeltaSync.Sha, fs: FileSystem, path: Path, blockSize: nat, limit: nat)
    requires path in fs && |fs[path]| <= limit
    ensures var r := Patch(path, blockSize, map[], |fs[path]|);
            var after := Handle(sha, fs, Call(r, None, true, limit, Sound.(readFails := true)));
            && after.reply == Applied
            && ContentAt(after.fs, path) == seq(|fs[path]|, _ => 0)
  {
    var r := Patch(path, blockSize, map[], |fs[path]|);
    var call := Call(r, None, true, limit, Sound.(readFails := true));
    assert Handle(sha, fs, call).reply == Applied by {
      hide DeltaSync.Rebuild;
    }
    AppliedFile(sha, fs, call);
    var file := DeltaSync.Rebuild([], map[], DeltaSync.AgentBlock(blockSize), r.total);
    assert file == seq(r.total, _ => 0);
  }

  // ---- Writes that fail unseen ------------------------------------------------------------------------------

  /** A later chunk whose write fails unseen is acknowledged although only a part of it is on disk. */
  lemma UnseenFailureAcknowledged(sha: DeltaSync.Sha, fs: FileSystem, call: Call)
    requires call.request.Push? && call.request.content.Some? && call.allowed && !call.disk.openFails
    requires call.request.offset > 0 && !call.request.done && call.disk.silent
    requires call.request.offset + |call.request.content.value| <= call.limit
    ensures var r := call.request;
            var after := Handle(sha, fs, call);
            && after.reply == Ack(r.offset + |r.content.value|, false)
            && ContentAt(after.fs, TransferTemp(r.path)) ==
               Overlay(ContentAt(fs, TransferTemp(r.path)), r.offset, Reached(r.content.value, call.disk))
  {
    hide Overlay, Reached;
  }

  lemma {:induction false} StreamedPartDone(frames: seq<Bytes>, total: nat, got: Bytes)
    requires Streaming.Collect(frames, total, got).Done?
    ensures StreamedPart(frames, total, got) == Streaming.Collect(frames, total, got).data
    decreases |frames|
  {
    if |got| < total {
      StreamedPartDone(frames[1..], total, got + frames[0]);
    }
  }

  // ---- Runs of requests on one destination ---------------------------------------------------------------

  /** One destination as its users see it: the file, and the writes of an upload under way. */
  datatype Upload = Upload(dest: Option<Bytes>, pending: Option<seq<Chunk>>)

  datatype Progress = Progress(upload: Upload, reply: Reply)

  function Discard(u: Upload, chunks: seq<Chunk>, fails: bool): Upload {
    u.(pending := if fails then Some(chunks) else None)
  }

  /** What a request on the destination does to the upload; requests on other files are ignored. */
  function Advance(sha: DeltaSync.Sha, u: Upload, call: Call): Progress {
    match call.request
    case Push(_, offset, content, done) =>
      if !call.allowed then Progress(u, Denied)
      else if content == None then Progress(u, Failed)
      else if offset + |content.value| > call.limit then Progress(u, Denied)
      else if call.disk.openFails then Progress(u, Failed)
      else
        var data := content.value;
        var chunks := (if offset == 0 then [] else u.pending.GetOr([])) + [Chunk(offset, Reached(data, call.disk))];
        if PushNotices(offset, data, call.disk) then Progress(u.(pending := Some(chunks)), Failed)
        else if !done then Progress(u.(pending := Some(chunks)), Ack(offset + |data|, false))
        else if (call.checksum.Some? && call.disk.readFails) || call.disk.renameFails
                || !MatchesChecksum(sha, Written(chunks), call.checksum)
        then Progress(Discard(u, chunks, call.disk.removeFails), Failed)
        else Progress(Upload(Some(Written(chunks)), None), Ack(offset + |data|, true))
    case Patch(_, blockSize, patches, total) =>
      var file := DeltaSync.Rebuild(OldContent(u.dest, call.disk), patches, DeltaSync.AgentBlock(blockSize), total);
      if !call.allowed || total > call.limit then Progress(u, Denied)
      else if !MatchesChecksum(sha, file, call.checksum) || call.disk.openFails || call.disk.renameFails
              || Reached(file, call.disk) != file
      then Progress(u, Failed)
      else Progress(u.(dest := Some(file)), Applied)
    case Stream(_, _, frames, total) =>
      var collected := Streaming.Collect(frames, total, []);
      if !call.allowed then Progress(u, Denied)
      else if (call.limit > 0 && total > call.limit) || call.disk.openFails || call.disk.renameFails || !collected.Done?
              || Reached(collected.data, call.disk) != collected.data
              || !MatchesChecksum(sha, collected.data, call.checksum)
      then Progress(u, Failed)
      else Progress(u.(dest := Some(collected.data)), StreamDone(total))
  }

  ghost predicate Shows(fs: FileSystem, path: Path, u: Upload) {
    && Lookup(fs, path) == u.dest
    && Lookup(fs, TransferTemp(path)) == if u.pending.Some? then Some(Written(u.pending.value)) else None
  }

  /** The request keeps off the destination and its temporary file except in the intended way. */
  predicate Separate(call: Call, path: Path) {
    var r := call.request;
    if r.path == path then r.Push? || (TempOf(r) != path && TempOf(r) != TransferTemp(path))
    else r.path != TransferTemp(path) && TempOf(r) != path && TempOf(r) != TransferTemp(path)
  }

  lemma WrittenSnoc(chunks: seq<Chunk>, c: Chunk)
    ensures Written(chunks + [c]) == Overlay(Written(chunks), c.offset, c.data)
  {
    assert Front(chunks + [c]) == chunks;
  }

  lemma FirstChunk(data: Bytes)
    ensures Written([Chunk(0, data)]) == data
  {
    WrittenSnoc([], Chunk(0, data));
    assert [] + [Chunk(0, data)] == [Chunk(0, data)];
  }

  function Chunks(u: Upload, offset: nat, data: Bytes): seq<Chunk> {
    (if offset == 0 then [] else u.pending.GetOr([])) + [Chunk(offset, data)]
  }

  /** A chunk written to the temporary file is one more write of the upload. */
  lemma ChunkShows(fs: FileSystem, path: Path, u: Upload, offset: nat, data: Bytes)
    requires Shows(fs, path, u)
    ensures Shows(WriteChunk(fs, TransferTemp(path), offset, data), path, u.(pending := Some(Chunks(u, offset, data))))
  {
    hide Overlay, Written;
    var before := if offset == 0 then [] else u.pending.GetOr([]);
    WrittenSnoc(before, Chunk(offset, data));
    FirstChunk(data);
    NothingWritten();
    assert offset == 0 ==> before + [Chunk(offset, data)] == [Chunk(offset, data)];
  }

  /** The end of an upload: the file arrives and the writes are over, or they are discarded. */
  lemma FinishShows(
    sha: DeltaSync.Sha, fs: FileSystem, path: Path, u: Upload, chunks: seq<Chunk>, call: Call, reply: Reply)
    requires Shows(fs, path, u.(pending := Some(chunks))) && call.request.path == path
    ensures var done := Finish(sha, fs, TransferTemp(path), call, reply);
            if (call.checksum.Some? && call.disk.readFails) || call.disk.renameFails
               || !MatchesChecksum(sha, Written(chunks), call.checksum)
            then done.reply == Failed && Shows(done.fs, path, Discard(u, chunks, call.disk.removeFails))
            else done.reply == reply && Shows(done.fs, path, Upload(Some(Written(chunks)), None))
  {
    hide Written, MatchesChecksum;
  }

  lemma PushShows(sha: DeltaSync.Sha, fs: FileSystem, path: Path, u: Upload, call: Call)
    requires Shows(fs, path, u)
    requires call.request.Push? && call.request.path == path
    ensures Shows(Handle(sha, fs, call).fs, path, Advance(sha, u, call).upload)
    ensures Handle(sha, fs, call).reply == Advance(sha, u, call).reply
  {
    hide Written, MatchesChecksum, Reached, PushNotices, Finish, Shows, Discard;
    var r := call.request;
    if r.content.Some? {
      var data := Reached(r.content.value, call.disk);
      var chunks := Chunks(u, r.offset, data);
      var fs' := WriteChunk(fs, TransferTemp(path), r.offset, data);
      hide WriteChunk;
      ChunkShows(fs, path, u, r.offset, data);
      FinishShows(sha, fs', path, u, chunks, call, Ack(r.offset + |r.content.value|, true));
    }
  }

  lemma NothingWritten()
    ensures Written([]) == []
  {
  }

  lemma OwnShows(sha: DeltaSync.Sha, fs: FileSystem, path: Path, u: Upload, call: Call)
    requires Shows(fs, path, u)
    requires !call.request.Push? && call.request.path == path && Separate(call, path)
    ensures Shows(Handle(sha, fs, call).fs, path, Advance(sha, u, call).upload)
    ensures Handle(sha, fs, call).reply == Advance(sha, u, call).reply
  {
    hide Written, Streaming.Collect, StreamedPart, DeltaSync.Rebuild;
    if call.request.Stream? && Streaming.Collect(call.request.frames, call.request.total, []).Done? {
      StreamedPartDone(call.request.frames, call.request.total, []);
    }
  }

  lemma ForeignShows(sha: DeltaSync.Sha, fs: FileSystem, path: Path, u: Upload, call: Call)
    requires Shows(fs, path, u)
    requires call.request.path != path && Separate(call, path)
    ensures Shows(Handle(sha, fs, call).fs, path, u)
  {
    hide Handle, Written;
    OnlyRenameChangesDestination(sha, fs, call, path);
    OnlyRenameChangesDestination(sha, fs, call, TransferTemp(path));
  }

  function Run(sha: DeltaSync.Sha, fs: FileSystem, calls: seq<Call>): FileSystem {
    if calls == [] then fs else Handle(sha, Run(sha, fs, Front(calls)), Last(calls)).fs
  }

  function RunOn(sha: DeltaSync.Sha, path: Path, u: Upload, calls: seq<Call>): Upload {
    if calls == [] then u
    else
      var before := RunOn(sha, path, u, Front(calls));
      if Last(calls).request.path == path then Advance(sha, before, Last(calls)).upload else before
  }

  /**
    * Over any run of requests, on any files, the file system shows the destination exactly as the
    * list of its own requests says: files arrive whole by rename or not at all.
    */
  lemma {:induction false} RunRefinesUpload(sha: DeltaSync.Sha, fs: FileSystem, path: Path, u: Upload, calls: seq<Call>)
    requires Shows(fs, path, u)
    requires forall i :: 0 <= i < |calls| ==> Separate(calls[i], path)
    ensures Shows(Run(sha, fs, calls), path, RunOn(sha, path, u, calls))
  {
    hide Shows, Handle, Advance, Separate;
    if calls != [] {
      var before, upload, call := Run(sha, fs, Front(calls)), RunOn(sha, path, u, Front(calls)), Last(calls);
      RunRefinesUpload(sha, fs, path, u, Front(calls));
      assert Separate(calls[|calls| - 1], path);
      if call.request.path != path {
        ForeignShows(sha, before, path, upload, call);
      } else if call.request.Push? {
        PushShows(sha, before, path, upload, call);
      } else {
        OwnShows(sha, before, path, upload, call);
      }
    }
  }

  /** Every write of the upload under way ends within the limit. */
  ghost predicate Within(u: Upload, limit: nat) {
    u.pending.Some? ==>
      forall i :: 0 <= i < |u.pending.value| ==> u.pending.value[i].offset + |u.pending.value[i].data| <= limit
  }

  /** However the policy's limit changes below `limit`, no run of requests makes a chunked push leave a larger file. */
  lemma PushStaysWithin(sha: DeltaSync.Sha, u: Upload, call: Call, limit: nat)
    requires Within(u, limit) && call.limit <= limit
    ensures Within(Advance(sha, u, call).upload, limit)
    ensures call.request.Push? && Success(Advance(sha, u, call).reply) ==>
              |Advance(sha, u, call).upload.dest.value| <= limit
  {
    hide Written, Streaming.Collect, DeltaSync.Rebuild;
    if call.request.Push? && call.request.content.Some?
       && call.request.offset + |call.request.content.value| <= call.limit
    {
      var chunk := Chunk(call.request.offset, Reached(call.request.content.value, call.disk));
      WrittenWithin((if chunk.offset == 0 then [] else u.pending.GetOr([])) + [chunk], limit);
    }
  }

  lemma {:induction false} RunStaysWithin(sha: DeltaSync.Sha, path: Path, u: Upload, calls: seq<Call>, limit: nat)
    requires Within(u, limit)
    requires forall i :: 0 <= i < |calls| && calls[i].request.path == path ==> calls[i].limit <= limit
    ensures Within(RunOn(sha, path, u, calls), limit)
  {
    hide Advance, Within;
    if calls != [] {
      RunStaysWithin(sha, path, u, Front(calls), limit);
      assert Last(calls) == calls[|calls| - 1];
      if Last(calls).request.path == path {
        PushStaysWithin(sha, RunOn(sha, path, u, Front(calls)), Last(calls), limit);
      }
    }
  }

  // ---- An upload in chunks -------------------------------------------------------------------------------

  /** The calls of an upload that nothing interrupts; the last one asks for the rename. */
  function UploadCalls(path: Path, chunks: seq<Chunk>, checksum: Option<Digest>, limit: nat): (calls: seq<Call>)
    ensures |calls| == |chunks|
  {
    seq(|chunks|, i requires 0 <= i < |chunks| =>
      Call(Push(path, chunks[i].offset, Some(chunks[i].data), i == |chunks| - 1), checksum, true, limit, Sound))
  }

  ghost predicate StartsAfresh(chunks: seq<Chunk>) {
    forall i :: 0 <= i < |chunks| ==> (chunks[i].offset == 0 <==> i == 0)
  }

  lemma {:induction false} UploadUnderWay(
    sha: DeltaSync.Sha, path: Path, u: Upload, chunks: seq<Chunk>, checksum: Option<Digest>, limit: nat, k: nat)
    requires 0 < k < |chunks| && StartsAfresh(chunks)
    requires forall i :: 0 <= i < |chunks| ==> chunks[i].offset + |chunks[i].data| <= limit
    ensures RunOn(sha, path, u, UploadCalls(path, chunks, checksum, limit)[..k]) == u.(pending := Some(chunks[..k]))
  {
    hide Written;
    var calls := UploadCalls(path, chunks, checksum, limit);
    assert Front(calls[..k]) == calls[..k - 1] && Last(calls[..k]) == calls[k - 1];
    assert chunks[..k] == chunks[..k - 1] + [chunks[k - 1]];
    if k == 1 {
      assert calls[..0] == [];
    } else {
      UploadUnderWay(sha, path, u, chunks, checksum, limit, k - 1);
    }
  }

  /** An upload whose first chunk alone has offset 0 ends in the overlay of its chunks, if that matches the checksum. */
  lemma UploadEndsInOverlay(
    sha: DeltaSync.Sha, path: Path, u: Upload, chunks: seq<Chunk>, checksum: Option<Digest>, limit: nat)
    requires chunks != [] && StartsAfresh(chunks)
    requires forall i :: 0 <= i < |chunks| ==> chunks[i].offset + |chunks[i].data| <= limit
    ensures RunOn(sha, path, u, UploadCalls(path, chunks, checksum, limit)) ==
            if MatchesChecksum(sha, Written(chunks), checksum) then Upload(Some(Written(chunks)), None)
            else u.(pending := None)
  {
    hide Written;
    var calls := UploadCalls(path, chunks, checksum, limit);
    var n := |chunks|;
    assert Front(calls) == calls[..n - 1] && Last(calls) == calls[n - 1];
    assert chunks == chunks[..n - 1] + [chunks[n - 1]];
    if n == 1 {
      assert calls[..0] == [];
    } else {
      UploadUnderWay(sha, path, u, chunks, checksum, limit, n - 1);
    }
  }

  /** The chunks of a file sent piece after piece. */
  function InOrder(pieces: seq<Bytes>): (chunks: seq<Chunk>)
    ensures |chunks| == |pieces|
  {
    if pieces == [] then []
    else InOrder(Front(pieces)) + [Chunk(|Streaming.Join(Front(pieces))|, Last(pieces))]
  }

  /** Pieces sent one after the other overlay to the file they were cut from. */
  lemma {:induction false} InOrderRestoresFile(pieces: seq<Bytes>)
    ensures Written(InOrder(pieces)) == Streaming.Join(pieces)
  {
    if pieces != [] {
      var before, last := Front(pieces), Last(pieces);
      InOrderRestoresFile(before);
      WrittenSnoc(InOrder(before), Chunk(|Streaming.Join(before)|, last));
      assert pieces == before + [last];
      Streaming.JoinConcat(before, [last]);
      assert Streaming.Join([last]) == last;
    }
  }

  // ---- The code --------------------------------------------------------------------------------------------

  lemma {:induction false} StreamedPartGrows(frames: seq<Bytes>, total: nat, got: Bytes)
    ensures got <= StreamedPart(frames, total, got)
    decreases |frames|
  {
    if |got| < total && frames != [] && frames[0] != [] && |got| + |frames[0]| <= total {
      StreamedPartGrows(frames[1..], total, got + frames[0]);
    }
  }

  class TransferAgent {
    const sha: DeltaSync.Sha
    var fs: FileSystem

    constructor (sha: DeltaSync.Sha, fs: FileSystem)
      ensures this.sha == sha && this.fs == fs
    {
      this.sha, this.fs := sha, fs;
    }

    /** Clean-up after an error; its own failure is ignored. */
    method RemoveTemp(temp: Path, fails: bool)
      modifies this
      ensures fs == Remove(old(fs), temp, fails)
    {
      if !fails {
        fs := fs - {temp};
      }
    }

    method FilePush(call: Call) returns (reply: Reply)
      requires call.request.Push?
      modifies this
      ensures After(fs, reply) == HandlePush(sha, old(fs), call)
      ensures forall path :: path != call.request.path && path != call.request.path + ".rf_transfer" ==>
                Lookup(fs, path) == Lookup(old(fs), path)
    {
      hide Overlay;
      var r := call.request;
      if !call.allowed {
        return Denied;
      }
      if r.content == None {
        return Failed;
      }
      var data := r.content.value;
      if r.offset + |data| > call.limit {
        return Denied;
      }
      var temp := r.path + ".rf_transfer";
      if call.disk.openFails {
        return Failed;
      }
      var reached := Reached(data, call.disk);
      if r.offset == 0 {
        fs := fs[temp := reached];
      } else {
        if temp !in fs {
          fs := fs[temp := []];
        }
        fs := fs[temp := Overlay(fs[temp], r.offset, reached)];
      }
      assert fs == WriteChunk(old(fs), temp, r.offset, reached);
      if reached != data && (r.offset == 0 || !call.disk.silent) {
        return Failed;
      }
      if !r.done {
        return Ack(r.offset + |data|, false);
      }
      if call.checksum.Some? {
        if call.disk.readFails {
          RemoveTemp(temp, call.disk.removeFails);
          return Failed;
        }
        if sha(fs[temp]) != call.checksum.value {
          RemoveTemp(temp, call.disk.removeFails);
          return Failed;
        }
      }
      if call.disk.renameFails {
        RemoveTemp(temp, call.disk.removeFails);
        return Failed;
      }
      fs := Rename(fs, temp, r.path);
      return Ack(r.offset + |data|, true);
    }

    method FileDeltaPatch(call: Call) returns (reply: Reply)
      requires call.request.Patch?
      modifies this
      ensures After(fs, reply) == HandlePatch(sha, old(fs), call)
      ensures forall path :: path != call.request.path && path != call.request.path + ".rf_delta" ==>
                Lookup(fs, path) == Lookup(old(fs), path)
    {
      var r := call.request;
      if !call.allowed {
        return Denied;
      }
      if r.total > call.limit {
        return Denied;
      }
      var existing := if r.path in fs && !call.disk.readFails then fs[r.path] else [];
      var file := DeltaSync.ApplyPatches(existing, r.patches, r.blockSize, r.total);
      hide DeltaSync.Rebuild;
      if call.checksum.Some? && sha(file) != call.checksum.value {
        return Failed;
      }
      var temp := r.path + ".rf_delta";
      if call.disk.openFails {
        return Failed;
      }
      fs := fs[temp := Reached(file, call.disk)];
      if Reached(file, call.disk) != file {
        return Failed;
      }
      if call.disk.renameFails {
        RemoveTemp(temp, call.disk.removeFails);
        return Failed;
      }
      fs := Rename(fs, temp, r.path);
      return Applied;
    }

    /** The receiving loop of a streamed push, writing each frame as it comes. */
    method ReceiveInto(temp: Path, frames: seq<Bytes>, total: nat, disk: Disk) returns (ok: bool)
      modifies this
      ensures var part := StreamedPart(frames, total, []);
              && fs == old(fs)[temp := Reached(part, disk)]
              && (ok <==> Streaming.Collect(frames, total, []).Done? && Reached(part, disk) == part)
    {
      var got: Bytes := [];
      var left := frames;
      fs := fs[temp := []];
      while |got| < total
        invariant StreamedPart(left, total, got) == StreamedPart(frames, total, [])
        invariant Streaming.Collect(left, total, got) == Streaming.Collect(frames, total, [])
        invariant Reached(got, disk) == got
        invariant fs == old(fs)[temp := got]
        decreases |left|
      {
        if left == [] || left[0] == [] {
          return false;
        }
        var chunk := left[0];
        if |got| + |chunk| > total {
          return false;
        }
        StreamedPartGrows(left[1..], total, got + chunk);
        got := got + chunk;
        left := left[1..];
        fs := fs[temp := Reached(got, disk)];
        if Reached(got, disk) != got {
          assert Reached(got, disk) == Reached(StreamedPart(frames, total, []), disk);
          return false;
        }
      }
      return true;
    }

    method FilePushStream(call: Call) returns (reply: Reply)
      requires call.request.Stream?
      modifies this
      ensures After(fs, reply) == HandleStream(sha, old(fs), call)
      ensures forall path :: path != call.request.path && path != call.request.temp ==>
                Lookup(fs, path) == Lookup(old(fs), path)
    {
      hide StreamedPart, Streaming.Collect;
      var r := call.request;
      if !call.allowed {
        return Denied;
      }
      if call.limit > 0 && r.total > call.limit {
        return Failed;
      }
      if call.disk.openFails {
        RemoveTemp(r.temp, call.disk.removeFails);
        return Failed;
      }
      var ok := ReceiveInto(r.temp, r.frames, r.total, call.disk);
      if !ok {
        RemoveTemp(r.temp, call.disk.removeFails);
        return Failed;
      }
      if call.checksum.Some? && sha(fs[r.temp]) != call.checksum.value {
        RemoveTemp(r.temp, call.disk.removeFails);
        return Failed;
      }
      if call.disk.renameFails {
        RemoveTemp(r.temp, call.disk.removeFails);
        return Failed;
      }
      fs := Rename(fs, r.temp, r.path);
      return StreamDone(r.total);
    }
  }
}
