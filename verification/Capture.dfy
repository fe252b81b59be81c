/**
 A whole capture: the stream of a remote command goes to a store, through the redactor
 unless that is switched off, and the outcome is decided from how the command ended, what
 the store said and how many artifacts it found.
 */
module Capture {
  import opened Bytes
  import opened Archive
  import opened Bundle
  import Pipeline

  /** How the remote command's stream ended: cleanly, with an exit code, or broken off. */
  datatype ExecEnd = Clean | Exited(code: int) | Broke

  /** Where a capture goes: one archive file, or a directory of extracted files. */
  datatype Store = ArchiveStore(name: string, maxSize: int) | DirStore(maxSize: int)

  datatype PutError = Stored | StoreFailed(error: Outcome) | RedactFailed(status: Bundle.Status)

  /** The archive format, by how members are written and read. */
  datatype Format = Format(encode: Member -> bytes, decode: Decoding)

  /** What the redactor of m can write reads as what it is. */
  ghost predicate RoundTrips(f: Format, m: Member) {
    && (forall w :: RedactedPrefix(w, m) ==> f.decode(f.encode(w)) == w)
    && (Redactable(m) ==> f.decode(f.encode(Sent(true, m))) == Sent(true, m))
  }

  /** Reading goes from the beginning, where there is no footer yet, and stops at it. */
  ghost predicate Streams(decode: Decoding) {
    && !decode([]).ending.Sealed?
    && forall p: bytes, q: bytes :: p <= q && decode(p).ending.Sealed? ==> decode(q) == decode(p)
  }

  // What a store holds once it took in `raw`, which reads as m.
  function Holding(store: Store, files: map<string, bytes>, raw: bytes, m: Member): map<string, bytes> {
    match store
    case ArchiveStore(name, _) => files[name := raw]
    case DirStore(_) => Unpacked(files, m.entries)
  }

  predicate Fits(store: Store, raw: bytes, m: Member) {
    store.maxSize <= 0 || (if store.ArchiveStore? then |raw| else Demand(m)) <= store.maxSize
  }

  /** Stores a stream, of which it may read no more than up to some point behind the
      member's end. */
  method Put(store: Store, disk: Disk, raw: bytes, decode: Decoding) returns (n: nat, err: Outcome, read: nat)
    requires disk.Valid() && Streams(decode)
    modifies disk
    ensures ReadOf(raw, decode, read) && (old(disk.failed) ==> disk.failed) && (err.DiskFault? ==> disk.failed)
    ensures var m := decode(raw);
            !disk.failed ==>
              err == if !m.ending.Sealed? then (if Fits(store, raw[..read], m) then BadInput else TooLarge)
                     else if Fits(store, raw[..read], m) then Ok else TooLarge
    ensures var m := decode(raw);
            err.Ok? ==>
              && Final(decode)(raw[..read]) && decode(raw[..read]) == m && n == CountRegular(m.entries)
              && disk.files == Holding(store, old(disk.files), raw[..read], m)
    ensures var m := decode(raw);
            !err.DiskFault? ==> (err.Ok? <==> m.ending.Sealed? && Fits(store, raw[..read], m))
  {
    assert raw[..|raw|] == raw;
    match store
    case ArchiveStore(name, maxSize) =>
      var cleaned;
      n, err, cleaned, read := Archive.Write(disk, name, maxSize, raw, decode);
      assert raw[..read] <= raw;
    case DirStore(maxSize) =>
      n, read := 0, |raw|;
      var ok := disk.Touch(); // the directory is made first
      if !ok {
        return 0, DiskFault, read;
      }
      var written, cleaned;
      written, err, cleaned := Extract(disk, maxSize, decode(raw));
      NamesCounted(decode(raw).entries);
      n := |written|;
  }

  // The member that reaches the store, and its bytes.
  function Sent(redact: bool, m: Member): Member {
    if redact then Member(RedactAll(m.entries), m.ending) else m
  }

  function SentBytes(redact: bool, f: Format, raw: bytes): bytes {
    if redact then f.encode(Sent(true, f.decode(raw))) else raw
  }

  // Stored: nothing of a redacted bundle that is unpacked is a raw heap dump.
  ghost predicate NoRawDumps(store: Store, files: map<string, bytes>, m: Member) {
    store.DirStore? ==> DumpsScrubbed(files, m.entries)
  }

  /** The redactor's output for m: whatever has been written at some point, if that reads as
      a complete member it is all of the redacted one. `broken` says whether a write failed. */
  method Redactor(m: Member, f: Format) returns (st: Bundle.Status, out: bytes, ghost broken: bool)
    requires Streams(f.decode) && RoundTrips(f, m)
    ensures forall p :: p <= out ==> JobOf(f.decode, m).lawful(p)
    ensures st.Complete? ==> Redactable(m) && out == f.encode(Sent(true, m))
    ensures !st.Complete? ==> !f.decode(out).ending.Sealed?
    ensures broken <==> st.WriteFailed?
    ensures !broken ==> st == MemberStatus(m) && (st.Complete? <==> Redactable(m))
  {
    var tw := new TarWriter();
    st := Rewrite(m, tw);
    broken := tw.Failed();
    var w := tw.Written();
    out := f.encode(w);
    forall p | p <= out
      ensures JobOf(f.decode, m).lawful(p)
    {
      WrittenIsLawful(f, m, w, p);
    }
  }

  /** What storing a redacted member comes to if no write and no disk operation fails. */
  function PutOutcome(store: Store, m: Member, sent: bytes): PutError {
    if MemberStatus(m) != Complete then RedactFailed(MemberStatus(m))
    else if !Fits(store, sent, Sent(true, m)) then StoreFailed(TooLarge)
    else Stored
  }

  /** Redacts a stream on its way into the store. An error of the redactor is reported
      unless it is only that the store stopped reading, which the store then has an error
      for. `st` is the redactor's result, `broken` whether a write of its failed. */
  method RedactPut(store: Store, disk: Disk, raw: bytes, f: Format)
    returns (n: nat, err: PutError, read: nat, ghost st: Bundle.Status, ghost broken: bool)
    requires disk.Valid() && Streams(f.decode) && RoundTrips(f, f.decode(raw))
    modifies disk
    ensures read <= |SentBytes(true, f, raw)| && (old(disk.failed) ==> disk.failed)
    ensures var m, sent := f.decode(raw), SentBytes(true, f, raw)[..read];
            err.Stored? ==>
              && Redactable(m) && f.decode(sent) == Sent(true, m) && n == CountRegular(m.entries)
              && disk.files == Holding(store, old(disk.files), sent, Sent(true, m)) && NoRawDumps(store, disk.files, m)
    ensures st == MemberStatus(f.decode(raw)) || (broken && st == WriteFailed)
    ensures !st.Complete? && !st.WriteFailed? ==> err == RedactFailed(st)
    ensures !broken && !disk.failed ==> err == PutOutcome(store, f.decode(raw), SentBytes(true, f, raw)[..read])
    ensures !broken && !disk.failed ==>
            (err.Stored? <==>
               Redactable(f.decode(raw)) && Fits(store, SentBytes(true, f, raw)[..read], Sent(true, f.decode(raw))))
  {
    var m := f.decode(raw);
    var result, out;
    result, out, broken := Redactor(m, f);
    st := result;
    CompleteIff(m);
    var outcome;
    n, outcome, read := Put(store, disk, out, f.decode);
    err := if outcome.Ok? then Stored else StoreFailed(outcome);
    if !result.Complete? {
      read := 0;
      if !result.WriteFailed? {
        err := RedactFailed(result);
      }
    }
    RedactedCounts(m.entries);
    if Redactable(m) {
      StoredDumpsScrubbed(old(disk.files), m.entries);
    }
  }

  datatype Result = Success | CommandFailed(code: int) | NotCaptured | StreamBroke | WrongCount

  function Decide(exec: ExecEnd, stored: bool, artifacts: nat, want: nat): Result {
    if exec.Exited? then CommandFailed(exec.code)
    else if !stored then NotCaptured
    else if exec.Broke? then StreamBroke
    else if artifacts != want then WrongCount
    else Success
  }

  /** End to end: a capture that reports success read a complete member with a good footer
      from a command that ended without error, stored exactly the wanted number of regular
      entries and, when redacting, stored every .hprof entry scrubbed. Unless the disk or
      a pipe failed, nothing else keeps a capture from succeeding, and each other result
      has the first of these causes: an exit code, input that could not be stored, a stream
      that broke off, a wrong number of entries. */
  method CaptureBundle(exec: ExecEnd, raw: bytes, f: Format, store: Store, redact: bool, disk: Disk, want: nat)
    returns (res: Result, read: nat, ghost broken: bool)
    requires disk.Valid() && Streams(f.decode) && (redact ==> RoundTrips(f, f.decode(raw)))
    modifies disk
    ensures read <= |SentBytes(redact, f, raw)|
    ensures var m, sent := f.decode(raw), SentBytes(redact, f, raw)[..read];
            res.Success? ==>
              && exec.Clean? && m.ending.Sealed? && CountRegular(m.entries) == want
              && f.decode(sent) == Sent(redact, m)
              && disk.files == Holding(store, old(disk.files), sent, Sent(redact, m))
              && (redact ==> Redactable(m) && NoRawDumps(store, disk.files, m))
    ensures exec.Exited? ==> res == CommandFailed(exec.code)
    ensures res.CommandFailed? ==> exec.Exited?
    ensures res.StreamBroke? ==> exec.Broke?
    ensures res.WrongCount? ==> exec.Clean? && CountRegular(f.decode(raw).entries) != want
    ensures var m, sent := f.decode(raw), SentBytes(redact, f, raw)[..read];
            !broken && !disk.failed ==>
              var storable := m.ending.Sealed? && (redact ==> Redactable(m)) && Fits(store, sent, Sent(redact, m));
              && (res.Success? <==> exec.Clean? && storable && CountRegular(m.entries) == want)
              && (res.NotCaptured? <==> !exec.Exited? && !storable)
              && (res.StreamBroke? <==> exec.Broke? && storable)
              && (res.WrongCount? <==> exec.Clean? && storable && CountRegular(m.entries) != want)
  {
    var artifacts;
    var stored;
    broken := false;
    if redact {
      var err;
      ghost var st;
      artifacts, err, read, st, broken := RedactPut(store, disk, raw, f);
      stored := err.Stored?;
    } else {
      var err;
      artifacts, err, read := Put(store, disk, raw, f.decode);
      stored := err.Ok?;
    }
    res := Decide(exec, stored, artifacts, want);
  }

  // ------------------------------------------------------------- side by side

  // The bytes a store can succeed on.
  function Final(decode: Decoding): bytes -> bool {
    b => decode(b).ending.Sealed?
  }

  /** What Put and Redactor promise of the bytes they read and write: a store succeeds only
      on a complete member, and the redactor of m writes no complete member but the
      redacted one, and this only if it could redact all of it. */
  ghost function JobOf(decode: Decoding, m: Member): Pipeline.Job {
    Pipeline.Job(Final(decode), b => decode(b).ending.Sealed? ==> Redactable(m) && decode(b) == Sent(true, m))
  }

  /** All that is written at any point of a stream that comes to w is lawful, if w is the
      redacted member or unfinished. */
  lemma WrittenIsLawful(f: Format, m: Member, w: Member, p: bytes)
    requires Streams(f.decode) && f.decode(f.encode(w)) == w && p <= f.encode(w)
    requires w.ending.Sealed? ==> Redactable(m) && w == Sent(true, m)
    ensures JobOf(f.decode, m).lawful(p)
  {
    assert f.decode(p).ending.Sealed? ==> f.decode(f.encode(w)) == f.decode(p);
  }

  /** With the command, the redactor and the store running side by side, in any
      interleaving: a capture that reports success in the end has had the whole output of
      a command that ended without error, and stored, of the member this reads as, all
      that is wanted, redacted if it was to be. */
  lemma SuccessSideBySide(run: nat -> Pipeline.State, i: nat, decode: Decoding, m: Member, exec: ExecEnd, want: nat)
    requires Pipeline.IsRun(run) && Streams(decode) && run(0).job == JobOf(decode, m)
    requires run(i).main.Finished? && decode(run(i).sent) == m
    requires exec.Clean? <==> run(i).exec.Ended? && run(i).exec.ok
    requires Decide(exec, run(i).main.ok, CountRegular(decode(run(i).kept).entries), want).Success?
    ensures var s, redact := run(i), !run(i).redactor.Absent?;
            && Pipeline.AllDone(s) && s.exec.ok && s.taken == s.sent
            && m.ending.Sealed? && decode(s.kept) == Sent(redact, m)
            && CountRegular(m.entries) == want && (redact ==> Redactable(m))
  {
    Pipeline.DoneWithoutError(run, i);
    RedactedCounts(m.entries);
    var s := run(i);
    if !s.redactor.Absent? {
      assert s.made != [] && decode(s.made) == decode(s.kept);
    }
  }
}
