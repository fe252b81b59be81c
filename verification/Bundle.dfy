/**
 Rewriting a bundle: every entry is copied through under its original header, except
 that the contents of .hprof entries are scrubbed. A tar entry must be exactly as long
 as its header says, which holds only because scrubbing keeps lengths.
 */
module Bundle {
  import opened Bytes
  import opened Streams
  import opened HprofMachine
  import opened Archive
  import HprofTheorems
  import Hprof

  const SUFFIX := ".hprof"

  predicate IsHprof(name: string) {
    |name| >= |SUFFIX| && name[|name| - |SUFFIX|..] == SUFFIX
  }

  /** The names of heap dumps are those that end in ".hprof". */
  lemma HprofNames(name: string)
    ensures IsHprof(name) <==> exists stem: string :: name == stem + ".hprof"
  {
    if IsHprof(name) {
      var stem := name[..|name| - |SUFFIX|];
      assert name == stem + ".hprof";
    }
    forall stem: string | name == stem + ".hprof"
      ensures IsHprof(name)
    {
      Suffixed(stem);
    }
  }

  lemma Suffixed(stem: string)
    ensures IsHprof(stem + ".hprof")
  {
    assert (stem + ".hprof")[|stem|..] == ".hprof";
  }

  /** A heap dump's bytes scrubbed. */
  function Scrubbed(body: bytes): bytes {
    Scan(Eof, body).Out(body)
  }

  predicate Acceptable(e: Entry) {
    IsHprof(e.name) ==> Scan(Eof, e.body).Verdict().Accept?
  }

  function Redact(e: Entry): Entry {
    if IsHprof(e.name) then e.(body := Scrubbed(e.body)) else e
  }

  function RedactAll(es: seq<Entry>): (r: seq<Entry>)
    ensures |r| == |es| && forall i :: 0 <= i < |es| ==> r[i] == Redact(es[i])
  {
    seq(|es|, i requires 0 <= i < |es| => Redact(es[i]))
  }

  /** Whether a tar writer takes the header: it refuses a regular file whose name ends in
      a slash. */
  predicate Encodable(name: string, kind: Kind) {
    kind.Regular? && name != "" ==> Last(name) != '/'
  }

  lemma UnwritableNames(name: string, kind: Kind)
    ensures !Encodable(name, kind) <==> kind == Regular && exists stem: string :: name == stem + "/"
  {
    if name != "" && Last(name) == '/' {
      assert name == Init(name) + "/";
    }
  }

  ghost predicate AllAcceptable(es: seq<Entry>) {
    forall i :: 0 <= i < |es| ==> Acceptable(es[i])
  }

  ghost predicate AllEncodable(es: seq<Entry>) {
    forall i :: 0 <= i < |es| ==> Encodable(es[i].name, es[i].kind)
  }

  datatype Status = Complete | ScrubFailed(error: Error) | InputFailed | WriteFailed | LengthMismatch | BadHeader

  /** A tar stream being written: finished entries, and one that may still be short. */
  class TarWriter {
    var entries: seq<Entry>
    var open: bool
    var name: string
    var kind: Kind
    var size: nat
    var cur: Sink
    var sealed: bool
    ghost var broken: bool // writing a header or the end has failed

    constructor ()
      ensures entries == [] && !open && !sealed && fresh(cur) && cur.out == [] && !Failed()
    {
      entries, open, name, kind, size, sealed, broken := [], false, "", Regular, 0, false, false;
      cur := new Sink();
    }

    // Some write has failed.
    ghost predicate Failed()
      reads this, cur
    {
      broken || cur.broken
    }

    // The finished entries and the one at hand.
    function Entries(): seq<Entry>
      reads this, cur
    {
      if open then entries + [Entry(name, kind, cur.out)] else entries
    }

    // Finishes the current entry, which must have got all its bytes.
    method Finish() returns (st: Status)
      modifies this
      ensures cur == old(cur) && sealed == old(sealed)
      ensures if old(open) && |old(cur.out)| != old(size) then st == LengthMismatch && open && entries == old(entries)
              else st == Complete && !open && entries == old(Entries())
      ensures name == old(name) && kind == old(kind) && size == old(size) && broken == old(broken)
    {
      if open {
        if |cur.out| != size {
          return LengthMismatch;
        }
        entries := entries + [Entry(name, kind, cur.out)];
        open := false;
      }
      st := Complete;
    }

    method WriteHeader(name: string, kind: Kind, size: nat) returns (st: Status)
      modifies this
      ensures sealed == old(sealed) && (cur == old(cur) || (fresh(cur) && !cur.broken))
      ensures broken == (old(broken) || st.WriteFailed?)
      ensures st.LengthMismatch? <==> old(open) && |old(cur.out)| != old(this.size)
      ensures !st.LengthMismatch? ==> entries == old(Entries()) && (st.BadHeader? <==> !Encodable(name, kind))
      ensures st.Complete? ==> open && this.name == name && this.kind == kind && this.size == size
      ensures st.Complete? ==> fresh(cur) && cur.out == []
      ensures st.WriteFailed? || st.BadHeader? ==> !open
      ensures st.Complete? || st.LengthMismatch? || st.WriteFailed? || st.BadHeader?
    {
      st := Finish();
      if st.Complete? && !Encodable(name, kind) {
        st := BadHeader;
      } else if st.Complete? {
        var ok: bool := *;
        if ok {
          this.name, this.kind, this.size, open := name, kind, size, true;
          cur := new Sink();
        } else {
          st, broken := WriteFailed, true;
        }
      }
    }

    // Writes the tar trailer and the gzip footer.
    method Close() returns (st: Status)
      modifies this
      ensures cur == old(cur) && broken == (old(broken) || st.WriteFailed?)
      ensures st.LengthMismatch? <==> old(open) && |old(cur.out)| != old(size)
      ensures !st.LengthMismatch? ==>
                !open && entries == old(Entries())
      ensures sealed == (old(sealed) || st.Complete?)
      ensures st.Complete? || st.LengthMismatch? || st.WriteFailed?
    {
      st := Finish();
      if st.Complete? {
        var ok: bool := *;
        if ok {
          sealed := true;
        } else {
          st, broken := WriteFailed, true;
        }
      }
    }

    /** What a reader of the stream gets once nothing more is written. */
    function Written(): Member
      reads this, cur
    {
      if !open then Member(entries, if sealed then Sealed else CutHeader)
      else if |cur.out| == size then Member(entries + [Entry(name, kind, cur.out)], CutHeader)
      else if |cur.out| < size then Member(entries, CutBody(name, kind, cur.out, size - |cur.out|))
      else Member(entries, CutHeader)
    }
  }

  /** What is emitted for an entry's bytes, whether or not they are accepted. */
  function RedactedPart(name: string, end: End, body: bytes): bytes {
    if IsHprof(name) then Scan(end, body).Out(body) else body
  }

  /** The stream is an unfinished prefix of the redacted member: some entries in full, and
      perhaps the beginning of the next one, all under headers that can be written. */
  ghost predicate RedactedPrefix(w: Member, m: Member) {
    exists k :: PrefixTo(w, m, k)
  }

  // k entries are there in full.
  ghost predicate PrefixTo(w: Member, m: Member, k: nat) {
    k <= |m.entries| && w.entries == RedactAll(m.entries[..k]) && AllEncodable(m.entries[..k]) && PartOf(w.ending, m, k)
  }

  ghost predicate PartOf(e: Ending, m: Member, k: nat)
    requires k <= |m.entries|
  {
    e.CutHeader? ||
    (e.CutBody? && Encodable(e.name, e.kind) &&
     if k < |m.entries| then
       var next := m.entries[k];
       && e.name == next.name && e.kind == next.kind && |e.have| + e.missing == |next.body|
       && e.have <= RedactedPart(e.name, Eof, next.body)
     else
       && m.ending.CutBody? && e.name == m.ending.name && e.kind == m.ending.kind
       && |e.have| + e.missing == |m.ending.have| + m.ending.missing
       && e.have <= RedactedPart(e.name, Broken, m.ending.have))
  }

  lemma PrefixAt(w: Member, m: Member, k: nat)
    requires PrefixTo(w, m, k)
    ensures RedactedPrefix(w, m)
  {
  }

  // Part of an entry's output; if it is as long as the entry, it is all of it.
  lemma PartOfEntry(es: seq<Entry>, i: nat, out: bytes)
    requires i < |es| && out <= RedactedPart(es[i].name, Eof, es[i].body)
    ensures |out| <= |es[i].body|
    ensures |out| == |es[i].body| ==>
            RedactAll(es[..i]) + [Entry(es[i].name, es[i].kind, out)] == RedactAll(es[..i + 1])
  {
    var e := es[i];
    var all := RedactedPart(e.name, Eof, e.body);
    ScanMasks(Eof, e.body);
    assert |all| <= |e.body|;
    if |out| == |e.body| {
      assert out == all[..|out|] == all;
      assert Entry(e.name, e.kind, out) == Redact(e);
    }
    assert RedactAll(es[..i + 1]) == RedactAll(es[..i]) + [Redact(e)];
  }

  // An entry's bytes can be copied to their end.
  predicate Passes(name: string, end: End, body: bytes) {
    end.Eof? && (IsHprof(name) ==> Scan(Eof, body).Verdict().Accept?)
  }

  /** What copying an entry's bytes comes to if no write fails. */
  function BodyStatus(name: string, end: End, body: bytes): Status {
    if IsHprof(name) then
      match Scan(end, body).Verdict()
      case Accept => Complete
      case Reject(e) => ScrubFailed(e)
    else if end.Eof? then Complete
    else InputFailed
  }

  function EntryStatus(name: string, kind: Kind, end: End, body: bytes): Status {
    if Encodable(name, kind) then BodyStatus(name, end, body) else BadHeader
  }

  // The first failure of an entry, if there is one.
  function EntriesStatus(es: seq<Entry>): Status {
    if es == [] then Complete
    else if EntriesStatus(Init(es)) != Complete then EntriesStatus(Init(es))
    else EntryStatus(Last(es).name, Last(es).kind, Eof, Last(es).body)
  }

  function EndStatus(e: Ending): Status {
    match e
    case Sealed => Complete
    case CutBody(name, kind, have, _) => EntryStatus(name, kind, Broken, have)
    case _ => InputFailed
  }

  /** What rewriting a member comes to if no write fails: the first failure in it. */
  function MemberStatus(m: Member): Status {
    if EntriesStatus(m.entries) != Complete then EntriesStatus(m.entries) else EndStatus(m.ending)
  }

  lemma {:induction false} StatusStays(es: seq<Entry>, k: nat)
    requires k <= |es| && EntriesStatus(es[..k]) != Complete
    ensures EntriesStatus(es) == EntriesStatus(es[..k])
    decreases |es|
  {
    if k < |es| {
      assert Init(es)[..k] == es[..k];
      StatusStays(Init(es), k);
    } else {
      assert es[..k] == es;
    }
  }

  predicate Succeeds(e: Entry) {
    EntryStatus(e.name, e.kind, Eof, e.body).Complete?
  }

  /** By position: the failure reported is that of the first entry that fails, or of the end
      if none does. */
  lemma {:induction false} FirstFailure(es: seq<Entry>)
    ensures EntriesStatus(es).Complete? <==> forall i :: 0 <= i < |es| ==> Succeeds(es[i])
    ensures !EntriesStatus(es).Complete? ==>
            exists i :: 0 <= i < |es| && !Succeeds(es[i]) && (forall j :: 0 <= j < i ==> Succeeds(es[j])) &&
                        EntriesStatus(es) == EntryStatus(es[i].name, es[i].kind, Eof, es[i].body)
  {
    if es != [] {
      var k := |es| - 1;
      FirstFailure(Init(es));
      assert forall i :: 0 <= i < k ==> Init(es)[i] == es[i];
      if EntriesStatus(Init(es)).Complete? && !Succeeds(es[k]) {
        assert 0 <= k < |es| && forall j :: 0 <= j < k ==> Succeeds(es[j]);
      } else if !EntriesStatus(Init(es)).Complete? {
        var i :| 0 <= i < k && !Succeeds(Init(es)[i]) && (forall j :: 0 <= j < i ==> Succeeds(Init(es)[j])) &&
                 EntriesStatus(Init(es)) == EntryStatus(Init(es)[i].name, Init(es)[i].kind, Eof, Init(es)[i].body);
        assert !Succeeds(es[i]) && forall j :: 0 <= j < i ==> Succeeds(es[j]);
      }
    }
  }

  /** An entry fails for the first of these reasons: a name that cannot be written, a heap
      dump that is none, an input that breaks off. */
  lemma EntrySucceedsIff(e: Entry)
    ensures Succeeds(e) <==> Encodable(e.name, e.kind) && (IsHprof(e.name) ==> HprofTheorems.IsDump(e.body))
    ensures Succeeds(e) <==> Encodable(e.name, e.kind) && Acceptable(e)
  {
    HprofTheorems.AcceptsExactlyDumps(e.body);
  }

  /** No failure means exactly that the member can be redacted. */
  lemma CompleteIff(m: Member)
    ensures MemberStatus(m).Complete? <==> Redactable(m)
    ensures !MemberStatus(m).WriteFailed? && !MemberStatus(m).LengthMismatch?
  {
    FirstFailure(m.entries);
    forall i | 0 <= i < |m.entries|
      ensures Succeeds(m.entries[i]) <==> Encodable(m.entries[i].name, m.entries[i].kind) && Acceptable(m.entries[i])
    {
      EntrySucceedsIff(m.entries[i]);
    }
    if m.ending.CutBody? {
      HprofTheorems.BrokenNeverAccepted(m.ending.have);
    }
  }

  /** Copies an entry's bytes into the current tar entry, scrubbing a heap dump. */
  method CopyBody(name: string, body: bytes, end: End, w: Sink) returns (st: Status)
    requires w.out == []
    modifies w
    ensures w.out <= RedactedPart(name, end, body)
    ensures !st.WriteFailed? ==> w.out == RedactedPart(name, end, body) && st == BodyStatus(name, end, body)
    ensures st.Complete? ==> |w.out| == |body| && Passes(name, end, body)
    ensures !st.WriteFailed? ==> (st.Complete? <==> Passes(name, end, body))
    ensures w.broken <==> old(w.broken) || st.WriteFailed?
  {
    if IsHprof(name) {
      var r := new Source(body, end);
      assert r.Rest() == body;
      var v := Hprof.Scrub(r, w);
      if end.Broken? {
        HprofTheorems.BrokenNeverAccepted(body);
      }
      st := if v.Accept? then Complete else if v.error.WriteFault? then WriteFailed else ScrubFailed(v.error);
    } else {
      var ok := w.Write(body);
      st := if !ok then WriteFailed else if end.Eof? then Complete else InputFailed;
    }
  }

  /** Copies one entry, header and bytes; `size` is what its header announces. */
  method CopyEntry(name: string, kind: Kind, size: nat, body: bytes, end: End, tw: TarWriter) returns (st: Status)
    requires !tw.sealed && (tw.open ==> |tw.cur.out| == tw.size) && !tw.Failed()
    modifies tw
    ensures tw.Failed() <==> st.WriteFailed?
    ensures !st.WriteFailed? ==> st == EntryStatus(name, kind, end, body)
    ensures !tw.sealed && tw.entries == old(tw.Entries()) && (tw.cur == old(tw.cur) || fresh(tw.cur))
    ensures tw.open ==> tw.name == name && tw.kind == kind && tw.size == size && Encodable(name, kind)
    ensures tw.open ==> tw.cur.out <= RedactedPart(name, end, body)
    ensures st.Complete? ==> tw.open && Encodable(name, kind) && Passes(name, end, body) && |tw.cur.out| == |body|
    ensures !st.WriteFailed? ==> (st.Complete? <==> Encodable(name, kind) && Passes(name, end, body))
    ensures !st.LengthMismatch?
  {
    st := tw.WriteHeader(name, kind, size);
    if st.Complete? {
      st := CopyBody(name, body, end, tw.cur);
    }
  }

  /** Rewrites one member. Success means the whole input was read, its footer was good,
      every .hprof entry was a heap dump, and the output is complete with a footer of its
      own; it then unpacks to the redacted files of the input. Otherwise the output is an
      unfinished prefix of the redacted member. A header never announces more or fewer
      bytes than follow it. */
  method Rewrite(m: Member, tw: TarWriter) returns (st: Status)
    requires tw.entries == [] && !tw.open && !tw.sealed && !tw.Failed()
    modifies tw, tw.cur
    ensures tw.Failed() <==> st.WriteFailed?
    ensures !st.WriteFailed? ==> st == MemberStatus(m)
    ensures st.Complete? ==> tw.Written() == Member(RedactAll(m.entries), Sealed)
    ensures st.Complete? ==> UnpacksRedacted(tw.Written().entries, m.entries)
    ensures !st.Complete? ==> !tw.Written().ending.Sealed? && RedactedPrefix(tw.Written(), m)
    ensures st.Complete? ==> Redactable(m)
    ensures !st.WriteFailed? ==> (st.Complete? <==> Redactable(m))
    ensures !st.LengthMismatch?
  {
    st := RewriteEntries(m, tw);
    if st.Complete? {
      st := RewriteEnd(m, tw);
      if st.Complete? {
        RedactionCommutesWithUnpacking(m.entries);
      }
    }
  }

  // What redaction takes: a good footer, heap dumps in .hprof entries, plain file names.
  ghost predicate Redactable(m: Member) {
    m.ending.Sealed? && AllAcceptable(m.entries) && AllEncodable(m.entries)
  }

  method RewriteEntries(m: Member, tw: TarWriter) returns (st: Status)
    requires tw.entries == [] && !tw.open && !tw.sealed && !tw.Failed()
    modifies tw, tw.cur
    ensures tw.Failed() <==> st.WriteFailed?
    ensures !st.WriteFailed? ==> st == EntriesStatus(m.entries)
    ensures !tw.sealed && (tw.cur == old(tw.cur) || fresh(tw.cur))
    ensures st.Complete? ==> tw.Entries() == RedactAll(m.entries) && (tw.open ==> |tw.cur.out| == tw.size)
    ensures st.Complete? ==> AllAcceptable(m.entries) && AllEncodable(m.entries)
    ensures !st.Complete? ==> RedactedPrefix(tw.Written(), m)
    ensures !st.WriteFailed? && !st.Complete? ==> !(AllAcceptable(m.entries) && AllEncodable(m.entries))
    ensures !st.LengthMismatch?
  {
    ghost var es := m.entries;
    assert RedactAll(es[..0]) == [];
    st := Complete;
    for i := 0 to |m.entries|
      invariant st.Complete? && !tw.sealed && tw.Entries() == RedactAll(es[..i]) &&
                (tw.open ==> |tw.cur.out| == tw.size)
      invariant (tw.cur == old(tw.cur) || fresh(tw.cur)) && !tw.Failed() && EntriesStatus(es[..i]) == Complete
      invariant AllAcceptable(es[..i]) && AllEncodable(es[..i])
    {
      var e := m.entries[i];
      st := CopyEntry(e.name, e.kind, |e.body|, e.body, Eof, tw);
      EntryWritten(m, i, tw);
      assert Init(es[..i + 1]) == es[..i] && Last(es[..i + 1]) == e;
      if !st.Complete? {
        if !st.WriteFailed? {
          StatusStays(es, i + 1);
        }
        return;
      }
      OneMore(es, i);
    }
    assert es[..|es|] == es;
  }

  lemma OneMore(es: seq<Entry>, i: nat)
    requires i < |es| && AllAcceptable(es[..i]) && AllEncodable(es[..i])
    requires Acceptable(es[i]) && Encodable(es[i].name, es[i].kind)
    ensures AllAcceptable(es[..i + 1]) && AllEncodable(es[..i + 1])
  {
    assert es[..i + 1] == es[..i] + [es[i]];
  }

  // The stream after some entries and perhaps a part of the next one.
  lemma EntryWritten(m: Member, i: nat, tw: TarWriter)
    requires i < |m.entries| && !tw.sealed && tw.entries == RedactAll(m.entries[..i]) && AllEncodable(m.entries[..i])
    requires var e := m.entries[i];
             tw.open ==>
               && tw.name == e.name && tw.kind == e.kind && tw.size == |e.body| && Encodable(e.name, e.kind)
               && tw.cur.out <= RedactedPart(e.name, Eof, e.body)
    ensures RedactedPrefix(tw.Written(), m)
    ensures tw.open && |tw.cur.out| == tw.size ==> tw.Entries() == RedactAll(m.entries[..i + 1])
  {
    if tw.open {
      PartOfEntry(m.entries, i, tw.cur.out);
      assert m.entries[..i + 1] == m.entries[..i] + [m.entries[i]];
    }
    PrefixAt(tw.Written(), m, if tw.open && |tw.cur.out| == tw.size then i + 1 else i);
  }

  method RewriteEnd(m: Member, tw: TarWriter) returns (st: Status)
    requires !tw.sealed && tw.Entries() == RedactAll(m.entries) && (tw.open ==> |tw.cur.out| == tw.size)
    requires AllEncodable(m.entries) && !tw.Failed()
    modifies tw
    ensures tw.Failed() <==> st.WriteFailed?
    ensures !st.WriteFailed? ==> st == EndStatus(m.ending)
    ensures st.Complete? ==> m.ending.Sealed? && tw.Written() == Member(RedactAll(m.entries), Sealed)
    ensures !st.Complete? ==> !tw.Written().ending.Sealed? && RedactedPrefix(tw.Written(), m)
    ensures !st.WriteFailed? ==> (st.Complete? <==> m.ending.Sealed?)
    ensures !st.LengthMismatch?
  {
    assert m.entries[..|m.entries|] == m.entries;
    match m.ending
    case CutBody(name, kind, have, missing) =>
      st := CopyEntry(name, kind, |have| + missing, have, Broken, tw);
      ScanMasks(Broken, have);
      PrefixAt(tw.Written(), m, |m.entries|);
    case Sealed =>
      st := tw.Close();
      if !st.Complete? {
        PrefixAt(tw.Written(), m, |m.entries|);
      }
    case _ =>
      st := InputFailed;
      assert tw.Written() == Member(tw.Entries(), CutHeader);
      PrefixAt(tw.Written(), m, |m.entries|);
  }

  // ----------------------------------------------------- redacting and unpacking

  /** Redaction keeps every header and, of accepted entries, every length. */
  lemma RedactKeeps(e: Entry)
    ensures var r := Redact(e); r.name == e.name && r.kind == e.kind
    ensures Acceptable(e) ==> |Redact(e).body| == |e.body|
  {
    ScanMasks(Eof, e.body);
  }

  lemma {:induction false} RedactedCounts(es: seq<Entry>)
    ensures CountRegular(RedactAll(es)) == CountRegular(es) && BaseNames(RedactAll(es)) == BaseNames(es)
    ensures AllAcceptable(es) ==> Bodies(RedactAll(es)) == Bodies(es)
  {
    if es != [] {
      assert Init(RedactAll(es)) == RedactAll(Init(es));
      RedactedCounts(Init(es));
      RedactKeeps(Last(es));
    }
  }

  /** The cap trips for a redacted member exactly when it trips for the original. */
  lemma CapUnaffected(m: Member, maxSize: int)
    requires m.ending.Sealed? && AllAcceptable(m.entries)
    ensures 0 < maxSize < Demand(Member(RedactAll(m.entries), Sealed)) <==> 0 < maxSize < Demand(m)
  {
    RedactedCounts(m.entries);
  }

  lemma {:induction false} RedactedLastWriter(es: seq<Entry>, n: string)
    ensures LastWriter(RedactAll(es), n) == RedactAll(LastWriter(es, n))
  {
    if es != [] {
      assert Init(RedactAll(es)) == RedactAll(Init(es));
      RedactedLastWriter(Init(es), n);
    }
  }

  // ".hprof" files as they are on disk, scrubbed.
  function RedactFile(n: string, content: bytes): bytes {
    if IsHprof(n) then Scrubbed(content) else content
  }

  // What name n holds after unpacking w, compared with after unpacking es.
  predicate UnpacksRedactedAt(files: map<string, bytes>, w: seq<Entry>, es: seq<Entry>, n: string) {
    var u, r := Unpacked(files, es), Unpacked(files, w);
    && (n in r <==> n in u)
    && (n in r ==> r[n] == if LastWriter(es, n) == [] then u[n] else RedactFile(n, u[n]))
  }

  /** Unpacking w gives the files of es redacted: the same names, those unpacked to a
      .hprof name scrubbed, all others identical, last entry winning. */
  ghost predicate UnpacksRedacted(w: seq<Entry>, es: seq<Entry>) {
    forall files: map<string, bytes>, n: string :: UnpacksRedactedAt(files, w, es, n)
  }

  lemma RedactionCommutesAt(files: map<string, bytes>, es: seq<Entry>, n: string)
    requires AllEncodable(es)
    ensures UnpacksRedactedAt(files, RedactAll(es), es, n)
  {
    UnpackedLastWins(files, es, n);
    UnpackedLastWins(files, RedactAll(es), n);
    RedactedLastWriter(es, n);
    LastWriterIsEntry(es, n);
    var w := LastWriter(es, n);
    if w != [] {
      SuffixKept(w[0].name);
    }
  }

  /** Redacting and then unpacking is unpacking and then redacting, for every member whose
      headers can be written at all. */
  lemma RedactionCommutesWithUnpacking(es: seq<Entry>)
    requires AllEncodable(es)
    ensures UnpacksRedacted(RedactAll(es), es)
  {
    forall files: map<string, bytes>, n: string
      ensures UnpacksRedactedAt(files, RedactAll(es), es, n)
    {
      RedactionCommutesAt(files, es, n);
    }
  }

  /** No raw dump is stored: after unpacking a redacted member, every .hprof file that came
      from it is a heap dump without primitive array values left to scrub. */
  ghost predicate DumpsScrubbed(files: map<string, bytes>, es: seq<Entry>) {
    forall n | IsHprof(n) && LastWriter(es, n) != [] ::
      && n in files && files[n] == Scrubbed(LastWriter(es, n)[0].body)
      && HprofTheorems.IsDump(files[n]) && Scrubbed(files[n]) == files[n]
  }

  lemma StoredDumpsScrubbed(files: map<string, bytes>, es: seq<Entry>)
    requires AllAcceptable(es) && AllEncodable(es)
    ensures DumpsScrubbed(Unpacked(files, RedactAll(es)), es)
  {
    forall n | IsHprof(n) && LastWriter(es, n) != []
      ensures var r := Unpacked(files, RedactAll(es));
              && n in r && r[n] == Scrubbed(LastWriter(es, n)[0].body)
              && HprofTheorems.IsDump(r[n]) && Scrubbed(r[n]) == r[n]
    {
      var e := LastWriter(es, n)[0];
      LastWriterIsEntry(es, n);
      RedactionCommutesAt(files, es, n);
      UnpackedLastWins(files, es, n);
      SuffixKept(e.name);
      assert Acceptable(e);
      HprofTheorems.ScrubbedStaysScrubbed(e.body);
      HprofTheorems.AcceptsExactlyDumps(Scrubbed(e.body));
    }
  }

  lemma {:induction false} LastWriterIsEntry(es: seq<Entry>, n: string)
    ensures var w := LastWriter(es, n);
            |w| <= 1 && (w != [] ==> w[0] in es && w[0].kind.Regular? && Base(w[0].name) == n)
  {
    if es != [] {
      LastWriterIsEntry(Init(es), n);
    }
  }

  // ------------------------------------------------------------- the suffix test

  lemma {:induction false} LastPartSuffix(path: string, k: nat)
    requires k <= |path| && '/' !in path[|path| - k..]
    ensures |LastPart(path)| >= k && LastPart(path)[|LastPart(path)| - k..] == path[|path| - k..]
    decreases |path|
  {
    if k > 0 {
      var q := Init(path);
      assert path[|path| - k..] == q[|q| - (k - 1)..] + [Last(path)];
      assert Last(path) == path[|path| - k..][k - 1];
      LastPartSuffix(q, k - 1);
      var l := LastPart(q);
      assert (l + [Last(path)])[|l| + 1 - k..] == l[|l| - (k - 1)..] + [Last(path)];
    }
  }

  lemma {:induction false} LastPartIsSuffix(path: string)
    ensures |LastPart(path)| <= |path| && LastPart(path) == path[|path| - |LastPart(path)|..]
    decreases |path|
  {
    if path != "" && Last(path) != '/' {
      LastPartIsSuffix(Init(path));
    }
  }

  /** A .hprof name unpacks to a .hprof file. */
  lemma SuffixOfBase(name: string)
    ensures IsHprof(name) ==> IsHprof(Base(name))
  {
    if IsHprof(name) {
      assert Last(name) == name[|name| - |SUFFIX|..][|SUFFIX| - 1] == 'f';
      assert TrimSlashes(name) == name;
      LastPartSuffix(name, |SUFFIX|);
    }
  }

  /** The suffix test looks at an entry's whole name while its file is stored under the
      base name. Of a regular file with a name that can be written, both agree. */
  lemma SuffixKept(name: string)
    requires Encodable(name, Regular)
    ensures IsHprof(Base(name)) <==> IsHprof(name)
  {
    SuffixOfBase(name);
    if name != "" && IsHprof(Base(name)) {
      var l := LastPart(name);
      assert TrimSlashes(name) == name;
      LastPartIsSuffix(name);
      assert Base(name) == if l == "" then "/" else l;
      SuffixOfSuffix(name, l);
    }
  }

  lemma SuffixOfSuffix(name: string, l: string)
    requires |l| <= |name| && l == name[|name| - |l|..] && IsHprof(l)
    ensures IsHprof(name)
  {
    assert l[|l| - |SUFFIX|..] == name[|name| - |SUFFIX|..];
  }
}
