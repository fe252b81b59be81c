/**
 What a run reports when an input goes wrong, and what it has emitted by then: at the
 start of the file, between records, and inside a heap dump record behind any number of
 whole sub-records.
 */
module HprofErrors {
  import opened Bytes
  import opened HprofMachine
  import opened HprofGrammar
  import opened HprofRefinement
  import opened HprofTheorems
  import opened HprofMasking
  import opened HprofPayload

  // The error of an input that ends too early.
  function Cut(end: End): Verdict {
    Reject(if end.Eof? then UnexpectedEof else ReadFault)
  }

  // ------------------------------------------------------------- the file header

  /** Without a NUL behind the name of the format nothing is emitted. */
  lemma NotADump(end: End, x: bytes)
    requires FirstNul(x, 0) == |x| || !StartsWith(x[..FirstNul(x, 0) + 1], "JAVA PROFILE 1.0.")
    ensures Scan(end, x).Verdict() == Reject(NotHeapDump) && Scan(end, x).Out(x) == []
  {
    if FirstNul(x, 0) < |x| {
      assert NamesFormat(x[..FirstNul(x, 0) + 1]) == StartsWith(x[..FirstNul(x, 0) + 1], "JAVA PROFILE 1.0.");
    }
  }

  // The name of the format, up to a NUL.
  ghost predicate IsName(magic: bytes) {
    |magic| > 0 && FirstNul(magic, 0) == |magic| - 1 && StartsWith(magic, "JAVA PROFILE 1.0.")
  }

  lemma BehindName(end: End, magic: bytes, u: bytes)
    requires IsName(magic)
    ensures var t := RunHeader(end, u);
            Scan(end, magic + u).Verdict() == t.Verdict() && Scan(end, magic + u).Out(magic + u) == magic + t.Out(u)
  {
    assert NamesFormat(magic) == StartsWith(magic, "JAVA PROFILE 1.0.");
    NulOfMagic(magic, u);
    assert (magic + u)[..|magic|] == magic && (magic + u)[|magic|..] == u;
    AfterOut(RunHeader(end, u), magic, false, u);
  }

  /** A header that is cut short is reported, with nothing of it emitted. */
  lemma ShortHeader(end: End, magic: bytes, u: bytes)
    requires IsName(magic) && |u| < 12
    ensures Scan(end, magic + u).Verdict() == Cut(end) && Scan(end, magic + u).Out(magic + u) == magic
  {
    BehindName(end, magic, u);
    assert magic + [] == magic;
  }

  /** An identifier size other than 4 and 8 is reported, behind the whole header. */
  lemma BadSize(end: End, magic: bytes, id: nat, stamp: bytes, y: bytes)
    requires IsName(magic) && id < 0x1_0000_0000 && id != 4 && id != 8 && |stamp| == 8
    ensures var x := magic + ((BigEndian(id, 4) + stamp) + y);
            && Scan(end, x).Verdict() == Reject(BadIdSize(id))
            && Scan(end, x).Out(x) == magic + (BigEndian(id, 4) + stamp)
  {
    var b := BigEndian(id, 4);
    var h, t := b + stamp, Stopped(BadIdSize(id));
    BigEndianIs4(id);
    assert (h + y)[..4] == b && (h + y)[12..] == y;
    BehindName(end, magic, h + y);
    AfterOut(t, h, false, y);
    assert h + [] == h;
  }

  // ------------------------------------------------------------ between records

  // Behind whole records a run does what it does to the rest z.
  lemma BehindRecords(end: End, d: Dump, z: bytes)
    requires DumpOk(d)
    ensures var t, u := Scan(end, Before(d, z)), Run(end, d.id, 0, Done, z);
            t.Verdict() == u.Verdict() && t.Out(Before(d, z)) == Before(Scrub(d), u.Out(z))
  {
    var u := Run(end, d.id, 0, Done, z);
    ScanBefore(end, d, z);
    BeforeOut(d, u, z);
    RecordsVerdict(d.records, u);
  }

  /** The two record tags that mean sub-records, and all others: behind whole records, a
      record tagged 0x0C or 0x1C is emitted with its arrays zeroed, ... */
  lemma HeapByTag(end: End, d: Dump, tag: byte, time: bytes, subs: seq<Sub>, z: bytes)
    requires DumpOk(d) && |time| == 4 && SubsOk(subs, d.id) && SubsSize(subs) < 0x1_0000_0000
    requires tag == 0x0C || tag == 0x1C
    ensures var head := [tag] + (time + BigEndian(SubsSize(subs), 4));
            var x, u := Before(d, head + PrintSubs(subs, z)), Run(end, d.id, 0, Done, z);
            && Scan(end, x).Verdict() == u.Verdict()
            && Scan(end, x).Out(x) == Before(Scrub(d), head + PrintSubs(ScrubSubs(subs), u.Out(z)))
            && (z == [] && end.Eof? ==> u.Verdict().Accept?)
  {
    var r := Heap(tag, time, subs);
    assert RecordOk(r, d.id);
    AfterRecord(end, d, r, z);
    ScrubKeepsSubs(subs, d.id);
  }

  /** ... and one with any other tag unchanged. */
  lemma PlainByTag(end: End, d: Dump, tag: byte, time: bytes, body: bytes, z: bytes)
    requires DumpOk(d) && |time| == 4 && |body| < 0x1_0000_0000
    requires tag != 0x0C && tag != 0x1C
    ensures var head := [tag] + (time + BigEndian(|body|, 4));
            var x, u := Before(d, head + (body + z)), Run(end, d.id, 0, Done, z);
            && Scan(end, x).Verdict() == u.Verdict()
            && Scan(end, x).Out(x) == Before(Scrub(d), head + (body + u.Out(z)))
            && (z == [] && end.Eof? ==> u.Verdict().Accept?)
  {
    var r := Plain(tag, time, body);
    assert RecordOk(r, d.id);
    AfterRecord(end, d, r, z);
  }

  lemma AfterRecord(end: End, d: Dump, r: Record, z: bytes)
    requires DumpOk(d) && RecordOk(r, d.id)
    ensures var x, u := Before(d, PrintRecord(r, z)), Run(end, d.id, 0, Done, z);
            && Scan(end, x).Verdict() == u.Verdict()
            && Scan(end, x).Out(x) == Before(Scrub(d), PrintRecord(ScrubRecord(r), u.Out(z)))
            && (z == [] && end.Eof? ==> u.Verdict().Accept?)
  {
    var u := Run(end, d.id, 0, Done, z);
    BehindRecords(end, d, PrintRecord(r, z));
    RunOneRecord(end, d.id, r, z);
    RecordOut(r, d.id, u, z);
    RecordVerdict(r, u);
    assert u == RunRecord(end, d.id, z);
  }

  /** Input that ends in a record header, or in the body of a record that is not for a heap
      dump; of the body what is there has been emitted. */
  lemma RecordCut(end: End, d: Dump, z: bytes)
    requires DumpOk(d) && z != []
    requires |z| < 9 || (z[0] != 0x0C && z[0] != 0x1C && |z| - 9 < U4(z[5..9]))
    ensures var x := Before(d, z);
            && Scan(end, x).Verdict() == Cut(end)
            && Scan(end, x).Out(x) == Before(Scrub(d), if |z| < 9 then [] else z)
  {
    BehindRecords(end, d, z);
    var u := Run(end, d.id, 0, Done, z);
    assert u == RunRecord(end, d.id, z);
    if |z| >= 9 {
      BodyCut(end, d.id, U4(z[5..9]), z[..9], z[9..]);
      Halves(z, 9);
    }
  }

  lemma BodyCut(end: End, id: nat, n: nat, head: bytes, v: bytes)
    requires |v| < n && |head| == 9
    ensures var t := Copy(9, Run(end, id, n, Do(Blob(n), Done), v));
            t.Verdict() == Cut(end) && t.Out(head + v) == head + v
  {
    var t := Stopped(EndError(end)).After(|v|, false);
    assert Run(end, id, n, Do(Blob(n), Done), v) == RunItem(end, id, n, Blob(n), Done, v) == t;
    AfterVerdict(Stopped(EndError(end)), |v|, false);
    AfterOut(Stopped(EndError(end)), v, false, []);
    assert v + [] == v;
    AfterOut(t, head, false, v);
  }

  // --------------------------------------------- inside a heap dump record

  /** Behind whole sub-records, with `left` bytes of the record's length to go. */
  lemma BehindSubs(end: End, d: Dump, head: bytes, len: nat, subs: seq<Sub>, left: nat, z: bytes)
    requires DumpOk(d) && HeapHead(head, len) && SubsOk(subs, d.id) && len == SubsSize(subs) + left
    ensures var x, u := Before(d, head + PrintSubs(subs, z)), Run(end, d.id, left, Done, z);
            && Scan(end, x).Verdict() == u.Verdict()
            && Scan(end, x).Out(x) == Before(Scrub(d), head + PrintSubs(ScrubSubs(subs), u.Out(z)))
  {
    var u, v := Run(end, d.id, left, Done, z), PrintSubs(subs, z);
    BehindRecords(end, d, head + v);
    RunHeapHead(end, d.id, head, len, v);
    RunSubs(end, d.id, len, subs, z);
    SubsOut(subs, d.id, u, z);
    SubsVerdict(subs, u);
    AfterOut(SubsTrace(subs, u), head, false, v);
  }

  /** The input ends where a sub-record is due. */
  lemma MissingSub(end: End, id: nat, left: nat)
    requires left > 0
    ensures Run(end, id, left, Done, []).Verdict() == Cut(end) && Run(end, id, left, Done, []).Out([]) == []
  {
    assert Run(end, id, left, Done, []) == RunItem(end, id, left, Tag, Done, []);
  }

  /** A tag that is none of the format's is emitted and then reported. */
  lemma UnknownTag(end: End, id: nat, left: nat, z: bytes)
    requires left > 0 && z != [] && id > 0
    requires RootSize(id, z[0]) == 0 && z[0] !in {0x20, 0x21, 0x22, 0x23}
    ensures var u := Run(end, id, left, Done, z); u.Verdict() == Reject(UnknownSub(z[0])) && u.Out(z) == [z[0]]
  {
    assert Run(end, id, left, Done, z) == RunItem(end, id, left, Tag, Done, z);
    assert RunItem(end, id, left, Tag, Done, z) == RunLook(end, id, left, Tag, Done, z);
    assert z[..1] == [z[0]];
  }

  /** An array whose type is none of the format's is emitted up to the type. */
  lemma UnknownArrayType(end: End, id: nat, left: nat, head: bytes, n: bytes, ty: byte, y: bytes)
    requires |head| == id + 4 && |n| == 4 && left >= id + 10 && ValueSize(id, ty) == 0
    ensures var z := [0x23] + (head + (n + ([ty] + y)));
            var u := Run(end, id, left, Done, z);
            u.Verdict() == Reject(UnknownType(ty)) && u.Out(z) == [0x23] + (head + (n + [ty]))
  {
    var left' := left - id - 9;
    var w, u := n + ([ty] + y), [ty] + y;
    var item := PrimType(U4(n));
    TypeStops(end, id, left', item, ty, y);
    var t := Run(end, id, left', Do(item, Done), u);
    LookStep(end, id, left' + 4, PrimLength, Done, n, u, Do(item, Done));
    HeadSteps(end, id, left, 0x23, head, Do(PrimLength, Done), w);
    AfterOut(t, n, false, u);
    AfterOut(Copy(4, t), head, false, w);
    AfterOut(Copy(4, t).After(|head|, false), [0x23], false, head + w);
    AfterVerdict(Copy(4, t), |head|, false);
  }

  lemma TypeStops(end: End, id: nat, left: nat, item: Item, ty: byte, y: bytes)
    requires left > 0 && item.PrimType? && ValueSize(id, ty) == 0
    ensures var t := Run(end, id, left, Do(item, Done), [ty] + y);
            t.Verdict() == Reject(UnknownType(ty)) && t.Out([ty] + y) == [ty]
  {
    var u := [ty] + y;
    assert Run(end, id, left, Do(item, Done), u) == RunItem(end, id, left, item, Done, u);
    assert RunItem(end, id, left, item, Done, u) == RunLook(end, id, left, item, Done, u);
    assert u[..1] == [ty] && u[0] == ty;
  }

  /** Input that ends within the values of an array has had a zero emitted for each value
      of every full chunk of 32 KiB, and none for the rest. */
  lemma ValuesCut(end: End, id: nat, left: nat, head: bytes, n: bytes, ty: byte, y: bytes, size: nat)
    requires |head| == id + 4 && |n| == 4 && ValueSize(id, ty) > 0 && size == U4(n) * ValueSize(id, ty)
    requires |y| < size && left >= id + 10 + size
    ensures var z := [0x23] + (head + (n + ([ty] + y)));
            var u := Run(end, id, left, Done, z);
            u.Verdict() == Cut(end) && u.Out(z) == [0x23] + (head + (n + ([ty] + Zeros(|y| / 32768 * 32768))))
  {
    var left' := left - id - 9;
    var w, u := n + ([ty] + y), [ty] + y;
    var item := PrimType(U4(n));
    var t0 := Run(end, id, left' - 1, Do(Wipe(size), Done), y);
    assert t0 == RunItem(end, id, left' - 1, Wipe(size), Done, y);
    LookStep(end, id, left', item, Done, [ty], y, Do(Wipe(size), Done));
    LookStep(end, id, left' + 4, PrimLength, Done, n, u, Do(item, Done));
    HeadSteps(end, id, left, 0x23, head, Do(PrimLength, Done), w);
    AfterOut(t0, [ty], false, y);
    AfterOut(Copy(1, t0), n, false, u);
    AfterOut(Copy(4, Copy(1, t0)), head, false, w);
    AfterOut(Copy(4, Copy(1, t0)).After(|head|, false), [0x23], false, head + w);
    AfterVerdict(Copy(4, Copy(1, t0)), |head|, false);
    assert Copy(4, Copy(1, t0)).Verdict() == Copy(1, t0).Verdict() == t0.Verdict();
  }

  // ------------------------------------------------ sub-records cut or too long

  /** y is exactly what is pending. */
  predicate Fills(id: nat, todo: Todo, y: bytes)
    decreases |y|, Depth(todo)
  {
    if todo == Done then y == []
    else
      var p := Point(|y|, todo, y);
      GoesOn(id, p) && Fills(id, Onward(id, p).todo, Onward(id, p).x)
  }

  lemma FillsBlind(id: nat, item: Item, tail: Todo, a: bytes, rest: bytes)
    requires !Looks(item) && Width(item) == |a| && Fills(id, tail, rest)
    ensures Fills(id, Do(item, tail), a + rest)
  {
    assert (a + rest)[|a|..] == rest;
  }

  lemma FillsLook(id: nat, item: Item, tail: Todo, a: bytes, todo: Todo, rest: bytes)
    requires Looks(item) && Width(item) == |a| && Respond(id, item, a, tail) == Push(todo) && Fills(id, todo, rest)
    ensures Fills(id, Do(item, tail), a + rest)
  {
    assert (a + rest)[..|a|] == a && (a + rest)[|a|..] == rest;
  }

  lemma {:induction false} FillsEntries(id: nat, es: seq<Entry>, head: nat, tail: Todo, rest: bytes)
    requires EntriesOk(es, id, head) && Fills(id, tail, rest)
    ensures Fills(id, Entries(|es|, head, tail), PrintEntries(es, rest))
  {
    if es != [] {
      var e, todo, y := es[0], Entries(|es| - 1, head, tail), PrintEntries(es[1..], rest);
      FillsEntries(id, es[1..], head, tail, rest);
      FillsBlind(id, Blob(|e.value|), todo, e.value, y);
      FillsLook(id, ValueType, todo, [e.ty], Do(Blob(|e.value|), todo), e.value + y);
      FillsBlind(id, Blob(head), Do(ValueType, todo), e.key, [e.ty] + (e.value + y));
    }
  }

  lemma FillsTable(id: nat, es: seq<Entry>, head: nat, tail: Todo, rest: bytes)
    requires TableOk(es, id, head) && Fills(id, tail, rest)
    ensures Fills(id, Do(Table(head), tail), PrintTable(es, rest))
  {
    FillsEntries(id, es, head, tail, rest);
    FillsLook(id, Table(head), tail, Num2(|es|), Entries(|es|, head, tail), PrintEntries(es, rest));
  }

  // Bytes that end a sub-record.
  lemma FillsLast(id: nat, item: Item, a: bytes)
    requires !Looks(item) && Width(item) == |a|
    ensures Fills(id, Do(item, Done), a + [])
  {
    FillsBlind(id, item, Done, a, []);
  }

  // A head, a count and what it announces.
  lemma FillsCounted(id: nat, head: bytes, item: Item, n: bytes, a: bytes)
    requires item.InstanceLength? || item.ArrayLength? || item.FieldTable?
    requires |n| == Width(item) && Respond(id, item, n, Done) == Push(Do(Blob(|a|), Done))
    ensures Fills(id, Do(Blob(|head|), Do(item, Done)), head + (n + (a + [])))
    ensures Fills(id, Do(item, Done), n + (a + []))
  {
    FillsLast(id, Blob(|a|), a);
    FillsLook(id, item, Done, n, Do(Blob(|a|), Done), a + []);
    FillsBlind(id, Blob(|head|), Do(item, Done), head, n + (a + []));
  }

  lemma FillsArray(id: nat, head: bytes, n: bytes, ty: byte, a: bytes)
    requires |n| == 4 && ValueSize(id, ty) > 0 && |a| == U4(n) * ValueSize(id, ty)
    ensures Fills(id, Do(Blob(|head|), Do(PrimLength, Done)), head + (n + ([ty] + (a + []))))
  {
    FillsLast(id, Wipe(|a|), a);
    FillsLook(id, PrimType(U4(n)), Done, [ty], Do(Wipe(|a|), Done), a + []);
    FillsLook(id, PrimLength, Done, n, Do(PrimType(U4(n)), Done), [ty] + (a + []));
    FillsBlind(id, Blob(|head|), Do(PrimLength, Done), head, n + ([ty] + (a + [])));
  }

  lemma FillsClass(id: nat, head: bytes, consts: seq<Entry>, statics: seq<Entry>, f: bytes)
    requires TableOk(consts, id, 2) && TableOk(statics, id, id) && Fills(id, Do(FieldTable, Done), f)
    ensures Fills(id, Do(Blob(|head|), Do(Table(2), Do(Table(id), Do(FieldTable, Done)))),
                  head + PrintTable(consts, PrintTable(statics, f)))
  {
    var y := PrintTable(statics, f);
    FillsTable(id, statics, id, Do(FieldTable, Done), f);
    FillsTable(id, consts, 2, Do(Table(id), Do(FieldTable, Done)), y);
    FillsBlind(id, Blob(|head|), Do(Table(2), Do(Table(id), Do(FieldTable, Done))), head, PrintTable(consts, y));
  }

  /** Behind its tag, a printed sub-record is exactly what the tag asks for. */
  predicate BodyFills(id: nat, s: Sub) {
    var r := Contents(id, TagOf(s), Done);
    r.Push? && r.todo.Do? && Fills(id, r.todo, PrintBody(s, []))
  }

  lemma FillsRootBody(id: nat, s: Sub)
    requires s.Root? && SubOk(s, id) && id > 0
    ensures BodyFills(id, s)
  {
    FillsLast(id, Blob(|s.body|), s.body);
    assert PrintBody(s, []) == s.body + [];
  }

  lemma FillsClassBody(id: nat, s: Sub)
    requires s.Class? && SubOk(s, id) && id > 0
    ensures BodyFills(id, s)
  {
    var f := Num2(s.count) + (s.fields + []);
    FillsCounted(id, [], FieldTable, Num2(s.count), s.fields);
    FillsClass(id, s.head, s.consts, s.statics, f);
    assert PrintBody(s, []) == s.head + PrintTable(s.consts, PrintTable(s.statics, f));
  }

  lemma FillsInstanceBody(id: nat, s: Sub)
    requires s.Instance? && SubOk(s, id) && id > 0
    ensures BodyFills(id, s)
  {
    FillsCounted(id, s.head, InstanceLength, Num4(|s.values|), s.values);
    assert PrintBody(s, []) == s.head + (Num4(|s.values|) + (s.values + []));
  }

  lemma FillsObjectArrayBody(id: nat, s: Sub)
    requires s.ObjectArray? && SubOk(s, id) && id > 0
    ensures BodyFills(id, s)
  {
    FillsCounted(id, s.head, ArrayLength, Num4(s.count), s.refs);
    assert PrintBody(s, []) == s.head + (Num4(s.count) + (s.refs + []));
  }

  lemma FillsPrimArrayBody(id: nat, s: Sub)
    requires s.PrimArray? && SubOk(s, id) && id > 0
    ensures BodyFills(id, s)
  {
    FillsArray(id, s.head, Num4(s.count), s.ty, s.elems);
    assert PrintBody(s, []) == s.head + (Num4(s.count) + ([s.ty] + (s.elems + [])));
  }

  lemma FillsBody(id: nat, s: Sub)
    requires SubOk(s, id) && id > 0
    ensures BodyFills(id, s)
  {
    match s
    case Root(_, _) => FillsRootBody(id, s);
    case Class(_, _, _, _, _) => FillsClassBody(id, s);
    case Instance(_, _) => FillsInstanceBody(id, s);
    case ObjectArray(_, _, _) => FillsObjectArrayBody(id, s);
    case PrimArray(_, _, _, _) => FillsPrimArrayBody(id, s);
  }

  // Of what is pending only x is there, or the record has no room for all of it.
  lemma {:induction false} FillsCut(end: End, id: nat, left: nat, todo: Todo, y: bytes, x: bytes)
    requires todo.Do? && Fills(id, todo, y) && x <= y
    requires (|x| < |y| && |y| <= left) || (x == y && left < |y|)
    ensures Run(end, id, left, todo, x).Verdict() == if x == y then Reject(Overrun) else Cut(end)
    decreases |y|, Depth(todo)
  {
    var item, tail := todo.item, todo.rest;
    var w, p, q := Width(item), Point(left, todo, x), Point(|y|, todo, y);
    assert RunAt(end, id, p) == RunItem(end, id, left, item, tail, x);
    if w <= left && w <= |x| {
      assert x[..w] == y[..w] && x[w..] <= y[w..];
      assert GoesOn(id, q) && GoesOn(id, p) && Onward(id, p).todo == Onward(id, q).todo;
      FillsCut(end, id, left - w, Onward(id, q).todo, y[w..], x[w..]);
      RunGoesOn(end, id, p);
      AfterVerdict(RunAt(end, id, Onward(id, p)), w, item.Wipe?);
    } else if w <= left {
      StarvedVerdict(end, item, |x|);
    }
  }

  lemma StarvedVerdict(end: End, item: Item, n: nat)
    ensures Starved(end, item, n).Verdict() == Cut(end)
  {
    if item.Blob? {
      AfterVerdict(Stopped(EndError(end)), n, false);
    }
  }

  /** A sub-record that is all there but does not fit what is left of its record is
      reported as running over it. */
  lemma SubOverruns(end: End, id: nat, left: nat, s: Sub)
    requires SubOk(s, id) && id > 0 && 0 < left < SubSize(s)
    ensures Run(end, id, left, Done, PrintSub(s, [])).Verdict() == Reject(Overrun)
  {
    var body := PrintBody(s, []);
    FillsBody(id, s);
    SubLength(s, id, []);
    TagStep(end, id, left, TagOf(s), body, Contents(id, TagOf(s), Done).todo);
    FillsCut(end, id, left - 1, Contents(id, TagOf(s), Done).todo, body, body);
  }

  /** A sub-record that fits, but of which the input has only a part, is reported as input
      that ends too early. */
  lemma SubCut(end: End, id: nat, left: nat, s: Sub, n: nat)
    requires SubOk(s, id) && id > 0 && SubSize(s) <= left && 0 < n < SubSize(s) && n <= |PrintSub(s, [])|
    ensures Run(end, id, left, Done, PrintSub(s, [])[..n]).Verdict() == Cut(end)
  {
    var body := PrintBody(s, []);
    FillsBody(id, s);
    SubLength(s, id, []);
    assert PrintSub(s, [])[..n] == [TagOf(s)] + body[..n - 1];
    TagStep(end, id, left, TagOf(s), body[..n - 1], Contents(id, TagOf(s), Done).todo);
    FillsCut(end, id, left - 1, Contents(id, TagOf(s), Done).todo, body, body[..n - 1]);
  }
}
