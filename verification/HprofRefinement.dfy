/**
 The machine against the grammar, forwards: what it does on printed dumps, what it then
 emits and marks, and that it accepts them.
 */
module HprofRefinement {
  import opened Bytes
  import opened HprofMachine
  import opened HprofGrammar

  // -------------------------------------------------- single steps, forwards

  lemma CopyStep(end: End, id: nat, left: nat, tail: Todo, a: bytes, y: bytes)
    requires |a| <= left
    ensures Run(end, id, left, Do(Blob(|a|), tail), a + y) == Run(end, id, left - |a|, tail, y).After(|a|, false)
  {
    assert (a + y)[|a|..] == y;
  }

  lemma WipeStep(end: End, id: nat, left: nat, tail: Todo, a: bytes, y: bytes)
    requires |a| <= left
    ensures Run(end, id, left, Do(Wipe(|a|), tail), a + y) == Run(end, id, left - |a|, tail, y).After(|a|, true)
  {
    assert (a + y)[|a|..] == y;
  }

  lemma LookStep(end: End, id: nat, left: nat, item: Item, tail: Todo, a: bytes, y: bytes, todo: Todo)
    requires Looks(item) && |a| == Width(item) <= left && Respond(id, item, a, tail) == Push(todo)
    ensures RunItem(end, id, left, item, tail, a + y) == Copy(|a|, Run(end, id, left - |a|, todo, y))
    ensures Run(end, id, left, Do(item, tail), a + y) == Copy(|a|, Run(end, id, left - |a|, todo, y))
  {
    assert (a + y)[..|a|] == a && (a + y)[|a|..] == y;
    assert RunItem(end, id, left, item, tail, a + y) == RunLook(end, id, left, item, tail, a + y);
  }

  lemma TagStep(end: End, id: nat, left: nat, tag: byte, y: bytes, todo: Todo)
    requires left > 0 && Contents(id, tag, Done) == Push(todo)
    ensures Run(end, id, left, Done, [tag] + y) == Copy(1, Run(end, id, left - 1, todo, y))
  {
    LookStep(end, id, left, Tag, Done, [tag], y, todo);
  }

  // -------------------------------------------------- sub-records, forwards

  function EntryTrace(e: Entry, t: Trace): Trace {
    t.After(|e.value|, false).After(1, false).After(|e.key|, false)
  }

  function EntriesTrace(es: seq<Entry>, t: Trace): Trace {
    if es == [] then t else EntryTrace(es[0], EntriesTrace(es[1..], t))
  }

  function TableTrace(es: seq<Entry>, t: Trace): Trace {
    Copy(2, EntriesTrace(es, t))
  }

  /** The trace of getting through s and going on as t. */
  function SubTrace(s: Sub, t: Trace): Trace {
    match s
    case Root(_, body) => Copy(1, t.After(|body|, false))
    case Class(head, consts, statics, _, fields) =>
      Copy(1, TableTrace(consts, TableTrace(statics, Copy(2, t.After(|fields|, false)))).After(|head|, false))
    case Instance(head, values) => Copy(1, Copy(4, t.After(|values|, false)).After(|head|, false))
    case ObjectArray(head, _, refs) => Copy(1, Copy(4, t.After(|refs|, false)).After(|head|, false))
    case PrimArray(head, _, _, elems) => Copy(1, Copy(4, Copy(1, t.After(|elems|, true))).After(|head|, false))
  }

  // A tag and the fixed bytes behind it.
  lemma HeadSteps(end: End, id: nat, left: nat, tag: byte, head: bytes, todo: Todo, y: bytes)
    requires 1 + |head| <= left && Contents(id, tag, Done) == Push(Do(Blob(|head|), todo))
    ensures Run(end, id, left, Done, [tag] + (head + y)) ==
            Copy(1, Run(end, id, left - 1 - |head|, todo, y).After(|head|, false))
  {
    TagStep(end, id, left, tag, head + y, Do(Blob(|head|), todo));
    CopyStep(end, id, left - 1, todo, head, y);
  }

  // A count and the bytes it announces.
  lemma CountedSteps(end: End, id: nat, left: nat, item: Item, n: bytes, a: bytes, y: bytes)
    requires item.InstanceLength? || item.ArrayLength? || item.FieldTable?
    requires |n| == Width(item) && |n| + |a| <= left && Respond(id, item, n, Done) == Push(Do(Blob(|a|), Done))
    ensures Run(end, id, left, Do(item, Done), n + (a + y)) ==
            Copy(|n|, Run(end, id, left - |n| - |a|, Done, y).After(|a|, false))
  {
    LookStep(end, id, left, item, Done, n, a + y, Do(Blob(|a|), Done));
    CopyStep(end, id, left - |n|, Done, a, y);
  }

  lemma PrimSteps(end: End, id: nat, left: nat, n: bytes, ty: byte, a: bytes, y: bytes)
    requires |n| == 4 && 5 + |a| <= left && SizeOf(id, ty) > 0 && |a| == U4(n) * SizeOf(id, ty)
    ensures Run(end, id, left, Do(PrimLength, Done), n + ([ty] + (a + y))) ==
            Copy(4, Copy(1, Run(end, id, left - 5 - |a|, Done, y).After(|a|, true)))
  {
    LookStep(end, id, left, PrimLength, Done, n, [ty] + (a + y), Do(PrimType(U4(n)), Done));
    LookStep(end, id, left - 4, PrimType(U4(n)), Done, [ty], a + y, Do(Wipe(|a|), Done));
    assert left - 4 - 1 == left - 5;
    WipeStep(end, id, left - 5, Done, a, y);
  }

  lemma EntrySteps(end: End, id: nat, left: nat, e: Entry, tail: Todo, y: bytes)
    requires EntryOk(e, id, |e.key|) && |e.key| + 1 + |e.value| <= left
    ensures Run(end, id, left, Do(Blob(|e.key|), Do(ValueType, tail)), PrintEntry(e, y)) ==
            EntryTrace(e, Run(end, id, left - |e.key| - 1 - |e.value|, tail, y))
  {
    CopyStep(end, id, left, Do(ValueType, tail), e.key, [e.ty] + (e.value + y));
    LookStep(end, id, left - |e.key|, ValueType, tail, [e.ty], e.value + y, Do(Blob(|e.value|), tail));
    CopyStep(end, id, left - |e.key| - 1, tail, e.value, y);
  }

  lemma {:induction false} RunEntries(end: End, id: nat, left: nat, head: nat, tail: Todo, es: seq<Entry>, y: bytes)
    requires EntriesOk(es, id, head) && EntriesSize(es) <= left
    ensures Run(end, id, left, Entries(|es|, head, tail), PrintEntries(es, y)) ==
            EntriesTrace(es, Run(end, id, left - EntriesSize(es), tail, y))
  {
    if es != [] {
      var e, left' := es[0], left - head - 1 - |es[0].value|;
      assert left - EntriesSize(es) == left' - EntriesSize(es[1..]);
      EntrySteps(end, id, left, e, Entries(|es| - 1, head, tail), PrintEntries(es[1..], y));
      RunEntries(end, id, left', head, tail, es[1..], y);
    }
  }

  lemma RunTable(end: End, id: nat, left: nat, head: nat, tail: Todo, es: seq<Entry>, y: bytes)
    requires TableOk(es, id, head) && 2 + EntriesSize(es) <= left
    ensures Run(end, id, left, Do(Table(head), tail), PrintTable(es, y)) ==
            TableTrace(es, Run(end, id, left - 2 - EntriesSize(es), tail, y))
  {
    LookStep(end, id, left, Table(head), tail, Num2(|es|), PrintEntries(es, y), Entries(|es|, head, tail));
    RunEntries(end, id, left - 2, head, tail, es, y);
  }

  lemma RunClass(end: End, id: nat, left: nat, s: Sub, y: bytes)
    requires s.Class? && SubOk(s, id) && SubSize(s) <= left
    ensures Run(end, id, left, Done, PrintSub(s, y)) == SubTrace(s, Run(end, id, left - SubSize(s), Done, y))
  {
    var f := Num2(s.count) + (s.fields + y);
    var ss := PrintTable(s.statics, f);
    var l1, a, b := left - 1 - |s.head|, 2 + EntriesSize(s.consts), 2 + EntriesSize(s.statics);
    HeadSteps(end, id, left, 0x20, s.head, Do(Table(2), Do(Table(id), Do(FieldTable, Done))), PrintTable(s.consts, ss));
    RunTable(end, id, l1, 2, Do(Table(id), Do(FieldTable, Done)), s.consts, ss);
    RunTable(end, id, l1 - a, id, Do(FieldTable, Done), s.statics, f);
    assert left - SubSize(s) == l1 - a - b - 2 - |s.fields|;
    assert l1 - 2 - EntriesSize(s.consts) == l1 - a && l1 - a - 2 - EntriesSize(s.statics) == l1 - a - b;
    CountedSteps(end, id, l1 - a - b, FieldTable, Num2(s.count), s.fields, y);
  }

  lemma RunInstance(end: End, id: nat, left: nat, s: Sub, y: bytes)
    requires s.Instance? && SubOk(s, id) && SubSize(s) <= left
    ensures Run(end, id, left, Done, PrintSub(s, y)) == SubTrace(s, Run(end, id, left - SubSize(s), Done, y))
  {
    var n := Num4(|s.values|);
    HeadSteps(end, id, left, 0x21, s.head, Do(InstanceLength, Done), n + (s.values + y));
    assert left - SubSize(s) == left - 1 - |s.head| - 4 - |s.values|;
    CountedSteps(end, id, left - 1 - |s.head|, InstanceLength, n, s.values, y);
  }

  lemma RunObjectArray(end: End, id: nat, left: nat, s: Sub, y: bytes)
    requires s.ObjectArray? && SubOk(s, id) && SubSize(s) <= left
    ensures Run(end, id, left, Done, PrintSub(s, y)) == SubTrace(s, Run(end, id, left - SubSize(s), Done, y))
  {
    var n := Num4(s.count);
    HeadSteps(end, id, left, 0x22, s.head, Do(ArrayLength, Done), n + (s.refs + y));
    assert left - SubSize(s) == left - 1 - |s.head| - 4 - |s.refs|;
    CountedSteps(end, id, left - 1 - |s.head|, ArrayLength, n, s.refs, y);
  }

  lemma RunPrimArray(end: End, id: nat, left: nat, s: Sub, y: bytes)
    requires s.PrimArray? && SubOk(s, id) && SubSize(s) <= left
    ensures Run(end, id, left, Done, PrintSub(s, y)) == SubTrace(s, Run(end, id, left - SubSize(s), Done, y))
  {
    var n := Num4(s.count);
    HeadSteps(end, id, left, 0x23, s.head, Do(PrimLength, Done), n + ([s.ty] + (s.elems + y)));
    assert left - SubSize(s) == left - 1 - |s.head| - 5 - |s.elems|;
    PrimSteps(end, id, left - 1 - |s.head|, n, s.ty, s.elems, y);
  }

  lemma RunRoot(end: End, id: nat, left: nat, s: Sub, y: bytes)
    requires s.Root? && SubOk(s, id) && SubSize(s) <= left && id > 0
    ensures Run(end, id, left, Done, PrintSub(s, y)) == SubTrace(s, Run(end, id, left - SubSize(s), Done, y))
  {
    HeadSteps(end, id, left, s.tag, s.body, Done, y);
  }

  /** One sub-record: whatever follows it, the run deals with it as its structure
      says, takes its length off the budget and goes on behind it. */
  lemma RunSub(end: End, id: nat, left: nat, s: Sub, y: bytes)
    requires SubOk(s, id) && SubSize(s) <= left && id > 0
    ensures Run(end, id, left, Done, PrintSub(s, y)) == SubTrace(s, Run(end, id, left - SubSize(s), Done, y))
  {
    match s
    case Root(_, _) => RunRoot(end, id, left, s, y);
    case Class(_, _, _, _, _) => RunClass(end, id, left, s, y);
    case Instance(_, _) => RunInstance(end, id, left, s, y);
    case ObjectArray(_, _, _) => RunObjectArray(end, id, left, s, y);
    case PrimArray(_, _, _, _) => RunPrimArray(end, id, left, s, y);
  }

  function SubsTrace(subs: seq<Sub>, t: Trace): Trace {
    if subs == [] then t else SubTrace(subs[0], SubsTrace(subs[1..], t))
  }

  lemma {:induction false} RunSubs(end: End, id: nat, left: nat, subs: seq<Sub>, y: bytes)
    requires SubsOk(subs, id) && SubsSize(subs) <= left && id > 0
    ensures Run(end, id, left, Done, PrintSubs(subs, y))
            == SubsTrace(subs, Run(end, id, left - SubsSize(subs), Done, y))
  {
    if subs != [] {
      var left' := left - SubSize(subs[0]);
      assert left - SubsSize(subs) == left' - SubsSize(subs[1..]);
      RunSubs(end, id, left', subs[1..], y);
      RunSub(end, id, left, subs[0], PrintSubs(subs[1..], y));
    }
  }

  // -------------------------------------------------- records, forwards

  function RecordTrace(r: Record, t: Trace): Trace {
    Copy(9, if r.Plain? then t.After(|r.body|, false) else SubsTrace(r.subs, t))
  }

  lemma HeadOfRecord(r: Record, id: nat, y: bytes)
    requires RecordOk(r, id)
    ensures var x := PrintRecord(r, y);
            && |x| >= 9 && x[..9] == RecordHead(r) && x[0] == r.tag && U4(x[5..9]) == BodySize(r)
            && x[9..] == if r.Plain? then r.body + y else PrintSubs(r.subs, y)
  {
    var x := PrintRecord(r, y);
    assert |RecordHead(r)| == 9;
    assert x[5..9] == RecordHead(r)[5..] == Num4(BodySize(r));
  }

  lemma RunOneRecord(end: End, id: nat, r: Record, y: bytes)
    requires RecordOk(r, id) && id > 0
    ensures Run(end, id, 0, Done, PrintRecord(r, y)) == RecordTrace(r, Run(end, id, 0, Done, y))
  {
    HeadOfRecord(r, id, y);
    var x, n := PrintRecord(r, y), BodySize(r);
    var todo := if IsHeap(r.tag) then Done else Do(Blob(n), Done);
    assert Run(end, id, 0, Done, x) == Copy(9, Run(end, id, n, todo, x[9..]));
    assert n - n == 0;
    if r.Plain? {
      CopyStep(end, id, n, Done, r.body, y);
    } else {
      RunSubs(end, id, n, r.subs, y);
    }
  }

  function RecordsTrace(rs: seq<Record>, t: Trace): Trace {
    if rs == [] then t else RecordTrace(rs[0], RecordsTrace(rs[1..], t))
  }

  lemma {:induction false} RunRecords(end: End, id: nat, rs: seq<Record>, y: bytes)
    requires RecordsOk(rs, id) && id > 0
    ensures Run(end, id, 0, Done, PrintRecords(rs, y)) == RecordsTrace(rs, Run(end, id, 0, Done, y))
  {
    if rs != [] {
      RunRecords(end, id, rs[1..], y);
      RunOneRecord(end, id, rs[0], PrintRecords(rs[1..], y));
    }
  }

  /** The run over a printed dump. */
  function DumpTrace(end: End, d: Dump): Trace {
    Copy(|d.magic|, Copy(12, RecordsTrace(d.records, Run(end, d.id, 0, Done, []))))
  }

  lemma HeaderOfDump(d: Dump)
    requires DumpOk(d)
    ensures var n, x := FirstNul(Print(d), 0) + 1, Print(d);
            && n == |d.magic| <= |x| && x[..n] == d.magic
            && x[n..] == FileHead(d) + PrintRecords(d.records, [])
            && |FileHead(d)| == 12 && U4(FileHead(d)[..4]) == d.id
  {
    MagicLength(d);
    assert FileHead(d)[..4] == Num4(d.id);
  }

  lemma ScanPrinted(end: End, d: Dump)
    requires DumpOk(d)
    ensures Scan(end, Print(d)) == DumpTrace(end, d)
  {
    HeaderOfDump(d);
    var h, y := FileHead(d), PrintRecords(d.records, []);
    assert (h + y)[..4] == h[..4] && (h + y)[12..] == y;
    RunRecords(end, d.id, d.records, []);
  }

  // -------------------------------------------------- what is emitted

  lemma AfterOut(t: Trace, a: bytes, wipe: bool, y: bytes)
    ensures t.After(|a|, wipe).Out(a + y) == (if wipe then Zeros(|a|) else a) + t.Out(y)
  {
    assert (a + y)[..|a|] == a && (a + y)[|a|..] == y;
    if |a| == 0 {
      assert a + y == y && a + t.Out(y) == t.Out(y) && Zeros(0) + t.Out(y) == t.Out(y);
    }
  }

  lemma {:induction false} EntriesOut(es: seq<Entry>, t: Trace, y: bytes)
    ensures EntriesTrace(es, t).Out(PrintEntries(es, y)) == PrintEntries(es, t.Out(y))
  {
    if es != [] {
      var e, r, u := es[0], PrintEntries(es[1..], y), EntriesTrace(es[1..], t);
      EntriesOut(es[1..], t, y);
      EntryOut(e, u, r);
    }
  }

  lemma EntryOut(e: Entry, t: Trace, y: bytes)
    ensures EntryTrace(e, t).Out(PrintEntry(e, y)) == PrintEntry(e, t.Out(y))
  {
    var t1 := t.After(|e.value|, false);
    AfterOut(t, e.value, false, y);
    AfterOut(t1, [e.ty], false, e.value + y);
    AfterOut(t1.After(1, false), e.key, false, [e.ty] + (e.value + y));
  }

  lemma TableOut(es: seq<Entry>, t: Trace, y: bytes)
    requires |es| < 0x1_0000
    ensures TableTrace(es, t).Out(PrintTable(es, y)) == PrintTable(es, t.Out(y))
  {
    AfterOut(EntriesTrace(es, t), Num2(|es|), false, PrintEntries(es, y));
    EntriesOut(es, t, y);
  }

  lemma ClassOut(s: Sub, id: nat, t: Trace, y: bytes)
    requires s.Class? && SubOk(s, id)
    ensures SubTrace(s, t).Out(PrintSub(s, y)) == PrintSub(ScrubSub(s), t.Out(y))
  {
    var f, ft := Num2(s.count) + (s.fields + y), Copy(2, t.After(|s.fields|, false));
    var ss, st := PrintTable(s.statics, f), TableTrace(s.statics, ft);
    var ct := TableTrace(s.consts, st);
    AfterOut(t, s.fields, false, y);
    AfterOut(t.After(|s.fields|, false), Num2(s.count), false, s.fields + y);
    TableOut(s.statics, ft, f);
    TableOut(s.consts, st, ss);
    AfterOut(ct, s.head, false, PrintTable(s.consts, ss));
    AfterOut(ct.After(|s.head|, false), [0x20], false, PrintBody(s, y));
  }

  /** Getting through a sub-record emits the scrubbed sub-record. */
  lemma SubOut(s: Sub, id: nat, t: Trace, y: bytes)
    requires SubOk(s, id)
    ensures SubTrace(s, t).Out(PrintSub(s, y)) == PrintSub(ScrubSub(s), t.Out(y))
  {
    match s
    case Root(tag, body) =>
      AfterOut(t, body, false, y);
      AfterOut(t.After(|body|, false), [tag], false, body + y);
    case Class(_, _, _, _, _) =>
      ClassOut(s, id, t, y);
    case Instance(head, values) =>
      CountedOut(0x21, head, Num4(|values|), values, t, y);
    case ObjectArray(head, count, refs) =>
      CountedOut(0x22, head, Num4(count), refs, t, y);
    case PrimArray(_, _, _, _) =>
      PrimArrayOut(s, id, t, y);
  }

  lemma PrimArrayOut(s: Sub, id: nat, t: Trace, y: bytes)
    requires s.PrimArray? && SubOk(s, id)
    ensures SubTrace(s, t).Out(PrintSub(s, y)) == PrintSub(ScrubSub(s), t.Out(y))
  {
    var n, r := Num4(s.count), [s.ty] + (s.elems + y);
    var t1 := t.After(|s.elems|, true);
    var t2 := Copy(4, Copy(1, t1));
    AfterOut(t, s.elems, true, y);
    AfterOut(t1, [s.ty], false, s.elems + y);
    AfterOut(Copy(1, t1), n, false, r);
    AfterOut(t2, s.head, false, n + r);
    AfterOut(t2.After(|s.head|, false), [0x23], false, s.head + (n + r));
  }

  lemma CountedOut(tag: byte, head: bytes, n: bytes, a: bytes, t: Trace, y: bytes)
    requires |n| == 4
    ensures Copy(1, Copy(4, t.After(|a|, false)).After(|head|, false)).Out([tag] + (head + (n + (a + y)))) ==
            [tag] + (head + (n + (a + t.Out(y))))
  {
    var t1, t2 := t.After(|a|, false), Copy(4, t.After(|a|, false));
    AfterOut(t, a, false, y);
    AfterOut(t1, n, false, a + y);
    AfterOut(t2, head, false, n + (a + y));
    AfterOut(t2.After(|head|, false), [tag], false, head + (n + (a + y)));
  }

  lemma {:induction false} SubsOut(subs: seq<Sub>, id: nat, t: Trace, y: bytes)
    requires SubsOk(subs, id)
    ensures SubsTrace(subs, t).Out(PrintSubs(subs, y)) == PrintSubs(ScrubSubs(subs), t.Out(y))
  {
    if subs != [] {
      SubsOut(subs[1..], id, t, y);
      SubOut(subs[0], id, SubsTrace(subs[1..], t), PrintSubs(subs[1..], y));
      assert ScrubSubs(subs)[1..] == ScrubSubs(subs[1..]);
    }
  }

  lemma {:induction false} ScrubKeepsSubs(subs: seq<Sub>, id: nat)
    requires SubsOk(subs, id)
    ensures SubsOk(ScrubSubs(subs), id) && SubsSize(ScrubSubs(subs)) == SubsSize(subs)
  {
    if subs != [] {
      ScrubKeepsSubs(subs[1..], id);
      assert ScrubSubs(subs)[1..] == ScrubSubs(subs[1..]);
    }
  }

  lemma RecordOut(r: Record, id: nat, t: Trace, y: bytes)
    requires RecordOk(r, id)
    ensures RecordTrace(r, t).Out(PrintRecord(r, y)) == PrintRecord(ScrubRecord(r), t.Out(y))
  {
    HeadOfRecord(r, id, y);
    if r.Plain? {
      AfterOut(t, r.body, false, y);
    } else {
      SubsOut(r.subs, id, t, y);
      ScrubKeepsSubs(r.subs, id);
    }
  }

  lemma {:induction false} RecordsOut(rs: seq<Record>, id: nat, t: Trace, y: bytes)
    requires RecordsOk(rs, id)
    ensures RecordsTrace(rs, t).Out(PrintRecords(rs, y)) == PrintRecords(ScrubRecords(rs), t.Out(y))
  {
    if rs != [] {
      RecordsOut(rs[1..], id, t, y);
      RecordOut(rs[0], id, RecordsTrace(rs[1..], t), PrintRecords(rs[1..], y));
      assert ScrubRecords(rs)[1..] == ScrubRecords(rs[1..]);
    }
  }

  // -------------------------------------------------- what is marked

  lemma JoinFalses(a: nat, b: nat, m: seq<bool>)
    ensures Falses(a) + (Falses(b) + m) == Falses(a + b) + m
  {
  }

  lemma AfterMarks(t: Trace, k: nat, wipe: bool)
    ensures t.After(k, wipe).Marks() == (if wipe then Trues(k) else Falses(k)) + t.Marks()
  {
    if k == 0 {
      assert Falses(0) + t.Marks() == t.Marks() && Trues(0) + t.Marks() == t.Marks();
    }
  }

  // Copying k bytes after what copies n bytes copies k + n bytes.
  lemma CopyMarks(t: Trace, k: nat, n: nat, m: seq<bool>)
    requires t.Marks() == Falses(n) + m
    ensures t.After(k, false).Marks() == Falses(k + n) + m
  {
    AfterMarks(t, k, false);
    JoinFalses(k, n, m);
  }

  lemma {:induction false} EntriesMarks(es: seq<Entry>, t: Trace, n: nat, m: seq<bool>)
    requires t.Marks() == Falses(n) + m
    ensures EntriesTrace(es, t).Marks() == Falses(EntriesSize(es) + n) + m
  {
    if es != [] {
      var e, u, k := es[0], EntriesTrace(es[1..], t), EntriesSize(es[1..]) + n;
      EntriesMarks(es[1..], t, n, m);
      CopyMarks(u, |e.value|, k, m);
      CopyMarks(u.After(|e.value|, false), 1, |e.value| + k, m);
      CopyMarks(u.After(|e.value|, false).After(1, false), |e.key|, 1 + |e.value| + k, m);
    }
  }

  lemma TableMarks(es: seq<Entry>, t: Trace, n: nat, m: seq<bool>)
    requires t.Marks() == Falses(n) + m
    ensures TableTrace(es, t).Marks() == Falses(2 + EntriesSize(es) + n) + m
  {
    EntriesMarks(es, t, n, m);
    CopyMarks(EntriesTrace(es, t), 2, EntriesSize(es) + n, m);
  }

  lemma HeadMarks(t: Trace, h: nat, n: nat, m: seq<bool>)
    requires t.Marks() == Falses(n) + m
    ensures Copy(1, t.After(h, false)).Marks() == Falses(1 + h + n) + m
  {
    CopyMarks(t, h, n, m);
    CopyMarks(t.After(h, false), 1, h + n, m);
  }

  lemma ClassMarks(s: Sub, t: Trace)
    requires s.Class?
    ensures SubTrace(s, t).Marks() == SubMarks(s, t.Marks())
  {
    var m, n := t.Marks(), |s.fields|;
    var f := Copy(2, t.After(n, false));
    var ss := TableTrace(s.statics, f);
    AfterMarks(t, n, false);
    JoinFalses(2, n, m);
    TableMarks(s.statics, f, 2 + n, m);
    TableMarks(s.consts, ss, 2 + EntriesSize(s.statics) + 2 + n, m);
    HeadMarks(TableTrace(s.consts, ss), |s.head|, SubSize(s) - 1 - |s.head|, m);
  }

  /** Getting through a sub-record marks exactly its primitive array values. */
  lemma SubMarked(s: Sub, t: Trace)
    ensures SubTrace(s, t).Marks() == SubMarks(s, t.Marks())
  {
    match s
    case Root(_, body) =>
      AfterMarks(t, |body|, false);
      JoinFalses(1, |body|, t.Marks());
    case Class(_, _, _, _, _) =>
      ClassMarks(s, t);
    case Instance(head, values) =>
      CountedMarks(|head|, |values|, t);
    case ObjectArray(head, _, refs) =>
      CountedMarks(|head|, |refs|, t);
    case PrimArray(head, _, _, elems) =>
      PrimArrayMarks(|head|, |elems|, t);
  }

  lemma CountedMarks(h: nat, n: nat, t: Trace)
    ensures Copy(1, Copy(4, t.After(n, false)).After(h, false)).Marks() == Falses(1 + h + 4 + n) + t.Marks()
  {
    var m := t.Marks();
    AfterMarks(t, n, false);
    JoinFalses(4, n, m);
    CopyMarks(Copy(4, t.After(n, false)), h, 4 + n, m);
    JoinFalses(1, h + 4 + n, m);
  }

  lemma PrimArrayMarks(h: nat, n: nat, t: Trace)
    ensures Copy(1, Copy(4, Copy(1, t.After(n, true))).After(h, false)).Marks()
            == Falses(6 + h) + (Trues(n) + t.Marks())
  {
    var m := Trues(n) + t.Marks();
    AfterMarks(t, n, true);
    JoinFalses(4, 1, m);
    CopyMarks(Copy(4, Copy(1, t.After(n, true))), h, 5, m);
    JoinFalses(1, h + 5, m);
  }

  lemma {:induction false} SubsMarked(subs: seq<Sub>, t: Trace)
    ensures SubsTrace(subs, t).Marks() == SubsMarks(subs, t.Marks())
  {
    if subs != [] {
      SubsMarked(subs[1..], t);
      SubMarked(subs[0], SubsTrace(subs[1..], t));
    }
  }

  lemma {:induction false} RecordsMarked(rs: seq<Record>, t: Trace)
    ensures RecordsTrace(rs, t).Marks() == RecordsMarks(rs, t.Marks())
  {
    if rs != [] {
      var u := RecordsTrace(rs[1..], t);
      RecordsMarked(rs[1..], t);
      if rs[0].Plain? {
        AfterMarks(u, |rs[0].body|, false);
      } else {
        SubsMarked(rs[0].subs, u);
      }
    }
  }

  // -------------------------------------------------- verdicts

  lemma AfterVerdict(t: Trace, k: nat, wipe: bool)
    ensures t.After(k, wipe).Verdict() == t.Verdict()
  {
  }

  lemma {:induction false} EntriesVerdict(es: seq<Entry>, t: Trace)
    ensures EntriesTrace(es, t).Verdict() == t.Verdict()
  {
    if es != [] {
      EntriesVerdict(es[1..], t);
      var u := EntriesTrace(es[1..], t).After(|es[0].value|, false);
      AfterVerdict(EntriesTrace(es[1..], t), |es[0].value|, false);
      AfterVerdict(u, 1, false);
      AfterVerdict(u.After(1, false), |es[0].key|, false);
    }
  }

  lemma SubVerdict(s: Sub, t: Trace)
    ensures SubTrace(s, t).Verdict() == t.Verdict()
  {
    match s
    case Root(_, body) => AfterVerdict(t, |body|, false);
    case Class(head, consts, statics, _, fields) =>
      var f := Copy(2, t.After(|fields|, false));
      AfterVerdict(t, |fields|, false);
      EntriesVerdict(statics, f);
      EntriesVerdict(consts, TableTrace(statics, f));
      AfterVerdict(TableTrace(consts, TableTrace(statics, f)), |head|, false);
    case Instance(head, values) =>
      AfterVerdict(t, |values|, false);
      AfterVerdict(Copy(4, t.After(|values|, false)), |head|, false);
    case ObjectArray(head, _, refs) =>
      AfterVerdict(t, |refs|, false);
      AfterVerdict(Copy(4, t.After(|refs|, false)), |head|, false);
    case PrimArray(head, _, _, elems) =>
      var u := Copy(1, t.After(|elems|, true));
      AfterVerdict(t, |elems|, true);
      AfterVerdict(Copy(4, u), |head|, false);
      assert Copy(4, u).Verdict() == u.Verdict() == t.Verdict();
  }

  lemma {:induction false} SubsVerdict(subs: seq<Sub>, t: Trace)
    ensures SubsTrace(subs, t).Verdict() == t.Verdict()
  {
    if subs != [] {
      SubsVerdict(subs[1..], t);
      SubVerdict(subs[0], SubsTrace(subs[1..], t));
    }
  }

  lemma RecordVerdict(r: Record, t: Trace)
    ensures RecordTrace(r, t).Verdict() == t.Verdict()
  {
    if r.Heap? {
      SubsVerdict(r.subs, t);
    }
  }

  lemma {:induction false} RecordsVerdict(rs: seq<Record>, t: Trace)
    ensures RecordsTrace(rs, t).Verdict() == t.Verdict()
  {
    if rs != [] {
      RecordsVerdict(rs[1..], t);
      RecordVerdict(rs[0], RecordsTrace(rs[1..], t));
    }
  }

  // -------------------------------------------------- main result, forwards

  lemma {:induction false} ScrubKeepsRecords(rs: seq<Record>, id: nat)
    requires RecordsOk(rs, id)
    ensures RecordsOk(ScrubRecords(rs), id)
  {
    if rs != [] {
      ScrubKeepsRecords(rs[1..], id);
      assert ScrubRecords(rs)[1..] == ScrubRecords(rs[1..]);
      if rs[0].Heap? {
        ScrubKeepsSubs(rs[0].subs, id);
      }
    }
  }

  /** Every well-formed dump is accepted, its scrubbed form is emitted, and exactly
      its primitive array values are marked. */
  lemma PrintedIsScrubbed(d: Dump)
    requires DumpOk(d)
    ensures var t := Scan(Eof, Print(d));
            && t.Verdict() == Accept
            && t.Out(Print(d)) == Print(Scrub(d))
            && t.Marks() == DumpMarks(d)
    ensures DumpOk(Scrub(d))
  {
    var t := Run(Eof, d.id, 0, Done, []);
    ScanPrinted(Eof, d);
    RecordsVerdict(d.records, t);
    RecordsMarked(d.records, t);
    PrintedOut(d, t);
    ScrubKeepsRecords(d.records, d.id);
  }

  lemma PrintedOut(d: Dump, t: Trace)
    requires DumpOk(d) && t.Out([]) == []
    ensures Copy(|d.magic|, Copy(12, RecordsTrace(d.records, t))).Out(Print(d)) == Print(Scrub(d))
  {
    var y, u := PrintRecords(d.records, []), RecordsTrace(d.records, t);
    RecordsOut(d.records, d.id, t, []);
    AfterOut(u, FileHead(d), false, y);
    AfterOut(Copy(12, u), d.magic, false, FileHead(d) + y);
  }
}
