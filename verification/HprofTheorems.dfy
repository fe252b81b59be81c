/**
 The converse direction, that the machine accepts printed dumps only, and the
 results about whole inputs: exact acceptance, cut inputs, a second pass, and
 what an analysis of the heap still sees.
 */
module HprofTheorems {
  import opened Bytes
  import opened HprofMachine
  import opened HprofGrammar
  import opened HprofRefinement

  ghost predicate Accepts(end: End, id: nat, left: nat, todo: Todo, x: bytes) {
    Run(end, id, left, todo, x).Verdict().Accept?
  }

  // ------------------------------------------------- single steps, backwards

  lemma BlindInverse(end: End, id: nat, left: nat, item: Item, tail: Todo, x: bytes)
    requires !Looks(item) && Accepts(end, id, left, Do(item, tail), x)
    ensures Width(item) <= left && Width(item) <= |x| && Accepts(end, id, left - Width(item), tail, x[Width(item)..])
  {
    var k := Width(item);
    AfterVerdict(Stopped(EndError(end)), |x|, false);
    assert RunItem(end, id, left, item, tail, x).Verdict().Accept?;
    AfterVerdict(Run(end, id, left - k, tail, x[k..]), k, item.Wipe?);
  }

  lemma LookInverse(end: End, id: nat, left: nat, item: Item, tail: Todo, x: bytes) returns (todo: Todo)
    requires Looks(item) && RunItem(end, id, left, item, tail, x).Verdict().Accept?
    ensures Width(item) <= left && Width(item) <= |x| && Respond(id, item, x[..Width(item)], tail) == Push(todo)
    ensures Accepts(end, id, left - Width(item), todo, x[Width(item)..])
  {
    var k := Width(item);
    assert RunItem(end, id, left, item, tail, x) == RunLook(end, id, left, item, tail, x);
    todo := Respond(id, item, x[..k], tail).todo;
  }

  // ------------------------------------------------- sub-records, backwards

  lemma Halves(x: bytes, n: nat)
    requires n <= |x|
    ensures x == x[..n] + x[n..]
  {
  }

  lemma DecodeCounted(end: End, id: nat, left: nat, item: Item, x: bytes) returns (n: bytes, a: bytes, y: bytes)
    requires item.InstanceLength? || item.ArrayLength? || item.FieldTable?
    requires Accepts(end, id, left, Do(item, Done), x)
    ensures |n| == Width(item) && |n| + |a| <= left && Respond(id, item, n, Done) == Push(Do(Blob(|a|), Done))
    ensures x == n + (a + y)
  {
    var k := Width(item);
    var todo := LookInverse(end, id, left, item, Done, x);
    BlindInverse(end, id, left - k, todo.item, Done, x[k..]);
    var m := Width(todo.item);
    n, a, y := x[..k], x[k..][..m], x[k..][m..];
  }

  lemma DecodePrim(end: End, id: nat, left: nat, x: bytes) returns (n: bytes, ty: byte, a: bytes, y: bytes)
    requires Accepts(end, id, left, Do(PrimLength, Done), x)
    ensures |n| == 4 && 5 + |a| <= left && SizeOf(id, ty) > 0 && |a| == U4(n) * SizeOf(id, ty)
    ensures x == n + ([ty] + (a + y))
  {
    var todo := LookInverse(end, id, left, PrimLength, Done, x);
    n := x[..4];
    var u := x[4..];
    var todo' := LookInverse(end, id, left - 4, PrimType(U4(n)), Done, u);
    ty := u[0];
    assert u[..1] == [ty];
    BlindInverse(end, id, left - 5, todo'.item, Done, u[1..]);
    var m := Width(todo'.item);
    a, y := u[1..][..m], u[1..][m..];
  }

  lemma DecodeEntry(end: End, id: nat, left: nat, head: nat, tail: Todo, x: bytes) returns (e: Entry, y: bytes)
    requires Accepts(end, id, left, Do(Blob(head), Do(ValueType, tail)), x)
    ensures EntryOk(e, id, head) && head + 1 + |e.value| <= left && x == PrintEntry(e, y)
    ensures Accepts(end, id, left - head - 1 - |e.value|, tail, y)
  {
    BlindInverse(end, id, left, Blob(head), Do(ValueType, tail), x);
    var a, u := x[..head], x[head..];
    var todo := LookInverse(end, id, left - head, ValueType, tail, u);
    var ty, v := u[0], u[1..];
    assert u[..1] == [ty];
    BlindInverse(end, id, left - head - 1, todo.item, tail, v);
    var m := Width(todo.item);
    e, y := Entry(a, ty, v[..m]), v[m..];
    Halves(x, head);
    Halves(u, 1);
    Halves(v, m);
  }

  lemma {:induction false} DecodeEntries(end: End, id: nat, left: nat, n: nat, head: nat, tail: Todo, x: bytes)
    returns (es: seq<Entry>, y: bytes)
    requires Accepts(end, id, left, Entries(n, head, tail), x)
    ensures |es| == n && EntriesOk(es, id, head) && EntriesSize(es) <= left && x == PrintEntries(es, y)
    ensures Accepts(end, id, left - EntriesSize(es), tail, y)
  {
    if n == 0 {
      es, y := [], x;
    } else {
      var e, u := DecodeEntry(end, id, left, head, Entries(n - 1, head, tail), x);
      var left' := left - head - 1 - |e.value|;
      var es';
      es', y := DecodeEntries(end, id, left', n - 1, head, tail, u);
      es := [e] + es';
      assert es[1..] == es' && left - EntriesSize(es) == left' - EntriesSize(es');
    }
  }

  lemma DecodeTable(end: End, id: nat, left: nat, head: nat, tail: Todo, x: bytes) returns (es: seq<Entry>, y: bytes)
    requires Accepts(end, id, left, Do(Table(head), tail), x)
    ensures TableOk(es, id, head) && 2 + EntriesSize(es) <= left && x == PrintTable(es, y)
    ensures Accepts(end, id, left - 2 - EntriesSize(es), tail, y)
  {
    var todo := LookInverse(end, id, left, Table(head), tail, x);
    var n := U2(x[..2]);
    Enc2OfU2(x[..2]);
    es, y := DecodeEntries(end, id, left - 2, n, head, tail, x[2..]);
    assert x == x[..2] + x[2..];
  }

  lemma DecodeClass(end: End, id: nat, left: nat, head: bytes, x: bytes) returns (s: Sub, y: bytes)
    requires |head| == 7 * id + 8 && Accepts(end, id, left, Do(Table(2), Do(Table(id), Do(FieldTable, Done))), x)
    ensures s.Class? && SubOk(s, id) && SubSize(s) <= 1 + |head| + left
    ensures head + x == PrintBody(s, y)
  {
    var consts, u := DecodeTable(end, id, left, 2, Do(Table(id), Do(FieldTable, Done)), x);
    var left' := left - 2 - EntriesSize(consts);
    var statics, v := DecodeTable(end, id, left', id, Do(FieldTable, Done), u);
    var n, fields, w := DecodeCounted(end, id, left' - 2 - EntriesSize(statics), FieldTable, v);
    Enc2OfU2(n);
    s, y := Class(head, consts, statics, U2(n), fields), w;
  }

  lemma DecodeInstance(end: End, id: nat, left: nat, head: bytes, x: bytes) returns (s: Sub, y: bytes)
    requires |head| == 2 * id + 4 && Accepts(end, id, left, Do(InstanceLength, Done), x)
    ensures s.Instance? && SubOk(s, id) && SubSize(s) <= 1 + |head| + left
    ensures head + x == PrintBody(s, y)
  {
    var n, values, w := DecodeCounted(end, id, left, InstanceLength, x);
    Enc4OfU4(n);
    s, y := Instance(head, values), w;
  }

  lemma DecodeObjectArray(end: End, id: nat, left: nat, head: bytes, x: bytes) returns (s: Sub, y: bytes)
    requires |head| == id + 4 && Accepts(end, id, left, Do(ArrayLength, Done), x)
    ensures s.ObjectArray? && SubOk(s, id) && SubSize(s) <= 1 + |head| + left
    ensures head + x == PrintBody(s, y)
  {
    var n, refs, w := DecodeCounted(end, id, left, ArrayLength, x);
    Enc4OfU4(n);
    s, y := ObjectArray(head, U4(n), refs), w;
  }

  lemma DecodePrimArray(end: End, id: nat, left: nat, head: bytes, x: bytes) returns (s: Sub, y: bytes)
    requires |head| == id + 4 && Accepts(end, id, left, Do(PrimLength, Done), x)
    ensures s.PrimArray? && SubOk(s, id) && SubSize(s) <= 1 + |head| + left
    ensures head + x == PrintBody(s, y)
  {
    var n, ty, elems, w := DecodePrim(end, id, left, x);
    Enc4OfU4(n);
    s, y := PrimArray(head, U4(n), ty, elems), w;
  }

  lemma DecodeBody(end: End, id: nat, left: nat, tag: byte, todo: Todo, x: bytes) returns (s: Sub, y: bytes)
    requires id in {4, 8} && Contents(id, tag, Done) == Push(todo) && Accepts(end, id, left, todo, x)
    ensures SubOk(s, id) && TagOf(s) == tag && SubSize(s) <= 1 + left && x == PrintBody(s, y)
  {
    var h := Width(todo.item);
    BlindInverse(end, id, left, todo.item, todo.rest, x);
    var head, u := x[..h], x[h..];
    assert x == head + u;
    if tag == 0x20 {
      s, y := DecodeClass(end, id, left - h, head, u);
    } else if tag == 0x21 {
      s, y := DecodeInstance(end, id, left - h, head, u);
    } else if tag == 0x22 {
      s, y := DecodeObjectArray(end, id, left - h, head, u);
    } else if tag == 0x23 {
      s, y := DecodePrimArray(end, id, left - h, head, u);
    } else {
      s, y := Root(tag, head), u;
    }
  }

  lemma DecodeSub(end: End, id: nat, left: nat, x: bytes) returns (s: Sub, y: bytes)
    requires id in {4, 8} && left > 0 && Accepts(end, id, left, Done, x)
    ensures SubOk(s, id) && SubSize(s) <= left && x == PrintSub(s, y)
    ensures Accepts(end, id, left - SubSize(s), Done, y)
  {
    var todo := LookInverse(end, id, left, Tag, Done, x);
    s, y := DecodeBody(end, id, left - 1, x[0], todo, x[1..]);
    assert x == [x[0]] + x[1..];
    RunSub(end, id, left, s, y);
    SubVerdict(s, Run(end, id, left - SubSize(s), Done, y));
  }

  lemma {:induction false} DecodeSubs(end: End, id: nat, left: nat, x: bytes) returns (subs: seq<Sub>, y: bytes)
    requires id in {4, 8} && Accepts(end, id, left, Done, x)
    ensures SubsOk(subs, id) && SubsSize(subs) == left && x == PrintSubs(subs, y)
    ensures Accepts(end, id, 0, Done, y)
    decreases left
  {
    if left == 0 {
      subs, y := [], x;
    } else {
      var s, u := DecodeSub(end, id, left, x);
      var subs';
      subs', y := DecodeSubs(end, id, left - SubSize(s), u);
      subs := [s] + subs';
      assert subs[1..] == subs';
    }
  }

  lemma RecordHeadParts(x: bytes)
    requires |x| >= 9
    ensures x == ([x[0]] + (x[1..5] + Num4(U4(x[5..9])))) + x[9..]
  {
    Enc4OfU4(x[5..9]);
    Halves(x, 9);
    assert x[..9] == [x[0]] + (x[1..5] + x[5..9]);
  }

  lemma DecodeHeap(end: End, id: nat, tag: byte, time: bytes, n: nat, u: bytes) returns (r: Record, y: bytes)
    requires id in {4, 8} && IsHeap(tag) && |time| == 4 && n < 0x1_0000_0000 && Accepts(end, id, n, Done, u)
    ensures RecordOk(r, id) && PrintRecord(r, y) == ([tag] + (time + Num4(n))) + u && |y| <= |u|
    ensures Accepts(end, id, 0, Done, y)
  {
    var subs;
    subs, y := DecodeSubs(end, id, n, u);
    r := Heap(tag, time, subs);
    SubsLength(subs, id, y);
  }

  lemma DecodePlain(end: End, id: nat, tag: byte, time: bytes, n: nat, u: bytes) returns (r: Record, y: bytes)
    requires !IsHeap(tag) && |time| == 4 && n < 0x1_0000_0000 && Accepts(end, id, n, Do(Blob(n), Done), u)
    ensures RecordOk(r, id) && PrintRecord(r, y) == ([tag] + (time + Num4(n))) + u && |y| <= |u|
    ensures Accepts(end, id, 0, Done, y)
  {
    BlindInverse(end, id, n, Blob(n), Done, u);
    Halves(u, n);
    r, y := Plain(tag, time, u[..n]), u[n..];
  }

  lemma DecodeRecord(end: End, id: nat, x: bytes) returns (r: Record, y: bytes)
    requires id in {4, 8} && x != [] && Accepts(end, id, 0, Done, x)
    ensures RecordOk(r, id) && x == PrintRecord(r, y) && |y| < |x|
    ensures Accepts(end, id, 0, Done, y)
  {
    assert RunRecord(end, id, x).Verdict().Accept?;
    var n, u := U4(x[5..9]), x[9..];
    assert Accepts(end, id, n, if IsHeap(x[0]) then Done else Do(Blob(n), Done), u);
    Enc4OfU4(x[5..9]);
    RecordHeadParts(x);
    if IsHeap(x[0]) {
      r, y := DecodeHeap(end, id, x[0], x[1..5], n, u);
    } else {
      r, y := DecodePlain(end, id, x[0], x[1..5], n, u);
    }
  }

  lemma {:induction false} DecodeRecords(end: End, id: nat, x: bytes) returns (rs: seq<Record>)
    requires id in {4, 8} && Accepts(end, id, 0, Done, x)
    ensures RecordsOk(rs, id) && x == PrintRecords(rs, [])
    decreases |x|
  {
    if x == [] {
      rs := [];
    } else {
      var r, y := DecodeRecord(end, id, x);
      var rs' := DecodeRecords(end, id, y);
      rs := [r] + rs';
      assert rs[1..] == rs';
    }
  }

  lemma DecodeHeader(end: End, u: bytes) returns (id: nat, stamp: bytes, rs: seq<Record>)
    requires RunHeader(end, u).Verdict().Accept?
    ensures id in {4, 8} && |stamp| == 8 && RecordsOk(rs, id)
    ensures u == (Num4(id) + stamp) + PrintRecords(rs, [])
  {
    id, stamp := U4(u[..4]), u[4..12];
    Enc4OfU4(u[..4]);
    rs := DecodeRecords(end, id, u[12..]);
    HeaderParts(u);
  }

  lemma HeaderParts(u: bytes)
    requires |u| >= 12
    ensures u == (u[..4] + u[4..12]) + u[12..]
  {
  }

  /** Whatever is accepted is the printed form of a well-formed dump. */
  lemma AcceptedIsPrinted(end: End, x: bytes) returns (d: Dump)
    requires Scan(end, x).Verdict().Accept?
    ensures DumpOk(d) && Print(d) == x
  {
    var n := FirstNul(x, 0) + 1;
    var id, stamp, rs := DecodeHeader(end, x[n..]);
    d := Dump(x[..n], id, stamp, rs);
    NulOfPrefix(x, n);
    Halves(x, n);
  }

  lemma NulOfPrefix(x: bytes, n: nat)
    requires n <= |x|
    ensures FirstNul(x[..n], 0) == if n < FirstNul(x, 0) then n else FirstNul(x, 0)
  {
    var j := FirstNul(x, 0);
    FirstNulUnique(x[..n], if n < j then n else j);
  }

  // ------------------------------------------------- main results

  ghost predicate IsDump(x: bytes) {
    exists d :: DumpOk(d) && Print(d) == x
  }

  /** Exact refinement: the scrubber accepts precisely the printed forms of well-formed
      dumps, each of exactly one dump d, and then emits the printed form of Scrub(d)
      having blanked exactly the primitive array values of d. */
  lemma AcceptsExactlyDumps(x: bytes)
    ensures Scan(Eof, x).Verdict().Accept? <==> IsDump(x)
    ensures forall d :: DumpOk(d) && Print(d) == x ==>
              Scan(Eof, x).Out(x) == Print(Scrub(d)) && Scan(Eof, x).Marks() == DumpMarks(d)
    ensures forall d, d' :: DumpOk(d) && DumpOk(d') && Print(d) == x && Print(d') == x ==> d == d'
  {
    if Scan(Eof, x).Verdict().Accept? {
      var d := AcceptedIsPrinted(Eof, x);
    }
    forall d | DumpOk(d) && Print(d) == x
      ensures Scan(Eof, x).Verdict().Accept?
      ensures Scan(Eof, x).Out(x) == Print(Scrub(d)) && Scan(Eof, x).Marks() == DumpMarks(d)
    {
      PrintedIsScrubbed(d);
    }
    forall d, d' | DumpOk(d) && DumpOk(d') && Print(d) == x && Print(d') == x
      ensures d == d'
    {
      PrintUnique(d, d');
    }
  }

  /** An input whose reader ends in an error instead of a clean end of file is never
      accepted, whatever bytes came before. */
  lemma {:induction false} BrokenNeverAccepted(x: bytes)
    ensures !Scan(Broken, x).Verdict().Accept?
  {
    if Scan(Broken, x).Verdict().Accept? {
      var d := AcceptedIsPrinted(Broken, x);
      ScanPrinted(Broken, d);
      RecordsVerdict(d.records, Run(Broken, d.id, 0, Done, []));
    }
  }

  /** Idempotence: scrubbing what an accepted input was turned into succeeds, marks the
      same bytes and changes nothing. */
  lemma ScrubbedStaysScrubbed(x: bytes)
    requires Scan(Eof, x).Verdict().Accept?
    ensures var y := Scan(Eof, x).Out(x);
            && |y| == |x|
            && Scan(Eof, y) == Scan(Eof, x)
            && Scan(Eof, y).Out(y) == y
  {
    var t := Scan(Eof, x);
    ScanMasks(Eof, x);
    ScanIgnoresPayload(Eof, x, t.Out(x));
  }

  /** Scrubbing changes the bytes of every dump with a non-zero primitive array value. */
  lemma ScrubChangesBytes(d: Dump)
    requires DumpOk(d) && Scrub(d) != d
    ensures Scan(Eof, Print(d)).Out(Print(d)) != Print(d)
  {
    PrintedIsScrubbed(d);
    if Print(Scrub(d)) == Print(d) {
      PrintUnique(Scrub(d), d);
    }
  }

  // ------------------------------------------------- cut inputs

  lemma {:induction false} EntriesAppend(es: seq<Entry>, y: bytes)
    ensures PrintEntries(es, y) == PrintEntries(es, []) + y
  {
    if es != [] {
      EntriesAppend(es[1..], y);
      EntryAppend(es[0], PrintEntries(es[1..], []), y);
    }
  }

  lemma EntryAppend(e: Entry, x: bytes, y: bytes)
    ensures PrintEntry(e, x + y) == PrintEntry(e, x) + y
  {
    assert e.key + ([e.ty] + (e.value + (x + y))) == (e.key + ([e.ty] + (e.value + x))) + y;
  }

  lemma BodyAppend(s: Sub, x: bytes, y: bytes)
    ensures PrintBody(s, x + y) == PrintBody(s, x) + y
  {
    match s
    case Root(_, body) => Assoc(body, x, y);
    case Class(head, consts, statics, count, fields) =>
      var f := Num2(count) + (fields + x);
      var t := PrintTable(statics, f);
      assert Num2(count) + (fields + (x + y)) == f + y;
      TableAppend(statics, f, y);
      TableAppend(consts, t, y);
      Assoc(head, PrintTable(consts, t), y);
    case Instance(head, values) => Assoc4(head, Num4(|values|), values, x, y);
    case ObjectArray(head, count, refs) => Assoc4(head, Num4(count), refs, x, y);
    case PrimArray(head, count, ty, elems) =>
      assert [ty] + (elems + (x + y)) == ([ty] + (elems + x)) + y;
      Assoc(Num4(count), [ty] + (elems + x), y);
      Assoc(head, Num4(count) + ([ty] + (elems + x)), y);
  }

  lemma SubAppend(s: Sub, x: bytes, y: bytes)
    ensures PrintSub(s, x + y) == PrintSub(s, x) + y
  {
    BodyAppend(s, x, y);
    Assoc([TagOf(s)], PrintBody(s, x), y);
  }

  lemma Assoc(a: bytes, x: bytes, y: bytes)
    ensures a + (x + y) == (a + x) + y
  {
  }

  lemma Assoc4(a: bytes, b: bytes, c: bytes, x: bytes, y: bytes)
    ensures a + (b + (c + (x + y))) == (a + (b + (c + x))) + y
  {
  }

  lemma TableAppend(es: seq<Entry>, x: bytes, y: bytes)
    ensures PrintTable(es, x + y) == PrintTable(es, x) + y
  {
    EntriesAppend(es, x + y);
    EntriesAppend(es, x);
    Assoc(PrintEntries(es, []), x, y);
    Assoc(Num2(|es|), PrintEntries(es, x), y);
  }

  lemma {:induction false} SubsAppend(subs: seq<Sub>, x: bytes, y: bytes)
    ensures PrintSubs(subs, x + y) == PrintSubs(subs, x) + y
  {
    if subs != [] {
      SubsAppend(subs[1..], x, y);
      SubAppend(subs[0], PrintSubs(subs[1..], x), y);
    }
  }

  lemma RecordAppend(r: Record, id: nat, y: bytes)
    requires RecordOk(r, id)
    ensures PrintRecord(r, y) == PrintRecord(r, []) + y && |PrintRecord(r, [])| == 9 + BodySize(r)
  {
    assert [] + y == y;
    if r.Plain? {
      Assoc(r.body, [], y);
      Assoc(RecordHead(r), r.body + [], y);
    } else {
      SubsAppend(r.subs, [], y);
      SubsLength(r.subs, id, []);
      Assoc(RecordHead(r), PrintSubs(r.subs, []), y);
    }
  }

  lemma RecordLength(r: Record, id: nat, y: bytes)
    requires RecordOk(r, id)
    ensures |PrintRecord(r, y)| == 9 + BodySize(r) + |y|
  {
    RecordAppend(r, id, y);
  }

  /** Where the printed form of the first j records ends. */
  function RecordEnd(rs: seq<Record>, j: nat): nat
    requires j <= |rs|
  {
    |PrintRecords(rs[..j], [])|
  }

  ghost predicate AtBoundary(rs: seq<Record>, n: nat) {
    n == 0 || (rs != [] && n >= 9 + BodySize(rs[0]) && AtBoundary(rs[1..], n - 9 - BodySize(rs[0])))
  }

  lemma CutInsideRecord(id: nat, r: Record, y: bytes, n: nat)
    requires RecordOk(r, id) && 0 < n < 9 + BodySize(r) && n <= |PrintRecord(r, y)|
    ensures !Accepts(Eof, id, 0, Done, PrintRecord(r, y)[..n])
  {
    HeadOfRecord(r, id, y);
    var x, b := PrintRecord(r, y), BodySize(r);
    var p := x[..n];
    if Accepts(Eof, id, 0, Done, p) {
      assert HprofMachine.RunRecord(Eof, id, p).Verdict().Accept?;
      assert p[5..9] == x[5..9];
      AcceptedUsesBudget(Eof, id, b, if IsHeap(r.tag) then Done else Do(Blob(b), Done), p[9..]);
    }
  }

  lemma NothingAccepted(id: nat, x: bytes)
    ensures Accepts(Eof, id, 0, Done, x[..0])
  {
    assert Run(Eof, id, 0, Done, x[..0]) == HprofMachine.RunRecord(Eof, id, x[..0]);
  }

  lemma CutBehindRecord(id: nat, r: Record, y: bytes, n: nat)
    requires RecordOk(r, id) && id > 0 && 9 + BodySize(r) <= n <= |PrintRecord(r, y)|
    ensures n - 9 - BodySize(r) <= |y|
    ensures Accepts(Eof, id, 0, Done, PrintRecord(r, y)[..n]) <==> Accepts(Eof, id, 0, Done, y[..n - 9 - BodySize(r)])
  {
    RecordAppend(r, id, y);
    var y' := y[..n - 9 - BodySize(r)];
    RecordAppend(r, id, y');
    CutBehind(PrintRecord(r, []), y, n);
    RunOneRecord(Eof, id, r, y');
    RecordVerdict(r, Run(Eof, id, 0, Done, y'));
  }

  lemma CutBehind(a: bytes, y: bytes, n: nat)
    requires |a| <= n <= |a| + |y|
    ensures (a + y)[..n] == a + y[..n - |a|]
  {
  }

  lemma {:induction false} CutRecords(id: nat, rs: seq<Record>, n: nat)
    requires id in {4, 8} && RecordsOk(rs, id) && n <= |PrintRecords(rs, [])|
    ensures Accepts(Eof, id, 0, Done, PrintRecords(rs, [])[..n]) <==> AtBoundary(rs, n)
    decreases |rs|
  {
    if n == 0 {
      NothingAccepted(id, PrintRecords(rs, []));
    } else {
      var r, y := rs[0], PrintRecords(rs[1..], []);
      var k := 9 + BodySize(r);
      var x := PrintRecords(rs, []);
      assert x == PrintRecord(r, y);
      RecordLength(r, id, y);
      if n < k {
        CutInsideRecord(id, r, y, n);
        assert !Accepts(Eof, id, 0, Done, x[..n]);
      } else {
        CutBehindRecord(id, r, y, n);
        CutRecords(id, rs[1..], n - k);
        assert Accepts(Eof, id, 0, Done, x[..n]) <==> AtBoundary(rs[1..], n - k);
      }
    }
  }

  lemma {:induction false} BoundaryEnds(rs: seq<Record>, id: nat, n: nat) returns (j: nat)
    requires RecordsOk(rs, id) && AtBoundary(rs, n)
    ensures j <= |rs| && RecordEnd(rs, j) == n
    decreases |rs|
  {
    if n == 0 {
      j := 0;
    } else {
      var i := BoundaryEnds(rs[1..], id, n - 9 - BodySize(rs[0]));
      NextRecordEnd(rs, id, i);
      j := i + 1;
    }
  }

  lemma {:induction false} EndIsBoundary(rs: seq<Record>, id: nat, j: nat)
    requires RecordsOk(rs, id) && j <= |rs|
    ensures AtBoundary(rs, RecordEnd(rs, j))
    decreases |rs|
  {
    if j > 0 {
      EndIsBoundary(rs[1..], id, j - 1);
      NextRecordEnd(rs, id, j - 1);
    }
  }

  lemma NextRecordEnd(rs: seq<Record>, id: nat, j: nat)
    requires j < |rs| && RecordsOk(rs, id)
    ensures RecordEnd(rs, j + 1) == 9 + BodySize(rs[0]) + RecordEnd(rs[1..], j)
  {
    assert rs[..j + 1][1..] == rs[1..][..j];
    RecordAppend(rs[0], id, PrintRecords(rs[1..][..j], []));
  }

  lemma CutAtEnd(id: nat, rs: seq<Record>, n: nat)
    requires id in {4, 8} && RecordsOk(rs, id) && n <= |PrintRecords(rs, [])|
    ensures Accepts(Eof, id, 0, Done, PrintRecords(rs, [])[..n]) <==> exists j | 0 <= j <= |rs| :: RecordEnd(rs, j) == n
  {
    CutRecords(id, rs, n);
    if AtBoundary(rs, n) {
      var j := BoundaryEnds(rs, id, n);
    } else if j :| 0 <= j <= |rs| && RecordEnd(rs, j) == n {
      EndIsBoundary(rs, id, j);
    }
  }

  lemma CutMagic(d: Dump, n: nat)
    requires DumpOk(d) && n <= |Print(d)|
    ensures var m, p := |d.magic|, Print(d)[..n];
            if n < m then Scan(Eof, p) == Stopped(NotHeapDump)
            else Scan(Eof, p) == Copy(m, RunHeader(Eof, Print(d)[m..][..n - m]))
  {
    HeaderOfDump(d);
    ScanCut(Print(d), |d.magic|, n);
  }

  lemma ScanCut(x: bytes, m: nat, n: nat)
    requires m == FirstNul(x, 0) + 1 <= |x| && IsMagic(x[..m]) && n <= |x|
    ensures if n < m then Scan(Eof, x[..n]) == Stopped(NotHeapDump)
            else Scan(Eof, x[..n]) == Copy(m, RunHeader(Eof, x[m..][..n - m]))
  {
    NulOfPrefix(x, n);
    if m <= n {
      PrefixParts(x, m, n);
    }
  }

  lemma PrefixParts(x: bytes, m: nat, n: nat)
    requires m <= n <= |x|
    ensures x[..n][..m] == x[..m] && x[..n][m..] == x[m..][..n - m]
  {
  }

  lemma CutFileHead(id: nat, h: bytes, y: bytes, n: nat)
    requires |h| == 12 && U4(h[..4]) == id && id in {4, 8} && n <= 12 + |y|
    ensures RunHeader(Eof, (h + y)[..n]).Verdict().Accept? <==> (n >= 12 && Accepts(Eof, id, 0, Done, y[..n - 12]))
  {
    if n >= 12 {
      CutBehind(h, y, n);
      HeadInFront(h, y[..n - 12]);
    }
  }

  lemma HeadInFront(h: bytes, y: bytes)
    requires |h| == 12
    ensures (h + y)[..4] == h[..4] && (h + y)[12..] == y
  {
  }

  // A cut behind the magic string.
  lemma CutBehindMagic(d: Dump, n: nat)
    requires DumpOk(d) && |d.magic| <= n <= |Print(d)|
    ensures var m := |d.magic|;
            RunHeader(Eof, Print(d)[m..][..n - m]).Verdict().Accept? <==>
            (n >= m + 12 && exists j | 0 <= j <= |d.records| :: RecordEnd(d.records, j) == n - m - 12)
  {
    var k, y := n - |d.magic|, PrintRecords(d.records, []);
    HeaderOfDump(d);
    CutFileHead(d.id, FileHead(d), y, k);
    if k >= 12 {
      CutAtEnd(d.id, d.records, k - 12);
    }
  }

  /** Truncation is exactly detected: a prefix of a dump is accepted if and only if it
      has the whole file header and ends where one of the top-level records ends; every
      other cut is rejected. */
  lemma CutAcceptedIffAtRecordEnd(d: Dump, n: nat)
    requires DumpOk(d) && n <= |Print(d)|
    ensures var h := |d.magic| + 12;
            Scan(Eof, Print(d)[..n]).Verdict().Accept? <==>
            (n >= h && exists j | 0 <= j <= |d.records| :: RecordEnd(d.records, j) == n - h)
  {
    CutMagic(d, n);
    if n >= |d.magic| {
      CutBehindMagic(d, n);
    }
  }

  // ------------------------------------------------- what an analysis sees

  /** A heap object without primitive array values. */
  datatype Node =
    | RootNode(tag: byte, body: bytes)
    | ClassNode(head: bytes, consts: seq<Entry>, statics: seq<Entry>, count: nat, fields: bytes)
    | InstanceNode(head: bytes, values: bytes)
    | RefsNode(head: bytes, count: nat, refs: bytes)
    | ValuesNode(head: bytes, count: nat, ty: byte)
    | OtherRecord(tag: byte, time: bytes, body: bytes)

  function NodeOf(s: Sub): Node {
    match s
    case Root(tag, body) => RootNode(tag, body)
    case Class(head, consts, statics, count, fields) => ClassNode(head, consts, statics, count, fields)
    case Instance(head, values) => InstanceNode(head, values)
    case ObjectArray(head, count, refs) => RefsNode(head, count, refs)
    case PrimArray(head, count, ty, _) => ValuesNode(head, count, ty)
  }

  function RecordNodes(r: Record): seq<Node> {
    match r
    case Plain(tag, time, body) => [OtherRecord(tag, time, body)]
    case Heap(_, _, subs) => seq(|subs|, i requires 0 <= i < |subs| => NodeOf(subs[i]))
  }

  function Graph(rs: seq<Record>): seq<Node> {
    if rs == [] then [] else RecordNodes(rs[0]) + Graph(rs[1..])
  }

  /** Nodes tell everything apart but primitive array values: two sub-records have the same
      node if and only if they are the same once scrubbed. */
  lemma SameNodeIff(s: Sub, s': Sub, id: nat)
    requires SubOk(s, id) && SubOk(s', id)
    ensures NodeOf(s) == NodeOf(s') <==> ScrubSub(s) == ScrubSub(s')
  {
    if s.PrimArray? && s'.PrimArray? && NodeOf(s) == NodeOf(s') {
      assert Zeros(|s.elems|) == Zeros(|s'.elems|);
    }
  }

  lemma {:induction false} ScrubKeepsGraph(rs: seq<Record>)
    ensures Graph(ScrubRecords(rs)) == Graph(rs)
  {
    if rs != [] {
      ScrubKeepsGraph(rs[1..]);
      assert ScrubRecords(rs)[1..] == ScrubRecords(rs[1..]);
      assert RecordNodes(ScrubRecord(rs[0])) == RecordNodes(rs[0]);
    }
  }

  /** Reading the scrubbed bytes back gives the same object graph as reading the input:
      the same roots, classes, instance bytes, references, array lengths and element
      types, in the same order. Any analysis computed from these is unchanged. */
  lemma SameGraphReadBack(x: bytes, d: Dump, d': Dump)
    requires DumpOk(d) && Print(d) == x
    requires DumpOk(d') && Print(d') == Scan(Eof, x).Out(x)
    ensures Graph(d'.records) == Graph(d.records) && d'.id == d.id && d'.magic == d.magic && d'.stamp == d.stamp
  {
    PrintedIsScrubbed(d);
    PrintUnique(d', Scrub(d));
    ScrubKeepsGraph(d.records);
  }
}
