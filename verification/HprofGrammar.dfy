/**
 Heap dumps as structured values: what the binary format says, what scrubbing
 means, and that a byte string is the printed form of at most one dump.
 */
module HprofGrammar {
  import opened Bytes
  import opened HprofMachine

  // A constant pool or static field entry of a class dump.
  datatype Entry = Entry(key: bytes, ty: byte, value: bytes)

  datatype Sub =
    | Root(tag: byte, body: bytes)
    | Class(head: bytes, consts: seq<Entry>, statics: seq<Entry>, count: nat, fields: bytes)
    | Instance(head: bytes, values: bytes)
    | ObjectArray(head: bytes, count: nat, refs: bytes)
    | PrimArray(head: bytes, count: nat, ty: byte, elems: bytes)

  datatype Record =
    | Plain(tag: byte, time: bytes, body: bytes)
    | Heap(tag: byte, time: bytes, subs: seq<Sub>)

  datatype Dump = Dump(magic: bytes, id: nat, stamp: bytes, records: seq<Record>)

  // ---------------------------------------------------------------- the format
  //
  // The constants of the format in its own terms; the contracts say that the machine
  // goes by the same ones.

  // The two tags of heap dump records: a whole dump, and a segment of one.
  predicate IsDumpTag(tag: byte): (r: bool)
    ensures r <==> IsHeap(tag)
  {
    tag in {0x0C, 0x1C}
  }

  /** The width of one value of a basic type: references as wide as identifiers, boolean
      and byte, char and short, float and int, double and long. */
  function ValueSize(id: nat, ty: byte): (n: nat)
    ensures n == SizeOf(id, ty)
  {
    if ty == 2 then id
    else if ty in {4, 8} then 1
    else if ty in {5, 9} then 2
    else if ty in {6, 10} then 4
    else if ty in {7, 11} then 8
    else 0 // not a type
  }

  // The last digit is n modulo 256, and what is before it is the rest of n.
  function BigEndian(n: nat, k: nat): (b: bytes)
    ensures |b| == k
  {
    if k == 0 then [] else BigEndian(n / 256, k - 1) + [n % 256]
  }

  lemma BigEndianIs2(n: nat)
    requires n < 0x1_0000
    ensures BigEndian(n, 2) == Enc2(n)
  {
    assert BigEndian(n / 256, 1) == BigEndian(n / 256 / 256, 0) + [n / 256];
  }

  lemma BigEndianIs4(n: nat)
    requires n < 0x1_0000_0000
    ensures BigEndian(n, 4) == Enc4(n)
  {
    var hi, lo := n / 0x1_0000, n % 0x1_0000;
    BigEndianIs2(hi);
    assert n / 256 / 256 == hi && n / 256 % 256 == lo / 256 && n % 256 == lo % 256;
    assert BigEndian(n, 4) == BigEndian(n / 256, 3) + [n % 256];
    assert BigEndian(n / 256, 3) == BigEndian(n / 256 / 256, 2) + [n / 256 % 256];
  }

  const NAME: string := "JAVA PROFILE 1.0."

  // The bytes begin with the characters of s.
  predicate StartsWith(m: bytes, s: string) {
    s == "" || (m != [] && m[0] == s[0] as int && StartsWith(m[1..], s[1..]))
  }

  lemma {:induction false} StartsWithIs(m: bytes, s: string, p: bytes)
    requires |s| == |p| && forall i :: 0 <= i < |s| ==> s[i] as int == p[i]
    ensures StartsWith(m, s) <==> HasPrefix(m, p)
  {
    if s != "" && m != [] {
      StartsWithIs(m[1..], s[1..], p[1..]);
    }
  }

  predicate NamesFormat(m: bytes): (r: bool)
    ensures r <==> IsMagic(m)
  {
    StartsWithIs(m, NAME, MAGIC);
    StartsWith(m, NAME)
  }

  // ------------------------------------------------------------ well-formedness

  function RootSize(id: nat, tag: byte): nat {
    if tag in {0xFF, 0x05, 0x07} then id
    else if tag == 0x01 then 2 * id
    else if tag in {0x04, 0x06} then id + 4
    else if tag in {0x02, 0x03, 0x08} then id + 8
    else 0 // not a root
  }

  ghost predicate EntryOk(e: Entry, id: nat, head: nat) {
    |e.key| == head && ValueSize(id, e.ty) > 0 && |e.value| == ValueSize(id, e.ty)
  }

  ghost predicate EntriesOk(es: seq<Entry>, id: nat, head: nat) {
    es == [] || (EntryOk(es[0], id, head) && EntriesOk(es[1..], id, head))
  }

  ghost predicate TableOk(es: seq<Entry>, id: nat, head: nat) {
    |es| < 0x1_0000 && EntriesOk(es, id, head)
  }

  ghost predicate SubOk(s: Sub, id: nat) {
    match s
    case Root(tag, body) => RootSize(id, tag) > 0 && |body| == RootSize(id, tag)
    case Class(head, consts, statics, count, fields) =>
      && |head| == 7 * id + 8 && TableOk(consts, id, 2) && TableOk(statics, id, id)
      && count < 0x1_0000 && |fields| == count * (id + 1)
    case Instance(head, values) => |head| == 2 * id + 4 && |values| < 0x1_0000_0000
    case ObjectArray(head, count, refs) =>
      |head| == id + 4 && count < 0x1_0000_0000 && |refs| == id + count * id
    case PrimArray(head, count, ty, elems) =>
      && |head| == id + 4 && count < 0x1_0000_0000
      && ValueSize(id, ty) > 0 && |elems| == count * ValueSize(id, ty)
  }

  ghost predicate SubsOk(subs: seq<Sub>, id: nat) {
    subs == [] || (SubOk(subs[0], id) && SubsOk(subs[1..], id))
  }

  function EntriesSize(es: seq<Entry>): nat {
    if es == [] then 0 else |es[0].key| + 1 + |es[0].value| + EntriesSize(es[1..])
  }

  function SubSize(s: Sub): (n: nat)
    ensures n > 0
  {
    match s
    case Root(_, body) => 1 + |body|
    case Class(head, consts, statics, _, fields) =>
      1 + |head| + 2 + EntriesSize(consts) + 2 + EntriesSize(statics) + 2 + |fields|
    case Instance(head, values) => 1 + |head| + 4 + |values|
    case ObjectArray(head, _, refs) => 1 + |head| + 4 + |refs|
    case PrimArray(head, _, _, elems) => 1 + |head| + 4 + 1 + |elems|
  }

  function SubsSize(subs: seq<Sub>): nat {
    if subs == [] then 0 else SubSize(subs[0]) + SubsSize(subs[1..])
  }

  ghost predicate RecordOk(r: Record, id: nat) {
    match r
    case Plain(tag, time, body) => !IsDumpTag(tag) && |time| == 4 && |body| < 0x1_0000_0000
    case Heap(tag, time, subs) =>
      IsDumpTag(tag) && |time| == 4 && SubsOk(subs, id) && SubsSize(subs) < 0x1_0000_0000
  }

  ghost predicate RecordsOk(rs: seq<Record>, id: nat) {
    rs == [] || (RecordOk(rs[0], id) && RecordsOk(rs[1..], id))
  }

  ghost predicate DumpOk(d: Dump) {
    && |d.magic| > 0 && FirstNul(d.magic, 0) == |d.magic| - 1 && NamesFormat(d.magic)
    && d.id in {4, 8} && |d.stamp| == 8 && RecordsOk(d.records, d.id)
  }

  // ------------------------------------------------------------------- printing
  //
  // Each printer puts the printed form of a value in front of the bytes that
  // follow it, so that the layout reads from left to right.

  function PrintEntry(e: Entry, rest: bytes): bytes {
    e.key + ([e.ty] + (e.value + rest))
  }

  function PrintEntries(es: seq<Entry>, rest: bytes): bytes {
    if es == [] then rest else PrintEntry(es[0], PrintEntries(es[1..], rest))
  }

  function PrintTable(es: seq<Entry>, rest: bytes): bytes {
    Num2(|es|) + PrintEntries(es, rest)
  }

  // Counts and lengths; well-formed values keep them within their fields.
  function Num2(n: nat): (b: bytes)
    ensures b == if n < 0x1_0000 then Enc2(n) else []
  {
    if n < 0x1_0000 then
      BigEndianIs2(n);
      BigEndian(n, 2)
    else []
  }

  function Num4(n: nat): (b: bytes)
    ensures b == if n < 0x1_0000_0000 then Enc4(n) else []
  {
    if n < 0x1_0000_0000 then
      BigEndianIs4(n);
      BigEndian(n, 4)
    else []
  }

  function TagOf(s: Sub): byte {
    match s
    case Root(tag, _) => tag
    case Class(_, _, _, _, _) => 0x20
    case Instance(_, _) => 0x21
    case ObjectArray(_, _, _) => 0x22
    case PrimArray(_, _, _, _) => 0x23
  }

  function PrintBody(s: Sub, rest: bytes): bytes {
    match s
    case Root(_, body) => body + rest
    case Class(head, consts, statics, count, fields) =>
      head + PrintTable(consts, PrintTable(statics, Num2(count) + (fields + rest)))
    case Instance(head, values) => head + (Num4(|values|) + (values + rest))
    case ObjectArray(head, count, refs) => head + (Num4(count) + (refs + rest))
    case PrimArray(head, count, ty, elems) => head + (Num4(count) + ([ty] + (elems + rest)))
  }

  function PrintSub(s: Sub, rest: bytes): bytes {
    [TagOf(s)] + PrintBody(s, rest)
  }

  function PrintSubs(subs: seq<Sub>, rest: bytes): bytes {
    if subs == [] then rest else PrintSub(subs[0], PrintSubs(subs[1..], rest))
  }

  function BodySize(r: Record): nat {
    if r.Plain? then |r.body| else SubsSize(r.subs)
  }

  function RecordHead(r: Record): bytes {
    [r.tag] + (r.time + Num4(BodySize(r)))
  }

  function PrintRecord(r: Record, rest: bytes): bytes {
    RecordHead(r) + (if r.Plain? then r.body + rest else PrintSubs(r.subs, rest))
  }

  function PrintRecords(rs: seq<Record>, rest: bytes): bytes {
    if rs == [] then rest else PrintRecord(rs[0], PrintRecords(rs[1..], rest))
  }

  function FileHead(d: Dump): bytes {
    Num4(d.id) + d.stamp
  }

  function Print(d: Dump): bytes {
    d.magic + (FileHead(d) + PrintRecords(d.records, []))
  }

  lemma {:induction false} EntriesLength(es: seq<Entry>, rest: bytes)
    ensures |PrintEntries(es, rest)| == EntriesSize(es) + |rest|
  {
    if es != [] {
      EntriesLength(es[1..], rest);
    }
  }

  lemma SubLength(s: Sub, id: nat, rest: bytes)
    requires SubOk(s, id)
    ensures |PrintSub(s, rest)| == SubSize(s) + |rest|
  {
    if s.Class? {
      var f := Num2(s.count) + (s.fields + rest);
      EntriesLength(s.statics, f);
      EntriesLength(s.consts, PrintTable(s.statics, f));
    }
  }

  lemma {:induction false} SubsLength(subs: seq<Sub>, id: nat, rest: bytes)
    requires SubsOk(subs, id)
    ensures |PrintSubs(subs, rest)| == SubsSize(subs) + |rest|
  {
    if subs != [] {
      SubsLength(subs[1..], id, rest);
      SubLength(subs[0], id, PrintSubs(subs[1..], rest));
    }
  }

  // ------------------------------------------------------------------ scrubbing

  /** Zero the values of a primitive array; leave everything else alone. */
  function ScrubSub(s: Sub): Sub {
    if s.PrimArray? then s.(elems := Zeros(|s.elems|)) else s
  }

  function ScrubSubs(subs: seq<Sub>): (r: seq<Sub>)
    ensures |r| == |subs| && forall i :: 0 <= i < |subs| ==> r[i] == ScrubSub(subs[i])
  {
    seq(|subs|, i requires 0 <= i < |subs| => ScrubSub(subs[i]))
  }

  function ScrubRecord(r: Record): Record {
    if r.Heap? then r.(subs := ScrubSubs(r.subs)) else r
  }

  function ScrubRecords(rs: seq<Record>): (q: seq<Record>)
    ensures |q| == |rs| && forall i :: 0 <= i < |rs| ==> q[i] == ScrubRecord(rs[i])
  {
    seq(|rs|, i requires 0 <= i < |rs| => ScrubRecord(rs[i]))
  }

  function Scrub(d: Dump): Dump {
    d.(records := ScrubRecords(d.records))
  }

  // ------------------------------------------------------ payload positions

  /** Which bytes of the printed form are primitive array values. */
  function SubMarks(s: Sub, rest: seq<bool>): seq<bool> {
    if s.PrimArray? then Falses(6 + |s.head|) + (Trues(|s.elems|) + rest) else Falses(SubSize(s)) + rest
  }

  function SubsMarks(subs: seq<Sub>, rest: seq<bool>): seq<bool> {
    if subs == [] then rest else SubMarks(subs[0], SubsMarks(subs[1..], rest))
  }

  function RecordMarks(r: Record, rest: seq<bool>): seq<bool> {
    Falses(9) + (if r.Plain? then Falses(|r.body|) + rest else SubsMarks(r.subs, rest))
  }

  function RecordsMarks(rs: seq<Record>, rest: seq<bool>): seq<bool> {
    if rs == [] then rest else RecordMarks(rs[0], RecordsMarks(rs[1..], rest))
  }

  function DumpMarks(d: Dump): seq<bool> {
    Falses(|d.magic|) + (Falses(12) + RecordsMarks(d.records, []))
  }

  // ---------------------------------------------------------- unique readability

  lemma {:induction false} EntriesUnique(es: seq<Entry>, y: bytes, es': seq<Entry>, y': bytes, id: nat, head: nat)
    requires EntriesOk(es, id, head) && EntriesOk(es', id, head) && |es| == |es'|
    requires PrintEntries(es, y) == PrintEntries(es', y')
    ensures es == es' && y == y'
  {
    if es != [] {
      var e, e' := es[0], es'[0];
      var r, r' := PrintEntries(es[1..], y), PrintEntries(es'[1..], y');
      SplitEqual(e.key, [e.ty] + (e.value + r), e'.key, [e'.ty] + (e'.value + r'));
      SplitEqual([e.ty], e.value + r, [e'.ty], e'.value + r');
      SplitEqual(e.value, r, e'.value, r');
      EntriesUnique(es[1..], y, es'[1..], y', id, head);
      assert es == [e] + es[1..] && es' == [e'] + es'[1..];
    }
  }

  lemma TableUnique(es: seq<Entry>, y: bytes, es': seq<Entry>, y': bytes, id: nat, head: nat)
    requires TableOk(es, id, head) && TableOk(es', id, head)
    requires PrintTable(es, y) == PrintTable(es', y')
    ensures es == es' && y == y'
  {
    SplitEqual(Num2(|es|), PrintEntries(es, y), Num2(|es'|), PrintEntries(es', y'));
    EntriesUnique(es, y, es', y', id, head);
  }

  lemma ClassUnique(s: Sub, y: bytes, s': Sub, y': bytes, id: nat)
    requires s.Class? && s'.Class? && SubOk(s, id) && SubOk(s', id)
    requires PrintBody(s, y) == PrintBody(s', y')
    ensures s == s' && y == y'
  {
    var f, f' := Num2(s.count) + (s.fields + y), Num2(s'.count) + (s'.fields + y');
    var t, t' := PrintTable(s.statics, f), PrintTable(s'.statics, f');
    SplitEqual(s.head, PrintTable(s.consts, t), s'.head, PrintTable(s'.consts, t'));
    TableUnique(s.consts, t, s'.consts, t', id, 2);
    TableUnique(s.statics, f, s'.statics, f', id, id);
    SplitEqual(Num2(s.count), s.fields + y, Num2(s'.count), s'.fields + y');
    SplitEqual(s.fields, y, s'.fields, y');
  }

  lemma BodyUnique(s: Sub, y: bytes, s': Sub, y': bytes, id: nat)
    requires SubOk(s, id) && SubOk(s', id) && TagOf(s) == TagOf(s') && id > 0
    requires PrintBody(s, y) == PrintBody(s', y')
    ensures s == s' && y == y'
  {
    match s
    case Root(_, body) =>
      SplitEqual(body, y, s'.body, y');
    case Class(_, _, _, _, _) =>
      ClassUnique(s, y, s', y', id);
    case Instance(head, values) =>
      SplitEqual(head, Num4(|values|) + (values + y), s'.head, Num4(|s'.values|) + (s'.values + y'));
      SplitEqual(Num4(|values|), values + y, Num4(|s'.values|), s'.values + y');
      SplitEqual(values, y, s'.values, y');
    case ObjectArray(head, count, refs) =>
      SplitEqual(head, Num4(count) + (refs + y), s'.head, Num4(s'.count) + (s'.refs + y'));
      SplitEqual(Num4(count), refs + y, Num4(s'.count), s'.refs + y');
      SplitEqual(refs, y, s'.refs, y');
    case PrimArray(head, count, ty, elems) =>
      var r, r' := [ty] + (elems + y), [s'.ty] + (s'.elems + y');
      SplitEqual(head, Num4(count) + r, s'.head, Num4(s'.count) + r');
      SplitEqual(Num4(count), r, Num4(s'.count), r');
      SplitEqual([ty], elems + y, [s'.ty], s'.elems + y');
      SplitEqual(elems, y, s'.elems, y');
  }

  lemma SubUnique(s: Sub, y: bytes, s': Sub, y': bytes, id: nat)
    requires SubOk(s, id) && SubOk(s', id) && id > 0
    requires PrintSub(s, y) == PrintSub(s', y')
    ensures s == s' && y == y'
  {
    SplitEqual([TagOf(s)], PrintBody(s, y), [TagOf(s')], PrintBody(s', y'));
    BodyUnique(s, y, s', y', id);
  }

  lemma {:induction false} SubsUnique(ss: seq<Sub>, y: bytes, ss': seq<Sub>, y': bytes, id: nat)
    requires SubsOk(ss, id) && SubsOk(ss', id) && id > 0 && SubsSize(ss) == SubsSize(ss')
    requires PrintSubs(ss, y) == PrintSubs(ss', y')
    ensures ss == ss' && y == y'
  {
    if ss != [] {
      SubUnique(ss[0], PrintSubs(ss[1..], y), ss'[0], PrintSubs(ss'[1..], y'), id);
      SubsUnique(ss[1..], y, ss'[1..], y', id);
      assert ss == [ss[0]] + ss[1..] && ss' == [ss'[0]] + ss'[1..];
    }
  }

  lemma RecordUnique(r: Record, y: bytes, r': Record, y': bytes, id: nat)
    requires RecordOk(r, id) && RecordOk(r', id) && id > 0
    requires PrintRecord(r, y) == PrintRecord(r', y')
    ensures r == r' && y == y'
  {
    var n, n' := Num4(BodySize(r)), Num4(BodySize(r'));
    var b := if r.Plain? then r.body + y else PrintSubs(r.subs, y);
    var b' := if r'.Plain? then r'.body + y' else PrintSubs(r'.subs, y');
    SplitEqual(RecordHead(r), b, RecordHead(r'), b');
    SplitEqual([r.tag], r.time + n, [r'.tag], r'.time + n');
    SplitEqual(r.time, n, r'.time, n');
    if r.Plain? {
      SplitEqual(r.body, y, r'.body, y');
    } else {
      SubsUnique(r.subs, y, r'.subs, y', id);
    }
  }

  lemma HeadAndTail(rs: seq<Record>, rs': seq<Record>)
    requires rs != [] && rs' != [] && rs[0] == rs'[0] && rs[1..] == rs'[1..]
    ensures rs == rs'
  {
    assert rs == [rs[0]] + rs[1..] && rs' == [rs'[0]] + rs'[1..];
  }

  lemma {:induction false} RecordsUnique(rs: seq<Record>, rs': seq<Record>, id: nat)
    requires RecordsOk(rs, id) && RecordsOk(rs', id) && id > 0
    requires PrintRecords(rs, []) == PrintRecords(rs', [])
    ensures rs == rs'
  {
    if rs != [] && rs' != [] {
      RecordUnique(rs[0], PrintRecords(rs[1..], []), rs'[0], PrintRecords(rs'[1..], []), id);
      RecordsUnique(rs[1..], rs'[1..], id);
      HeadAndTail(rs, rs');
    }
  }

  /** No byte string is the printed form of two different dumps. */
  lemma PrintUnique(d: Dump, d': Dump)
    requires DumpOk(d) && DumpOk(d') && Print(d) == Print(d')
    ensures d == d'
  {
    var x := Print(d);
    MagicLength(d);
    MagicLength(d');
    var y, y' := PrintRecords(d.records, []), PrintRecords(d'.records, []);
    SplitEqual(d.magic, FileHead(d) + y, d'.magic, FileHead(d') + y');
    SplitEqual(FileHead(d), PrintRecords(d.records, []), FileHead(d'), PrintRecords(d'.records, []));
    SplitEqual(Num4(d.id), d.stamp, Num4(d'.id), d'.stamp);
    RecordsUnique(d.records, d'.records, d.id);
  }

  lemma MagicLength(d: Dump)
    requires DumpOk(d)
    ensures |d.magic| == FirstNul(Print(d), 0) + 1
  {
    var m, x := d.magic, Print(d);
    assert forall i :: 0 <= i < |m| ==> x[i] == m[i];
    FirstNulUnique(x, |m| - 1);
  }
}
