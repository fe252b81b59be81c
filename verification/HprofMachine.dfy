/**
 The heap dump scrubber as an abstract machine.

 The machine walks the input once. Its control is the identifier size, the
 budget `left` of the current record, and a stack of things still to be read in
 the current sub-record. Every step reads a few bytes it may look at (a tag, a
 count, a type), copies bytes it never looks at, or blanks bytes it never looks at.
 */
module HprofMachine {
  import opened Bytes

  datatype Error =
    | NotHeapDump
    | BadIdSize(size: nat)
    | UnknownSub(tag: byte)
    | UnknownType(ty: byte)
    | Overrun
    | UnexpectedEof
    | ReadFault
    | WriteFault

  datatype Verdict = Accept | Reject(error: Error)

  function EndError(end: End): Error {
    if end.Eof? then UnexpectedEof else ReadFault
  }

  /** What a run does to its input, segment by segment. */
  datatype Trace =
    | Stop(verdict: Verdict)
    | Starve(n: nat, error: Error)        // the input ends n bytes into values to be blanked
    | Copy(n: nat, rest: Trace)
    | Blank(n: nat, rest: Trace)
  {
    // The trace of a run that first consumes k bytes, copying or blanking them.
    function After(k: nat, wipe: bool): Trace {
      if k == 0 then this else if wipe then Blank(k, this) else Copy(k, this)
    }

    function Verdict(): Verdict {
      match this
      case Stop(v) => v
      case Starve(_, e) => Reject(e)
      case Copy(_, t) => t.Verdict()
      case Blank(_, t) => t.Verdict()
    }

    /** The bytes emitted when the input is x. */
    function Out(x: bytes): bytes {
      match this
      case Stop(_) => []
      case Starve(n, _) => WholeChunks(n)
      case Copy(n, t) => if n <= |x| then x[..n] + t.Out(x[n..]) else []
      case Blank(n, t) => if n <= |x| then Zeros(n) + t.Out(x[n..]) else []
    }

    /** For each byte consumed, whether it is a primitive array value. */
    function Marks(): seq<bool> {
      match this
      case Stop(_) => []
      case Starve(n, _) => Trues(n)
      case Copy(n, t) => Falses(n) + t.Marks()
      case Blank(n, t) => Trues(n) + t.Marks()
    }
  }

  function Stopped(e: Error): Trace {
    Stop(Reject(e))
  }

  const CHUNK: nat := 0x8000

  /** The whole zero chunks written before a blanking loop runs out of input. */
  function WholeChunks(n: nat): (z: bytes)
    ensures |z| <= n
  {
    Zeros(n / CHUNK * CHUNK)
  }

  /** One pending piece of a sub-record. */
  datatype Item =
    | Tag                      // u1 sub-record tag
    | Blob(n: nat)             // n bytes to copy
    | Wipe(n: nat)             // n bytes to blank
    | InstanceLength           // u4 n, then n bytes
    | ArrayLength              // u4 n, then a class id and n ids
    | PrimLength               // u4 n, then a type and n values
    | PrimType(count: nat)     // u1 type, then the values
    | ValueType                // u1 type, then one value
    | Table(head: nat)         // u2 n, then n entries of head bytes, type and value
    | FieldTable               // u2 n, then n fields of an id and a type

  /** What is pending in the current sub-record, next thing first. */
  datatype Todo = Done | Do(item: Item, rest: Todo)

  function Width(item: Item): nat {
    match item
    case Tag => 1
    case Blob(n) => n
    case Wipe(n) => n
    case InstanceLength => 4
    case ArrayLength => 4
    case PrimLength => 4
    case PrimType(_) => 1
    case ValueType => 1
    case Table(_) => 2
    case FieldTable => 2
  }

  // The size of one value of a basic type; 0 for a type code outside the format.
  function SizeOf(id: nat, ty: byte): nat {
    match ty
    case 2 => id
    case 4 => 1
    case 8 => 1
    case 5 => 2
    case 9 => 2
    case 6 => 4
    case 10 => 4
    case 7 => 8
    case 11 => 8
    case _ => 0
  }

  datatype Reply = Push(todo: Todo) | Refuse(error: Error)

  // The contents of a sub-record, by its tag, with `tail` after it.
  function Contents(id: nat, tag: byte, tail: Todo): Reply {
    match tag
    case 0xFF => Push(Do(Blob(id), tail))
    case 0x05 => Push(Do(Blob(id), tail))
    case 0x07 => Push(Do(Blob(id), tail))
    case 0x01 => Push(Do(Blob(2 * id), tail))
    case 0x04 => Push(Do(Blob(id + 4), tail))
    case 0x06 => Push(Do(Blob(id + 4), tail))
    case 0x02 => Push(Do(Blob(id + 8), tail))
    case 0x03 => Push(Do(Blob(id + 8), tail))
    case 0x08 => Push(Do(Blob(id + 8), tail))
    case 0x20 => Push(Do(Blob(7 * id + 8), Do(Table(2), Do(Table(id), Do(FieldTable, tail)))))
    case 0x21 => Push(Do(Blob(2 * id + 4), Do(InstanceLength, tail)))
    case 0x22 => Push(Do(Blob(id + 4), Do(ArrayLength, tail)))
    case 0x23 => Push(Do(Blob(id + 4), Do(PrimLength, tail)))
    case _ => Refuse(UnknownSub(tag))
  }

  function Entries(n: nat, head: nat, tail: Todo): Todo {
    if n == 0 then tail else Do(Blob(head), Do(ValueType, Entries(n - 1, head, tail)))
  }

  predicate Looks(item: Item) {
    !item.Blob? && !item.Wipe?
  }

  /** What the bytes of an item that is looked at ask for next. */
  function Respond(id: nat, item: Item, b: bytes, tail: Todo): Reply
    requires Looks(item) && |b| == Width(item)
  {
    match item
    case Tag => Contents(id, b[0], tail)
    case InstanceLength => Push(Do(Blob(U4(b)), tail))
    case ArrayLength => Push(Do(Blob(id + U4(b) * id), tail))
    case PrimLength => Push(Do(PrimType(U4(b)), tail))
    case PrimType(n) =>
      var size := SizeOf(id, b[0]);
      if size == 0 then Refuse(UnknownType(b[0])) else Push(Do(Wipe(n * size), tail))
    case ValueType =>
      var size := SizeOf(id, b[0]);
      if size == 0 then Refuse(UnknownType(b[0])) else Push(Do(Blob(size), tail))
    case Table(head) => Push(Entries(U2(b), head, tail))
    case FieldTable => Push(Do(Blob(U2(b) * (id + 1)), tail))
  }

  predicate IsHeap(tag: byte) {
    tag == 0x0C || tag == 0x1C
  }

  function Depth(todo: Todo): nat {
    match todo
    case Done => 0
    case Do(_, rest) => 1 + Depth(rest)
  }

  /** The run from inside a dump: `left` bytes to go in the current record, `todo`
      pending in the current sub-record, `x` still to be read. */
  function Run(end: End, id: nat, left: nat, todo: Todo, x: bytes): Trace
    decreases |x|, Depth(todo), 3
  {
    match todo
    case Do(item, tail) => RunItem(end, id, left, item, tail, x)
    case Done => if left > 0 then RunItem(end, id, left, Tag, Done, x) else RunRecord(end, id, x)
  }

  // At a record boundary: a 9-byte record header, or the end of the input.
  function RunRecord(end: End, id: nat, x: bytes): Trace
    decreases |x|, 0, 2
  {
    if x == [] then Stop(if end.Eof? then Accept else Reject(ReadFault))
    else if |x| < 9 then Stopped(EndError(end))
    else
      var n := U4(x[5..9]);
      Copy(9, Run(end, id, n, if IsHeap(x[0]) then Done else Do(Blob(n), Done), x[9..]))
  }

  // Inside a record, with `item` up next and `tail` after it.
  function RunItem(end: End, id: nat, left: nat, item: Item, tail: Todo, x: bytes): Trace
    decreases |x|, Depth(tail) + (if item.Tag? then 0 else 1), 2
  {
    var k := Width(item);
    if k > left then Stopped(Overrun)
    else if k > |x| then Starved(end, item, |x|)
    else if Looks(item) then RunLook(end, id, left, item, tail, x)
    else Run(end, id, left - k, tail, x[k..]).After(k, item.Wipe?)
  }

  // The input ends after n bytes of an item.
  function Starved(end: End, item: Item, n: nat): Trace {
    match item
    case Blob(_) => Stopped(EndError(end)).After(n, false)
    case Wipe(_) => Starve(n, EndError(end))
    case _ => Stopped(EndError(end))
  }

  function RunLook(end: End, id: nat, left: nat, item: Item, tail: Todo, x: bytes): Trace
    requires Looks(item) && Width(item) <= left && Width(item) <= |x|
    decreases |x|, 0, 1
  {
    var k := Width(item);
    match Respond(id, item, x[..k], tail)
    case Refuse(e) => Copy(k, Stopped(e))
    case Push(todo) => Copy(k, Run(end, id, left - k, todo, x[k..]))
  }

  const MAGIC: bytes := // "JAVA PROFILE 1.0."
    [0x4A, 0x41, 0x56, 0x41, 0x20, 0x50, 0x52, 0x4F, 0x46, 0x49, 0x4C, 0x45, 0x20, 0x31, 0x2E, 0x30, 0x2E]

  // Whether m begins with p, byte for byte.
  predicate HasPrefix(m: bytes, p: bytes) {
    p == [] || (m != [] && m[0] == p[0] && HasPrefix(m[1..], p[1..]))
  }

  lemma {:induction false} HasPrefixIs(m: bytes, p: bytes)
    ensures HasPrefix(m, p) <==> p <= m
  {
    if p != [] && m != [] {
      HasPrefixIs(m[1..], p[1..]);
      assert m == [m[0]] + m[1..] && p == [p[0]] + p[1..];
    }
  }

  predicate IsMagic(m: bytes) {
    HasPrefix(m, MAGIC)
  }

  /** The run after the magic string: identifier size, timestamp, records. */
  function RunHeader(end: End, x: bytes): Trace {
    if |x| < 12 then Stopped(EndError(end))
    else
      var id := U4(x[..4]);
      Copy(12, if id == 4 || id == 8 then Run(end, id, 0, Done, x[12..]) else Stopped(BadIdSize(id)))
  }

  /** The run over a whole input. */
  function Scan(end: End, x: bytes): Trace {
    var n := FirstNul(x, 0) + 1;
    if n <= |x| && IsMagic(x[..n]) then Copy(n, RunHeader(end, x[n..])) else Stopped(NotHeapDump)
  }

  // ---------------------------------------------------------------- masking

  /** The emitted bytes are the consumed ones with the marked positions blanked. */
  ghost predicate Masks(t: Trace, x: bytes) {
    && |t.Out(x)| <= |t.Marks()| <= |x|
    && (forall i :: 0 <= i < |t.Out(x)| ==> t.Out(x)[i] == if t.Marks()[i] then 0 else x[i])
    && (t.Verdict().Accept? ==> |t.Out(x)| == |x|)
  }

  lemma {:induction false} AfterMasks(t: Trace, x: bytes, k: nat, wipe: bool)
    requires k <= |x| && Masks(t, x[k..])
    ensures Masks(t.After(k, wipe), x)
  {
    if k == 0 {
      assert x[0..] == x;
    } else {
      var u := t.After(k, wipe);
      forall i | 0 <= i < |u.Out(x)|
        ensures u.Out(x)[i] == if u.Marks()[i] then 0 else x[i]
      {
        if k <= i {
          assert u.Out(x)[i] == t.Out(x[k..])[i - k] && u.Marks()[i] == t.Marks()[i - k] && x[i] == x[k..][i - k];
        }
      }
    }
  }

  lemma {:induction false} RunMasks(end: End, id: nat, left: nat, todo: Todo, x: bytes)
    ensures Masks(Run(end, id, left, todo, x), x)
    decreases |x|, Depth(todo), 3
  {
    match todo
    case Do(item, tail) => ItemMasks(end, id, left, item, tail, x);
    case Done =>
      if left > 0 {
        ItemMasks(end, id, left, Tag, Done, x);
      } else if |x| >= 9 {
        var n := U4(x[5..9]);
        var next := if IsHeap(x[0]) then Done else Do(Blob(n), Done);
        RunMasks(end, id, n, next, x[9..]);
        AfterMasks(Run(end, id, n, next, x[9..]), x, 9, false);
      }
  }

  lemma {:induction false} ItemMasks(end: End, id: nat, left: nat, item: Item, tail: Todo, x: bytes)
    ensures Masks(RunItem(end, id, left, item, tail, x), x)
    decreases |x|, Depth(tail) + (if item.Tag? then 0 else 1), 2
  {
    var k := Width(item);
    if k <= left {
      if k > |x| {
        AfterMasks(Stopped(EndError(end)), x, |x|, false);
      } else if Looks(item) {
        LookMasks(end, id, left, item, tail, x);
      } else {
        RunMasks(end, id, left - k, tail, x[k..]);
        AfterMasks(Run(end, id, left - k, tail, x[k..]), x, k, item.Wipe?);
      }
    }
  }

  lemma {:induction false} LookMasks(end: End, id: nat, left: nat, item: Item, tail: Todo, x: bytes)
    requires Looks(item) && Width(item) <= left && Width(item) <= |x|
    ensures Masks(RunLook(end, id, left, item, tail, x), x)
    decreases |x|, 0, 1
  {
    var k := Width(item);
    match Respond(id, item, x[..k], tail)
    case Refuse(e) => AfterMasks(Stopped(e), x, k, false);
    case Push(todo) =>
      RunMasks(end, id, left - k, todo, x[k..]);
      AfterMasks(Run(end, id, left - k, todo, x[k..]), x, k, false);
  }

  lemma RunHeaderMasks(end: End, x: bytes)
    ensures Masks(RunHeader(end, x), x)
  {
    if |x| >= 12 {
      var id := U4(x[..4]);
      var t := if id == 4 || id == 8 then Run(end, id, 0, Done, x[12..]) else Stopped(BadIdSize(id));
      RunMasks(end, id, 0, Done, x[12..]);
      AfterMasks(t, x, 12, false);
    }
  }

  /** At whatever point a run stops, what it emitted is the input with the bytes zeroed that
      it blanks; an accepted input is emitted at full length. */
  lemma ScanMasks(end: End, x: bytes)
    ensures Masks(Scan(end, x), x)
  {
    var n := FirstNul(x, 0) + 1;
    if n <= |x| {
      RunHeaderMasks(end, x[n..]);
      AfterMasks(RunHeader(end, x[n..]), x, n, false);
    }
  }

  // -------------------------------------------------------- non-interference

  /** y may differ from x only where m marks a byte of x as blanked. */
  ghost predicate AgreeOff(m: seq<bool>, x: bytes, y: bytes) {
    && |x| == |y|
    && forall i :: 0 <= i < |x| ==> (i < |m| && m[i]) || x[i] == y[i]
  }

  lemma {:induction false} AgreeStep(t: Trace, k: nat, wipe: bool, x: bytes, y: bytes)
    requires k <= |x|
    requires AgreeOff(t.After(k, wipe).Marks(), x, y)
    ensures AgreeOff(t.Marks(), x[k..], y[k..])
    ensures wipe || x[..k] == y[..k]
  {
    if k == 0 {
      assert x[0..] == x && y[0..] == y;
    } else {
      var m := t.After(k, wipe).Marks();
      forall i | 0 <= i < |x| - k
        ensures (i < |t.Marks()| && t.Marks()[i]) || x[k..][i] == y[k..][i]
      {
        assert (i + k < |m| && m[i + k]) || x[i + k] == y[i + k];
        assert i < |t.Marks()| ==> m[i + k] == t.Marks()[i];
      }
    }
  }

  lemma {:induction false} RunIgnoresPayload(end: End, id: nat, left: nat, todo: Todo, x: bytes, y: bytes)
    requires AgreeOff(Run(end, id, left, todo, x).Marks(), x, y)
    ensures Run(end, id, left, todo, y) == Run(end, id, left, todo, x)
    decreases |x|, Depth(todo), 3
  {
    match todo
    case Do(item, tail) => ItemIgnoresPayload(end, id, left, item, tail, x, y);
    case Done =>
      if left > 0 {
        ItemIgnoresPayload(end, id, left, Tag, Done, x, y);
      } else {
        RecordIgnoresPayload(end, id, x, y);
      }
  }

  lemma {:induction false} RecordIgnoresPayload(end: End, id: nat, x: bytes, y: bytes)
    requires AgreeOff(RunRecord(end, id, x).Marks(), x, y)
    ensures RunRecord(end, id, y) == RunRecord(end, id, x)
    decreases |x|, 0, 2
  {
    if |x| >= 9 {
      var n := U4(x[5..9]);
      var next := if IsHeap(x[0]) then Done else Do(Blob(n), Done);
      AgreeStep(Run(end, id, n, next, x[9..]), 9, false, x, y);
      assert x[5..9] == x[..9][5..] && y[5..9] == y[..9][5..];
      assert x[0] == x[..9][0] && y[0] == y[..9][0];
      RunIgnoresPayload(end, id, n, next, x[9..], y[9..]);
    }
  }

  lemma {:induction false} ItemIgnoresPayload(end: End, id: nat, left: nat, item: Item, tail: Todo, x: bytes, y: bytes)
    requires AgreeOff(RunItem(end, id, left, item, tail, x).Marks(), x, y)
    ensures RunItem(end, id, left, item, tail, y) == RunItem(end, id, left, item, tail, x)
    decreases |x|, Depth(tail) + (if item.Tag? then 0 else 1), 2
  {
    var k := Width(item);
    if k <= left && k <= |x| {
      if Looks(item) {
        LookIgnoresPayload(end, id, left, item, tail, x, y);
      } else {
        AgreeStep(Run(end, id, left - k, tail, x[k..]), k, item.Wipe?, x, y);
        RunIgnoresPayload(end, id, left - k, tail, x[k..], y[k..]);
      }
    }
  }

  lemma {:induction false} LookIgnoresPayload(end: End, id: nat, left: nat, item: Item, tail: Todo, x: bytes, y: bytes)
    requires Looks(item) && Width(item) <= left && Width(item) <= |x|
    requires AgreeOff(RunLook(end, id, left, item, tail, x).Marks(), x, y)
    ensures RunLook(end, id, left, item, tail, y) == RunLook(end, id, left, item, tail, x)
    decreases |x|, 0, 1
  {
    var k := Width(item);
    match Respond(id, item, x[..k], tail)
    case Refuse(e) => AgreeStep(Stopped(e), k, false, x, y);
    case Push(todo) =>
      AgreeStep(Run(end, id, left - k, todo, x[k..]), k, false, x, y);
      RunIgnoresPayload(end, id, left - k, todo, x[k..], y[k..]);
  }

  lemma RunHeaderIgnoresPayload(end: End, x: bytes, y: bytes)
    requires AgreeOff(RunHeader(end, x).Marks(), x, y)
    ensures RunHeader(end, y) == RunHeader(end, x)
  {
    if |x| >= 12 {
      var id := U4(x[..4]);
      var t := if id == 4 || id == 8 then Run(end, id, 0, Done, x[12..]) else Stopped(BadIdSize(id));
      AgreeStep(t, 12, false, x, y);
      assert x[..4] == x[..12][..4] && y[..4] == y[..12][..4];
      if id == 4 || id == 8 {
        RunIgnoresPayload(end, id, 0, Done, x[12..], y[12..]);
      }
    }
  }

  lemma ScanSameTrace(end: End, x: bytes, y: bytes)
    requires AgreeOff(Scan(end, x).Marks(), x, y)
    ensures Scan(end, y) == Scan(end, x)
  {
    var n := FirstNul(x, 0) + 1;
    if n > |x| || !IsMagic(x[..n]) {
      assert x == y;
    } else {
      AgreeStep(RunHeader(end, x[n..]), n, false, x, y);
      assert forall i :: 0 <= i < n ==> y[i] == y[..n][i] == x[..n][i] == x[i];
      FirstNulUnique(y, n - 1);
      RunHeaderIgnoresPayload(end, x[n..], y[n..]);
    }
  }

  /** Non-interference: an input that differs from x only inside primitive array
      values gets the same verdict, the same payload positions and byte-identical
      output. */
  lemma ScanIgnoresPayload(end: End, x: bytes, y: bytes)
    requires AgreeOff(Scan(end, x).Marks(), x, y)
    ensures Scan(end, y) == Scan(end, x)
    ensures Scan(end, y).Out(y) == Scan(end, x).Out(x)
  {
    ScanSameTrace(end, x, y);
    ScanMasks(end, x);
    ScanMasks(end, y);
    OutLength(Scan(end, x), x, y);
  }

  lemma {:induction false} OutLength(t: Trace, x: bytes, y: bytes)
    requires |x| == |y|
    ensures |t.Out(x)| == |t.Out(y)|
    decreases t
  {
    match t
    case Stop(_) =>
    case Starve(_, _) =>
    case Copy(n, r) =>
      if n <= |x| {
        OutLength(r, x[n..], y[n..]);
      }
    case Blank(n, r) =>
      if n <= |x| {
        OutLength(r, x[n..], y[n..]);
      }
  }

  // ---------------------------------------------------------------- budget

  /** No byte count goes beyond 2^36, so none overflows 64 bits. */
  predicate Bounded(item: Item) {
    match item
    case Blob(n) => n < 0x10_0000_0000
    case Wipe(n) => n < 0x10_0000_0000
    case PrimType(n) => n < 0x1_0000_0000
    case Table(head) => head <= 8
    case _ => true
  }

  predicate AllBounded(todo: Todo) {
    todo.Do? ==> Bounded(todo.item) && AllBounded(todo.rest)
  }

  lemma {:induction false} EntriesBounded(n: nat, head: nat, tail: Todo)
    requires head <= 8 && AllBounded(tail)
    ensures AllBounded(Entries(n, head, tail))
  {
    if n > 0 {
      EntriesBounded(n - 1, head, tail);
    }
  }

  lemma ContentsBounded(id: nat, tag: byte, tail: Todo)
    requires id in {4, 8} && AllBounded(tail)
    ensures var r := Contents(id, tag, tail); r.Push? ==> AllBounded(r.todo)
  {
    assert AllBounded(Do(Table(id), Do(FieldTable, tail)));
  }

  lemma U4Bound(b: bytes)
    requires |b| == 4
    ensures U4(b) < 0x1_0000_0000
  {
    Enc4OfU4(b);
  }

  /** Whatever an item asks for next, however large the counts in the input, is within
      the bound: n ids, n values of up to 8 bytes, n fields. */
  lemma RespondBounded(id: nat, item: Item, b: bytes, tail: Todo)
    requires id in {4, 8} && Looks(item) && |b| == Width(item) && Bounded(item) && AllBounded(tail)
    ensures var r := Respond(id, item, b, tail); r.Push? ==> AllBounded(r.todo)
  {
    match item
    case Tag => ContentsBounded(id, b[0], tail);
    case InstanceLength => U4Bound(b);
    case ArrayLength => U4Bound(b);
    case PrimLength => U4Bound(b);
    case PrimType(n) => assert n * SizeOf(id, b[0]) <= n * 8;
    case ValueType =>
    case Table(head) => EntriesBounded(U2(b), head, tail);
    case FieldTable => Enc2OfU2(b);
  }

  /** A point of a run: the budget, what is pending, what is still to be read. */
  datatype Point = Point(left: nat, todo: Todo, x: bytes)

  // The item that is up, if the run is inside a record.
  function Up(p: Point): Todo {
    if p.todo == Done && p.left > 0 then Do(Tag, Done) else p.todo
  }

  // The run does not stop here.
  predicate GoesOn(id: nat, p: Point) {
    match Up(p)
    case Done => |p.x| >= 9
    case Do(item, tail) =>
      var k := Width(item);
      k <= p.left && k <= |p.x| && (Looks(item) ==> Respond(id, item, p.x[..k], tail).Push?)
  }

  /** Where it goes on: behind the item that is up, or in the record that starts here. */
  function Onward(id: nat, p: Point): Point
    requires GoesOn(id, p)
  {
    match Up(p)
    case Done =>
      var n := U4(p.x[5..9]);
      Point(n, if IsHeap(p.x[0]) then Done else Do(Blob(n), Done), p.x[9..])
    case Do(item, tail) =>
      var k := Width(item);
      Point(p.left - k, if Looks(item) then Respond(id, item, p.x[..k], tail).todo else tail, p.x[k..])
  }

  function RunAt(end: End, id: nat, p: Point): Trace {
    Run(end, id, p.left, p.todo, p.x)
  }

  // What a run does is what it does here and then what it does from there on.
  lemma RunGoesOn(end: End, id: nat, p: Point)
    requires GoesOn(id, p)
    ensures var q := Onward(id, p);
            RunAt(end, id, p) == RunAt(end, id, q).After(|p.x| - |q.x|, Up(p).Do? && Up(p).item.Wipe?)
  {
    match Up(p)
    case Done => assert RunAt(end, id, p) == RunRecord(end, id, p.x);
    case Do(item, tail) =>
      assert RunAt(end, id, p) == RunItem(end, id, p.left, item, tail, p.x);
      assert Looks(item) ==> RunAt(end, id, p) == RunLook(end, id, p.left, item, tail, p.x);
  }

  /** The point after n more steps, or where the run stops before. */
  function Later(id: nat, p: Point, n: nat): Point
    decreases n
  {
    if n == 0 || !GoesOn(id, p) then p else Later(id, Onward(id, p), n - 1)
  }

  lemma OnwardBounded(id: nat, p: Point)
    requires id in {4, 8} && GoesOn(id, p) && AllBounded(p.todo)
    ensures AllBounded(Onward(id, p).todo)
  {
    match Up(p)
    case Done => U4Bound(p.x[5..9]);
    case Do(item, tail) =>
      if Looks(item) {
        RespondBounded(id, item, p.x[..Width(item)], tail);
      }
  }

  lemma {:induction false} LaterBounded(id: nat, p: Point, n: nat)
    requires id in {4, 8} && AllBounded(p.todo)
    ensures AllBounded(Later(id, p, n).todo)
    decreases n
  {
    if n > 0 && GoesOn(id, p) {
      OnwardBounded(id, p);
      LaterBounded(id, Onward(id, p), n - 1);
    }
  }

  /** From any record boundary on, however many steps a run takes over whatever input,
      every length it has pending is below 2^36. */
  lemma LengthsBounded(id: nat, x: bytes, n: nat)
    requires id in {4, 8}
    ensures AllBounded(Later(id, Point(0, Done, x), n).todo)
  {
    LaterBounded(id, Point(0, Done, x), n);
  }

  /** Nothing is accepted before the declared length of the record is used up. */
  lemma {:induction false} AcceptedUsesBudget(end: End, id: nat, left: nat, todo: Todo, x: bytes)
    requires Run(end, id, left, todo, x).Verdict().Accept?
    ensures left <= |x|
    decreases |x|, Depth(todo), 3
  {
    match todo
    case Do(item, tail) => ItemUsesBudget(end, id, left, item, tail, x);
    case Done =>
      if left > 0 {
        ItemUsesBudget(end, id, left, Tag, Done, x);
      }
  }

  lemma {:induction false} ItemUsesBudget(end: End, id: nat, left: nat, item: Item, tail: Todo, x: bytes)
    requires RunItem(end, id, left, item, tail, x).Verdict().Accept?
    ensures Width(item) <= left <= |x|
    decreases |x|, Depth(tail) + (if item.Tag? then 0 else 1), 2
  {
    var k := Width(item);
    if Looks(item) {
      LookUsesBudget(end, id, left, item, tail, x);
    } else {
      AcceptedUsesBudget(end, id, left - k, tail, x[k..]);
    }
  }

  lemma {:induction false} LookUsesBudget(end: End, id: nat, left: nat, item: Item, tail: Todo, x: bytes)
    requires Looks(item) && Width(item) <= left && Width(item) <= |x|
    requires RunLook(end, id, left, item, tail, x).Verdict().Accept?
    ensures left <= |x|
    decreases |x|, 0, 1
  {
    var k := Width(item);
    AcceptedUsesBudget(end, id, left - k, Respond(id, item, x[..k], tail).todo, x[k..]);
  }

  /** The trace that is t until n bytes are consumed and u from there on. */
  function Splice(t: Trace, n: nat, u: Trace): Trace {
    if n == 0 then u
    else match t
      case Copy(k, r) => if k <= n then Copy(k, Splice(r, n - k, u)) else t
      case Blank(k, r) => if k <= n then Blank(k, Splice(r, n - k, u)) else t
      case _ => t
  }

  // Some segment of t ends where n bytes are consumed.
  ghost predicate Splits(t: Trace, n: nat) {
    n == 0
    || (t.Copy? && t.n <= n && Splits(t.rest, n - t.n))
    || (t.Blank? && t.n <= n && Splits(t.rest, n - t.n))
  }

  // x and w start with the same `left` bytes, and so do their remainders behind k of them.
  lemma SameStart(x: bytes, w: bytes, left: nat, k: nat)
    requires k <= left <= |x| && left <= |w| && x[..left] == w[..left]
    ensures x[..k] == w[..k] && x[k..][..left - k] == w[k..][..left - k] && w[k..][left - k..] == w[left..]
  {
    assert x[..k] == x[..left][..k] && w[..k] == w[..left][..k];
    assert x[k..][..left - k] == x[..left][k..] && w[k..][..left - k] == w[..left][k..];
  }

  /** A record that is got through consumes exactly its declared length: on any
      input that starts with the same record the run does the same up to the end of
      the record, and from there on what a run at a record boundary does. */
  lemma {:induction false} RecordConfined(end: End, id: nat, left: nat, todo: Todo, x: bytes, w: bytes)
    requires Run(end, id, left, todo, x).Verdict().Accept?
    requires left <= |x| && left <= |w| && x[..left] == w[..left]
    ensures Splits(Run(end, id, left, todo, x), left)
    ensures Run(end, id, left, todo, w) == Splice(Run(end, id, left, todo, x), left, Run(end, id, 0, Done, w[left..]))
    decreases |x|, Depth(todo), 3
  {
    match todo
    case Do(item, tail) => ItemConfined(end, id, left, item, tail, x, w);
    case Done =>
      if left > 0 {
        ItemConfined(end, id, left, Tag, Done, x, w);
      } else {
        assert w[0..] == w;
      }
  }

  lemma {:induction false} ItemConfined(end: End, id: nat, left: nat, item: Item, tail: Todo, x: bytes, w: bytes)
    requires RunItem(end, id, left, item, tail, x).Verdict().Accept?
    requires left <= |x| && left <= |w| && x[..left] == w[..left]
    ensures Splits(RunItem(end, id, left, item, tail, x), left)
    ensures RunItem(end, id, left, item, tail, w) ==
            Splice(RunItem(end, id, left, item, tail, x), left, Run(end, id, 0, Done, w[left..]))
    decreases |x|, Depth(tail) + (if item.Tag? then 0 else 1), 2
  {
    var k := Width(item);
    if Looks(item) {
      LookConfined(end, id, left, item, tail, x, w);
    } else {
      SameStart(x, w, left, k);
      RecordConfined(end, id, left - k, tail, x[k..], w[k..]);
    }
  }

  lemma {:induction false} LookConfined(end: End, id: nat, left: nat, item: Item, tail: Todo, x: bytes, w: bytes)
    requires Looks(item) && Width(item) <= left <= |x| && left <= |w| && x[..left] == w[..left]
    requires RunLook(end, id, left, item, tail, x).Verdict().Accept?
    ensures Splits(RunLook(end, id, left, item, tail, x), left)
    ensures RunLook(end, id, left, item, tail, w) ==
            Splice(RunLook(end, id, left, item, tail, x), left, Run(end, id, 0, Done, w[left..]))
    decreases |x|, 0, 1
  {
    var k := Width(item);
    SameStart(x, w, left, k);
    RecordConfined(end, id, left - k, Respond(id, item, x[..k], tail).todo, x[k..], w[k..]);
  }
}
