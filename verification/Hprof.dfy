/**
 The scrubber itself: one pass over a reader, one reused scratch buffer, a byte
 budget per record. Each method says which part of the abstract run it carries
 out; the last one carries out all of it.
 */
module Hprof {
  import opened Bytes
  import opened Streams
  import opened HprofMachine
  import HprofGrammar
  import HprofRefinement
  import HprofTheorems

  type int64 = k: int | -0x8000_0000_0000_0000 <= k < 0x8000_0000_0000_0000

  datatype Status = Fine | EndOfFile | Bad(error: Error) {
    predicate IsFailure() {
      !Fine?
    }

    function PropagateFailure(): Status
      requires IsFailure()
    {
      this
    }
  }

  function Unexpected(st: Status): Status {
    if st.EndOfFile? then Bad(UnexpectedEof) else st
  }

  // Everything a run emits, with what was emitted before it, and how it ends.
  datatype Plan = Plan(out: bytes, verdict: Verdict)

  // An item that is looked at: cut short, refused, or copied and acted on.
  lemma LookPlan(end: End, id: nat, left: nat, item: Item, tail: Todo, x: bytes, out: bytes)
    requires Looks(item)
    ensures var t, k := RunItem(end, id, left, item, tail, x), Width(item);
            if k > left then t == Stopped(Overrun)
            else if k > |x| then t == Stopped(EndError(end))
            else out + x[..k] <= out + t.Out(x) &&
                 match Respond(id, item, x[..k], tail)
                 case Refuse(e) => t.Verdict() == Reject(e) && out + t.Out(x) == out + x[..k]
                 case Push(todo) =>
                   var u := HprofMachine.Run(end, id, left - k, todo, x[k..]);
                   t.Verdict() == u.Verdict() && out + t.Out(x) == (out + x[..k]) + u.Out(x[k..])
  {
    var k := Width(item);
    if k <= left && k <= |x| {
      assert RunItem(end, id, left, item, tail, x) == RunLook(end, id, left, item, tail, x);
      match Respond(id, item, x[..k], tail)
      case Refuse(e) =>
      case Push(todo) => CopyPlan(HprofMachine.Run(end, id, left - k, todo, x[k..]), x, k, out);
    }
  }

  // An item that is not looked at: cut short, or consumed blindly.
  lemma BlindPlan(end: End, id: nat, left: nat, item: Item, tail: Todo, x: bytes, out: bytes)
    requires !Looks(item)
    ensures var t, k := HprofMachine.Run(end, id, left, Do(item, tail), x), Width(item);
            if k > left then t == Stopped(Overrun)
            else if k > |x| then
              t.Verdict() == Reject(EndError(end)) && t.Out(x) == if item.Blob? then x else WholeChunks(|x|)
            else
              var u := HprofMachine.Run(end, id, left - k, tail, x[k..]);
              t.Verdict() == u.Verdict() &&
              out + t.Out(x) == (out + if item.Wipe? then Zeros(k) else x[..k]) + u.Out(x[k..])
  {
    var k := Width(item);
    if k <= left {
      assert HprofMachine.Run(end, id, left, Do(item, tail), x) == RunItem(end, id, left, item, tail, x);
      if k > |x| {
        assert x[..|x|] == x;
      } else {
        AfterPlan(HprofMachine.Run(end, id, left - k, tail, x[k..]), x, k, item.Wipe?, out);
      }
    }
  }

  lemma AfterPlan(t: Trace, x: bytes, k: nat, wipe: bool, out: bytes)
    requires k <= |x|
    ensures t.After(k, wipe).Verdict() == t.Verdict()
    ensures out + t.After(k, wipe).Out(x) == (out + if wipe then Zeros(k) else x[..k]) + t.Out(x[k..])
  {
    HprofRefinement.AfterVerdict(t, k, wipe);
    HprofRefinement.AfterOut(t, x[..k], wipe, x[k..]);
    HprofTheorems.Halves(x, k);
  }

  // Whole chunks of zeros, or all k of them, are a prefix of what the run emits.
  lemma ZerosPrefix(out: bytes, m: nat, k: nat, avail: nat)
    requires m <= k && m <= avail && (m % CHUNK == 0 || m == k)
    ensures out + Zeros(m) <= out + if k > avail then WholeChunks(avail) else Zeros(k)
  {
    if k > avail {
      assert m <= avail / CHUNK * CHUNK;
    }
  }

  lemma CopyPlan(t: Trace, x: bytes, k: nat, out: bytes)
    requires k <= |x|
    ensures out + Copy(k, t).Out(x) == (out + x[..k]) + t.Out(x[k..])
  {
    assert Copy(k, t).Out(x) == x[..k] + t.Out(x[k..]);
  }

  // Counts times sizes fit 64 bits.
  lemma ProductFits(n: nat, size: nat)
    requires n < 0x1_0000_0000 && size <= 9
    ensures 0 <= n * size < 0x10_0000_0000
  {
  }

  class Scrubber {
    const r: Source
    const w: Sink
    var id: nat
    var left: int64
    const buf: array<byte>

    constructor (r: Source, w: Sink)
      ensures this.r == r && this.w == w && fresh(buf) && buf.Length == 16 && left == 0
    {
      this.r, this.w, id, left, buf := r, w, 0, 0, new byte[16];
    }

    ghost predicate Valid()
      reads this, r
    {
      r.Valid() && left >= 0 && buf.Length == 16
    }

    // Where the run that is under way will end, with `todo` (or an item and what
    // follows it) still to be done in the current sub-record.
    ghost function Outlook(todo: Todo): Plan
      requires Valid()
      reads this, r, w
    {
      var t := HprofMachine.Run(r.end, id, left, todo, r.Rest());
      Plan(w.out + t.Out(r.Rest()), t.Verdict())
    }

    ghost function OutlookAt(item: Item, tail: Todo): Plan
      requires Valid()
      reads this, r, w
    {
      var t := RunItem(r.end, id, left, item, tail, r.Rest());
      Plan(w.out + t.Out(r.Rest()), t.Verdict())
    }

    // The run is over: it ended with e as planned, or a write failed on the way.
    ghost predicate Ended(plan: Plan, e: Error)
      reads w
    {
      if e.WriteFault? then w.out <= plan.out else w.out == plan.out && plan.verdict == Reject(e)
    }

    /** Copies k bytes through, outside any record's length, into the scratch buffer. */
    method Header(k: nat) returns (st: Status)
      requires Valid() && 0 < k <= 16
      modifies r, w, buf
      ensures w.broken <==> old(w.broken) || st == Bad(WriteFault)
      ensures Valid()
      ensures st.Fine? ==> k <= |old(r.Rest())| && r.pos == old(r.pos) + k
      ensures st.Fine? ==> buf[..k] == old(r.Rest())[..k] && r.Rest() == old(r.Rest())[k..]
      ensures st.Fine? ==> w.out == old(w.out) + old(r.Rest())[..k]
      ensures st.EndOfFile? ==> old(r.Rest()) == r.Rest() == [] && r.end.Eof?
      ensures !st.Fine? && st != Bad(WriteFault) ==>
                k > |old(r.Rest())| && w.out == old(w.out) && Unexpected(st) == Bad(EndError(r.end))
      ensures st.Bad? && old(r.Rest()) == [] ==> r.end.Broken?
      ensures st == Bad(WriteFault) ==> k <= |old(r.Rest())| && w.out <= old(w.out) + old(r.Rest())[..k]
      ensures r.pos <= old(r.pos) + k
    {
      var rs := r.ReadFull(buf, k);
      match rs
      case Full =>
        var ok := w.Write(buf[..k]);
        st := if ok then Fine else Bad(WriteFault);
      case AtEnd => st := EndOfFile;
      case Short => st := Bad(UnexpectedEof);
      case Failed => st := Bad(ReadFault);
    }

    method Claim(k: int64) returns (st: Status)
      requires Valid() && k >= 0
      modifies this`left
      ensures Valid()
      ensures if k <= old(left) then st == Fine && left == old(left) - k else st == Bad(Overrun) && left == old(left)
    {
      if k > left {
        return Bad(Overrun);
      }
      left := left - k;
      return Fine;
    }

    /** Copies the k bytes of an item that is looked at. */
    method Take(k: nat, ghost item: Item, ghost tail: Todo) returns (st: Status)
      requires Valid() && Looks(item) && Width(item) == k
      modifies this`left, r, w, buf
      ensures w.broken <==> old(w.broken) || st == Bad(WriteFault)
      ensures Valid() && !st.EndOfFile?
      ensures st.Fine? ==> left == old(left) - k && r.pos == old(r.pos) + k
      ensures st.Fine? ==> match Respond(id, item, buf[..k], tail)
                           case Push(todo) => Outlook(todo) == old(OutlookAt(item, tail))
                           case Refuse(e) => Ended(old(OutlookAt(item, tail)), e)
      ensures st.Bad? ==> Ended(old(OutlookAt(item, tail)), st.error)
      ensures r.pos + left <= old(r.pos + left)
    {
      LookPlan(r.end, id, left, item, tail, r.Rest(), w.out);
      :- Claim(k);
      st := Header(k);
      st := Unexpected(st);
    }

    /** Copies k bytes of the current record through unseen. */
    method Copy(k: int64, ghost tail: Todo) returns (st: Status)
      requires Valid() && k >= 0
      modifies this`left, r, w
      ensures w.broken <==> old(w.broken) || st == Bad(WriteFault)
      ensures Valid() && !st.EndOfFile?
      ensures st.Fine? ==> left == old(left) - k && r.pos == old(r.pos) + k
      ensures st.Fine? ==> Outlook(tail) == old(Outlook(Do(Blob(k), tail)))
      ensures st.Bad? ==> Ended(old(Outlook(Do(Blob(k), tail))), st.error)
      ensures r.pos + left <= old(r.pos + left)
    {
      ghost var x := r.Rest();
      BlindPlan(r.end, id, left, Blob(k), tail, x, w.out);
      :- Claim(k);
      var p := r.ReadUpTo(k);
      var ok := w.Write(p);
      if !ok {
        return Bad(WriteFault);
      } else if |p| < k {
        assert x[..|x|] == x;
        return Bad(if r.end.Broken? then ReadFault else UnexpectedEof);
      }
      return Fine;
    }

    /** Writes k zeros in place of the next k bytes, a chunk at a time. */
    method Blank(k: int64) returns (st: Status)
      requires Valid() && k >= 0
      modifies r, w
      ensures w.broken <==> old(w.broken) || st == Bad(WriteFault)
      ensures Valid() && !st.EndOfFile?
      ensures st.Fine? ==> k <= |old(r.Rest())| && r.pos == old(r.pos) + k && w.out == old(w.out) + Zeros(k)
      ensures st.Bad? && !st.error.WriteFault? ==>
                k > |old(r.Rest())| && st.error == EndError(r.end) && w.out == old(w.out) + WholeChunks(|old(r.Rest())|)
      ensures st == Bad(WriteFault) ==>
                w.out <= old(w.out) + if k > |old(r.Rest())| then WholeChunks(|old(r.Rest())|) else Zeros(k)
      ensures r.pos <= old(r.pos) + k
    {
      ghost var avail := |r.Rest()|;
      var n: int64 := k;
      while n > 0
        invariant Valid() && 0 <= n <= k && k - n <= avail
        invariant w.broken == old(w.broken)
        invariant r.pos == old(r.pos) + (k - n)
        invariant n == 0 || (k - n) % CHUNK == 0
        invariant w.out == old(w.out) + Zeros(k - n)
      {
        var c: int64 := if n < CHUNK then n else CHUNK;
        var p := r.ReadUpTo(c);
        if |p| < c {
          assert avail / CHUNK * CHUNK == k - n;
          return Bad(if r.end.Broken? then ReadFault else UnexpectedEof);
        }
        assert old(w.out) + Zeros(k - n) + Zeros(c) == old(w.out) + Zeros(k - n + c);
        ZerosPrefix(old(w.out), k - n + c, k, avail);
        var ok := w.Write(Zeros(c));
        if !ok {
          return Bad(WriteFault);
        }
        n := n - c;
      }
      return Fine;
    }

    /** Blanks the next k bytes of the current record. */
    method Zero(k: int64, ghost tail: Todo) returns (st: Status)
      requires Valid() && k >= 0
      modifies this`left, r, w
      ensures w.broken <==> old(w.broken) || st == Bad(WriteFault)
      ensures Valid() && !st.EndOfFile?
      ensures st.Fine? ==> left == old(left) - k && r.pos == old(r.pos) + k
      ensures st.Fine? ==> Outlook(tail) == old(Outlook(Do(Wipe(k), tail)))
      ensures st.Bad? ==> Ended(old(Outlook(Do(Wipe(k), tail))), st.error)
      ensures r.pos + left <= old(r.pos + left)
    {
      BlindPlan(r.end, id, left, Wipe(k), tail, r.Rest(), w.out);
      :- Claim(k);
      st := Blank(k);
    }

    lemma OutlookUnfolds(item: Item, tail: Todo)
      requires Valid()
      ensures Outlook(Do(item, tail)) == OutlookAt(item, tail)
      ensures left > 0 ==> Outlook(Done) == OutlookAt(Tag, Done)
    {
    }

    method TakeU2(ghost item: Item, ghost tail: Todo) returns (st: Status, n: nat)
      requires Valid() && (item.Table? || item.FieldTable?)
      modifies this`left, r, w, buf
      ensures w.broken <==> old(w.broken) || st == Bad(WriteFault)
      ensures Valid() && !st.EndOfFile? && n < 0x1_0000
      ensures st.Fine? ==> left == old(left) - 2 && r.pos == old(r.pos) + 2
      ensures st.Fine? ==>
                Outlook(if item.Table? then Entries(n, item.head, tail) else Do(Blob(n * (id + 1)), tail))
                == old(Outlook(Do(item, tail)))
      ensures st.Bad? ==> Ended(old(Outlook(Do(item, tail))), st.error)
      ensures r.pos + left <= old(r.pos + left)
    {
      n := 0;
      OutlookUnfolds(item, tail);
      st := Take(2, item, tail);
      if st.Fine? {
        n := U2(buf[..2]);
        Enc2OfU2(buf[..2]);
      }
    }

    method TakeU4(ghost item: Item, ghost tail: Todo) returns (st: Status, n: nat)
      requires Valid() && (item.InstanceLength? || item.ArrayLength? || item.PrimLength?)
      modifies this`left, r, w, buf
      ensures w.broken <==> old(w.broken) || st == Bad(WriteFault)
      ensures Valid() && !st.EndOfFile? && n < 0x1_0000_0000
      ensures st.Fine? ==> left == old(left) - 4 && r.pos == old(r.pos) + 4
      ensures st.Fine? ==>
                Outlook(Do(if item.InstanceLength? then Blob(n)
                           else if item.ArrayLength? then Blob(id + n * id)
                           else PrimType(n), tail))
                == old(Outlook(Do(item, tail)))
      ensures st.Bad? ==> Ended(old(Outlook(Do(item, tail))), st.error)
      ensures r.pos + left <= old(r.pos + left)
    {
      n := 0;
      OutlookUnfolds(item, tail);
      st := Take(4, item, tail);
      if st.Fine? {
        n := U4(buf[..4]);
        Enc4OfU4(buf[..4]);
      }
    }

    /** Copies a basic type and returns the size of one value of it. */
    method TypeSize(ghost item: Item, ghost tail: Todo) returns (st: Status, size: nat)
      requires Valid() && id in {4, 8} && (item.PrimType? || item.ValueType?)
      modifies this`left, r, w, buf
      ensures w.broken <==> old(w.broken) || st == Bad(WriteFault)
      ensures Valid() && !st.EndOfFile? && size <= 8
      ensures st.Fine? ==> left == old(left) - 1 && r.pos == old(r.pos) + 1
      ensures st.Fine? ==>
                Outlook(Do(if item.ValueType? then Blob(size) else Wipe(item.count * size), tail))
                == old(Outlook(Do(item, tail)))
      ensures st.Bad? ==> Ended(old(Outlook(Do(item, tail))), st.error)
      ensures r.pos + left <= old(r.pos + left)
    {
      size := 0;
      OutlookUnfolds(item, tail);
      st := Take(1, item, tail);
      if st.Fine? {
        assert buf[..1][0] == buf[0];
        match buf[0]
        case 2 => size := id;
        case 4 => size := 1;
        case 8 => size := 1;
        case 5 => size := 2;
        case 9 => size := 2;
        case 6 => size := 4;
        case 10 => size := 4;
        case 7 => size := 8;
        case 11 => size := 8;
        case _ => st := Bad(UnknownType(buf[0]));
      }
    }

    /** Copies one table entry: head bytes, a type and a value. */
    method TableEntry(head: nat, ghost tail: Todo) returns (st: Status)
      requires Valid() && id in {4, 8} && head <= 8
      modifies this`left, r, w, buf
      ensures w.broken <==> old(w.broken) || st == Bad(WriteFault)
      ensures Valid() && !st.EndOfFile?
      ensures st.Fine? ==> r.pos + left == old(r.pos + left) && left <= old(left)
      ensures st.Fine? ==> Outlook(tail) == old(Outlook(Do(Blob(head), Do(ValueType, tail))))
      ensures st.Bad? ==> Ended(old(Outlook(Do(Blob(head), Do(ValueType, tail)))), st.error)
      ensures r.pos + left <= old(r.pos + left)
    {
      var size;
      :- Copy(head, Do(ValueType, tail));
      st, size := TypeSize(ValueType, tail);
      if st.Fine? {
        st := Copy(size, tail);
      }
    }

    /** Copies a table: a u2 count and its entries. */
    method CopyTable(head: nat, ghost tail: Todo) returns (st: Status)
      requires Valid() && id in {4, 8} && head <= 8
      modifies this`left, r, w, buf
      ensures w.broken <==> old(w.broken) || st == Bad(WriteFault)
      ensures Valid() && !st.EndOfFile?
      ensures st.Fine? ==> r.pos + left == old(r.pos + left) && left <= old(left)
      ensures st.Fine? ==> Outlook(tail) == old(Outlook(Do(Table(head), tail)))
      ensures st.Bad? ==> Ended(old(Outlook(Do(Table(head), tail))), st.error)
      ensures r.pos + left <= old(r.pos + left)
    {
      var n;
      st, n := TakeU2(Table(head), tail);
      if !st.Fine? {
        return;
      }
      for j := 0 to n
        invariant Valid() && r.pos + left == old(r.pos + left) && left <= old(left)
        invariant w.broken == old(w.broken)
        invariant Outlook(Entries(n - j, head, tail)) == old(Outlook(Do(Table(head), tail)))
      {
        :- TableEntry(head, Entries(n - j - 1, head, tail));
      }
      return Fine;
    }

    /** Gets through a class dump behind its tag: a head of fixed size and three tables, of
        which two hold values. */
    method ClassDump(ghost tail: Todo) returns (st: Status)
      requires Valid() && id in {4, 8}
      modifies this`left, r, w, buf
      ensures w.broken <==> old(w.broken) || st == Bad(WriteFault)
      ensures Valid() && !st.EndOfFile?
      ensures st.Fine? ==> r.pos + left == old(r.pos + left) && left <= old(left)
      ensures var todo := Do(Blob(7 * id + 8), Do(Table(2), Do(Table(id), Do(FieldTable, tail))));
              (st.Fine? ==> Outlook(tail) == old(Outlook(todo))) &&
              (st.Bad? ==> Ended(old(Outlook(todo)), st.error))
      ensures r.pos + left <= old(r.pos + left)
    {
      ghost var fields := Do(FieldTable, tail);
      ghost var after := [Do(Table(2), Do(Table(id), fields)), Do(Table(id), fields), fields];
      ghost var plan := Outlook(Do(Blob(7 * id + 8), after[0]));
      :- Copy(7 * id + 8, after[0]);
      var heads := [2, id];
      for i := 0 to 2
        invariant Valid() && r.pos + left == old(r.pos + left) && left <= old(left) && Outlook(after[i]) == plan
        invariant w.broken == old(w.broken)
      {
        :- CopyTable(heads[i], after[i + 1]);
      }
      var n;
      st, n := TakeU2(FieldTable, tail);
      if st.Fine? {
        ProductFits(n, id + 1);
        st := Copy(n * (id + 1), tail);
      }
    }

    /** Gets through an instance behind its tag: a head of fixed size, and field bytes under
        a length. */
    method Instance() returns (st: Status)
      requires Valid() && id in {4, 8}
      modifies this`left, r, w, buf
      ensures w.broken <==> old(w.broken) || st == Bad(WriteFault)
      ensures Valid() && !st.EndOfFile?
      ensures st.Fine? ==> r.pos + left == old(r.pos + left) && left <= old(left)
      ensures st.Fine? ==> Outlook(Done) == old(Outlook(Do(Blob(2 * id + 4), Do(InstanceLength, Done))))
      ensures st.Bad? ==> Ended(old(Outlook(Do(Blob(2 * id + 4), Do(InstanceLength, Done)))), st.error)
      ensures r.pos + left <= old(r.pos + left)
    {
      var n;
      :- Copy(2 * id + 4, Do(InstanceLength, Done));
      st, n := TakeU4(InstanceLength, Done);
      if st.Fine? {
        st := Copy(n, Done);
      }
    }

    /** Gets through an object array behind its tag: after the count come one reference for
        the class and one for each element. */
    method ObjectArray() returns (st: Status)
      requires Valid() && id in {4, 8}
      modifies this`left, r, w, buf
      ensures w.broken <==> old(w.broken) || st == Bad(WriteFault)
      ensures Valid() && !st.EndOfFile?
      ensures st.Fine? ==> r.pos + left == old(r.pos + left) && left <= old(left)
      ensures st.Fine? ==> Outlook(Done) == old(Outlook(Do(Blob(id + 4), Do(ArrayLength, Done))))
      ensures st.Bad? ==> Ended(old(Outlook(Do(Blob(id + 4), Do(ArrayLength, Done)))), st.error)
      ensures r.pos + left <= old(r.pos + left)
    {
      var n;
      :- Copy(id + 4, Do(ArrayLength, Done));
      st, n := TakeU4(ArrayLength, Done);
      if st.Fine? {
        ProductFits(n, id);
        st := Copy(id + n * id, Done);
      }
    }

    /** Gets through a primitive array behind its tag: everything is copied but the values,
        whose size follows from count and type. */
    method PrimitiveArray() returns (st: Status)
      requires Valid() && id in {4, 8}
      modifies this`left, r, w, buf
      ensures w.broken <==> old(w.broken) || st == Bad(WriteFault)
      ensures Valid() && !st.EndOfFile?
      ensures st.Fine? ==> r.pos + left == old(r.pos + left) && left <= old(left)
      ensures st.Fine? ==> Outlook(Done) == old(Outlook(Do(Blob(id + 4), Do(PrimLength, Done))))
      ensures st.Bad? ==> Ended(old(Outlook(Do(Blob(id + 4), Do(PrimLength, Done)))), st.error)
      ensures r.pos + left <= old(r.pos + left)
    {
      var n, size;
      :- Copy(id + 4, Do(PrimLength, Done));
      st, n := TakeU4(PrimLength, Done);
      if !st.Fine? {
        return;
      }
      st, size := TypeSize(PrimType(n), Done);
      if st.Fine? {
        ProductFits(n, size);
        st := Zero(n * size, Done);
      }
    }

    /** Gets through one sub-record behind its tag. */
    method SubRecord(tag: byte) returns (st: Status)
      requires Valid() && id in {4, 8}
      modifies this`left, r, w, buf
      ensures w.broken <==> old(w.broken) || st == Bad(WriteFault)
      ensures Valid() && !st.EndOfFile?
      ensures st.Fine? ==> r.pos + left == old(r.pos + left) && left <= old(left)
      ensures match Contents(id, tag, Done)
              case Refuse(e) => st == Bad(e) && w.out == old(w.out)
              case Push(todo) =>
                (st.Fine? ==> Outlook(Done) == old(Outlook(todo))) &&
                (st.Bad? ==> Ended(old(Outlook(todo)), st.error))
      ensures r.pos + left <= old(r.pos + left)
    {
      match tag
      case 0xFF => st := Copy(id, Done);
      case 0x05 => st := Copy(id, Done);
      case 0x07 => st := Copy(id, Done);
      case 0x01 => st := Copy(2 * id, Done);
      case 0x04 => st := Copy(id + 4, Done);
      case 0x06 => st := Copy(id + 4, Done);
      case 0x02 => st := Copy(id + 8, Done);
      case 0x03 => st := Copy(id + 8, Done);
      case 0x08 => st := Copy(id + 8, Done);
      case 0x20 => st := ClassDump(Done);
      case 0x21 => st := Instance();
      case 0x22 => st := ObjectArray();
      case 0x23 => st := PrimitiveArray();
      case _ => st := Bad(UnknownSub(tag));
    }

    /** Gets through the sub-records of a heap dump record, up to its declared length. */
    method HeapDump() returns (st: Status)
      requires Valid() && id in {4, 8}
      modifies this`left, r, w, buf
      ensures w.broken <==> old(w.broken) || st == Bad(WriteFault)
      ensures Valid() && !st.EndOfFile?
      ensures st.Fine? ==> left == 0 && r.pos == old(r.pos) + old(left)
      ensures st.Fine? ==> Outlook(Done) == old(Outlook(Done))
      ensures st.Bad? ==> Ended(old(Outlook(Done)), st.error)
      ensures r.pos + left <= old(r.pos + left)
    {
      while left > 0
        invariant Valid() && r.pos + left == old(r.pos + left)
        invariant w.broken == old(w.broken)
        invariant Outlook(Done) == old(Outlook(Done))
        decreases left
      {
        OutlookUnfolds(Tag, Done);
        :- Take(1, Tag, Done);
        var tag := buf[0];
        assert buf[..1][0] == tag;
        :- SubRecord(tag);
      }
      return Fine;
    }

    /** Gets through one top-level record, or finds the input at its end. */
    method Record() returns (st: Status)
      requires Valid() && left == 0 && id in {4, 8}
      modifies this`left, r, w, buf
      ensures w.broken <==> old(w.broken) || st == Bad(WriteFault)
      ensures Valid()
      ensures st.Fine? ==> left == 0 && r.pos > old(r.pos) && Outlook(Done) == old(Outlook(Done))
      ensures st.EndOfFile? ==> old(Outlook(Done)) == Plan(w.out, Accept) && r.Rest() == []
      ensures st.Bad? ==> Ended(old(Outlook(Done)), st.error)
    {
      ghost var x, out := r.Rest(), w.out;
      assert HprofMachine.Run(r.end, id, 0, Done, x) == RunRecord(r.end, id, x);
      st := Header(9);
      if st.EndOfFile? {
        assert x == [] && out + [] == out;
        return;
      }
      :- Unexpected(st);
      var tag, n := buf[0], U4(buf[5..9]);
      Enc4OfU4(buf[5..9]);
      assert buf[5..9] == x[5..9] && tag == x[0];
      left := n;
      ghost var todo := if IsHeap(tag) then Done else Do(Blob(n), Done);
      CopyPlan(HprofMachine.Run(r.end, id, n, todo, x[9..]), x, 9, out);
      assert Outlook(todo) == old(Outlook(Done));
      if tag == 0x0C || tag == 0x1C {
        st := HeapDump();
      } else {
        st := Copy(n, Done);
      }
    }

    /** Scrubs a whole heap dump. */
    method Run() returns (v: Verdict)
      requires Valid() && left == 0
      modifies this, r, w, buf
      ensures w.broken <==> old(w.broken) || v == Reject(WriteFault)
      ensures r.Valid()
      ensures var t, x := Scan(r.end, old(r.Rest())), old(r.Rest());
              if v.Accept? then t.Verdict() == Accept && w.out == old(w.out) + t.Out(x) && r.Rest() == []
              else Ended(Plan(old(w.out) + t.Out(x), t.Verdict()), v.error)
    {
      ghost var x, out := r.Rest(), w.out;
      ghost var plan := Plan(out + Scan(r.end, x).Out(x), Scan(r.end, x).Verdict());
      var magic, found := r.ReadThroughNul();
      if !found || !IsMagic(magic) {
        assert out + [] == out;
        return Reject(NotHeapDump);
      }
      ghost var y := r.Rest();
      CopyPlan(RunHeader(r.end, y), x, |magic|, out);
      var ok := w.Write(magic);
      if !ok {
        return Reject(WriteFault);
      }
      var st := FileHeader(plan);
      if !st.Fine? {
        return Reject(st.error);
      }
      while true
        invariant Valid() && left == 0 && id in {4, 8} && Outlook(Done) == plan
        invariant w.broken == old(w.broken)
        decreases |r.data| - r.pos
      {
        st := Record();
        if st.EndOfFile? {
          return Accept;
        } else if st.Bad? {
          return Reject(st.error);
        }
      }
    }

    method FileHeader(ghost plan: Plan) returns (st: Status)
      requires Valid() && left == 0
      requires var t := RunHeader(r.end, r.Rest()); plan == Plan(w.out + t.Out(r.Rest()), t.Verdict())
      modifies this`id, r, w, buf
      ensures w.broken <==> old(w.broken) || st == Bad(WriteFault)
      ensures Valid() && !st.EndOfFile?
      ensures st.Fine? ==> id in {4, 8} && Outlook(Done) == plan
      ensures st.Bad? ==> Ended(plan, st.error)
    {
      ghost var x, out := r.Rest(), w.out;
      st := Header(12);
      :- Unexpected(st);
      var size := U4(buf[..4]);
      assert buf[..4] == buf[..12][..4] == x[..4];
      if size != 4 && size != 8 {
        CopyPlan(Stopped(BadIdSize(size)), x, 12, out);
        return Bad(BadIdSize(size));
      }
      id := size;
      CopyPlan(HprofMachine.Run(r.end, id, 0, Done, x[12..]), x, 12, out);
    }
  }

  /** Copies a heap dump from r to w with every primitive array value zeroed. Success
      means all of r was one well-formed dump and its scrubbed form is in w; otherwise
      w holds what the abstract run emits before it stops, or, if a write failed, some
      of it. */
  method Scrub(r: Source, w: Sink) returns (v: Verdict)
    requires r.Valid()
    modifies r, w
    ensures w.broken <==> old(w.broken) || v == Reject(WriteFault)
    ensures r.Valid()
    ensures var t, x := Scan(r.end, old(r.Rest())), old(r.Rest());
            if v == Reject(WriteFault) then w.out <= old(w.out) + t.Out(x)
            else v == t.Verdict() && w.out == old(w.out) + t.Out(x)
    ensures v != Reject(WriteFault) ==> (v.Accept? <==> r.end.Eof? && HprofTheorems.IsDump(old(r.Rest())))
    ensures v.Accept? ==> r.Rest() == [] && |w.out| == |old(w.out)| + |old(r.Rest())|
    ensures forall d :: v.Accept? && HprofGrammar.DumpOk(d) && HprofGrammar.Print(d) == old(r.Rest()) ==>
              w.out == old(w.out) + HprofGrammar.Print(HprofGrammar.Scrub(d))
  {
    ghost var x := r.Rest();
    HprofTheorems.AcceptsExactlyDumps(x);
    ScanMasks(r.end, x);
    if r.end.Broken? {
      HprofTheorems.BrokenNeverAccepted(x);
    }
    var h := new Scrubber(r, w);
    v := h.Run();
  }
}
