/**
 Masking on runs that fail. Two runs over inputs that begin alike do the same, so
 whatever an input turns into later, as far as it reads like a heap dump its primitive
 array values, and nothing else, are blanked.
 */
module HprofMasking {
  import opened Bytes
  import opened HprofMachine
  import opened HprofGrammar
  import opened HprofRefinement

  // ------------------------------------------------------- inputs that begin alike

  /** What a run does to a byte of its input: it may not get there. */
  datatype Touch = Kept | Wiped | Untouched

  function At(t: Trace, i: nat): Touch
    decreases t
  {
    match t
    case Stop(_) => Untouched
    case Starve(n, _) => if i < n then Wiped else Untouched
    case Copy(n, r) => if i < n then Kept else At(r, i - n)
    case Blank(n, r) => if i < n then Wiped else At(r, i - n)
  }

  function Touched(m: seq<bool>, i: nat): Touch {
    if i >= |m| then Untouched else if m[i] then Wiped else Kept
  }

  lemma {:induction false} AtMarks(t: Trace, i: nat)
    ensures At(t, i) == Touched(t.Marks(), i)
    decreases t
  {
    match t
    case Stop(_) =>
    case Starve(_, _) =>
    case Copy(n, r) =>
      if n <= i {
        AtMarks(r, i - n);
        MarksShift(Falses(n), r.Marks(), i);
      }
    case Blank(n, r) =>
      if n <= i {
        AtMarks(r, i - n);
        MarksShift(Trues(n), r.Marks(), i);
      }
  }

  lemma MarksShift(a: seq<bool>, m: seq<bool>, i: nat)
    requires |a| <= i
    ensures Touched(a + m, i) == Touched(m, i - |a|)
  {
  }

  // As far as both runs get within the first n bytes, they do the same to each.
  ghost predicate Alike(t: Trace, u: Trace, n: nat) {
    forall i: nat :: i < n ==> At(t, i) == Untouched || At(u, i) == Untouched || At(t, i) == At(u, i)
  }

  // As far as a run gets within the first n bytes, it only copies or only blanks.
  ghost predicate Uniform(t: Trace, n: nat, wipe: bool) {
    forall i: nat :: i < n ==> At(t, i) == Untouched || At(t, i) == if wipe then Wiped else Kept
  }

  lemma UniformAlike(t: Trace, u: Trace, n: nat, wipe: bool)
    requires Uniform(t, n, wipe) && Uniform(u, n, wipe)
    ensures Alike(t, u, n)
  {
  }

  lemma AfterUniform(t: Trace, k: nat, wipe: bool, n: nat)
    requires n <= k
    ensures Uniform(t.After(k, wipe), n, wipe)
  {
  }

  lemma AfterAlike(t: Trace, u: Trace, n: nat, k: nat, wipe: bool)
    requires k <= n && Alike(t, u, n - k)
    ensures Alike(t.After(k, wipe), u.After(k, wipe), n)
  {
  }

  // Runs that are alike mark and emit the same.
  lemma AlikeOut(t: Trace, x: bytes, u: Trace, y: bytes, n: nat)
    requires Alike(t, u, n) && Masks(t, x) && Masks(u, y) && n <= |x| && n <= |y| && x[..n] == y[..n]
    ensures forall i :: 0 <= i < n && i < |t.Marks()| && i < |u.Marks()| ==> t.Marks()[i] == u.Marks()[i]
    ensures forall i :: 0 <= i < n && i < |t.Out(x)| && i < |u.Out(y)| ==> t.Out(x)[i] == u.Out(y)[i]
  {
    forall i | 0 <= i < n
      ensures i < |t.Marks()| && i < |u.Marks()| ==> t.Marks()[i] == u.Marks()[i]
      ensures i < |t.Out(x)| && i < |u.Out(y)| ==> t.Out(x)[i] == u.Out(y)[i]
    {
      if i < |t.Marks()| && i < |u.Marks()| {
        AlikeAt(t, u, n, i);
      }
      SharedAt(x, y, n, i);
    }
  }

  lemma AlikeAt(t: Trace, u: Trace, n: nat, i: nat)
    requires Alike(t, u, n) && i < n && i < |t.Marks()| && i < |u.Marks()|
    ensures t.Marks()[i] == u.Marks()[i]
  {
    AtMarks(t, i);
    AtMarks(u, i);
  }

  lemma SharedAt(x: bytes, y: bytes, n: nat, i: nat)
    requires i < n <= |x| && n <= |y| && x[..n] == y[..n]
    ensures x[i] == y[i]
  {
    assert x[i] == x[..n][i];
  }

  // x and y share n bytes, and so do their remainders behind k of these.
  lemma ShareRest(x: bytes, y: bytes, n: nat, k: nat)
    requires k <= n && n <= |x| && n <= |y| && x[..n] == y[..n]
    ensures x[..k] == y[..k] && x[k..][..n - k] == y[k..][..n - k]
  {
    assert x[..k] == x[..n][..k] && y[..k] == y[..n][..k];
    assert x[k..][..n - k] == x[..n][k..] && y[k..][..n - k] == y[..n][k..];
  }

  // Within an item a run is uniform.
  lemma ItemUniform(end: End, id: nat, left: nat, item: Item, tail: Todo, x: bytes, n: nat)
    requires n <= Width(item) && n <= |x|
    ensures Uniform(RunItem(end, id, left, item, tail, x), n, item.Wipe?)
  {
    var k := Width(item);
    if k <= left {
      if k > |x| {
        AfterUniform(Stopped(EndError(end)), |x|, false, n);
      } else if Looks(item) {
        match Respond(id, item, x[..k], tail)
        case Refuse(e) => AfterUniform(Stopped(e), k, false, n);
        case Push(todo) => AfterUniform(Run(end, id, left - k, todo, x[k..]), k, false, n);
      } else {
        AfterUniform(Run(end, id, left - k, tail, x[k..]), k, item.Wipe?, n);
      }
    }
  }

  // The runs have one budget, or n bytes are within both of theirs.
  predicate Budgets(left: nat, left': nat, n: nat) {
    left == left' || (n <= left && n <= left')
  }

  /** Runs that do the same thing next over inputs that share n bytes are alike as far as
      these go, whatever follows and however the inputs end; within a record, whatever
      the budgets are. */
  lemma {:induction false} RunAlike(end: End, end': End, id: nat, left: nat, left': nat, todo: Todo, x: bytes,
      y: bytes, n: nat)
    requires n <= |x| && n <= |y| && x[..n] == y[..n] && Budgets(left, left', n)
    ensures Alike(Run(end, id, left, todo, x), Run(end', id, left', todo, y), n)
    decreases n, Depth(todo), 3
  {
    if n > 0 {
      match todo
      case Do(item, tail) => ItemAlike(end, end', id, left, left', item, tail, x, y, n);
      case Done =>
        if left > 0 {
          ItemAlike(end, end', id, left, left', Tag, Done, x, y, n);
        } else {
          RecordAlike(end, end', id, x, y, n);
        }
    }
  }

  lemma {:induction false} RecordAlike(end: End, end': End, id: nat, x: bytes, y: bytes, n: nat)
    requires 0 < n && n <= |x| && n <= |y| && x[..n] == y[..n]
    ensures Alike(RunRecord(end, id, x), RunRecord(end', id, y), n)
    decreases n, 0, 2
  {
    if n < 9 {
      RecordUniform(end, id, x, n);
      RecordUniform(end', id, y, n);
      UniformAlike(RunRecord(end, id, x), RunRecord(end', id, y), n, false);
    } else {
      ShareRest(x, y, n, 9);
      assert x[5..9] == x[..9][5..] && y[5..9] == y[..9][5..];
      assert x[0] == x[..9][0] && y[0] == y[..9][0];
      var len := U4(x[5..9]);
      var todo := if IsHeap(x[0]) then Done else Do(Blob(len), Done);
      RunAlike(end, end', id, len, len, todo, x[9..], y[9..], n - 9);
      AfterAlike(Run(end, id, len, todo, x[9..]), Run(end', id, len, todo, y[9..]), n, 9, false);
    }
  }

  lemma RecordUniform(end: End, id: nat, x: bytes, n: nat)
    requires n <= 9 && n <= |x|
    ensures Uniform(RunRecord(end, id, x), n, false)
  {
    if |x| >= 9 {
      var len := U4(x[5..9]);
      AfterUniform(Run(end, id, len, if IsHeap(x[0]) then Done else Do(Blob(len), Done), x[9..]), 9, false, n);
    }
  }

  lemma {:induction false} ItemAlike(end: End, end': End, id: nat, left: nat, left': nat, item: Item, tail: Todo,
      x: bytes, y: bytes, n: nat)
    requires n <= |x| && n <= |y| && x[..n] == y[..n] && Budgets(left, left', n)
    ensures Alike(RunItem(end, id, left, item, tail, x), RunItem(end', id, left', item, tail, y), n)
    decreases n, Depth(tail) + (if item.Tag? then 0 else 1), 2
  {
    var k := Width(item);
    if n < k {
      ItemUniform(end, id, left, item, tail, x, n);
      ItemUniform(end', id, left', item, tail, y, n);
      UniformAlike(RunItem(end, id, left, item, tail, x), RunItem(end', id, left', item, tail, y), n, item.Wipe?);
    } else if k <= left && k <= left' {
      if Looks(item) {
        LookAlike(end, end', id, left, left', item, tail, x, y, n);
      } else {
        ShareRest(x, y, n, k);
        RunAlike(end, end', id, left - k, left' - k, tail, x[k..], y[k..], n - k);
        AfterAlike(Run(end, id, left - k, tail, x[k..]), Run(end', id, left' - k, tail, y[k..]), n, k, item.Wipe?);
      }
    }
  }

  lemma {:induction false} LookAlike(end: End, end': End, id: nat, left: nat, left': nat, item: Item, tail: Todo,
      x: bytes, y: bytes, n: nat)
    requires Looks(item) && Width(item) <= left && Width(item) <= left' && Width(item) <= n
    requires n <= |x| && n <= |y| && x[..n] == y[..n] && Budgets(left, left', n)
    ensures Alike(RunLook(end, id, left, item, tail, x), RunLook(end', id, left', item, tail, y), n)
    decreases n, 0, 1
  {
    var k := Width(item);
    ShareRest(x, y, n, k);
    match Respond(id, item, x[..k], tail)
    case Refuse(e) => AfterAlike(Stopped(e), Stopped(e), n, k, false);
    case Push(todo) =>
      RunAlike(end, end', id, left - k, left' - k, todo, x[k..], y[k..], n - k);
      AfterAlike(Run(end, id, left - k, todo, x[k..]), Run(end', id, left' - k, todo, y[k..]), n, k, false);
  }

  lemma HeaderAlike(end: End, end': End, x: bytes, y: bytes, n: nat)
    requires n <= |x| && n <= |y| && x[..n] == y[..n]
    ensures Alike(RunHeader(end, x), RunHeader(end', y), n)
  {
    if n < 12 {
      HeaderUniform(end, x, n);
      HeaderUniform(end', y, n);
      UniformAlike(RunHeader(end, x), RunHeader(end', y), n, false);
    } else {
      ShareRest(x, y, n, 12);
      assert x[..4] == x[..12][..4] && y[..4] == y[..12][..4];
      var id := U4(x[..4]);
      if id == 4 || id == 8 {
        RunAlike(end, end', id, 0, 0, Done, x[12..], y[12..], n - 12);
        AfterAlike(Run(end, id, 0, Done, x[12..]), Run(end', id, 0, Done, y[12..]), n, 12, false);
      } else {
        AfterAlike(Stopped(BadIdSize(id)), Stopped(BadIdSize(id)), n, 12, false);
      }
    }
  }

  lemma HeaderUniform(end: End, x: bytes, n: nat)
    requires n <= 12 && n <= |x|
    ensures Uniform(RunHeader(end, x), n, false)
  {
    if |x| >= 12 {
      var id := U4(x[..4]);
      AfterUniform(if id == 4 || id == 8 then Run(end, id, 0, Done, x[12..]) else Stopped(BadIdSize(id)), 12, false, n);
    }
  }

  lemma MagicUniform(end: End, x: bytes, n: nat)
    requires n <= FirstNul(x, 0)
    ensures Uniform(Scan(end, x), n, false)
  {
    var m := FirstNul(x, 0) + 1;
    if m <= |x| {
      AfterUniform(RunHeader(end, x[m..]), m, false, n);
    }
  }

  // Inputs that share more than the first NUL of one share it.
  lemma ShareNul(x: bytes, y: bytes, n: nat)
    requires n <= |x| && n <= |y| && x[..n] == y[..n] && FirstNul(x, 0) < n
    ensures FirstNul(y, 0) == FirstNul(x, 0)
  {
    assert forall i :: 0 <= i < n ==> y[i] == y[..n][i] == x[i];
    FirstNulUnique(y, FirstNul(x, 0));
  }

  /** Scrubbing inputs that share n bytes does the same to these, as far as it gets. */
  lemma ScanAlike(end: End, end': End, x: bytes, y: bytes, n: nat)
    requires n <= |x| && n <= |y| && x[..n] == y[..n]
    ensures Alike(Scan(end, x), Scan(end', y), n)
  {
    var m := FirstNul(x, 0) + 1;
    if m <= n {
      ShareNul(x, y, n);
      ShareRest(x, y, n, m);
      HeaderAlike(end, end', x[m..], y[m..], n - m);
      AfterAlike(RunHeader(end, x[m..]), RunHeader(end', y[m..]), n, m, false);
    } else {
      if FirstNul(y, 0) < n {
        ShareNul(y, x, n);
      }
      MagicUniform(end, x, n);
      MagicUniform(end', y, n);
      UniformAlike(Scan(end, x), Scan(end', y), n, false);
    }
  }

  // ------------------------------------------------------------- failing runs

  /** As far as x begins like a dump, its run marks exactly the dump's primitive array
      values and emits the scrubbed dump, whatever comes later and however x ends. */
  lemma BeginsLikeDump(end: End, d: Dump, x: bytes, n: nat)
    requires DumpOk(d) && n <= |x| && n <= |Print(d)| && x[..n] == Print(d)[..n]
    ensures var t := Scan(end, x);
            && |DumpMarks(d)| == |Print(Scrub(d))| == |Print(d)|
            && (forall i :: 0 <= i < n && i < |t.Marks()| ==> t.Marks()[i] == DumpMarks(d)[i])
            && (forall i :: 0 <= i < n && i < |t.Out(x)| ==> t.Out(x)[i] == Print(Scrub(d))[i])
  {
    var y := Print(d);
    PrintedIsScrubbed(d);
    ScanMasks(Eof, y);
    ScanMasks(end, x);
    ScanAlike(end, Eof, x, y, n);
    AlikeOut(Scan(end, x), x, Scan(Eof, y), y, n);
  }

  /** Masking at every step: a dump that breaks off anywhere has a beginning of the
      scrubbed dump emitted for it, and nothing marked but primitive array values. */
  lemma BrokenOffDump(end: End, d: Dump, n: nat)
    requires DumpOk(d) && n <= |Print(d)|
    ensures var p := Print(d)[..n];
            Scan(end, p).Out(p) <= Print(Scrub(d)) && Scan(end, p).Marks() <= DumpMarks(d)
  {
    var p := Print(d)[..n];
    BeginsLikeDump(end, d, p, n);
    ScanMasks(end, p);
  }

  // The records of d, and whatever else.
  function Before(d: Dump, z: bytes): bytes {
    d.magic + (FileHead(d) + PrintRecords(d.records, z))
  }

  lemma ScanBefore(end: End, d: Dump, z: bytes)
    requires DumpOk(d)
    ensures Scan(end, Before(d, z)) == Copy(|d.magic|, Copy(12, RecordsTrace(d.records, Run(end, d.id, 0, Done, z))))
  {
    var h, y := FileHead(d), PrintRecords(d.records, z);
    var x := d.magic + (h + y);
    NulOfMagic(d.magic, h + y);
    assert x[..|d.magic|] == d.magic && x[|d.magic|..] == h + y;
    assert h[..4] == Num4(d.id) && (h + y)[..4] == h[..4] && (h + y)[12..] == y;
    RunRecords(end, d.id, d.records, z);
  }

  lemma NulOfMagic(magic: bytes, y: bytes)
    requires |magic| > 0 && FirstNul(magic, 0) == |magic| - 1
    ensures FirstNul(magic + y, 0) == |magic| - 1
  {
    FirstNulUnique(magic + y, |magic| - 1);
  }

  lemma BeforeOut(d: Dump, t: Trace, z: bytes)
    requires DumpOk(d)
    ensures Copy(|d.magic|, Copy(12, RecordsTrace(d.records, t))).Out(Before(d, z)) == Before(Scrub(d), t.Out(z))
  {
    var y, u := PrintRecords(d.records, z), RecordsTrace(d.records, t);
    RecordsOut(d.records, d.id, t, z);
    AfterOut(u, FileHead(d), false, y);
    AfterOut(Copy(12, u), d.magic, false, FileHead(d) + y);
  }

  // The header of a heap dump record of length `len`.
  ghost predicate HeapHead(head: bytes, len: nat) {
    |head| == 9 && IsHeap(head[0]) && U4(head[5..9]) == len
  }

  lemma RunHeapHead(end: End, id: nat, head: bytes, len: nat, v: bytes)
    requires HeapHead(head, len)
    ensures Run(end, id, 0, Done, head + v) == Copy(9, Run(end, id, len, Done, v))
  {
    var z := head + v;
    assert z[0] == head[0] && z[5..9] == head[5..9] && z[9..] == v;
    assert Run(end, id, 0, Done, z) == RunRecord(end, id, z);
  }

  /** As far as v begins like sub-records, inside a record of any length, a run over v
      marks exactly their primitive array values and emits the scrubbed sub-records. */
  lemma BeginsLikeSubs(end: End, id: nat, len: nat, subs: seq<Sub>, v: bytes, n: nat)
    requires id > 0 && SubsOk(subs, id) && n <= len && n <= |v| && n <= SubsSize(subs)
    requires |PrintSubs(subs, [])| == SubsSize(subs) && v[..n] == PrintSubs(subs, [])[..n]
    ensures var u := Run(end, id, len, Done, v);
            && |SubsMarks(subs, [])| == |PrintSubs(ScrubSubs(subs), [])| == SubsSize(subs)
            && (forall i :: 0 <= i < n && i < |u.Marks()| ==> u.Marks()[i] == SubsMarks(subs, [])[i])
            && (forall i :: 0 <= i < n && i < |u.Out(v)| ==> u.Out(v)[i] == PrintSubs(ScrubSubs(subs), [])[i])
  {
    var y, size := PrintSubs(subs, []), SubsSize(subs);
    var t, u := Run(end, id, len, Done, v), Run(Eof, id, size, Done, y);
    RunAlone(id, subs, u);
    RunAlike(end, Eof, id, len, size, Done, v, y, n);
    RunMasks(end, id, len, Done, v);
    RunMasks(Eof, id, size, Done, y);
    AlikeOut(t, v, u, y, n);
  }

  // The run u over nothing but sub-records.
  lemma RunAlone(id: nat, subs: seq<Sub>, u: Trace)
    requires id > 0 && SubsOk(subs, id) && u == Run(Eof, id, SubsSize(subs), Done, PrintSubs(subs, []))
    ensures u.Marks() == SubsMarks(subs, []) && u.Out(PrintSubs(subs, [])) == PrintSubs(ScrubSubs(subs), [])
    ensures |SubsMarks(subs, [])| == |PrintSubs(ScrubSubs(subs), [])| == SubsSize(subs)
  {
    var t := Stop(Accept);
    assert Run(Eof, id, 0, Done, []) == RunRecord(Eof, id, []) == t;
    RunSubs(Eof, id, SubsSize(subs), subs, []);
    SubsOut(subs, id, t, []);
    SubsMarked(subs, t);
    ScrubKeepsSubs(subs, id);
    SubsLength(ScrubSubs(subs), id, []);
    SubsMarksLength(subs, id, []);
  }

  lemma {:induction false} SubsMarksLength(subs: seq<Sub>, id: nat, rest: seq<bool>)
    requires SubsOk(subs, id)
    ensures |SubsMarks(subs, rest)| == SubsSize(subs) + |rest|
  {
    if subs != [] {
      SubsMarksLength(subs[1..], id, rest);
    }
  }

  /** Masking of inputs that are no dump: behind any whole records, a heap dump record of
      any declared length whose contents begin like sub-records is masked like these,
      as far as the run gets; they need not fit the record, and the input may go wrong
      or end at any point. */
  lemma StrayRecordMasked(end: End, d: Dump, head: bytes, len: nat, subs: seq<Sub>, v: bytes, n: nat)
    requires DumpOk(d) && HeapHead(head, len) && SubsOk(subs, d.id)
    requires n <= len && n <= |v| && n <= |PrintSubs(subs, [])| && v[..n] == PrintSubs(subs, [])[..n]
    ensures var t, u := Scan(end, Before(d, head + v)), Run(end, d.id, len, Done, v);
            && t.Out(Before(d, head + v)) == Before(Scrub(d), head + u.Out(v))
            && t.Marks() == Falses(|d.magic|) + (Falses(12) + RecordsMarks(d.records, Falses(9) + u.Marks()))
            && |SubsMarks(subs, [])| == |PrintSubs(ScrubSubs(subs), [])| >= n
            && (forall i :: 0 <= i < n && i < |u.Marks()| ==> u.Marks()[i] == SubsMarks(subs, [])[i])
            && (forall i :: 0 <= i < n && i < |u.Out(v)| ==> u.Out(v)[i] == PrintSubs(ScrubSubs(subs), [])[i])
  {
    var u := Run(end, d.id, len, Done, v);
    SubsLength(subs, d.id, []);
    BeginsLikeSubs(end, d.id, len, subs, v, n);
    ScanBefore(end, d, head + v);
    RunHeapHead(end, d.id, head, len, v);
    BeforeOut(d, Copy(9, u), head + v);
    AfterOut(u, head, false, v);
    RecordsMarked(d.records, Copy(9, u));
  }
}
