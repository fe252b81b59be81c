/**
 What a run blanks, of any input whatsoever: every byte marked as blanked is a primitive
 array value of the sub-records that the input reads as up to there.
 */
module HprofPayload {
  import opened Bytes
  import opened HprofMachine
  import opened HprofGrammar
  import opened HprofRefinement
  import opened HprofTheorems
  import opened HprofMasking

  // ------------------------------------------------------- what never blanks

  // The run blanks nothing from byte n on.
  ghost predicate UnmarkedFrom(t: Trace, n: nat) {
    forall i: nat :: n <= i ==> At(t, i) != Wiped
  }

  lemma AfterUnmarked(t: Trace, k: nat)
    requires UnmarkedFrom(t, 0)
    ensures UnmarkedFrom(t.After(k, false), 0)
  {
  }

  // Items that lead to nothing blanked within their sub-record.
  predicate Quiet(todo: Todo) {
    todo.Do? ==>
      && !todo.item.Tag? && !todo.item.Wipe? && !todo.item.PrimLength? && !todo.item.PrimType?
      && Quiet(todo.rest)
  }

  lemma {:induction false} EntriesQuiet(n: nat, head: nat, tail: Todo)
    requires Quiet(tail)
    ensures Quiet(Entries(n, head, tail))
  {
    if n > 0 {
      EntriesQuiet(n - 1, head, tail);
    }
  }

  lemma RespondQuiet(id: nat, item: Item, b: bytes, tail: Todo)
    requires Looks(item) && |b| == Width(item) && Quiet(Do(item, tail))
    ensures var r := Respond(id, item, b, tail); r.Push? ==> Quiet(r.todo)
  {
    if item.Table? {
      EntriesQuiet(U2(b), item.head, tail);
    }
  }

  lemma ContentsQuiet(id: nat, tag: byte)
    requires tag != 0x23
    ensures var r := Contents(id, tag, Done); r.Push? ==> Quiet(r.todo)
  {
    assert Quiet(Do(Table(2), Do(Table(id), Do(FieldTable, Done))));
  }

  /** The first k bytes of what is still to be read are all of what is pending. */
  ghost predicate Whole(id: nat, p: Point, k: nat) {
    k <= p.left && k <= |p.x| && Accepts(Eof, id, k, p.todo, p.x[..k])
  }

  // What holds behind an item that is not blanked holds here.
  lemma WholeBehind(id: nat, p: Point, k: nat)
    requires Up(p).Do? && GoesOn(id, p) && Whole(id, Onward(id, p), k)
    ensures Whole(id, p, Width(Up(p).item) + k)
  {
    var w := Width(Up(p).item);
    var q := Point(w + k, p.todo, p.x[..w + k]);
    assert q.x[..w] == p.x[..w] && q.x[w..] == p.x[w..][..k];
    RunGoesOn(Eof, id, q);
    AfterVerdict(RunAt(Eof, id, Onward(id, q)), w, Up(p).item.Wipe?);
  }

  lemma UnmarkedBehind(end: End, id: nat, p: Point)
    requires Up(p).Do? && !Up(p).item.Wipe? && GoesOn(id, p) && UnmarkedFrom(RunAt(end, id, Onward(id, p)), 0)
    ensures UnmarkedFrom(RunAt(end, id, p), 0)
  {
    RunGoesOn(end, id, p);
    AfterUnmarked(RunAt(end, id, Onward(id, p)), Width(Up(p).item));
  }

  // A run that does not get behind an item marks only what it would have blanked.
  lemma UnmarkedStop(end: End, id: nat, p: Point)
    requires Up(p).Do? && !GoesOn(id, p) && (Up(p).item.Wipe? ==> Width(Up(p).item) > p.left)
    ensures UnmarkedFrom(RunAt(end, id, p), 0)
  {
    var item, tail := Up(p).item, Up(p).rest;
    assert RunAt(end, id, p) == RunItem(end, id, p.left, item, tail, p.x);
    if Width(item) <= p.left && Width(item) <= |p.x| {
      assert RunAt(end, id, p) == RunLook(end, id, p.left, item, tail, p.x);
    }
  }

  lemma NothingWhole(id: nat, p: Point)
    requires p.todo == Done
    ensures Whole(id, p, 0)
  {
    assert Run(Eof, id, 0, Done, p.x[..0]) == RunRecord(Eof, id, p.x[..0]);
  }

  // Quiet items are got through, or the run stops without blanking anything.
  lemma {:induction false} QuietRun(end: End, id: nat, p: Point) returns (whole: bool, k: nat)
    requires Quiet(p.todo)
    ensures if whole then Whole(id, p, k) else UnmarkedFrom(RunAt(end, id, p), 0)
    decreases |p.x|, Depth(p.todo)
  {
    k := 0;
    if p.todo == Done {
      NothingWhole(id, p);
      whole := true;
    } else if GoesOn(id, p) {
      var item := p.todo.item;
      if Looks(item) {
        RespondQuiet(id, item, p.x[..Width(item)], p.todo.rest);
      }
      whole, k := QuietRun(end, id, Onward(id, p));
      if whole {
        WholeBehind(id, p, k);
        k := Width(item) + k;
      } else {
        UnmarkedBehind(end, id, p);
      }
    } else {
      UnmarkedStop(end, id, p);
      whole := false;
    }
  }

  // ------------------------------------------------------------- sub-records

  /** How a run fares with a sub-record: it gets through all of it, it blanks nothing of
      it, or its input ends within the values of a primitive array s. */
  datatype Fate = Through(k: nat) | Unmarked | Within(s: Sub)

  ghost predicate Fares(end: End, id: nat, p: Point, fate: Fate) {
    match fate
    case Through(k) => 0 < k && Whole(id, p, k)
    case Unmarked => UnmarkedFrom(RunAt(end, id, p), 0)
    case Within(s) => SubOk(s, id) && |p.x| <= p.left && p.x <= PrintSub(s, [])
  }

  // Printed as far as there are bytes.
  lemma CutArray(id: nat, x: bytes, head: bytes, n: bytes, ty: byte, y: bytes, c: nat) returns (s: Sub)
    requires x == [0x23] + (head + (n + ([ty] + y))) && |head| == id + 4 && |n| == 4
    requires SizeOf(id, ty) > 0 && c == U4(n) * SizeOf(id, ty) && |y| <= c
    ensures SubOk(s, id) && x <= PrintSub(s, [])
  {
    Enc4OfU4(n);
    s := PrimArray(head, U4(n), ty, y + Zeros(c - |y|));
    assert PrintSub(s, []) == x + Zeros(c - |y|);
  }

  lemma ArrayFate(end: End, id: nat, p: Point) returns (fate: Fate)
    requires p.todo == Done && p.left > 0 && GoesOn(id, p) && p.x[0] == 0x23
    ensures Fares(end, id, p, fate)
  {
    var p1 := Onward(id, p);
    fate := HeadFate(end, id, p1, p.x);
    match fate
    case Through(k) =>
      WholeBehind(id, p, k);
      fate := Through(1 + k);
    case Unmarked => UnmarkedBehind(end, id, p);
    case Within(_) =>
  }

  // The same behind the tag; x is the whole sub-record.
  lemma HeadFate(end: End, id: nat, p: Point, x: bytes) returns (fate: Fate)
    requires p.todo == Do(Blob(id + 4), Do(PrimLength, Done)) && x == [0x23] + p.x
    ensures if fate.Within? then Fares(end, id, Point(p.left + 1, Done, x), fate) else Fares(end, id, p, fate)
  {
    if GoesOn(id, p) {
      var q := Onward(id, p);
      var head := p.x[..id + 4];
      assert p.x == head + q.x;
      fate := LengthFate(end, id, q, head, x);
      match fate
      case Through(k) =>
        WholeBehind(id, p, k);
        fate := Through(id + 4 + k);
      case Unmarked => UnmarkedBehind(end, id, p);
      case Within(_) =>
    } else {
      UnmarkedStop(end, id, p);
      fate := Unmarked;
    }
  }

  lemma LengthFate(end: End, id: nat, p: Point, head: bytes, x: bytes) returns (fate: Fate)
    requires p.todo == Do(PrimLength, Done) && x == [0x23] + (head + p.x) && |head| == id + 4
    ensures if fate.Within? then Fares(end, id, Point(p.left + |head| + 1, Done, x), fate) else Fares(end, id, p, fate)
  {
    if GoesOn(id, p) {
      var q := Onward(id, p);
      var n := p.x[..4];
      assert p.x == n + q.x;
      fate := TypeFate(end, id, q, head, n, x);
      match fate
      case Through(k) =>
        WholeBehind(id, p, k);
        fate := Through(4 + k);
      case Unmarked => UnmarkedBehind(end, id, p);
      case Within(_) =>
    } else {
      UnmarkedStop(end, id, p);
      fate := Unmarked;
    }
  }

  lemma TypeFate(end: End, id: nat, p: Point, head: bytes, n: bytes, x: bytes) returns (fate: Fate)
    requires |head| == id + 4 && |n| == 4
    requires p.todo == Do(PrimType(U4(n)), Done) && x == [0x23] + (head + (n + p.x))
    ensures if fate.Within? then Fares(end, id, Point(p.left + |head| + 5, Done, x), fate) else Fares(end, id, p, fate)
  {
    if GoesOn(id, p) {
      var c := U4(n) * SizeOf(id, p.x[0]);
      assert Onward(id, p) == Point(p.left - 1, Do(Wipe(c), Done), p.x[1..]);
      if c <= p.left - 1 && |p.x[1..]| < c {
        fate := CutFate(end, id, p, head, n, x, c);
      } else {
        fate := ValuesFate(end, id, p, c);
      }
    } else {
      UnmarkedStop(end, id, p);
      fate := Unmarked;
    }
  }

  // The input ends within the values.
  lemma CutFate(end: End, id: nat, p: Point, head: bytes, n: bytes, x: bytes, c: nat) returns (fate: Fate)
    requires |head| == id + 4 && |n| == 4 && x == [0x23] + (head + (n + p.x))
    requires |p.x| > 0 && SizeOf(id, p.x[0]) > 0 && c == U4(n) * SizeOf(id, p.x[0])
    requires |p.x| <= p.left && |p.x| - 1 < c
    ensures fate.Within? && Fares(end, id, Point(p.left + |head| + 5, Done, x), fate)
  {
    Halves(p.x, 1);
    var s := CutArray(id, x, head, n, p.x[0], p.x[1..], c);
    fate := Within(s);
  }

  // The values are all there, or there are too many for the record.
  lemma ValuesFate(end: End, id: nat, p: Point, c: nat) returns (fate: Fate)
    requires Up(p).Do? && !Up(p).item.Wipe? && Width(Up(p).item) == 1 && GoesOn(id, p)
    requires Onward(id, p) == Point(p.left - 1, Do(Wipe(c), Done), p.x[1..]) && (c <= |p.x[1..]| || c > p.left - 1)
    ensures !fate.Within? && Fares(end, id, p, fate)
  {
    var q := Onward(id, p);
    if c <= q.left {
      NothingWhole(id, Onward(id, q));
      WholeBehind(id, q, 0);
      WholeBehind(id, p, c);
      fate := Through(1 + c);
    } else {
      UnmarkedStop(end, id, q);
      UnmarkedBehind(end, id, p);
      fate := Unmarked;
    }
  }

  lemma SubFate(end: End, id: nat, p: Point) returns (fate: Fate)
    requires p.todo == Done && p.left > 0
    ensures Fares(end, id, p, fate)
  {
    if !GoesOn(id, p) {
      UnmarkedStop(end, id, p);
      fate := Unmarked;
    } else if p.x[0] == 0x23 {
      fate := ArrayFate(end, id, p);
    } else {
      var q := Onward(id, p);
      ContentsQuiet(id, p.x[0]);
      var whole, k := QuietRun(end, id, q);
      if whole {
        WholeBehind(id, p, k);
        fate := Through(1 + k);
      } else {
        UnmarkedBehind(end, id, p);
        fate := Unmarked;
      }
    }
  }

  // -------------------------------------------------------- record contents

  /** x and y have their first n bytes in common. */
  ghost predicate Shares(x: bytes, y: bytes, n: nat) {
    n == 0 || (n <= |x| && n <= |y| && x[n - 1] == y[n - 1] && Shares(x, y, n - 1))
  }

  lemma {:induction false} SharesIs(x: bytes, y: bytes, n: nat)
    ensures Shares(x, y, n) <==> n <= |x| && n <= |y| && x[..n] == y[..n]
  {
    if 0 < n && n <= |x| && n <= |y| {
      SharesIs(x, y, n - 1);
      assert x[..n] == x[..n - 1] + [x[n - 1]] && y[..n] == y[..n - 1] + [y[n - 1]];
      if x[..n] == y[..n] {
        assert x[..n - 1] == x[..n][..n - 1] && y[..n - 1] == y[..n][..n - 1];
        assert x[n - 1] == x[..n][n - 1] && y[n - 1] == y[..n][n - 1];
      }
    }
  }

  lemma SharesBehind(a: bytes, x: bytes, y: bytes, n: nat)
    requires Shares(x, y, n)
    ensures Shares(a + x, a + y, |a| + n)
  {
    SharesIs(x, y, n);
    assert (a + x)[..|a| + n] == a + x[..n] && (a + y)[..|a| + n] == a + y[..n];
    SharesIs(a + x, a + y, |a| + n);
  }

  lemma SharesPrefix(x: bytes, y: bytes)
    requires x <= y
    ensures Shares(x, y, |x|)
  {
    assert x[..|x|] == x;
    SharesIs(x, y, |x|);
  }

  lemma {:induction false} PrintJoined(ss: seq<Sub>, ts: seq<Sub>, y: bytes)
    ensures PrintSubs(ss + ts, y) == PrintSubs(ss, PrintSubs(ts, y))
  {
    if ss == [] {
      assert ss + ts == ts;
    } else {
      assert (ss + ts)[1..] == ss[1..] + ts;
      PrintJoined(ss[1..], ts, y);
    }
  }

  lemma {:induction false} JoinedOk(ss: seq<Sub>, ts: seq<Sub>, id: nat)
    requires SubsOk(ss, id) && SubsOk(ts, id)
    ensures SubsOk(ss + ts, id) && SubsSize(ss + ts) == SubsSize(ss) + SubsSize(ts)
  {
    if ss == [] {
      assert ss + ts == ts;
    } else {
      assert (ss + ts)[1..] == ss[1..] + ts;
      JoinedOk(ss[1..], ts, id);
    }
  }

  lemma {:induction false} MarksBehind(subs: seq<Sub>, id: nat, m: seq<bool>)
    requires SubsOk(subs, id)
    ensures |SubsMarks(subs, m)| == SubsSize(subs) + |m| && SubsMarks(subs, m)[SubsSize(subs)..] == m
  {
    if subs != [] {
      MarksBehind(subs[1..], id, m);
      var r := SubsMarks(subs[1..], m);
      assert SubMarks(subs[0], r)[SubSize(subs[0])..] == r;
      assert SubMarks(subs[0], r)[SubsSize(subs)..] == r[SubsSize(subs[1..])..];
    }
  }

  // From byte k on, t does what u does.
  ghost predicate Behind(t: Trace, k: nat, u: Trace) {
    forall i: nat :: k <= i ==> At(t, i) == At(u, i - k)
  }

  lemma MarksDecide(t: Trace, u: Trace, k: nat, i: nat)
    requires k <= i && k <= |t.Marks()| && t.Marks()[k..] == u.Marks()
    ensures At(t, i) == At(u, i - k)
  {
    AtMarks(t, i);
    AtMarks(u, i - k);
    assert i < |t.Marks()| ==> t.Marks()[k..][i - k] == t.Marks()[i];
  }

  // Behind sub-records, a run does what it does to what follows.
  lemma TraceBehindSubs(ss: seq<Sub>, id: nat, t: Trace, k: nat)
    requires SubsOk(ss, id) && SubsSize(ss) == k
    ensures Behind(SubsTrace(ss, t), k, t)
  {
    var u := SubsTrace(ss, t);
    SubsMarked(ss, t);
    MarksBehind(ss, id, t.Marks());
    forall i: nat | k <= i
      ensures At(u, i) == At(t, i - k)
    {
      MarksDecide(u, t, k, i);
    }
  }

  /** v begins, for n bytes, like well-formed sub-records. */
  ghost predicate Reads(id: nat, len: nat, v: bytes, subs: seq<Sub>, n: nat) {
    SubsOk(subs, id) && n <= len && Shares(v, PrintSubs(subs, []), n)
  }

  // Sub-records followed by others.
  lemma Join(ss: seq<Sub>, ts: seq<Sub>, id: nat) returns (all: seq<Sub>)
    requires SubsOk(ss, id) && SubsOk(ts, id)
    ensures SubsOk(all, id) && SubsSize(all) == SubsSize(ss) + SubsSize(ts)
    ensures PrintSubs(all, []) == PrintSubs(ss, []) + PrintSubs(ts, [])
  {
    all := ss + ts;
    JoinedOk(ss, ts, id);
    PrintJoined(ss, ts, []);
    InFront(ss, PrintSubs(ts, []));
  }

  // Bytes a in front of z, which reads as w.
  lemma ReadsGlue(id: nat, len: nat, a: bytes, z: bytes, w: bytes, all: seq<Sub>, n: nat)
    requires SubsOk(all, id) && PrintSubs(all, []) == a + w && Shares(z, w, n) && |a| + n <= len
    ensures Reads(id, len, a + z, all, |a| + n)
  {
    SharesBehind(a, z, w, n);
  }

  lemma InFront(ss: seq<Sub>, z: bytes)
    ensures PrintSubs(ss, z) == PrintSubs(ss, []) + z
  {
    SubsAppend(ss, [], z);
    assert [] + z == z;
  }

  /** What is known of record contents v with run t, of which n bytes were read as `subs`. */
  ghost predicate ReadUp(t: Trace, id: nat, len: nat, v: bytes, subs: seq<Sub>, n: nat) {
    Reads(id, len, v, subs, n) && ((n == len && SubsSize(subs) == len) || UnmarkedFrom(t, n))
  }

  // What is known of the rest z, with w its sub-records printed, is known of a and z.
  lemma ReadUpBehind(t: Trace, u: Trace, id: nat, len: nat, a: bytes, z: bytes, ts: seq<Sub>,
      w: bytes, all: seq<Sub>, n: nat)
    requires SubsOk(all, id) && PrintSubs(all, []) == a + w && SubsSize(all) == |a| + SubsSize(ts)
    requires |a| <= len && Behind(t, |a|, u) && w == PrintSubs(ts, []) && ReadUp(u, id, len - |a|, z, ts, n)
    ensures ReadUp(t, id, len, a + z, all, |a| + n)
  {
    ReadsGlue(id, len, a, z, w, all, n);
    if n < len - |a| || SubsSize(ts) != len - |a| {
      UnmarkedLater(t, |a|, u, n);
    }
  }

  lemma ReadOn(t: Trace, u: Trace, id: nat, len: nat, a: bytes, z: bytes, ss: seq<Sub>, ts: seq<Sub>, m: nat)
    returns (subs: seq<Sub>, n: nat)
    requires SubsOk(ss, id) && a == PrintSubs(ss, []) && |a| == SubsSize(ss) <= len
    requires Behind(t, |a|, u) && ReadUp(u, id, len - |a|, z, ts, m)
    ensures ReadUp(t, id, len, a + z, subs, n)
  {
    var w := PrintSubs(ts, []);
    subs := Join(ss, ts, id);
    n := |a| + m;
    ReadUpBehind(t, u, id, len, a, z, ts, w, subs, m);
  }

  lemma UnmarkedLater(t: Trace, k: nat, u: Trace, n: nat)
    requires Behind(t, k, u) && UnmarkedFrom(u, n)
    ensures UnmarkedFrom(t, k + n)
  {
    forall i: nat | k + n <= i
      ensures At(t, i) != Wiped
    {
      assert At(t, i) == At(u, i - k);
    }
  }

  lemma NoMarksBehind(end: End, id: nat, len: nat, v: bytes)
    ensures UnmarkedFrom(Run(end, id, len, Done, v), |v|)
  {
    var t := Run(end, id, len, Done, v);
    RunMasks(end, id, len, Done, v);
    forall i: nat | |v| <= i
      ensures At(t, i) != Wiped
    {
      AtMarks(t, i);
    }
  }

  // The sub-records that were got through, and the rest.
  lemma SubsThrough(id: nat, len: nat, v: bytes, k: nat) returns (ss: seq<Sub>, z: bytes)
    requires id in {4, 8} && Whole(id, Point(len, Done, v), k)
    ensures SubsOk(ss, id) && SubsSize(ss) == k && v == PrintSubs(ss, z)
  {
    var y;
    ss, y := DecodeSubs(Eof, id, k, v[..k]);
    SubsLength(ss, id, y);
    assert y == [];
    z := v[k..];
    InFront(ss, z);
    Halves(v, k);
  }

  // How the run t over record contents v fares with the sub-record in front.
  ghost predicate FaresAs(t: Trace, id: nat, len: nat, v: bytes, fate: Fate) {
    match fate
    case Through(k) => 0 < k <= len && Whole(id, Point(len, Done, v), k)
    case Unmarked => UnmarkedFrom(t, 0)
    case Within(s) => SubOk(s, id) && |v| <= len && v <= PrintSub(s, []) && UnmarkedFrom(t, |v|)
  }

  lemma FrontFate(end: End, id: nat, len: nat, v: bytes) returns (fate: Fate)
    requires len > 0
    ensures FaresAs(Run(end, id, len, Done, v), id, len, v, fate)
  {
    fate := SubFate(end, id, Point(len, Done, v));
    NoMarksBehind(end, id, len, v);
  }

  // The bytes a of the sub-records ss that were got through, and the rest.
  lemma FrontThrough(end: End, id: nat, len: nat, v: bytes, k: nat, t: Trace) returns (a: bytes, z: bytes, ss: seq<Sub>)
    requires id in {4, 8} && k <= len && Whole(id, Point(len, Done, v), k) && t == Run(end, id, len, Done, v)
    ensures SubsOk(ss, id) && a == PrintSubs(ss, []) && |a| == SubsSize(ss) == k && v == a + z
    ensures Behind(t, k, Run(end, id, len - k, Done, z))
  {
    ss, z := SubsThrough(id, len, v, k);
    a := PrintSubs(ss, []);
    SubsLength(ss, id, []);
    InFront(ss, z);
    RunSubs(end, id, len, ss, z);
    TraceBehindSubs(ss, id, Run(end, id, len - k, Done, z), k);
  }

  // What is read where nothing more is blanked.
  lemma ReadUpStop(t: Trace, id: nat, len: nat, v: bytes, fate: Fate) returns (subs: seq<Sub>, n: nat)
    requires FaresAs(t, id, len, v, fate) && !fate.Through?
    ensures ReadUp(t, id, len, v, subs, n)
  {
    if fate.Within? {
      subs, n := [fate.s], |v|;
      assert subs[1..] == [] && PrintSubs(subs, []) == PrintSub(fate.s, []);
      SharesPrefix(v, PrintSub(fate.s, []));
    } else {
      subs, n := [], 0;
    }
  }

  /** However the contents of a heap dump record begin, they read as sub-records up to the
      end of the record or to where nothing more is blanked. */
  lemma {:induction false} ReadSubs(end: End, id: nat, len: nat, v: bytes, t: Trace) returns (subs: seq<Sub>, n: nat)
    requires id in {4, 8} && t == Run(end, id, len, Done, v)
    ensures ReadUp(t, id, len, v, subs, n)
    decreases len
  {
    if len == 0 {
      return [], 0;
    }
    var fate := FrontFate(end, id, len, v);
    if fate.Through? {
      var a, z, ss := FrontThrough(end, id, len, v, fate.k, t);
      var u := Run(end, id, len - fate.k, Done, z);
      var ts, m := ReadSubs(end, id, len - fate.k, z, u);
      subs, n := ReadOn(t, u, id, len, a, z, ss, ts, m);
    } else {
      subs, n := ReadUpStop(t, id, len, v, fate);
    }
  }

  // ---------------------------------------------------------------- records

  lemma CopyBehind(n: nat, t: Trace, i: nat)
    requires At(Copy(n, t), i) == Wiped
    ensures n <= i && At(t, i - n) == Wiped
  {
  }

  lemma AtBehindCopy(n: nat, t: Trace, i: nat)
    requires n <= i
    ensures At(Copy(n, t), i) == At(t, i - n)
  {
  }

  lemma AtBehindRecord(r: Record, id: nat, t: Trace, i: nat)
    requires RecordOk(r, id) && 9 + BodySize(r) <= i
    ensures At(RecordTrace(r, t), i) == At(t, i - 9 - BodySize(r))
  {
    if r.Heap? {
      AtBehindCopy(9, SubsTrace(r.subs, t), i);
      TraceBehindSubs(r.subs, id, t, BodySize(r));
    }
  }

  // Nothing of a record that is not for a heap dump is marked.
  lemma PlainUnmarked(r: Record, t: Trace, i: nat)
    requires r.Plain? && At(RecordTrace(r, t), i) == Wiped
    ensures 9 + BodySize(r) <= i
  {
    CopyBehind(9, t.After(|r.body|, false), i);
  }

  // The mark behind a whole record.
  lemma MarkedNext(end: End, id: nat, r: Record, z: bytes, i: nat)
    requires RecordOk(r, id) && id > 0 && At(Run(end, id, 0, Done, PrintRecord(r, z)), i) == Wiped
    requires r.Heap? ==> 9 + BodySize(r) <= i
    ensures 9 + BodySize(r) <= i && At(Run(end, id, 0, Done, z), i - 9 - BodySize(r)) == Wiped
  {
    var t := Run(end, id, 0, Done, z);
    RunOneRecord(end, id, r, z);
    if r.Plain? {
      PlainUnmarked(r, t, i);
    }
    AtBehindRecord(r, id, t, i);
  }

  /** The header of a record of length len, taken apart. */
  ghost predicate IsHead(head: bytes, tag: byte, time: bytes, len: nat) {
    |time| == 4 && len < 0x1_0000_0000 && head == [tag] + (time + Num4(len))
  }

  lemma TakeHead(y: bytes) returns (head: bytes, tag: byte, time: bytes, len: nat, v: bytes)
    requires |y| >= 9
    ensures IsHead(head, tag, time, len) && y == head + v
  {
    Enc4OfU4(y[5..9]);
    head, tag, time, len, v := y[..9], y[0], y[1..5], U4(y[5..9]), y[9..];
    Halves(y, 9);
    assert y[..9] == [tag] + (time + y[5..9]);
  }

  lemma HeadIs(head: bytes, tag: byte, time: bytes, len: nat)
    requires IsHead(head, tag, time, len)
    ensures |head| == 9 && head[0] == tag && U4(head[5..9]) == len
  {
    assert head[5..9] == Num4(len);
  }

  lemma RunPlainHead(end: End, id: nat, head: bytes, tag: byte, time: bytes, len: nat, v: bytes)
    requires IsHead(head, tag, time, len) && !IsHeap(tag)
    ensures Run(end, id, 0, Done, head + v) == Copy(9, Run(end, id, len, Do(Blob(len), Done), v))
  {
    var y := head + v;
    HeadIs(head, tag, time, len);
    assert y[0] == tag && y[5..9] == head[5..9] && y[9..] == v;
    assert Run(end, id, 0, Done, y) == RunRecord(end, id, y);
  }

  // A mark in or behind a record that is not for a heap dump takes all of the record.
  lemma BlobMarked(end: End, id: nat, len: nat, v: bytes, i: nat)
    requires At(Run(end, id, len, Do(Blob(len), Done), v), i) == Wiped
    ensures len <= |v|
  {
    var t := Run(end, id, len, Do(Blob(len), Done), v);
    assert t == RunItem(end, id, len, Blob(len), Done, v);
    assert len > |v| ==> t == Stopped(EndError(end)).After(|v|, false);
  }

  lemma PlainRecord(id: nat, head: bytes, tag: byte, time: bytes, len: nat, v: bytes) returns (r: Record, z: bytes)
    requires IsHead(head, tag, time, len) && !IsHeap(tag) && len <= |v|
    ensures RecordOk(r, id) && r.Plain? && head + v == PrintRecord(r, z)
  {
    r, z := Plain(tag, time, v[..len]), v[len..];
    Halves(v, len);
  }

  lemma HeapRecord(id: nat, head: bytes, tag: byte, time: bytes, len: nat, v: bytes, subs: seq<Sub>)
    returns (r: Record, z: bytes)
    requires IsHead(head, tag, time, len) && IsHeap(tag) && Reads(id, len, v, subs, len) && SubsSize(subs) == len
    ensures RecordOk(r, id) && r.Heap? && BodySize(r) == len && head + v == PrintRecord(r, z)
  {
    var p := PrintSubs(subs, []);
    SubsLength(subs, id, []);
    SharesIs(v, p, len);
    assert p[..len] == p;
    r, z := Heap(tag, time, subs), v[len..];
    Halves(v, len);
    InFront(subs, z);
  }

  /** Whole records, and then a heap dump record whose contents v read as `subs`. */
  datatype Spot = Spot(rs: seq<Record>, head: bytes, len: nat, subs: seq<Sub>, v: bytes, n: nat)

  /** That is how y reads up to beyond byte i, which is in the contents. */
  ghost predicate Located(id: nat, y: bytes, i: nat, p: Spot) {
    && RecordsOk(p.rs, id) && HeapHead(p.head, p.len) && y == PrintRecords(p.rs, p.head + p.v) &&
       Reads(id, p.len, p.v, p.subs, p.n)
    && |p.v| <= |y| && |y| - |p.v| <= i < |y| - |p.v| + p.n
  }

  lemma LocatedBehind(id: nat, r: Record, y: bytes, i: nat, p: Spot)
    requires RecordOk(r, id) && Located(id, y, i, p)
    ensures Located(id, PrintRecord(r, y), 9 + BodySize(r) + i, p.(rs := [r] + p.rs))
  {
    assert ([r] + p.rs)[1..] == p.rs;
    RecordAppend(r, id, y);
  }

  // What the first record of y and a mark at i come to: the mark is in what the record
  // reads as, or it is behind the record.
  datatype First = Here(p: Spot) | Next(r: Record, z: bytes)

  ghost predicate IsFirst(id: nat, y: bytes, i: nat, f: First) {
    match f
    case Here(p) => Located(id, y, i, p)
    case Next(r, z) => RecordOk(r, id) && (r.Heap? ==> 9 + BodySize(r) <= i) && y == PrintRecord(r, z)
  }

  lemma FirstHeap(end: End, id: nat, head: bytes, tag: byte, time: bytes, len: nat, v: bytes, i: nat) returns (f: First)
    requires id in {4, 8} && IsHead(head, tag, time, len) && IsHeap(tag) &&
             At(Run(end, id, 0, Done, head + v), i) == Wiped
    ensures IsFirst(id, head + v, i, f)
  {
    var t := Run(end, id, len, Done, v);
    HeadIs(head, tag, time, len);
    RunHeapHead(end, id, head, len, v);
    CopyBehind(9, t, i);
    var subs, n := ReadSubs(end, id, len, v, t);
    if i - 9 < n {
      f := Here(Spot([], head, len, subs, v, n));
    } else {
      var r, z := HeapRecord(id, head, tag, time, len, v, subs);
      f := Next(r, z);
    }
  }

  lemma FirstPlain(end: End, id: nat, head: bytes, tag: byte, time: bytes, len: nat, v: bytes, i: nat)
    returns (f: First)
    requires IsHead(head, tag, time, len) && !IsHeap(tag) && At(Run(end, id, 0, Done, head + v), i) == Wiped
    ensures IsFirst(id, head + v, i, f)
  {
    RunPlainHead(end, id, head, tag, time, len, v);
    CopyBehind(9, Run(end, id, len, Do(Blob(len), Done), v), i);
    BlobMarked(end, id, len, v, i - 9);
    var r, z := PlainRecord(id, head, tag, time, len, v);
    f := Next(r, z);
  }

  lemma MarkNeedsRecord(end: End, id: nat, y: bytes, i: nat)
    requires At(Run(end, id, 0, Done, y), i) == Wiped
    ensures |y| >= 9
  {
    assert Run(end, id, 0, Done, y) == RunRecord(end, id, y);
  }

  lemma {:induction false} LocateMark(end: End, id: nat, y: bytes, i: nat) returns (p: Spot)
    requires id in {4, 8} && At(Run(end, id, 0, Done, y), i) == Wiped
    ensures Located(id, y, i, p)
    decreases i
  {
    MarkNeedsRecord(end, id, y, i);
    var head, tag, time, len, v := TakeHead(y);
    var f;
    if IsHeap(tag) {
      f := FirstHeap(end, id, head, tag, time, len, v, i);
    } else {
      f := FirstPlain(end, id, head, tag, time, len, v, i);
    }
    match f
    case Here(q) => p := q;
    case Next(r, z) =>
      MarkedNext(end, id, r, z, i);
      p := LocateMark(end, id, z, i - 9 - BodySize(r));
      LocatedBehind(id, r, z, i - 9 - BodySize(r), p);
      p := p.(rs := [r] + p.rs);
  }

  // ------------------------------------------------------------- main result

  /** A reading of an input: whole records, the header of a heap dump record of length
      len, and its contents v, of which n bytes are like `subs`. */
  datatype Reading = Reading(d: Dump, head: bytes, len: nat, subs: seq<Sub>, v: bytes, n: nat)

  ghost predicate IsReading(x: bytes, r: Reading) {
    DumpOk(r.d) && HeapHead(r.head, r.len) && x == Before(r.d, r.head + r.v) && Reads(r.d.id, r.len, r.v, r.subs, r.n)
  }

  /** Byte j of printed sub-records is a primitive array value: it is behind the tag, head,
      count and type of an array. */
  function IsValue(subs: seq<Sub>, j: int): bool {
    if subs == [] || j < 0 then false
    else if j < SubSize(subs[0]) then subs[0].PrimArray? && 6 + |subs[0].head| <= j
    else IsValue(subs[1..], j - SubSize(subs[0]))
  }

  lemma {:induction false} ValueMarks(subs: seq<Sub>, id: nat, j: nat)
    requires SubsOk(subs, id) && j < SubsSize(subs)
    ensures j < |SubsMarks(subs, [])| && (SubsMarks(subs, [])[j] <==> IsValue(subs, j))
  {
    if subs != [] {
      var s, m := subs[0], SubsMarks(subs[1..], []);
      MarksBehind(subs[1..], id, []);
      FirstMarks(s, m, j);
      if SubSize(s) <= j {
        ValueMarks(subs[1..], id, j - SubSize(s));
      }
    }
  }

  lemma FirstMarks(s: Sub, m: seq<bool>, j: nat)
    requires j < SubSize(s) + |m|
    ensures |SubMarks(s, m)| == SubSize(s) + |m|
    ensures SubMarks(s, m)[j] == if j < SubSize(s) then s.PrimArray? && 6 + |s.head| <= j else m[j - SubSize(s)]
  {
  }

  /** By that reading, byte i of x is a primitive array value. */
  ghost predicate IsPayload(x: bytes, i: nat, r: Reading) {
    var j := i + |r.v| - |x|;
    IsReading(x, r) && j < r.n && IsValue(r.subs, j)
  }

  lemma {:induction false} RecordsLength(rs: seq<Record>, id: nat, z: bytes)
    requires RecordsOk(rs, id)
    ensures |PrintRecords(rs, z)| == |PrintRecords(rs, [])| + |z|
  {
    if rs != [] {
      RecordsLength(rs[1..], id, z);
      RecordAppend(rs[0], id, PrintRecords(rs[1..], z));
      RecordAppend(rs[0], id, PrintRecords(rs[1..], []));
    }
  }

  lemma PrintedSize(rs: seq<Record>, id: nat)
    requires rs != [] && RecordsOk(rs, id)
    ensures |PrintRecords(rs, [])| == 9 + BodySize(rs[0]) + |PrintRecords(rs[1..], [])|
  {
    RecordAppend(rs[0], id, PrintRecords(rs[1..], []));
  }

  lemma AtBehindFirst(rs: seq<Record>, id: nat, t: Trace, i: nat, b: nat)
    requires rs != [] && RecordsOk(rs, id) && b == 9 + BodySize(rs[0]) <= i
    ensures At(RecordsTrace(rs, t), i) == At(RecordsTrace(rs[1..], t), i - b)
  {
    var u := RecordsTrace(rs[1..], t);
    assert RecordsTrace(rs, t) == RecordTrace(rs[0], u);
    AtBehindRecord(rs[0], id, u, i);
  }

  lemma {:induction false} AtBehindRecords(rs: seq<Record>, id: nat, t: Trace, i: nat, k: nat)
    requires RecordsOk(rs, id) && |PrintRecords(rs, [])| == k <= i
    ensures At(RecordsTrace(rs, t), i) == At(t, i - k)
  {
    if rs != [] {
      var b := 9 + BodySize(rs[0]);
      PrintedSize(rs, id);
      AtBehindFirst(rs, id, t, i, b);
      AtBehindRecords(rs[1..], id, t, i - b, k - b);
    }
  }

  // Where the record contents of a reading begin.
  lemma ReadingOffset(x: bytes, r: Reading)
    requires IsReading(x, r)
    ensures |x| - |r.v| == |r.d.magic| + 12 + |PrintRecords(r.d.records, [])| + 9
  {
    RecordsLength(r.d.records, r.d.id, r.head + r.v);
    assert |FileHead(r.d)| == 12;
  }

  lemma AtInside(m: nat, rs: seq<Record>, id: nat, u: Trace, i: nat, k: nat)
    requires RecordsOk(rs, id) && |PrintRecords(rs, [])| == k && m + 12 + k + 9 <= i
    ensures At(Copy(m, Copy(12, RecordsTrace(rs, Copy(9, u)))), i) == At(u, i - (m + 12 + k + 9))
  {
    var t := RecordsTrace(rs, Copy(9, u));
    AtBehindCopy(m, Copy(12, t), i);
    AtBehindCopy(12, t, i - m);
    AtBehindRecords(rs, id, Copy(9, u), i - m - 12, k);
    AtBehindCopy(9, u, i - m - 12 - k);
  }

  // The run over an input that was read that way, in the record it stops in.
  lemma AtInReading(end: End, x: bytes, i: nat, r: Reading)
    requires IsReading(x, r) && |x| - |r.v| <= i
    ensures At(Scan(end, x), i) == At(Run(end, r.d.id, r.len, Done, r.v), i - (|x| - |r.v|))
  {
    ScanBefore(end, r.d, r.head + r.v);
    RunHeapHead(end, r.d.id, r.head, r.len, r.v);
    ReadingOffset(x, r);
    AtInside(|r.d.magic|, r.d.records, r.d.id, Run(end, r.d.id, r.len, Done, r.v), i, |PrintRecords(r.d.records, [])|);
  }

  lemma {:induction false} RecordsMarksLength(rs: seq<Record>, id: nat, m: seq<bool>)
    requires RecordsOk(rs, id)
    ensures |RecordsMarks(rs, m)| == |PrintRecords(rs, [])| + |m|
  {
    if rs != [] {
      var r := rs[0];
      RecordsMarksLength(rs[1..], id, m);
      RecordAppend(r, id, PrintRecords(rs[1..], []));
      if r.Heap? {
        MarksBehind(r.subs, id, RecordsMarks(rs[1..], m));
      }
    }
  }

  lemma MarksReach(end: End, x: bytes, r: Reading)
    requires IsReading(x, r)
    ensures |Scan(end, x).Marks()| == |x| - |r.v| + |Run(end, r.d.id, r.len, Done, r.v).Marks()|
  {
    var m := Falses(9) + Run(end, r.d.id, r.len, Done, r.v).Marks();
    StrayRecordMasked(end, r.d, r.head, r.len, [], r.v, 0);
    RecordsMarksLength(r.d.records, r.d.id, m);
    RecordsLength(r.d.records, r.d.id, r.head + r.v);
  }

  lemma SubsMarkedAsRead(end: End, id: nat, len: nat, subs: seq<Sub>, v: bytes, n: nat, j: nat)
    requires id > 0 && Reads(id, len, v, subs, n) && j < n
    ensures var u := Run(end, id, len, Done, v);
            j < |u.Marks()| ==> (At(u, j) == Wiped <==> IsValue(subs, j))
  {
    SharesIs(v, PrintSubs(subs, []), n);
    SubsLength(subs, id, []);
    BeginsLikeSubs(end, id, len, subs, v, n);
    AtMarks(Run(end, id, len, Done, v), j);
    ValueMarks(subs, id, j);
  }

  /** Of what was read, exactly the primitive array values are marked. */
  lemma MarkedAsRead(end: End, x: bytes, i: nat, r: Reading, j: nat)
    requires IsReading(x, r) && i + |r.v| == |x| + j && j < r.n && i < |Scan(end, x).Marks()|
    ensures At(Scan(end, x), i) == Wiped <==> IsValue(r.subs, j)
  {
    ReadingOffset(x, r);
    MarksReach(end, x, r);
    AtInReading(end, x, i, r);
    SubsMarkedAsRead(end, r.d.id, r.len, r.subs, r.v, r.n, j);
  }

  lemma DumpOfParts(x: bytes, m: nat, rs: seq<Record>, z: bytes) returns (d: Dump)
    requires m == FirstNul(x, 0) + 1 && m + 12 <= |x| && IsMagic(x[..m])
    requires U4(x[m..][..4]) in {4, 8} && RecordsOk(rs, U4(x[m..][..4])) && x[m..][12..] == PrintRecords(rs, z)
    ensures DumpOk(d) && d.id == U4(x[m..][..4]) && d.records == rs && x == Before(d, z)
  {
    var u := x[m..];
    d := Dump(x[..m], U4(u[..4]), u[4..12], rs);
    Enc4OfU4(u[..4]);
    NulOfPrefix(x, m);
    Halves(x, m);
    HeaderParts(u);
  }

  lemma HeaderMark(end: End, u: bytes, i: nat)
    requires At(RunHeader(end, u), i) == Wiped
    ensures |u| >= 12 && U4(u[..4]) in {4, 8} && 12 <= i && At(Run(end, U4(u[..4]), 0, Done, u[12..]), i - 12) == Wiped
  {
    if |u| >= 12 {
      var id := U4(u[..4]);
      CopyBehind(12, if id == 4 || id == 8 then Run(end, id, 0, Done, u[12..]) else Stopped(BadIdSize(id)), i);
    }
  }

  // Where a marked byte is.
  lemma MarkIsRead(end: End, x: bytes, i: nat) returns (r: Reading)
    requires At(Scan(end, x), i) == Wiped
    ensures IsReading(x, r) && |x| - |r.v| <= i < |x| - |r.v| + r.n
  {
    var m := FirstNul(x, 0) + 1;
    var u := x[m..];
    CopyBehind(m, RunHeader(end, u), i);
    HeaderMark(end, u, i - m);
    var id, y := U4(u[..4]), u[12..];
    var p := LocateMark(end, id, y, i - m - 12);
    var d := DumpOfParts(x, m, p.rs, p.head + p.v);
    r := Reading(d, p.head, p.len, p.subs, p.v, p.n);
  }

  lemma ValueIsPayload(x: bytes, i: nat, r: Reading, j: nat)
    requires IsReading(x, r) && i + |r.v| == |x| + j && j < r.n && IsValue(r.subs, j)
    ensures IsPayload(x, i, r)
  {
  }

  lemma PayloadIsBlanked(end: End, x: bytes, i: nat, r: Reading)
    requires i < |Scan(end, x).Marks()| && IsPayload(x, i, r)
    ensures At(Scan(end, x), i) == Wiped
  {
    MarkedAsRead(end, x, i, r, i + |r.v| - |x|);
  }

  /** Masking at every step of every run: whether an input is accepted, goes wrong or ends
      anywhere, a byte that the run gets to is blanked if and only if the input reads, up
      to that byte, as a dump in which it is a primitive array value. */
  lemma BlankedIffPayload(end: End, x: bytes, i: nat)
    requires i < |Scan(end, x).Marks()|
    ensures Scan(end, x).Marks()[i] <==> exists r :: IsPayload(x, i, r)
  {
    AtMarks(Scan(end, x), i);
    if Scan(end, x).Marks()[i] {
      var r := MarkIsRead(end, x, i);
      var j := i + |r.v| - |x|;
      MarkedAsRead(end, x, i, r, j);
      ValueIsPayload(x, i, r, j);
    } else if r :| IsPayload(x, i, r) {
      PayloadIsBlanked(end, x, i, r);
    }
  }

  /** What a run emits: every such value zeroed, every other byte as it was. */
  lemma EmittedAsRead(end: End, x: bytes, i: nat)
    requires i < |Scan(end, x).Out(x)|
    ensures i < |x| && Scan(end, x).Out(x)[i] == if exists r :: IsPayload(x, i, r) then 0 else x[i]
  {
    ScanMasks(end, x);
    BlankedIffPayload(end, x, i);
  }
}
