/**
 The line redactor: KEY=VALUE lines whose key or value looks secret lose their
 value. The two tests are arbitrary predicates. The writer sees its input in
 arbitrary pieces; what it emits must not depend on how the input was cut.
 */
module Lines {
  import opened Bytes
  import opened Streams

  const NEWLINE: byte := 0x0A
  const EQUALS: byte := 0x3D
  const MASK: bytes := // "***REDACTED***"
    [0x2A, 0x2A, 0x2A, 0x52, 0x45, 0x44, 0x41, 0x43, 0x54, 0x45, 0x44, 0x2A, 0x2A, 0x2A]

  datatype Rules = Rules(key: bytes -> bool, value: bytes -> bool)

  // The position of the first c, or |s|.
  function IndexOf(s: bytes, c: byte): (i: nat)
    ensures i <= |s| && c !in s[..i]
    ensures i < |s| ==> s[i] == c
  {
    if s == [] || s[0] == c then 0 else
      var i := 1 + IndexOf(s[1..], c);
      assert s[..i] == [s[0]] + s[1..][..i - 1];
      i
  }

  lemma {:induction false} IndexOfFirst(a: bytes, c: byte, b: bytes)
    requires c !in a
    ensures IndexOf(a + [c] + b, c) == |a|
    ensures IndexOf(a, c) == |a|
  {
    if a != [] {
      assert (a + [c] + b)[1..] == a[1..] + [c] + b;
      IndexOfFirst(a[1..], c, b);
    } else {
      assert a + [c] + b == [c] + b;
    }
  }

  datatype Redaction = Redaction(line: bytes, redacted: bool)

  /** Redacts one line. */
  function Line(rules: Rules, line: bytes): (r: Redaction)
    ensures !r.redacted ==> r.line == line
    ensures NEWLINE !in line ==> NEWLINE !in r.line
  {
    var i := IndexOf(line, EQUALS);
    if i < |line| && (rules.key(line[..i]) || rules.value(line[i + 1..])) then
      Redaction(line[..i] + [EQUALS] + MASK, true)
    else
      Redaction(line, false)
  }

  // ---------------------------------------------------------------- whole texts

  /** The lines of a text; a text that ends in a newline has an empty last line. */
  function Split(s: bytes): (ls: seq<bytes>)
    ensures ls != [] && forall i :: 0 <= i < |ls| ==> NEWLINE !in ls[i]
    decreases |s|
  {
    var i := IndexOf(s, NEWLINE);
    if i == |s| then
      assert s[..i] == s;
      [s]
    else [s[..i]] + Split(s[i + 1..])
  }

  function Join(ls: seq<bytes>): bytes
    requires ls != []
  {
    if |ls| == 1 then ls[0] else ls[0] + [NEWLINE] + Join(ls[1..])
  }

  function MapLine(rules: Rules, ls: seq<bytes>): (r: seq<bytes>)
    ensures |r| == |ls| && forall i :: 0 <= i < |ls| ==> r[i] == Line(rules, ls[i]).line
  {
    if ls == [] then [] else [Line(rules, ls[0]).line] + MapLine(rules, ls[1..])
  }

  function CountRedacted(rules: Rules, ls: seq<bytes>): nat {
    if ls == [] then 0 else CountRedacted(rules, ls[1..]) + if Line(rules, ls[0]).redacted then 1 else 0
  }

  /** The redacted text: its lines redacted one by one. */
  function Redacted(rules: Rules, s: bytes): bytes {
    Join(MapLine(rules, Split(s)))
  }

  lemma CutAt(s: bytes, i: nat)
    requires i < |s|
    ensures s == s[..i] + [s[i]] + s[i + 1..]
  {
  }

  // A text with a newline, in lines.
  lemma SplitFirst(s: bytes, i: nat)
    requires i == IndexOf(s, NEWLINE) < |s|
    ensures Split(s) == [s[..i]] + Split(s[i + 1..])
  {
  }

  lemma JoinFirst(l: bytes, ls: seq<bytes>)
    requires ls != []
    ensures Join([l] + ls) == l + [NEWLINE] + Join(ls)
  {
    assert ([l] + ls)[1..] == ls;
  }

  lemma {:induction false} JoinSplit(s: bytes)
    ensures Join(Split(s)) == s
    decreases |s|
  {
    var i := IndexOf(s, NEWLINE);
    if i < |s| {
      JoinSplit(s[i + 1..]);
      SplitFirst(s, i);
      JoinFirst(s[..i], Split(s[i + 1..]));
      CutAt(s, i);
    }
  }

  lemma {:induction false} SplitJoin(ls: seq<bytes>)
    requires ls != [] && forall i :: 0 <= i < |ls| ==> NEWLINE !in ls[i]
    ensures Split(Join(ls)) == ls
  {
    if |ls| == 1 {
      IndexOfFirst(ls[0], NEWLINE, []);
    } else {
      var rest := Join(ls[1..]);
      IndexOfFirst(ls[0], NEWLINE, rest);
      SplitJoin(ls[1..]);
      var s := ls[0] + [NEWLINE] + rest;
      assert s[..|ls[0]|] == ls[0] && s[|ls[0]| + 1..] == rest;
      SplitFirst(s, |ls[0]|);
      assert ls == [ls[0]] + ls[1..];
    }
  }

  // ------------------------------------------------------- what redaction keeps

  /** A redacted line keeps its key and says nothing of its value: it is the same for
      every value that is redacted at all. */
  lemma LineHidesValue(rules: Rules, key: bytes, v: bytes, v': bytes)
    requires EQUALS !in key
    requires Line(rules, key + [EQUALS] + v).redacted && Line(rules, key + [EQUALS] + v').redacted
    ensures Line(rules, key + [EQUALS] + v) == Line(rules, key + [EQUALS] + v')
    ensures Line(rules, key + [EQUALS] + v).line == key + [EQUALS] + MASK
  {
    IndexOfFirst(key, EQUALS, v);
    IndexOfFirst(key, EQUALS, v');
    assert (key + [EQUALS] + v)[..|key|] == key && (key + [EQUALS] + v')[..|key|] == key;
  }

  lemma LineDecision(rules: Rules, key: bytes, v: bytes)
    requires EQUALS !in key
    ensures Line(rules, key + [EQUALS] + v).redacted <==> rules.key(key) || rules.value(v)
    ensures !Line(rules, key).redacted
  {
    IndexOfFirst(key, EQUALS, v);
    assert (key + [EQUALS] + v)[..|key|] == key && (key + [EQUALS] + v)[|key| + 1..] == v;
  }

  lemma MaskInCharacters()
    ensures Ascii("=") == [EQUALS] && Ascii("=***REDACTED***") == [EQUALS] + MASK
  {
  }

  /** In characters: a line is cut at its first '=', and what replaces the value is the mask. */
  lemma LineInCharacters(rules: Rules, key: bytes, v: bytes)
    requires '=' as int !in key
    ensures Line(rules, key + Ascii("=") + v) ==
            if rules.key(key) || rules.value(v) then Redaction(key + Ascii("=***REDACTED***"), true)
            else Redaction(key + Ascii("=") + v, false)
    ensures Line(rules, key) == Redaction(key, false)
  {
    MaskInCharacters();
    LineDecision(rules, key, v);
    IndexOfFirst(key, EQUALS, v);
    assert (key + [EQUALS] + v)[..|key|] == key;
    assert key + ([EQUALS] + MASK) == key + [EQUALS] + MASK;
  }

  /** In characters: lines end at '\n', which is not part of them. */
  lemma SplitInCharacters(line: bytes, rest: bytes)
    requires '\n' as int !in line
    ensures Split(line + Ascii("\n") + rest) == [line] + Split(rest) && Split(line) == [line]
  {
    var s := line + [NEWLINE] + rest;
    assert Ascii("\n") == [NEWLINE];
    IndexOfFirst(line, NEWLINE, rest);
    assert s[..|line|] == line && s[|line| + 1..] == rest;
    SplitFirst(s, |line|);
  }

  /** What is counted: every line that is redacted once, and no other. */
  lemma {:induction false} CountAdds(rules: Rules, a: seq<bytes>, l: bytes, b: seq<bytes>)
    ensures CountRedacted(rules, a + [l] + b) ==
            CountRedacted(rules, a) + (if Line(rules, l).redacted then 1 else 0) + CountRedacted(rules, b)
    ensures CountRedacted(rules, []) == 0
  {
    if a == [] {
      assert a + [l] + b == [l] + b;
      CountFirst(rules, l, b);
    } else {
      assert a + [l] + b == [a[0]] + (a[1..] + [l] + b);
      CountFirst(rules, a[0], a[1..] + [l] + b);
      CountAdds(rules, a[1..], l, b);
    }
  }

  /** Redacting a redacted line changes nothing, whatever the two tests are, and keeps
      its key; the second pass counts it again unless only its lost value gave it away. */
  lemma LineFixed(rules: Rules, line: bytes)
    ensures var r := Line(rules, line).line; Line(rules, r).line == r
    ensures var i, r := IndexOf(line, EQUALS), Line(rules, line);
            IndexOf(r.line, EQUALS) == i && r.line[..i] == line[..i] &&
            (Line(rules, r.line).redacted <==> r.redacted && (rules.key(line[..i]) || rules.value(MASK)))
  {
    var i := IndexOf(line, EQUALS);
    if Line(rules, line).redacted {
      var k := line[..i];
      IndexOfFirst(k, EQUALS, MASK);
      assert (k + [EQUALS] + MASK)[..i] == k && (k + [EQUALS] + MASK)[i + 1..] == MASK;
    }
  }

  /** A second pass leaves a redacted text unchanged; every line stays a line. */
  lemma RedactedFixed(rules: Rules, s: bytes)
    ensures Redacted(rules, Redacted(rules, s)) == Redacted(rules, s)
    ensures Split(Redacted(rules, s)) == MapLine(rules, Split(s))
  {
    var ls := MapLine(rules, Split(s));
    SplitJoin(ls);
    forall i | 0 <= i < |ls|
      ensures MapLine(rules, ls)[i] == ls[i]
    {
      LineFixed(rules, Split(s)[i]);
    }
    assert MapLine(rules, ls) == ls;
  }

  // ------------------------------------------------------------------ in pieces

  /** What the complete lines of a text come out as. */
  function Ready(rules: Rules, s: bytes): bytes
    decreases |s|
  {
    var i := IndexOf(s, NEWLINE);
    if i == |s| then [] else (Line(rules, s[..i]).line + [NEWLINE]) + Ready(rules, s[i + 1..])
  }

  function ReadyCount(rules: Rules, s: bytes): nat
    decreases |s|
  {
    var i := IndexOf(s, NEWLINE);
    if i == |s| then 0 else (if Line(rules, s[..i]).redacted then 1 else 0) + ReadyCount(rules, s[i + 1..])
  }

  /** What follows the last newline. */
  function Tail(s: bytes): (t: bytes)
    ensures NEWLINE !in t
    decreases |s|
  {
    var i := IndexOf(s, NEWLINE);
    if i == |s| then
      assert s[..i] == s;
      s
    else Tail(s[i + 1..])
  }

  // A text that starts with the line l.
  lemma FirstLine(rules: Rules, l: bytes, rest: bytes)
    requires NEWLINE !in l
    ensures var s := l + [NEWLINE] + rest;
            && Ready(rules, s) == (Line(rules, l).line + [NEWLINE]) + Ready(rules, rest)
            && ReadyCount(rules, s) == (if Line(rules, l).redacted then 1 else 0) + ReadyCount(rules, rest)
            && Tail(s) == Tail(rest)
  {
    var s := l + [NEWLINE] + rest;
    IndexOfFirst(l, NEWLINE, rest);
    assert s[..|l|] == l && s[|l| + 1..] == rest;
  }

  lemma Assoc(a: bytes, b: bytes, c: bytes)
    ensures (a + b) + c == a + (b + c)
  {
  }

  ghost predicate GoesOn(rules: Rules, a: bytes, b: bytes) {
    && Ready(rules, a + b) == Ready(rules, a) + Ready(rules, Tail(a) + b)
    && ReadyCount(rules, a + b) == ReadyCount(rules, a) + ReadyCount(rules, Tail(a) + b)
    && Tail(a + b) == Tail(Tail(a) + b)
  }

  lemma GoesOnBehind(rules: Rules, a: bytes, l: bytes, rest: bytes, b: bytes)
    requires a == l + [NEWLINE] + rest && NEWLINE !in l && GoesOn(rules, rest, b)
    ensures GoesOn(rules, a, b)
  {
    FirstLine(rules, l, rest);
    FirstLine(rules, l, rest + b);
    Assoc(l + [NEWLINE], rest, b);
    Assoc(Line(rules, l).line + [NEWLINE], Ready(rules, rest), Ready(rules, Tail(rest) + b));
  }

  lemma GoesOnAtOnce(rules: Rules, a: bytes, b: bytes)
    requires IndexOf(a, NEWLINE) == |a|
    ensures GoesOn(rules, a, b)
  {
    Assoc([], [], Ready(rules, a + b));
  }

  /** A text in two pieces: the first piece's tail goes on into the second. */
  lemma {:induction false} Pieces(rules: Rules, a: bytes, b: bytes)
    ensures GoesOn(rules, a, b)
    decreases |a|
  {
    var i := IndexOf(a, NEWLINE);
    if i == |a| {
      GoesOnAtOnce(rules, a, b);
    } else {
      Pieces(rules, a[i + 1..], b);
      CutAt(a, i);
      GoesOnBehind(rules, a, a[..i], a[i + 1..], b);
    }
  }

  /** The redacted text is what its complete lines come out as, and then its last line
      redacted; so is the number of redacted lines. */
  lemma {:induction false} RedactedIsReady(rules: Rules, s: bytes)
    ensures Redacted(rules, s) == Ready(rules, s) + Line(rules, Tail(s)).line
    ensures CountRedacted(rules, Split(s)) == ReadyCount(rules, s) + if Line(rules, Tail(s)).redacted then 1 else 0
    decreases |s|
  {
    var i := IndexOf(s, NEWLINE);
    if i < |s| {
      var l, rest := s[..i], s[i + 1..];
      RedactedIsReady(rules, rest);
      RedactedFirst(rules, s, i);
      Assoc(Line(rules, l).line + [NEWLINE], Ready(rules, rest), Line(rules, Tail(rest)).line);
    } else {
      assert [] + Line(rules, s).line == Line(rules, s).line;
    }
  }

  lemma MapFirst(rules: Rules, l: bytes, ls: seq<bytes>)
    ensures MapLine(rules, [l] + ls) == [Line(rules, l).line] + MapLine(rules, ls)
  {
    assert ([l] + ls)[1..] == ls;
  }

  lemma CountFirst(rules: Rules, l: bytes, ls: seq<bytes>)
    ensures CountRedacted(rules, [l] + ls) == CountRedacted(rules, ls) + if Line(rules, l).redacted then 1 else 0
  {
    assert ([l] + ls)[1..] == ls;
  }

  lemma RedactedFirst(rules: Rules, s: bytes, i: nat)
    requires i == IndexOf(s, NEWLINE) < |s|
    ensures Redacted(rules, s) == (Line(rules, s[..i]).line + [NEWLINE]) + Redacted(rules, s[i + 1..])
    ensures CountRedacted(rules, Split(s)) ==
            CountRedacted(rules, Split(s[i + 1..])) + if Line(rules, s[..i]).redacted then 1 else 0
  {
    var ls, l := Split(s[i + 1..]), s[..i];
    SplitFirst(s, i);
    MapFirst(rules, l, ls);
    JoinFirst(Line(rules, l).line, MapLine(rules, ls));
    CountFirst(rules, l, ls);
  }

  class Writer {
    const rules: Rules
    const w: Sink
    var buf: bytes
    var N: nat // number of values redacted

    constructor (rules: Rules, w: Sink)
      ensures this.rules == rules && this.w == w && buf == [] && N == 0
    {
      this.rules, this.w, buf, N := rules, w, [], 0;
    }

    method Emit(line: bytes, suffix: bytes) returns (ok: bool)
      modifies this`N, w
      ensures w.broken == (old(w.broken) || !ok)
      ensures N == old(N) + if Line(rules, line).redacted then 1 else 0
      ensures ok ==> w.out == old(w.out) + (Line(rules, line).line + suffix)
      ensures !ok ==> old(w.out) <= w.out <= old(w.out) + (Line(rules, line).line + suffix)
    {
      var r := Line(rules, line);
      if r.redacted {
        N := N + 1;
      }
      ok := w.Write(r.line + suffix);
    }

    /** Emits the complete lines of what is buffered and p, and keeps the rest. */
    method Write(p: bytes) returns (ok: bool)
      modifies this, w
      ensures w.broken == (old(w.broken) || !ok)
      ensures ok ==> w.out == old(w.out) + Ready(rules, old(buf) + p)
      ensures ok ==> buf == Tail(old(buf) + p) && N == old(N) + ReadyCount(rules, old(buf) + p)
      ensures !ok ==> old(w.out) <= w.out <= old(w.out) + Ready(rules, old(buf) + p)
    {
      buf := buf + p;
      ghost var plan := w.out + Ready(rules, buf);
      while true
        invariant old(w.out) <= w.out && w.out + Ready(rules, buf) == plan && w.broken == old(w.broken)
        invariant N + ReadyCount(rules, buf) == old(N) + ReadyCount(rules, old(buf) + p)
        invariant Tail(buf) == Tail(old(buf) + p)
        decreases |buf|
      {
        var i := IndexOf(buf, NEWLINE);
        if i == |buf| {
          assert w.out + [] == w.out;
          return true;
        }
        var line, rest := buf[..i], buf[i + 1..];
        Assoc(w.out, Line(rules, line).line + [NEWLINE], Ready(rules, rest));
        buf := rest;
        ok := Emit(line, [NEWLINE]);
        if !ok {
          return;
        }
      }
    }

    /** Emits a buffered last line. */
    method Flush() returns (ok: bool)
      modifies this, w
      ensures w.broken == (old(w.broken) || !ok)
      ensures ok ==> w.out == old(w.out) + Line(rules, old(buf)).line && buf == []
      ensures ok ==> N == old(N) + if Line(rules, old(buf)).redacted then 1 else 0
      ensures !ok ==> old(w.out) <= w.out <= old(w.out) + Line(rules, old(buf)).line
    {
      if buf == [] {
        assert w.out + [] == w.out;
        return true;
      }
      var line := buf;
      buf := [];
      assert Line(rules, line).line + [] == Line(rules, line).line;
      ok := Emit(line, []);
    }
  }

  function Concat(chunks: seq<bytes>): bytes {
    if chunks == [] then [] else Concat(chunks[..|chunks| - 1]) + chunks[|chunks| - 1]
  }

  lemma {:induction false} ConcatPrefix(chunks: seq<bytes>, k: nat)
    requires k <= |chunks|
    ensures Concat(chunks[..k]) <= Concat(chunks)
    decreases |chunks|
  {
    if k < |chunks| {
      var init := chunks[..|chunks| - 1];
      assert init[..k] == chunks[..k];
      ConcatPrefix(init, k);
    } else {
      assert chunks[..k] == chunks;
    }
  }

  /** What is emitted for the beginning of a text begins what is emitted for all of it. */
  lemma ReadyBegins(rules: Rules, s: bytes, t: bytes)
    requires s <= t
    ensures Ready(rules, s) <= Redacted(rules, t)
  {
    var rest := t[|s|..];
    assert t == s + rest;
    Pieces(rules, s, rest);
    RedactedIsReady(rules, t);
    Assoc(Ready(rules, s), Ready(rules, Tail(s) + rest), Line(rules, Tail(t)).line);
  }

  /** A capture session: any number of writes, then a flush. Unless a write failed, the
      output is the redacted text and the count that of its redacted lines, however the
      text was cut into pieces; otherwise it is the beginning of the redacted text. */
  method Session(rules: Rules, chunks: seq<bytes>, w: Sink) returns (ok: bool, n: nat)
    requires w.out == []
    modifies w
    ensures w.broken == (old(w.broken) || !ok)
    ensures ok ==> w.out == Redacted(rules, Concat(chunks))
    ensures ok ==> n == CountRedacted(rules, Split(Concat(chunks)))
    ensures w.out <= Redacted(rules, Concat(chunks))
  {
    var rw := new Writer(rules, w);
    n := 0;
    assert chunks[..0] == [];
    for i := 0 to |chunks|
      invariant rw.rules == rules && rw.w == w && w.broken == old(w.broken)
      invariant var s := Concat(chunks[..i]);
                w.out == Ready(rules, s) && rw.buf == Tail(s) && rw.N == ReadyCount(rules, s)
    {
      Pieces(rules, Concat(chunks[..i]), chunks[i]);
      assert chunks[..i + 1][..i] == chunks[..i];
      ConcatPrefix(chunks, i + 1);
      ReadyBegins(rules, Concat(chunks[..i + 1]), Concat(chunks));
      ok := rw.Write(chunks[i]);
      if !ok {
        return;
      }
    }
    assert chunks[..|chunks|] == chunks;
    RedactedIsReady(rules, Concat(chunks));
    ok := rw.Flush();
    n := rw.N;
  }
}
