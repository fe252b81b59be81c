/**
 Bundles on the local disk: size-capped writes, files replaced atomically, and the
 two ways to read a gzipped tar member, counting its entries or unpacking them.
 Compression and tar headers are abstracted to a list of entries and to how the
 member ends; the disk may fail at any operation and reads come in chunks of any size.
 */
module Archive {
  import opened Bytes

  // ------------------------------------------------------------------- members

  type Positive = n: int | n > 0 witness 1

  datatype Kind = Regular | Other

  datatype Entry = Entry(name: string, kind: Kind, body: bytes)

  /** How a member ends for its reader: complete with a good footer; with a bad or missing
      footer; or in the middle of a header or of an entry's body. */
  datatype Ending =
    | Sealed
    | BadFooter
    | CutHeader
    | CutBody(name: string, kind: Kind, have: bytes, missing: Positive)

  datatype Member = Member(entries: seq<Entry>, ending: Ending)

  function Init<T>(s: seq<T>): seq<T>
    requires s != []
  {
    s[..|s| - 1]
  }

  function Last<T>(s: seq<T>): T
    requires s != []
  {
    s[|s| - 1]
  }

  function CountRegular(es: seq<Entry>): nat {
    if es == [] then 0 else CountRegular(Init(es)) + if Last(es).kind.Regular? then 1 else 0
  }

  // ---------------------------------------------------------------- file names

  function TrimSlashes(path: string): string {
    if path != "" && Last(path) == '/' then TrimSlashes(Init(path)) else path
  }

  // What follows the last slash.
  function LastPart(path: string): string {
    if path == "" || Last(path) == '/' then "" else LastPart(Init(path)) + [Last(path)]
  }

  /** The last element of a path, as filepath.Base has it. */
  function Base(path: string): string {
    if path == "" then "."
    else if LastPart(TrimSlashes(path)) == "" then "/"
    else LastPart(TrimSlashes(path))
  }

  lemma {:induction false} LastPartHasNoSlash(path: string)
    ensures '/' !in LastPart(path)
  {
    if path != "" && Last(path) != '/' {
      LastPartHasNoSlash(Init(path));
    }
  }

  // A base name is a single path element.
  lemma BaseIsOneElement(path: string)
    ensures Base(path) != "" && (Base(path) == "/" || '/' !in Base(path))
  {
    LastPartHasNoSlash(TrimSlashes(path));
  }

  predicate OnlySlashes(s: string) {
    forall i :: 0 <= i < |s| ==> s[i] == '/'
  }

  lemma {:induction false} TrimOnlySlashes(path: string, s: string)
    requires OnlySlashes(s)
    ensures TrimSlashes(path + s) == TrimSlashes(path)
    decreases |s|
  {
    if s == "" {
      assert path + s == path;
    } else {
      assert Init(path + s) == path + Init(s);
      TrimOnlySlashes(path, Init(s));
    }
  }

  lemma {:induction false} LastPartBehind(dir: string, b: string)
    requires '/' !in b && (dir == "" || Last(dir) == '/')
    ensures LastPart(dir + b) == b
    decreases |b|
  {
    if b == "" {
      assert dir + b == dir;
    } else {
      assert Last(b) in b && Init(dir + b) == dir + Init(b);
      assert forall c :: c in Init(b) ==> c in b;
      LastPartBehind(dir, Init(b));
    }
  }

  /** What a base name is, for every path: the element behind the last slash that has one,
      whatever directories are before it and however many slashes follow; "/" for a path of
      slashes, and "." for none. */
  lemma BaseOf(dir: string, b: string, slashes: string)
    requires '/' !in b && (dir == "" || Last(dir) == '/') && OnlySlashes(slashes)
    ensures b != "" ==> Base(dir + b + slashes) == b
    ensures Base("") == "." && (slashes != "" ==> Base(slashes) == "/")
  {
    TrimOnlySlashes(dir + b, slashes);
    TrimOnlySlashes("", slashes);
    assert "" + slashes == slashes;
    if b != "" {
      assert Last(dir + b) == Last(b) && Last(b) in b;
      assert TrimSlashes(dir + b) == dir + b;
      LastPartBehind(dir, b);
    }
  }

  /** The directory after unpacking: each regular entry, in order, under its base name. */
  function Unpacked(files: map<string, bytes>, es: seq<Entry>): map<string, bytes> {
    if es == [] then files
    else if Last(es).kind.Regular? then Unpacked(files, Init(es))[Base(Last(es).name) := Last(es).body]
    else Unpacked(files, Init(es))
  }

  /** The last regular entry that unpacks to name n, if any. */
  function LastWriter(es: seq<Entry>, n: string): seq<Entry> {
    if es == [] then []
    else if Last(es).kind.Regular? && Base(Last(es).name) == n then [Last(es)]
    else LastWriter(Init(es), n)
  }

  /** Unpacking is last-wins: a name holds the body of the last entry that unpacks to it,
      and is untouched if there is none. */
  lemma {:induction false} UnpackedLastWins(files: map<string, bytes>, es: seq<Entry>, n: string)
    ensures var u, w := Unpacked(files, es), LastWriter(es, n);
            if w == [] then (n in u <==> n in files) && (n in u ==> u[n] == files[n])
            else n in u && u[n] == w[0].body
  {
    if es != [] {
      UnpackedLastWins(files, Init(es), n);
    }
  }

  predicate WritesTo(e: Entry, n: string) {
    e.kind.Regular? && Base(e.name) == n
  }

  /** The same by position: some entry writes to n and none behind it does, and its body is
      there; or none does. */
  lemma {:induction false} LastOneStays(files: map<string, bytes>, es: seq<Entry>, n: string)
    ensures var u := Unpacked(files, es);
            if exists i :: 0 <= i < |es| && WritesTo(es[i], n) then
              exists i :: 0 <= i < |es| && WritesTo(es[i], n) && (forall j :: i < j < |es| ==> !WritesTo(es[j], n)) &&
                          n in u && u[n] == es[i].body
            else (n in u <==> n in files) && (n in u ==> u[n] == files[n])
  {
    if es != [] {
      var k := |es| - 1;
      if WritesTo(es[k], n) {
        assert 0 <= k < |es| && WritesTo(es[k], n);
      } else {
        LastOneStays(files, Init(es), n);
        if i :| 0 <= i < |es| && WritesTo(es[i], n) {
          assert 0 <= i < |Init(es)| && WritesTo(Init(es)[i], n);
          var j :| 0 <= j < |Init(es)| && WritesTo(Init(es)[j], n) &&
                   (forall l :: j < l < |Init(es)| ==> !WritesTo(Init(es)[l], n)) &&
                   Unpacked(files, Init(es))[n] == Init(es)[j].body;
          assert WritesTo(es[j], n) && forall l :: j < l < |es| ==> l == k || es[l] == Init(es)[l];
        } else {
          assert forall i :: 0 <= i < |Init(es)| ==> Init(es)[i] == es[i];
        }
      }
    }
  }

  // The positions of regular entries.
  function Regulars(es: seq<Entry>): set<nat> {
    set i: nat | i < |es| && es[i].kind.Regular?
  }

  lemma {:induction false} CountIsOfRegulars(es: seq<Entry>)
    ensures CountRegular(es) == |Regulars(es)|
  {
    if es != [] {
      var k := |es| - 1;
      CountIsOfRegulars(Init(es));
      assert forall i: nat :: i < k ==> Init(es)[i] == es[i];
      assert Regulars(es) == Regulars(Init(es)) + (if es[k].kind.Regular? then {k} else {});
    }
  }

  function BaseNames(es: seq<Entry>): seq<string> {
    if es == [] then []
    else if Last(es).kind.Regular? then BaseNames(Init(es)) + [Base(Last(es).name)]
    else BaseNames(Init(es))
  }

  /** Both ways of reading a member find the same number of artifacts. */
  lemma {:induction false} NamesCounted(es: seq<Entry>)
    ensures |BaseNames(es)| == CountRegular(es)
  {
    if es != [] {
      NamesCounted(Init(es));
    }
  }

  /** The paths returned are the base names of the regular entries, in order. */
  lemma {:induction false} NamesInOrder(es: seq<Entry>, i: nat)
    requires i < |es| && es[i].kind.Regular?
    ensures var k := CountRegular(es[..i]); k < |BaseNames(es)| && BaseNames(es)[k] == Base(es[i].name)
  {
    NamesCounted(es);
    if i == |es| - 1 {
      assert es[..i] == Init(es);
      NamesCounted(Init(es));
    } else {
      assert Init(es)[..i] == es[..i];
      NamesInOrder(Init(es), i);
    }
  }

  // ------------------------------------------------------------------ the disk

  predicate SameBut(a: map<string, bytes>, b: map<string, bytes>, tmp: string) {
    a - {tmp} == b - {tmp}
  }

  /** One directory, and the names in it that are directories themselves: itself, its
      parent and maybe others, which no file can replace. Every operation may fail; `log`
      records the directory after each, `failed` whether any has failed. */
  class Disk {
    var files: map<string, bytes>
    const dirs: set<string>
    ghost var log: seq<map<string, bytes>>
    ghost var failed: bool

    predicate Valid()
      reads this
    {
      {".", "..", "/"} <= dirs
    }

    method CreateTemp(base: string) returns (ok: bool, tmp: string)
      modifies this
      ensures ok ==> tmp !in old(files) && tmp !in dirs && tmp != base && files == old(files)[tmp := []]
      ensures !ok ==> files == old(files)
      ensures log == old(log) + [files] && failed == (old(failed) || !ok)
    {
      var random: string := *;
      tmp := "." + base + "." + random + ".tmp";
      assert |tmp| > |base|;
      ok := *;
      ok := ok && tmp !in files && tmp !in dirs;
      if ok {
        files := files[tmp := []];
      }
      log, failed := log + [files], failed || !ok;
    }

    method Append(tmp: string, p: bytes) returns (ok: bool)
      requires tmp in files
      modifies this
      ensures SameBut(files, old(files), tmp) && tmp in files
      ensures ok ==> files[tmp] == old(files)[tmp] + p
      ensures !ok ==> |files[tmp]| <= |old(files)[tmp]| + |p|
      ensures log == old(log) + [files] && failed == (old(failed) || !ok)
    {
      ok := *;
      var n :| 0 <= n <= |p|;
      files := files[tmp := files[tmp] + if ok then p else p[..n]];
      log, failed := log + [files], failed || !ok;
    }

    // Chmod, Sync and Close do not change contents.
    method Touch() returns (ok: bool)
      modifies this`log, this`failed
      ensures log == old(log) + [files] && failed == (old(failed) || !ok)
    {
      ok := *;
      log, failed := log + [files], failed || !ok;
    }

    method Rename(tmp: string, name: string) returns (ok: bool)
      requires tmp in files
      modifies this
      ensures ok ==> name !in dirs && files == (old(files) - {tmp})[name := old(files)[tmp]]
      ensures !ok ==> files == old(files)
      ensures log == old(log) + [files] && failed == (old(failed) || !ok)
    {
      ok := *;
      ok := ok && name !in dirs;
      if ok {
        files := (files - {tmp})[name := files[tmp]];
      }
      log, failed := log + [files], failed || !ok;
    }

    method Remove(tmp: string) returns (ok: bool)
      modifies this
      ensures files == if ok then old(files) - {tmp} else old(files)
      ensures log == old(log) + [files] && failed == (old(failed) || !ok)
    {
      ok := *;
      if ok {
        files := files - {tmp};
      }
      log, failed := log + [files], failed || !ok;
    }
  }

  // ------------------------------------------------------------------ size caps

  class Limiter {
    var remaining: nat

    constructor (max: nat)
      ensures remaining == max
    {
      remaining := max;
    }
  }

  // The bytes that may still be written, if there is a limit.
  datatype Budget = Unlimited | AtMost(n: nat) {
    predicate Allows(k: nat) {
      Unlimited? || k <= n
    }

    function Less(k: nat): Budget
      requires Allows(k)
    {
      if Unlimited? then this else AtMost(n - k)
    }
  }

  function BudgetOf(lim: Limiter?): Budget
    reads lim
  {
    if lim == null then Unlimited else AtMost(lim.remaining)
  }

  // A cap that is not positive is none.
  function Cap(max: int): Budget {
    if max <= 0 then Unlimited else AtMost(max)
  }

  method NewLimiter(max: int) returns (lim: Limiter?)
    ensures BudgetOf(lim) == Cap(max)
    ensures lim != null ==> fresh(lim)
  {
    if max <= 0 {
      return null;
    }
    lim := new Limiter(max);
  }

  datatype Outcome = Ok | TooLarge | DiskFault | BadInput

  method CapWrite(disk: Disk, tmp: string, lim: Limiter?, p: bytes) returns (err: Outcome)
    requires tmp in disk.files
    modifies disk, lim
    ensures SameBut(disk.files, old(disk.files), tmp) && tmp in disk.files
    ensures disk.log == old(disk.log) || disk.log == old(disk.log) + [disk.files]
    ensures disk.failed == (old(disk.failed) || err.DiskFault?)
    ensures err.TooLarge? <==> !old(BudgetOf(lim)).Allows(|p|)
    ensures err.TooLarge? ==> disk.files == old(disk.files) && BudgetOf(lim) == old(BudgetOf(lim))
    ensures !err.TooLarge? ==>
            BudgetOf(lim) == old(BudgetOf(lim)).Less(|p|) && |disk.files[tmp]| <= |old(disk.files)[tmp]| + |p|
    ensures err.Ok? ==> disk.files[tmp] == old(disk.files)[tmp] + p
    ensures !err.BadInput?
  {
    if lim != null {
      if |p| > lim.remaining {
        return TooLarge;
      }
      lim.remaining := lim.remaining - |p|;
    }
    var ok := disk.Append(tmp, p);
    err := if ok then Ok else DiskFault;
  }

  // Only tmp differs, and it is within the budget.
  ghost predicate FillingTmp(h: map<string, bytes>, before: map<string, bytes>, tmp: string, budget: Budget) {
    SameBut(h, before, tmp) && (tmp in h ==> budget.Allows(|h[tmp]|))
  }

  /** Copies data into the empty file tmp, in chunks of any size, then reports whether the
      reader it came from was `whole`. The cap trips exactly if data does not fit, and what
      is written never exceeds it. */
  method CopyInto(disk: Disk, tmp: string, lim: Limiter?, data: bytes, whole: bool) returns (err: Outcome)
    requires tmp in disk.files && disk.files[tmp] == []
    modifies disk, lim
    ensures FillingTmp(disk.files, old(disk.files), tmp, old(BudgetOf(lim))) && tmp in disk.files
    ensures old(disk.log) <= disk.log
    ensures forall i :: |old(disk.log)| <= i < |disk.log| ==>
            FillingTmp(disk.log[i], old(disk.files), tmp, old(BudgetOf(lim)))
    ensures err.Ok? ==> whole && disk.files[tmp] == data
    ensures disk.failed == (old(disk.failed) || err.DiskFault?)
    ensures err.BadInput? ==> !whole
    ensures !err.DiskFault? ==> (err.TooLarge? <==> !old(BudgetOf(lim)).Allows(|data|))
    ensures err.Ok? ==> BudgetOf(lim) == old(BudgetOf(lim)).Less(|data|)
  {
    var pos := 0;
    ghost var files, budget := disk.files, BudgetOf(lim);
    while pos < |data|
      invariant pos <= |data| && tmp in disk.files && disk.files[tmp] == data[..pos]
      invariant SameBut(disk.files, files, tmp) && old(disk.log) <= disk.log && disk.failed == old(disk.failed)
      invariant forall i :: |old(disk.log)| <= i < |disk.log| ==> FillingTmp(disk.log[i], files, tmp, budget)
      invariant budget.Allows(pos) && BudgetOf(lim) == budget.Less(pos)
    {
      var n :| 1 <= n <= |data| - pos;
      err := CapWrite(disk, tmp, lim, data[pos..pos + n]);
      if !err.Ok? {
        return;
      }
      assert data[..pos + n] == data[..pos] + data[pos..pos + n];
      pos := pos + n;
    }
    assert data[..|data|] == data;
    err := if whole then Ok else BadInput;
  }

  // ------------------------------------------------------------ atomic replacement

  /** A directory on the way from `before` to having `name` replaced: either nothing but a
      temporary file differs, or the replacement is complete, which takes a whole input;
      what was written is within the budget. */
  ghost predicate Between(h: map<string, bytes>, before: map<string, bytes>, name: string, data: bytes, whole: bool,
      budget: Budget) {
    || (exists tmp :: tmp !in before && tmp != name && FillingTmp(h, before, tmp, budget))
    || (whole && h == before[name := data] && budget.Allows(|data|))
  }

  // What a failed replacement leaves: nothing, or a temporary file it could not remove.
  ghost predicate Leaves(h: map<string, bytes>, before: map<string, bytes>, cleaned: bool, budget: Budget) {
    if cleaned then h == before else exists tmp :: tmp !in before && FillingTmp(h, before, tmp, budget)
  }

  // A fault is reported, or a temporary file left behind, only if an operation failed.
  predicate Blames(failed: bool, before: bool, err: Outcome, cleaned: bool) {
    (before ==> failed) && (err.DiskFault? || !cleaned ==> failed) && (err.Ok? ==> failed == before)
  }

  method FillAndRename(disk: Disk, name: string, tmp: string, lim: Limiter?, data: bytes, whole: bool)
    returns (err: Outcome)
    requires tmp in disk.files && disk.files[tmp] == [] && tmp != name
    modifies disk, lim
    ensures old(disk.log) <= disk.log
    ensures forall i :: |old(disk.log)| <= i < |disk.log| ==>
              || FillingTmp(disk.log[i], old(disk.files), tmp, old(BudgetOf(lim)))
              || (whole && disk.log[i] == (old(disk.files) - {tmp})[name := data] && old(BudgetOf(lim)).Allows(|data|))
    ensures err.Ok? ==> whole && disk.files == (old(disk.files) - {tmp})[name := data] && name !in disk.dirs
    ensures disk.failed == (old(disk.failed) || err.DiskFault?)
    ensures !err.Ok? ==> FillingTmp(disk.files, old(disk.files), tmp, old(BudgetOf(lim)))
    ensures err.BadInput? ==> !whole
    ensures !err.DiskFault? ==> (err.TooLarge? <==> !old(BudgetOf(lim)).Allows(|data|))
    ensures err.Ok? ==> BudgetOf(lim) == old(BudgetOf(lim)).Less(|data|)
  {
    var ok := disk.Touch(); // chmod
    if !ok {
      return DiskFault;
    }
    err := CopyInto(disk, tmp, lim, data, whole);
    if !err.Ok? {
      return;
    }
    ok := disk.Touch(); // sync
    if !ok {
      return DiskFault;
    }
    ok := disk.Touch(); // close
    if !ok {
      return DiskFault;
    }
    ok := disk.Rename(tmp, name);
    err := if ok then Ok else DiskFault;
  }

  /** Replaces the file `name` by data. At every point the directory is as it was but for
      a temporary file, or `name` has all of data; after an error it is as it was. */
  method WriteFile(disk: Disk, name: string, lim: Limiter?, data: bytes, whole: bool)
    returns (err: Outcome, cleaned: bool)
    modifies disk, lim
    ensures old(disk.log) <= disk.log
    ensures forall i :: |old(disk.log)| <= i < |disk.log| ==>
            Between(disk.log[i], old(disk.files), name, data, whole, old(BudgetOf(lim)))
    ensures err.Ok? ==> cleaned && whole && disk.files == old(disk.files)[name := data] && name !in disk.dirs
    ensures Blames(disk.failed, old(disk.failed), err, cleaned)
    ensures !err.Ok? ==> Leaves(disk.files, old(disk.files), cleaned, old(BudgetOf(lim)))
    ensures err.BadInput? ==> !whole
    ensures !err.DiskFault? ==> (err.TooLarge? <==> !old(BudgetOf(lim)).Allows(|data|))
    ensures err.Ok? ==> BudgetOf(lim) == old(BudgetOf(lim)).Less(|data|)
  {
    ghost var before, start, budget := disk.files, |disk.log|, BudgetOf(lim);
    var ok, tmp := disk.CreateTemp(name);
    if !ok {
      var t := Unused(before, name);
      assert FillingTmp(disk.files, before, t, budget);
      return DiskFault, true;
    }
    ghost var created := disk.files;
    assert created - {tmp} == before;
    err := FillAndRename(disk, name, tmp, lim, data, whole);
    cleaned := err.Ok?;
    if !err.Ok? {
      ok := disk.Touch(); // close
      cleaned := disk.Remove(tmp);
      assert FillingTmp(disk.files, before, tmp, budget);
    }
    forall i | start <= i < |disk.log|
      ensures Between(disk.log[i], before, name, data, whole, budget)
    {
      assert SameBut(disk.log[i], created, tmp) ==> SameBut(disk.log[i], before, tmp);
    }
  }

  // Some name is not in use.
  lemma Unused(files: map<string, bytes>, name: string) returns (t: string)
    ensures t !in files && t != name
  {
    t := Longer(files.Keys + {name});
  }

  lemma {:induction false} Longer(names: set<string>) returns (t: string)
    ensures t !in names && forall n :: n in names ==> |n| < |t|
  {
    if names == {} {
      t := "";
    } else {
      var n :| n in names;
      t := Longer(names - {n});
      var long := if |n| < |t| then t else n + "x";
      assert forall m :: m in names ==> m == n || m in names - {n};
      t := long;
    }
  }

  // ------------------------------------------------------------ reading a member

  /** Counts the regular entries, then drains the member to its end. */
  method CountTarEntries(m: Member) returns (n: nat, ok: bool)
    ensures ok <==> m.ending.Sealed?
    ensures ok ==> n == CountRegular(m.entries)
  {
    n := 0;
    for i := 0 to |m.entries|
      invariant n == CountRegular(m.entries[..i])
    {
      assert Init(m.entries[..i + 1]) == m.entries[..i];
      if m.entries[i].kind.Regular? {
        n := n + 1;
      }
    }
    assert m.entries[..|m.entries|] == m.entries;
    if m.ending.CutBody? && m.ending.kind.Regular? {
      n := n + 1;
    }
    ok := m.ending.Sealed?;
  }

  // How bytes read as a member; any format will do.
  type Decoding = bytes -> Member

  // What was read of `raw` by a reader that stops once it has a complete member, with
  // whatever it read ahead.
  predicate ReadOf(raw: bytes, decode: Decoding, read: nat) {
    read <= |raw| && (read == |raw| || decode(raw[..read]).ending.Sealed?)
  }

  /** Streams the bytes of a member into the file at `name` while counting its entries. Only
      what is read of `raw` is written and drawn from the cap. */
  method Write(disk: Disk, name: string, maxSize: int, raw: bytes, decode: Decoding)
    returns (n: nat, err: Outcome, cleaned: bool, read: nat)
    modifies disk
    ensures ReadOf(raw, decode, read) && old(disk.log) <= disk.log
    ensures Blames(disk.failed, old(disk.failed), err, cleaned)
    ensures var p := raw[..read];
            forall i :: |old(disk.log)| <= i < |disk.log| ==>
              Between(disk.log[i], old(disk.files), name, p, decode(p).ending.Sealed?, Cap(maxSize))
    ensures var p := raw[..read];
            err.Ok? ==> cleaned && n == CountRegular(decode(p).entries) && disk.files == old(disk.files)[name := p]
    ensures !err.Ok? ==> Leaves(disk.files, old(disk.files), cleaned, Cap(maxSize))
    ensures !err.DiskFault? ==> (err.TooLarge? <==> 0 < maxSize < read)
    ensures err.Ok? ==> decode(raw[..read]).ending.Sealed?
    ensures !err.DiskFault? && !err.TooLarge? ==> (err.Ok? <==> decode(raw[..read]).ending.Sealed?)
  {
    read :| 0 <= read <= |raw|;
    if !decode(raw[..read]).ending.Sealed? {
      read := |raw|;
    }
    var lim := NewLimiter(maxSize);
    var ok;
    n, ok := CountTarEntries(decode(raw[..read]));
    err, cleaned := WriteFile(disk, name, lim, raw[..read], ok);
  }

  // The bytes an extraction writes, in all.
  function Bodies(es: seq<Entry>): nat {
    if es == [] then 0 else Bodies(Init(es)) + if Last(es).kind.Regular? then |Last(es).body| else 0
  }

  function Demand(m: Member): nat {
    Bodies(m.entries) + if m.ending.CutBody? && m.ending.kind.Regular? then |m.ending.have| else 0
  }

  lemma {:induction false} BodiesGrow(es: seq<Entry>, k: nat)
    requires k <= |es|
    ensures Bodies(es[..k]) <= Bodies(es)
    decreases |es|
  {
    if k < |es| {
      assert Init(es)[..k] == es[..k];
      BodiesGrow(Init(es), k);
    } else {
      assert es[..k] == es;
    }
  }

  // The cap has room for the first k entries.
  ghost predicate RoomFor(es: seq<Entry>, k: nat, cap: Budget) {
    k <= |es| && cap.Allows(Bodies(es[..k]))
  }

  /** A directory at some point of an unpacking: some entries are in place, the next one
      is in place or on its way in a temporary file, all within the cap. */
  ghost predicate MidwayAt(h: map<string, bytes>, before: map<string, bytes>, m: Member, cap: Budget, k: nat) {
    RoomFor(m.entries, k, cap) &&
    var here, room := Unpacked(before, m.entries[..k]), cap.Less(Bodies(m.entries[..k]));
    if k < |m.entries| then Between(h, here, Base(m.entries[k].name), m.entries[k].body, true, room)
    else m.ending.CutBody? && Between(h, here, Base(m.ending.name), m.ending.have, false, room)
  }

  ghost predicate Midway(h: map<string, bytes>, before: map<string, bytes>, m: Member, cap: Budget) {
    exists k :: MidwayAt(h, before, m, cap, k)
  }

  ghost predicate AllMidway(log: seq<map<string, bytes>>, from: nat, before: map<string, bytes>, m: Member,
      cap: Budget) {
    forall i :: from <= i < |log| ==> Midway(log[i], before, m, cap)
  }

  // The operations on entry k keep the directory midway.
  lemma StaysMidway(log: seq<map<string, bytes>>, from: nat, mid: nat, before: map<string, bytes>, m: Member,
      cap: Budget, k: nat)
    requires from <= mid <= |log| && AllMidway(log[..mid], from, before, m, cap)
    requires forall i :: mid <= i < |log| ==> MidwayAt(log[i], before, m, cap, k)
    ensures AllMidway(log, from, before, m, cap)
  {
    forall i | from <= i < |log|
      ensures Midway(log[i], before, m, cap)
    {
      if i < mid {
        assert Midway(log[..mid][i], before, m, cap);
      } else {
        assert MidwayAt(log[i], before, m, cap, k);
      }
    }
  }

  /** What a failed unpacking leaves: some entries and nothing of the next, or the part of
      it that was written to a temporary file; all that was written is within the cap. */
  ghost predicate LeavesSome(h: map<string, bytes>, before: map<string, bytes>, es: seq<Entry>, cap: Budget,
      cleaned: bool) {
    exists k: nat :: RoomFor(es, k, cap) && Leaves(h, Unpacked(before, es[..k]), cleaned, cap.Less(Bodies(es[..k])))
  }

  // Writes the file of entry k, or of the entry that is cut short.
  method ExtractEntry(disk: Disk, lim: Limiter?, name: string, body: bytes, whole: bool,
                      ghost m: Member, ghost k: nat, ghost before: map<string, bytes>, ghost from: nat,
                      ghost cap: Budget)
    returns (err: Outcome, cleaned: bool)
    requires RoomFor(m.entries, k, cap) && BudgetOf(lim) == cap.Less(Bodies(m.entries[..k]))
    requires disk.files == Unpacked(before, m.entries[..k])
    requires from <= |disk.log| && AllMidway(disk.log, from, before, m, cap)
    requires if k < |m.entries| then name == Base(m.entries[k].name) && body == m.entries[k].body && whole
             else m.ending.CutBody? && name == Base(m.ending.name) && body == m.ending.have && !whole
    modifies disk, lim
    ensures old(disk.log) <= disk.log && AllMidway(disk.log, from, before, m, cap)
    ensures err.Ok? ==> cleaned && whole && disk.files == old(disk.files)[name := body] && name !in disk.dirs
    ensures Blames(disk.failed, old(disk.failed), err, cleaned)
    ensures err.Ok? ==> old(BudgetOf(lim)).Allows(|body|) && BudgetOf(lim) == old(BudgetOf(lim)).Less(|body|)
    ensures !err.Ok? ==> LeavesSome(disk.files, before, m.entries, cap, cleaned)
    ensures err.BadInput? ==> !whole
    ensures !err.DiskFault? ==> (err.TooLarge? <==> !old(BudgetOf(lim)).Allows(|body|))
  {
    ghost var log := disk.log;
    err, cleaned := WriteFile(disk, name, lim, body, whole);
    assert disk.log[..|log|] == log;
    StaysMidway(disk.log, from, |log|, before, m, cap, k);
  }

  /** Unpacks the regular entries, one after the other, under one budget. */
  method ExtractTar(disk: Disk, lim: Limiter?, m: Member) returns (written: seq<string>, err: Outcome, cleaned: bool)
    requires disk.Valid()
    modifies disk, lim
    ensures old(disk.log) <= disk.log
    ensures AllMidway(disk.log, |old(disk.log)|, old(disk.files), m, old(BudgetOf(lim)))
    ensures Blames(disk.failed, old(disk.failed), err, cleaned)
    ensures err.Ok? ==> forall e :: e in m.entries && e.kind.Regular? ==> Base(e.name) !in {".", "..", "/"}
    ensures err.Ok? ==> disk.files == Unpacked(old(disk.files), m.entries) && written == BaseNames(m.entries)
    ensures err.Ok? ==> cleaned && RoomFor(m.entries, |m.entries|, old(BudgetOf(lim)))
    ensures !err.Ok? ==> LeavesSome(disk.files, old(disk.files), m.entries, old(BudgetOf(lim)), cleaned)
    ensures !err.DiskFault? ==> (err.TooLarge? <==> !old(BudgetOf(lim)).Allows(Demand(m)))
    ensures !err.DiskFault? && !err.TooLarge? ==> (err.Ok? <==> m.ending.Sealed? || m.ending.BadFooter?)
  {
    ghost var cap, es, before, from := BudgetOf(lim), m.entries, disk.files, |disk.log|;
    written, cleaned := [], true;
    assert es[..0] == [];
    for i := 0 to |m.entries|
      invariant disk.files == Unpacked(before, es[..i]) && written == BaseNames(es[..i])
      invariant RoomFor(es, i, cap) && BudgetOf(lim) == cap.Less(Bodies(es[..i]))
      invariant disk.Valid() && old(disk.log) <= disk.log && AllMidway(disk.log, from, before, m, cap)
      invariant cleaned && disk.failed == old(disk.failed)
      invariant forall e :: e in es[..i] && e.kind.Regular? ==> Base(e.name) !in {".", "..", "/"}
    {
      var e := m.entries[i];
      assert Init(es[..i + 1]) == es[..i] && Last(es[..i + 1]) == e;
      if e.kind.Regular? {
        err, cleaned := ExtractEntry(disk, lim, Base(e.name), e.body, true, m, i, before, from, cap);
        BodiesGrow(es, i + 1);
        if !err.Ok? {
          return;
        }
        written := written + [Base(e.name)];
      }
    }
    assert es[..|es|] == es;
    if m.ending.CutBody? && m.ending.kind.Regular? {
      err, cleaned := ExtractEntry(disk, lim, Base(m.ending.name), m.ending.have, false, m, |es|, before, from, cap);
      return;
    }
    cleaned := true;
    err := if m.ending.Sealed? || m.ending.BadFooter? then Ok else BadInput;
  }

  /** Nothing is added or returned but names of files in the directory itself. */
  ghost predicate PlainNames(before: map<string, bytes>, files: map<string, bytes>, written: seq<string>) {
    && (forall n :: n in files && n !in before ==> '/' !in n)
    && (forall i :: 0 <= i < |written| ==> '/' !in written[i])
  }

  lemma {:induction false} UnpackedPlain(files: map<string, bytes>, es: seq<Entry>)
    ensures (forall e :: e in es && e.kind.Regular? ==> Base(e.name) !in {".", "..", "/"}) ==>
            PlainNames(files, Unpacked(files, es), BaseNames(es))
  {
    if es != [] {
      UnpackedPlain(files, Init(es));
      BaseIsOneElement(Last(es).name);
      assert forall e :: e in Init(es) ==> e in es;
      assert Last(es) in es;
    }
  }

  /** Unpacks the regular entries under one shared cap and drains the member to its end.
      On success the directory is the last-wins unpacking of all entries; otherwise that
      of some of them, with no trace of the one that failed if its temporary file could
      be removed. */
  method Extract(disk: Disk, maxSize: int, m: Member) returns (written: seq<string>, err: Outcome, cleaned: bool)
    requires disk.Valid()
    modifies disk
    ensures old(disk.log) <= disk.log
    ensures AllMidway(disk.log, |old(disk.log)|, old(disk.files), m, Cap(maxSize))
    ensures Blames(disk.failed, old(disk.failed), err, cleaned)
    ensures err.Ok? ==> PlainNames(old(disk.files), disk.files, written)
    ensures err.Ok? ==> forall e :: e in m.entries && e.kind.Regular? ==> Base(e.name) !in {".", "..", "/"}
    ensures err.Ok? ==> m.ending.Sealed? && cleaned
    ensures err.Ok? ==> disk.files == Unpacked(old(disk.files), m.entries) && written == BaseNames(m.entries)
    ensures !err.Ok? ==> LeavesSome(disk.files, old(disk.files), m.entries, Cap(maxSize), cleaned)
    ensures !err.DiskFault? ==> (err.TooLarge? <==> 0 < maxSize < Demand(m))
    ensures !err.DiskFault? && !err.TooLarge? ==> (err.Ok? <==> m.ending.Sealed?)
  {
    var lim := NewLimiter(maxSize);
    written, err, cleaned := ExtractTar(disk, lim, m);
    UnpackedPlain(old(disk.files), m.entries);
    if err.Ok? && !m.ending.Sealed? {
      assert m.entries[..|m.entries|] == m.entries;
      err, cleaned := BadInput, true;
    }
  }
}
