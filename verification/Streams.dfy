/** The reader a stream copier consumes and the writer it appends to. */
module Streams {
  import opened Bytes

  datatype ReadStatus = Full | AtEnd | Short | Failed

  class Source {
    const data: bytes
    const end: End
    var pos: nat

    constructor (data: bytes, end: End)
      ensures this.data == data && this.end == end && pos == 0
    {
      this.data, this.end, pos := data, end, 0;
    }

    predicate Valid()
      reads this
    {
      pos <= |data|
    }

    function Rest(): bytes
      requires Valid()
      reads this
    {
      data[pos..]
    }

    // What a read that wants more than the remaining bytes reports.
    function Shortage(): ReadStatus
      requires Valid()
      reads this
    {
      if end.Broken? then Failed else if pos == |data| then AtEnd else Short
    }

    /** Fill b[..k]; on a short read everything left is consumed. */
    method ReadFull(b: array<byte>, k: nat) returns (st: ReadStatus)
      requires Valid() && k <= b.Length
      modifies this, b
      ensures Valid()
      ensures st.Full? <==> k <= |old(Rest())|
      ensures st.Full? ==> b[..k] == old(Rest())[..k] && Rest() == old(Rest())[k..] && pos == old(pos) + k
      ensures !st.Full? ==> st == old(Shortage()) && Rest() == []
    {
      if k <= |data| - pos {
        forall i | 0 <= i < k {
          b[i] := data[pos + i];
        }
        pos := pos + k;
        st := Full;
      } else {
        forall i | 0 <= i < |data| - pos {
          b[i] := data[pos + i];
        }
        st := Shortage();
        pos := |data|;
      }
    }

    /** Consume everything up to and including the first NUL; found is whether there is one. */
    method ReadThroughNul() returns (line: bytes, found: bool)
      requires Valid()
      modifies this
      ensures Valid()
      ensures var x, j := old(Rest()), FirstNul(old(Rest()), 0);
              && (found <==> j < |x|)
              && line == (if found then x[..j + 1] else x)
              && Rest() == x[|line|..] && pos == old(pos) + |line|
    {
      var i := pos;
      while i < |data| && data[i] != 0
        invariant pos <= i <= |data|
        invariant FirstNul(data[pos..], 0) == FirstNul(data[pos..], i - pos)
      {
        i := i + 1;
      }
      found := i < |data|;
      var n := if found then i + 1 else i;
      line := data[pos..n];
      pos := n;
    }

    /** Consume up to k bytes and return them. */
    method ReadUpTo(k: nat) returns (p: bytes)
      requires Valid()
      modifies this
      ensures Valid()
      ensures p == old(Rest())[..if k <= |old(Rest())| then k else |old(Rest())|]
      ensures Rest() == old(Rest())[|p|..] && pos == old(pos) + |p|
    {
      var n := if k <= |data| - pos then k else |data| - pos;
      p := data[pos..pos + n];
      pos := pos + n;
    }
  }

  /** A destination. Any write may fail, after taking any part of what it was given; `broken`
      says whether one has. */
  class Sink {
    var out: bytes
    ghost var broken: bool

    constructor ()
      ensures out == [] && !broken
    {
      out, broken := [], false;
    }

    method Write(p: bytes) returns (ok: bool)
      modifies this
      ensures ok ==> out == old(out) + p
      ensures !ok ==> old(out) <= out <= old(out) + p
      ensures broken == (old(broken) || !ok)
    {
      ok := *;
      broken := broken || !ok;
      if ok {
        out := out + p;
      } else {
        var n :| 0 <= n <= |p|;
        out := out + p[..n];
      }
    }
  }
}
