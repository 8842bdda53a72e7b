/** A fixed-capacity buffer with a reported size, as checked writers leave it. */
module BoundedBuffer {
  import opened Base

  datatype Buffer = Buffer(bytes: Bytes, size: nat)

  datatype Edit = Write(offset: nat, data: Bytes) | SetSize(size: nat) {
    /** Where the edit ends, which is also the size it reports. */
    function End(): nat { if Write? then offset + |data| else size }

    predicate Covers(j: int) { Write? && offset <= j < offset + |data| }
  }

  /** A write or a new size that would pass the end of the buffer is refused and changes nothing. */
  function Apply(b: Buffer, e: Edit): (r: (Buffer, bool))
    ensures |r.0.bytes| == |b.bytes| && (!r.1 ==> r.0 == b)
    ensures match e
            case Write(offset, data) =>
              && (r.1 <==> offset + |data| <= |b.bytes|)
              && (r.1 ==> r.0.size == offset + |data| && r.0.bytes[offset..offset + |data|] == data)
            case SetSize(size) => (r.1 <==> size <= |b.bytes|) && (r.1 ==> r.0 == Buffer(b.bytes, size))
  {
    if e.End() > |b.bytes| then (b, false)
    else if e.SetSize? then (b.(size := e.size), true)
    else (Buffer(b.bytes[..e.offset] + e.data + b.bytes[e.End()..], e.End()), true)
  }

  ghost function Run(b: Buffer, edits: seq<Edit>): Buffer {
    if edits == [] then b else Apply(Run(b, edits[..|edits| - 1]), edits[|edits| - 1]).0
  }

  /** The `i`-th edit is the last accepted one to cover `j`. */
  ghost predicate LastCovering(edits: seq<Edit>, capacity: nat, i: int, j: int) {
    && 0 <= i < |edits| && Hits(edits[i], capacity, j)
    && forall k :: i < k < |edits| ==> !Hits(edits[k], capacity, j)
  }

  ghost predicate LastAccepted(edits: seq<Edit>, capacity: nat, i: int) {
    && 0 <= i < |edits| && edits[i].End() <= capacity
    && forall k :: i < k < |edits| ==> edits[k].End() > capacity
  }

  /** The edit is accepted and covers `j`. */
  ghost predicate Hits(e: Edit, capacity: nat, j: int) { e.End() <= capacity && e.Covers(j) }

  /** One edit: the bytes it hits are its data's, all others stay. */
  lemma ApplyBytes(b: Buffer, e: Edit, j: int)
    requires 0 <= j < |b.bytes|
    ensures Apply(b, e).0.bytes[j] == if Hits(e, |b.bytes|, j) then e.data[j - e.offset] else b.bytes[j]
  {
  }

  lemma {:induction false} RunBytes(b: Buffer, edits: seq<Edit>, j: int)
    requires 0 <= j < |b.bytes|
    ensures |Run(b, edits).bytes| == |b.bytes|
    ensures forall i :: LastCovering(edits, |b.bytes|, i, j) ==>
                          Run(b, edits).bytes[j] == edits[i].data[j - edits[i].offset]
    ensures (forall i :: 0 <= i < |edits| ==> !Hits(edits[i], |b.bytes|, j)) ==> Run(b, edits).bytes[j] == b.bytes[j]
  {
    if edits != [] {
      var n, cap := |edits| - 1, |b.bytes|;
      var before := edits[..n];
      RunBytes(b, before, j);
      ApplyBytes(Run(b, before), edits[n], j);
      assert forall k :: 0 <= k < n ==> before[k] == edits[k];
      forall i | LastCovering(edits, cap, i, j) ensures Run(b, edits).bytes[j] == edits[i].data[j - edits[i].offset] {
        if i < n {
          assert !Hits(edits[n], cap, j) && LastCovering(before, cap, i, j);
        }
      }
    }
  }

  lemma {:induction false} RunSize(b: Buffer, edits: seq<Edit>)
    ensures |Run(b, edits).bytes| == |b.bytes|
    ensures forall i :: LastAccepted(edits, |b.bytes|, i) ==> Run(b, edits).size == edits[i].End()
    ensures (forall i :: 0 <= i < |edits| ==> edits[i].End() > |b.bytes|) ==> Run(b, edits) == b
  {
    if edits != [] {
      var n, cap := |edits| - 1, |b.bytes|;
      var before := edits[..n];
      RunSize(b, before);
      assert forall k :: 0 <= k < n ==> before[k] == edits[k];
      forall i | LastAccepted(edits, cap, i) ensures Run(b, edits).size == edits[i].End() {
        if i < n {
          assert edits[n].End() > cap && LastAccepted(before, cap, i);
        }
      }
    }
  }

  /**
  After any sequence of edits: the capacity is unchanged; each byte is that of the last
  accepted write covering it, or the original one if none does; and the size is the
  end of the last accepted edit; if none was accepted, nothing has changed.
  */
  lemma LastWriteWins(b: Buffer, edits: seq<Edit>)
    ensures |Run(b, edits).bytes| == |b.bytes|
    ensures forall i, j :: 0 <= j < |b.bytes| && LastCovering(edits, |b.bytes|, i, j) ==>
                             Run(b, edits).bytes[j] == edits[i].data[j - edits[i].offset]
    ensures forall j :: 0 <= j < |b.bytes| && (forall i :: 0 <= i < |edits| ==> !Hits(edits[i], |b.bytes|, j)) ==>
                          Run(b, edits).bytes[j] == b.bytes[j]
    ensures forall i :: LastAccepted(edits, |b.bytes|, i) ==> Run(b, edits).size == edits[i].End()
    ensures (forall i :: 0 <= i < |edits| ==> edits[i].End() > |b.bytes|) ==> Run(b, edits) == b
  {
    RunSize(b, edits);
    forall j | 0 <= j < |b.bytes|
      ensures forall i :: LastCovering(edits, |b.bytes|, i, j) ==>
                          Run(b, edits).bytes[j] == edits[i].data[j - edits[i].offset]
      ensures (forall i :: 0 <= i < |edits| ==> !Hits(edits[i], |b.bytes|, j)) ==> Run(b, edits).bytes[j] == b.bytes[j]
    {
      RunBytes(b, edits, j);
    }
  }

  /** A size within the capacity stays within it. */
  lemma {:induction false} SizeWithinCapacity(b: Buffer, edits: seq<Edit>)
    requires b.size <= |b.bytes|
    ensures |Run(b, edits).bytes| == |b.bytes| && Run(b, edits).size <= |b.bytes|
  {
    if edits != [] {
      SizeWithinCapacity(b, edits[..|edits| - 1]);
    }
  }
}

/** The TA's in-place view of a memory reference: a shared buffer and the size reported back. */
module Memref {
  import opened Base
  import opened BoundedBuffer

  /** `TEE_Param.memref`. */
  class RawMemref {
    const buffer: array<u8>
    var size: nat

    constructor (buffer: array<u8>)
      ensures this.buffer == buffer && size == buffer.Length
    {
      this.buffer, size := buffer, buffer.Length;
    }
  }

  /** `ParameterMemrefOutput` and `ParameterMemrefInout`: the size found at decoding is kept as the capacity. */
  class ParameterMemref {
    const capacity: nat
    const raw: RawMemref

    ghost predicate Valid()
      reads this, raw
    {
      capacity == raw.buffer.Length
    }

    ghost function View(): Buffer
      reads this, raw, raw.buffer
    {
      Buffer(raw.buffer[..], raw.size)
    }

    constructor (raw: RawMemref)
      requires raw.size == raw.buffer.Length
      ensures Valid() && this.raw == raw && View() == Buffer(raw.buffer[..], raw.buffer.Length)
    {
      capacity, this.raw := raw.size, raw;
    }

    method SetUpdatedSize(size: nat) returns (ok: bool)
      requires Valid()
      modifies raw
      ensures Valid() && (View(), ok) == Apply(old(View()), SetSize(size))
    {
      if size > capacity { return false; }
      raw.size := size;
      ok := true;
    }

    method WriteAt(offset: nat, data: Bytes) returns (ok: bool)
      requires Valid()
      modifies raw, raw.buffer
      ensures Valid() && (View(), ok) == Apply(old(View()), Write(offset, data))
    {
      var newSize := offset + |data|;
      if newSize > capacity { return false; }
      forall i | 0 <= i < |data| {
        raw.buffer[offset + i] := data[i];
      }
      raw.size := newSize;
      assert raw.buffer[..] == old(raw.buffer[..offset]) + data + old(raw.buffer[newSize..]);
      ok := true;
    }

    method SetOutput(data: Bytes) returns (ok: bool)
      requires Valid()
      modifies raw, raw.buffer
      ensures Valid() && (View(), ok) == Apply(old(View()), Write(0, data))
    {
      ok := WriteAt(0, data);
    }

    /** Reads cover the whole capacity, whatever size has been reported meanwhile. */
    method ReadToVec() returns (copy: Bytes)
      requires Valid()
      ensures copy == View().bytes && |copy| == capacity
    {
      copy := raw.buffer[..];
    }

    /** Copies as much as is there from `offset` on; only an offset past the end is an error. */
    method ReadAt(offset: nat, dest: array<u8>) returns (count: Option<nat>)
      requires Valid() && dest != raw.buffer
      modifies dest
      ensures View() == old(View())
      ensures count.None? <==> offset > capacity
      ensures count.None? ==> dest[..] == old(dest[..])
      ensures count.Some? ==>
                && count.value == (if dest.Length < capacity - offset then dest.Length else capacity - offset)
                && dest[..] == View().bytes[offset..offset + count.value] + old(dest[..])[count.value..]
    {
      if offset > capacity { return None; }
      var available := capacity - offset;
      var toRead := if dest.Length < available then dest.Length else available;
      forall i | 0 <= i < toRead {
        dest[i] := raw.buffer[offset + i];
      }
      count := Some(toRead);
    }
  }
}
