/**
A TA calls a plugin in the normal world: request and response share one buffer and one
length. The TA side is `LoadablePluginCommand`, the plugin side `PluginParameters`.
*/
module Plugin {
  import opened Base
  import opened BoundedBuffer

  /** What a plugin may do with its parameters. `Scribble` is a write through the unsafe mutable buffer. */
  datatype PluginOp =
    | WriteOutputAt(pos: nat, data: Bytes)
    | SetOutLen(length: nat)
    | Scribble(pos: nat, data: Bytes)

  /** `PluginParameters`: the buffer, and the output length if the caller wants one. */
  class PluginParameters {
    const buf: array<u8>
    var outLen: Option<nat>

    constructor (buf: array<u8>, outLen: Option<nat>)
      ensures this.buf == buf && this.outLen == outLen
    {
      this.buf, this.outLen := buf, outLen;
    }

    /** Pointers are refused if a length or an output comes without a buffer; no buffer at all is an empty one. */
    static method FromRaw(buf: array?<u8>, inLen: nat, outLen: Option<nat>) returns (p: PluginParameters?)
      requires buf != null ==> inLen == buf.Length
      ensures p == null <==> buf == null && (inLen != 0 || outLen.Some?)
      ensures p != null ==> fresh(p) && p.outLen == outLen && p.buf.Length == inLen && (buf != null ==> p.buf == buf)
    {
      if (inLen != 0 || outLen.Some?) && buf == null { return null; }
      if buf == null {
        var empty := new u8[0];
        p := new PluginParameters(empty, outLen);
      } else {
        p := new PluginParameters(buf, outLen);
      }
    }

    ghost function View(): Buffer
      reads this, buf
      requires outLen.Some?
    {
      Buffer(buf[..], outLen.value)
    }

    /** Writes and length move together; without an output length nothing may be written. */
    method WriteOutputAt(pos: nat, data: Bytes) returns (ok: bool)
      modifies this, buf
      ensures outLen.Some? <==> old(outLen).Some?
      ensures old(outLen).Some? ==> (View(), ok) == Apply(old(View()), Write(pos, data))
      ensures old(outLen).None? ==> !ok && buf[..] == old(buf[..])
    {
      if outLen.None? { return false; }
      var end := pos + |data|;
      if buf.Length < end { return false; }
      forall i | 0 <= i < |data| {
        buf[pos + i] := data[i];
      }
      outLen := Some(end);
      assert buf[..] == old(buf[..])[..pos] + data + old(buf[..])[end..];
      ok := true;
    }

    method SetBufFromSlice(data: Bytes) returns (ok: bool)
      modifies this, buf
      ensures outLen.Some? <==> old(outLen).Some?
      ensures old(outLen).Some? ==> (View(), ok) == Apply(old(View()), Write(0, data))
      ensures old(outLen).None? ==> !ok && buf[..] == old(buf[..])
    {
      ok := WriteOutputAt(0, data);
    }

    method SetOutLen(length: nat) returns (ok: bool)
      modifies this`outLen
      ensures outLen.Some? <==> old(outLen).Some?
      ensures old(outLen).Some? ==> (View(), ok) == Apply(old(View()), SetSize(length))
      ensures old(outLen).None? ==> !ok
    {
      if length > buf.Length { return false; }
      if outLen.None? { return false; }
      outLen := Some(length);
      ok := true;
    }
  }

  // ------------------------------------------------------------ the plugin's side

  function PluginStep(b: Buffer, op: PluginOp): (r: Buffer)
    ensures |r.bytes| == |b.bytes|
    ensures b.size <= |b.bytes| ==> r.size <= |r.bytes|
  {
    match op
    case WriteOutputAt(pos, data) => Apply(b, Write(pos, data)).0
    case SetOutLen(length) => Apply(b, SetSize(length)).0
    case Scribble(pos, data) => b.(bytes := Apply(b, Write(pos, data)).0.bytes)
  }

  ghost function PluginRun(b: Buffer, ops: seq<PluginOp>): (r: Buffer)
    ensures |r.bytes| == |b.bytes|
    ensures b.size <= |b.bytes| ==> r.size <= |r.bytes|
  {
    if ops == [] then b else PluginStep(PluginRun(b, ops[..|ops| - 1]), ops[|ops| - 1])
  }

  ghost function EndOf(op: PluginOp): nat {
    match op
    case WriteOutputAt(pos, data) => pos + |data|
    case SetOutLen(length) => length
    case Scribble(_, _) => 0
  }

  /** The operation succeeds and reports a length. */
  ghost predicate Reports(op: PluginOp, capacity: nat) {
    !op.Scribble? && EndOf(op) <= capacity
  }

  ghost predicate LastReport(ops: seq<PluginOp>, capacity: nat, i: int) {
    0 <= i < |ops| && Reports(ops[i], capacity) && forall k :: i < k < |ops| ==> !Reports(ops[k], capacity)
  }

  lemma {:induction false} NoReportKeepsLength(b: Buffer, ops: seq<PluginOp>)
    requires forall i :: 0 <= i < |ops| ==> !Reports(ops[i], |b.bytes|)
    ensures PluginRun(b, ops).size == b.size
  {
    if ops != [] {
      NoReportKeepsLength(b, ops[..|ops| - 1]);
    }
  }

  /** The length is the end of the last operation that succeeded; scribbling never changes it. */
  lemma {:induction false} LengthIsLastReport(b: Buffer, ops: seq<PluginOp>, i: int)
    requires LastReport(ops, |b.bytes|, i)
    ensures PluginRun(b, ops).size == EndOf(ops[i])
    decreases |ops|
  {
    var n := |ops| - 1;
    var before := ops[..n];
    if i < n {
      assert !Reports(ops[n], |b.bytes|);
      assert forall k :: 0 <= k < n ==> before[k] == ops[k];
      LengthIsLastReport(b, before, i);
    }
  }

  /** The writes among the operations, through whichever of the two ways. */
  ghost function WritesOf(ops: seq<PluginOp>): seq<Edit> {
    if ops == [] then [] else
    var rest := WritesOf(ops[..|ops| - 1]);
    match ops[|ops| - 1]
    case WriteOutputAt(pos, data) => rest + [Write(pos, data)]
    case Scribble(pos, data) => rest + [Write(pos, data)]
    case SetOutLen(_) => rest
  }

  /** The bytes are those the writes leave: each that of the last write within the buffer to cover it. */
  lemma {:induction false} BytesAreWrites(b: Buffer, ops: seq<PluginOp>)
    ensures PluginRun(b, ops).bytes == Run(b, WritesOf(ops)).bytes
  {
    if ops != [] {
      var before := ops[..|ops| - 1];
      BytesAreWrites(b, before);
      var writes := WritesOf(ops);
      if !ops[|ops| - 1].SetOutLen? {
        assert writes[..|writes| - 1] == WritesOf(before);
        SameBytes(PluginRun(b, before), Run(b, WritesOf(before)), writes[|writes| - 1]);
      }
    }
  }

  lemma SameBytes(b: Buffer, c: Buffer, e: Edit)
    requires b.bytes == c.bytes
    ensures Apply(b, e).0.bytes == Apply(c, e).0.bytes
  {
  }

  // ---------------------------------------------------------------- the TA's side

  /** The other side of a call: a plugin using `PluginParameters`, other code leaving buffer and length, or an error. */
  datatype Behaviour = Rust(ops: seq<PluginOp>) | Foreign(memory: Bytes, outLen: nat) | Fails

  datatype Response = Answer(bytes: Bytes) | PluginFailed | ShortBuffer

  /** `LoadablePluginCommand`: a vector with its reserved capacity. */
  class LoadablePluginCommand {
    var buffer: Bytes
    var capacity: nat

    ghost predicate Valid()
      reads this
    {
      |buffer| <= capacity
    }

    /** `reserved` is what the allocator grants, at least what is asked for. */
    constructor (asked: nat, reserved: nat)
      requires reserved >= asked
      ensures Valid() && buffer == [] && capacity == reserved
    {
      buffer, capacity := [], reserved;
    }

    /** The buffer grows only when the data does not fit. */
    method WriteBody(data: Bytes, grown: nat)
      requires Valid() && grown >= |buffer| + |data|
      modifies this
      ensures Valid() && buffer == old(buffer) + data
      ensures capacity == if |old(buffer)| + |data| <= old(capacity) then old(capacity) else grown
    {
      buffer := buffer + data;
      if |buffer| > capacity {
        capacity := grown;
      }
    }

    /**
    `call`. A plugin finds the request followed by zeros up to the capacity, and an output
    length of zero. From a plugin using `PluginParameters` the response is the final
    buffer's first bytes, as many as the last successful operation reported and none if
    there was no such operation; only foreign code can provoke a short buffer.
    */
    method Call(plugin: Behaviour) returns (r: Response)
      requires Valid() && (plugin.Foreign? ==> |plugin.memory| == capacity)
      ensures match plugin
              case Rust(ops) =>
                var left := PluginRun(Buffer(buffer + Zeros(capacity - |buffer|), 0), ops);
                && r == Answer(left.bytes[..left.size])
                && ((forall i :: 0 <= i < |ops| ==> !Reports(ops[i], capacity)) ==> r == Answer([]))
                && (forall i :: LastReport(ops, capacity, i) ==> |r.bytes| == EndOf(ops[i]))
              case Foreign(memory, outLen) => r == if outLen > capacity then ShortBuffer else Answer(memory[..outLen])
              case Fails => r == PluginFailed
    {
      var full := buffer + Zeros(capacity - |buffer|);
      assert |full| == capacity;
      var memory := new u8[capacity];
      forall i | 0 <= i < capacity {
        memory[i] := full[i];
      }
      assert memory[..] == full;
      var outLen: nat := 0;
      match plugin {
        case Rust(ops) =>
          if forall i :: 0 <= i < |ops| ==> !Reports(ops[i], capacity) {
            NoReportKeepsLength(Buffer(full, 0), ops);
          }
          forall i | LastReport(ops, capacity, i) ensures PluginRun(Buffer(full, 0), ops).size == EndOf(ops[i]) {
            LengthIsLastReport(Buffer(full, 0), ops, i);
          }
          var parameters := new PluginParameters(memory, Some(outLen));
          PluginBody(parameters, ops);
          outLen := parameters.outLen.value;
        case Foreign(left, length) =>
          forall i | 0 <= i < capacity {
            memory[i] := left[i];
          }
          assert memory[..] == left;
          outLen := length;
        case Fails => return PluginFailed;
      }
      if outLen > memory.Length { return ShortBuffer; }
      r := Answer(memory[..outLen]);
      assert memory[..outLen] == memory[..][..outLen];
    }
  }

  /** A plugin performing operations through its parameters. */
  method PluginBody(p: PluginParameters, ops: seq<PluginOp>)
    requires p.outLen.Some?
    modifies p, p.buf
    ensures p.outLen.Some? && p.View() == PluginRun(old(p.View()), ops)
  {
    var i := 0;
    assert ops[..0] == [];
    while i < |ops|
      invariant 0 <= i <= |ops|
      invariant p.outLen.Some? && p.View() == PluginRun(old(p.View()), ops[..i])
    {
      assert ops[..i + 1][..i] == ops[..i] && ops[..i + 1][i] == ops[i];
      match ops[i] {
        case WriteOutputAt(pos, data) => var _ := p.WriteOutputAt(pos, data);
        case SetOutLen(length) => var _ := p.SetOutLen(length);
        case Scribble(pos, data) =>
          if pos + |data| <= p.buf.Length {
            ghost var before := p.buf[..];
            forall k | 0 <= k < |data| {
              p.buf[pos + k] := data[k];
            }
            assert p.buf[..] == before[..pos] + data + before[pos + |data|..];
          }
      }
      i := i + 1;
    }
    assert ops[..i] == ops;
  }
}
