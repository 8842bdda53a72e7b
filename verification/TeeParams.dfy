/**
Parameters of a call from one TA to another: the caller packs four slots and their
types, the callee decodes them into typed wrappers and writes through those, and the
caller copies sizes and values back. The channel in between is the identity.
*/
module TeeParams {
  import opened Base
  import opened BoundedBuffer

  const PARAM_COUNT := 4

  /** `ParamType`: the seven standard types, and any other code. */
  datatype ParamType =
    | NoneType
    | ValueInputType | ValueOutputType | ValueInoutType
    | MemrefInputType | MemrefOutputType | MemrefInoutType
    | UnknownType(code: bv32)
  {
    predicate IsValue() { ValueInputType? || ValueOutputType? || ValueInoutType? }
    predicate IsMemref() { MemrefInputType? || MemrefOutputType? || MemrefInoutType? }
  }

  function CodeOf(t: ParamType): bv32 {
    match t
    case NoneType => 0
    case ValueInputType => 1
    case ValueOutputType => 2
    case ValueInoutType => 3
    case MemrefInputType => 5
    case MemrefOutputType => 6
    case MemrefInoutType => 7
    case UnknownType(code) => code
  }

  function TypeOf(code: bv32): ParamType {
    if code == 0 then NoneType
    else if code == 1 then ValueInputType
    else if code == 2 then ValueOutputType
    else if code == 3 then ValueInoutType
    else if code == 5 then MemrefInputType
    else if code == 6 then MemrefOutputType
    else if code == 7 then MemrefInoutType
    else UnknownType(code)
  }

  /** The caller's `Param`. A memref buffer is shared with the callee for the time of the call. */
  datatype Slot =
    | Empty
    | MemrefInput(bytes: Bytes)
    | MemrefOutput(bytes: Bytes, written: nat)
    | MemrefInout(bytes: Bytes, written: nat)
    | ValueInput(a: u32, b: u32)
    | ValueOutput(a: u32, b: u32)
    | ValueInout(a: u32, b: u32)
  {
    predicate Sound() { MemrefOutput? || MemrefInout? ==> written <= |bytes| }

    function Type(): ParamType {
      match this
      case Empty => NoneType
      case ValueInput(_, _) => ValueInputType
      case ValueOutput(_, _) => ValueOutputType
      case ValueInout(_, _) => ValueInoutType
      case MemrefInput(_) => MemrefInputType
      case MemrefOutput(_, _) => MemrefOutputType
      case MemrefInout(_, _) => MemrefInoutType
    }

    function AsRaw(): RawParam {
      match this
      case Empty => Memref(true, [], 0)
      case MemrefInput(bytes) => Memref(false, bytes, |bytes|)
      case MemrefOutput(bytes, _) => Memref(false, bytes, |bytes|)
      case MemrefInout(bytes, _) => Memref(false, bytes, |bytes|)
      case ValueInput(a, b) => Value(a, b)
      case ValueOutput(a, b) => Value(a, b)
      case ValueInout(a, b) => Value(a, b)
    }

    function WrittenSlice(): Option<Bytes>
      requires Sound()
    {
      if MemrefOutput? || MemrefInout? then Some(bytes[..written]) else None
    }

    function OutputValue(): Option<(u32, u32)> {
      if ValueOutput? || ValueInout? then Some((a, b)) else None
    }
  }

  /** Only what a callee may write is offered as output: bytes of memory references, or values, out or both. */
  lemma OutputsOffered(s: Slot)
    requires s.Sound()
    ensures s.WrittenSlice().Some? <==> s.Type() == MemrefOutputType || s.Type() == MemrefInoutType
    ensures s.OutputValue().Some? <==> s.Type() == ValueOutputType || s.Type() == ValueInoutType
    ensures s.WrittenSlice().Some? ==> |s.WrittenSlice().value| == s.written && s.WrittenSlice().value <= s.bytes
  {
  }

  /** `TEE_Param`: a memref, possibly null, with the memory it points at, or a pair of values. */
  datatype RawParam = Memref(isNull: bool, memory: Bytes, size: nat) | Value(a: u32, b: u32)

  // ------------------------------------------------------------- parameter types

  /** `tag << (i * 4)`, one case per slot. */
  function ShiftedTo(tag: bv32, i: nat): bv32
    requires i < PARAM_COUNT
  {
    if i == 0 then tag else if i == 1 then tag << 4 else if i == 2 then tag << 8 else tag << 12
  }

  /** `(types >> (i * 4)) & 0xF`, one case per slot. */
  function ParamTypeGet(types: bv32, i: nat): bv32
    requires i < PARAM_COUNT
  {
    (if i == 0 then types else if i == 1 then types >> 4 else if i == 2 then types >> 8 else types >> 12) & 0xF
  }

  /** `TEE_PARAM_TYPES`. */
  function ParamTypes(t0: bv32, t1: bv32, t2: bv32, t3: bv32): bv32 {
    t0 | (t1 << 4) | (t2 << 8) | (t3 << 12)
  }

  /** The word of four slots' types. */
  function Packed(slots: seq<Slot>): bv32
    requires |slots| == PARAM_COUNT
  {
    ParamTypes(CodeOf(slots[0].Type()), CodeOf(slots[1].Type()), CodeOf(slots[2].Type()), CodeOf(slots[3].Type()))
  }

  /** Four nibbles packed side by side are read back one by one. */
  lemma NibbleRoundTrip(t0: bv32, t1: bv32, t2: bv32, t3: bv32)
    requires t0 < 16 && t1 < 16 && t2 < 16 && t3 < 16
    ensures var t := ParamTypes(t0, t1, t2, t3);
            ParamTypeGet(t, 0) == t0 && ParamTypeGet(t, 1) == t1 && ParamTypeGet(t, 2) == t2 && ParamTypeGet(t, 3) == t3
  {
  }

  lemma CodeRoundTrip(s: Slot)
    ensures CodeOf(s.Type()) < 16 && TypeOf(CodeOf(s.Type())) == s.Type()
  {
  }

  /** The four types a packed word is read as. */
  function TypesIn(types: bv32): seq<ParamType> {
    [TypeOf(ParamTypeGet(types, 0)), TypeOf(ParamTypeGet(types, 1)),
     TypeOf(ParamTypeGet(types, 2)), TypeOf(ParamTypeGet(types, 3))]
  }

  function TypesOf(slots: seq<Slot>): (types: seq<ParamType>)
    ensures |types| == |slots| && forall i :: 0 <= i < |slots| ==> types[i] == slots[i].Type()
  {
    seq(|slots|, i requires 0 <= i < |slots| => slots[i].Type())
  }

  lemma TypesRoundTrip(slots: seq<Slot>)
    requires |slots| == PARAM_COUNT
    ensures TypesIn(Packed(slots)) == TypesOf(slots)
  {
    CodeRoundTrip(slots[0]);
    CodeRoundTrip(slots[1]);
    CodeRoundTrip(slots[2]);
    CodeRoundTrip(slots[3]);
    NibbleRoundTrip(CodeOf(slots[0].Type()), CodeOf(slots[1].Type()), CodeOf(slots[2].Type()), CodeOf(slots[3].Type()));
  }

  /** The API's numbers: 0 for none, 1 to 3 for values, 5 to 7 for memory references, in, out and both. */
  lemma KnownCodes()
    ensures CodeOf(NoneType) == 0 && CodeOf(ValueInputType) == 1 && CodeOf(ValueOutputType) == 2
    ensures CodeOf(ValueInoutType) == 3 && CodeOf(MemrefInputType) == 5 && CodeOf(MemrefOutputType) == 6
    ensures CodeOf(MemrefInoutType) == 7
  {
  }

  /** Every code but those is unknown and kept, and each type is read from its own code. */
  lemma CodesRoundTrip(code: bv32)
    ensures CodeOf(TypeOf(code)) == code
    ensures TypeOf(code).UnknownType? <==> code == 4 || code > 7
  {
  }

  /** The words of two calls, in the API's numbers. */
  lemma KnownWords(bytes: Bytes, a: u32, b: u32)
    ensures Packed([ValueInput(a, b), MemrefInout(bytes, 0), Empty, ValueOutput(a, b)]) == 0x2071
    ensures Packed([MemrefInput(bytes), MemrefOutput(bytes, 0), ValueInout(a, b), Empty]) == 0x0365
  {
  }

  // -------------------------------------------------------------------- decoding

  datatype Direction = Output | Inout

  /** `ParameterAny`. The memref wrappers that may write remember the size they were decoded with. */
  datatype Parameter =
    | NoParameter
    | ValueReader(a: u32, b: u32)
    | ValueWriter(direction: Direction, raw: RawParam)
    | MemrefReader(raw: RawParam)
    | MemrefWriter(direction: Direction, raw: RawParam, capacity: nat)
    | Unknown(code: bv32, raw: RawParam)

  /** The type says which side of the union is set, as the TEE runtime guarantees. */
  predicate Consistent(t: ParamType, raw: RawParam) {
    (t.IsValue() ==> raw.Value?) && (t.IsMemref() ==> raw.Memref?)
  }

  /** `None` is BadParameters: a null buffer. */
  function FromRaw(t: ParamType, raw: RawParam): Option<Parameter>
    requires Consistent(t, raw)
  {
    match t
    case NoneType => Some(NoParameter)
    case ValueInputType => Some(ValueReader(raw.a, raw.b))
    case ValueOutputType => Some(ValueWriter(Output, raw))
    case ValueInoutType => Some(ValueWriter(Inout, raw))
    case MemrefInputType => if raw.isNull then None else Some(MemrefReader(raw))
    case MemrefOutputType => if raw.isNull then None else Some(MemrefWriter(Output, raw, raw.size))
    case MemrefInoutType => if raw.isNull then None else Some(MemrefWriter(Inout, raw, raw.size))
    case UnknownType(code) => Some(Unknown(code, raw))
  }

  /** Decoding refuses a slot if and only if it is a memory reference that points nowhere. */
  lemma FromRawRefusesIff(t: ParamType, raw: RawParam)
    requires Consistent(t, raw)
    ensures FromRaw(t, raw) == None <==> (t.MemrefInputType? || t.MemrefOutputType? || t.MemrefInoutType?) && raw.isNull
    ensures FromRaw(t, raw).Some? && FromRaw(t, raw).value.MemrefWriter? ==>
              FromRaw(t, raw).value.capacity == raw.size && FromRaw(t, raw).value.raw == raw
  {
  }

  /** ... and a call if and only if it refuses one of its slots. */
  lemma {:induction false} FromRawAllRefusesIff(types: seq<ParamType>, raws: seq<RawParam>, i: nat)
    requires ConsistentAll(types, raws) && i <= |types|
    ensures FromRawAll(types, raws, i) == None <==>
            exists j :: i <= j < |types| && types[j].IsMemref() && raws[j].isNull
    decreases |types| - i
  {
    if i < |types| {
      FromRawAllRefusesIff(types, raws, i + 1);
      FromRawRefusesIff(types[i], raws[i]);
    }
  }

  ghost predicate ConsistentAll(types: seq<ParamType>, raws: seq<RawParam>) {
    |types| == |raws| && forall j :: 0 <= j < |types| ==> Consistent(types[j], raws[j])
  }

  /** The slots from `i` on, or the first error. */
  ghost function FromRawAll(types: seq<ParamType>, raws: seq<RawParam>, i: nat): Option<seq<Parameter>>
    requires ConsistentAll(types, raws) && i <= |types|
    decreases |types| - i
  {
    if i == |types| then Some([]) else
    match FromRaw(types[i], raws[i])
    case None => None
    case Some(p) =>
      match FromRawAll(types, raws, i + 1)
      case None => None
      case Some(ps) => Some([p] + ps)
  }

  /** The wrapper gives the callee the variant, the whole buffer or the values of the slot. */
  predicate Presents(p: Parameter, s: Slot) {
    match s
    case Empty => p == NoParameter
    case ValueInput(a, b) => p == ValueReader(a, b)
    case ValueOutput(a, b) => p == ValueWriter(Output, Value(a, b))
    case ValueInout(a, b) => p == ValueWriter(Inout, Value(a, b))
    case MemrefInput(bytes) => p == MemrefReader(Memref(false, bytes, |bytes|))
    case MemrefOutput(bytes, _) => p == MemrefWriter(Output, Memref(false, bytes, |bytes|), |bytes|)
    case MemrefInout(bytes, _) => p == MemrefWriter(Inout, Memref(false, bytes, |bytes|), |bytes|)
  }

  function RawsOf(slots: seq<Slot>): (raws: seq<RawParam>)
    ensures |raws| == |slots| && forall i :: 0 <= i < |slots| ==> raws[i] == slots[i].AsRaw()
  {
    seq(|slots|, i requires 0 <= i < |slots| => slots[i].AsRaw())
  }

  lemma {:induction false} DecodesFrom(slots: seq<Slot>, i: nat)
    requires i <= |slots|
    ensures ConsistentAll(TypesOf(slots), RawsOf(slots))
    ensures var ps := FromRawAll(TypesOf(slots), RawsOf(slots), i);
            && ps.Some? && |ps.value| == |slots| - i
            && forall j :: i <= j < |slots| ==> Presents(ps.value[j - i], slots[j])
    decreases |slots| - i
  {
    if i < |slots| {
      DecodesFrom(slots, i + 1);
    }
  }

  lemma DecodesAs(slots: seq<Slot>, types: seq<ParamType>)
    requires types == TypesOf(slots)
    ensures ConsistentAll(types, RawsOf(slots))
    ensures var ps := FromRawAll(types, RawsOf(slots), 0);
            ps.Some? && |ps.value| == |slots| && forall j :: 0 <= j < |slots| ==> Presents(ps.value[j], slots[j])
  {
    DecodesFrom(slots, 0);
  }

  /** Every four slots, packed and then decoded, reach the callee as they were set. */
  lemma PackDecode(slots: seq<Slot>)
    requires |slots| == PARAM_COUNT
    ensures ConsistentAll(TypesIn(Packed(slots)), RawsOf(slots))
    ensures var ps := FromRawAll(TypesIn(Packed(slots)), RawsOf(slots), 0);
            && ps.Some? && |ps.value| == PARAM_COUNT
            && forall j :: 0 <= j < PARAM_COUNT ==> Presents(ps.value[j], slots[j])
  {
    TypesRoundTrip(slots);
    DecodesAs(slots, TypesIn(Packed(slots)));
  }

  // ------------------------------------------------------------------ the callee

  /** What a callee may do through a wrapper; the wrapper's type decides which of these it offers. */
  datatype CalleeOp = Edit(edit: BoundedBuffer.Edit) | SetA(a: u32) | SetB(b: u32)

  predicate Usable(p: Parameter) {
    && (p.MemrefWriter? ==> p.raw.Memref? && p.capacity == |p.raw.memory|)
    && (p.ValueWriter? ==> p.raw.Value?)
  }

  /** The wrapper after one operation. */
  function CalleeStep(p: Parameter, op: CalleeOp): Parameter
    requires Usable(p)
  {
    match op
    case Edit(e) =>
      if !p.MemrefWriter? then p else
      var b := Apply(Buffer(p.raw.memory, p.raw.size), e).0;
      MemrefWriter(p.direction, Memref(p.raw.isNull, b.bytes, b.size), p.capacity)
    case SetA(a) => if p.ValueWriter? then ValueWriter(p.direction, Value(a, p.raw.b)) else p
    case SetB(b) => if p.ValueWriter? then ValueWriter(p.direction, Value(p.raw.a, b)) else p
  }

  ghost function CalleeRun(p: Parameter, ops: seq<CalleeOp>): (q: Parameter)
    requires Usable(p)
    ensures Usable(q)
  {
    if ops == [] then p else CalleeStep(CalleeRun(p, ops[..|ops| - 1]), ops[|ops| - 1])
  }

  /** The raw slot the caller finds after the call. */
  function RawAfter(p: Parameter, before: RawParam): RawParam {
    if p.NoParameter? || p.ValueReader? then before else p.raw
  }

  ghost function EditsOf(ops: seq<CalleeOp>): seq<BoundedBuffer.Edit> {
    if ops == [] then [] else
    var rest := EditsOf(ops[..|ops| - 1]);
    if ops[|ops| - 1].Edit? then rest + [ops[|ops| - 1].edit] else rest
  }

  /** The value field after the operations: the last one set, or the caller's. */
  ghost function LastA(a: u32, ops: seq<CalleeOp>): u32 {
    if ops == [] then a else if ops[|ops| - 1].SetA? then ops[|ops| - 1].a else LastA(a, ops[..|ops| - 1])
  }

  ghost function LastB(b: u32, ops: seq<CalleeOp>): u32 {
    if ops == [] then b else if ops[|ops| - 1].SetB? then ops[|ops| - 1].b else LastB(b, ops[..|ops| - 1])
  }

  lemma {:induction false} CalleeEffect(p: Parameter, ops: seq<CalleeOp>)
    requires Usable(p)
    ensures var q := CalleeRun(p, ops);
            && (p.MemrefWriter? ==>
                  var b := Run(Buffer(p.raw.memory, p.raw.size), EditsOf(ops));
                  q == MemrefWriter(p.direction, Memref(p.raw.isNull, b.bytes, b.size), p.capacity))
            && (p.ValueWriter? ==> q == ValueWriter(p.direction, Value(LastA(p.raw.a, ops), LastB(p.raw.b, ops))))
            && (!p.MemrefWriter? && !p.ValueWriter? ==> q == p)
  {
    if ops != [] {
      var before, op := ops[..|ops| - 1], ops[|ops| - 1];
      CalleeEffect(p, before);
      if op.Edit? {
        assert EditsOf(ops)[..|EditsOf(ops)| - 1] == EditsOf(before);
      }
    }
  }

  // ------------------------------------------------------------------- copy-back

  /** The memory effect of the call on a slot: its buffer is the shared one. */
  function Shared(s: Slot, raw: RawParam): Slot {
    if raw.Memref? && (s.MemrefInput? || s.MemrefOutput? || s.MemrefInout?) then s.(bytes := raw.memory) else s
  }

  /** The same for all slots. */
  function SharedAll(slots: seq<Slot>, raws: seq<RawParam>): (shared: seq<Slot>)
    requires |slots| == |raws|
    ensures |shared| == |slots| && forall i :: 0 <= i < |slots| ==> shared[i] == Shared(slots[i], raws[i])
  {
    seq(|slots|, i requires 0 <= i < |slots| => Shared(slots[i], raws[i]))
  }

  /** `None` is a reported size beyond the buffer. */
  function UpdateSlot(s: Slot, raw: RawParam): Option<Slot>
    requires Consistent(s.Type(), raw)
  {
    match s
    case MemrefOutput(bytes, _) => if raw.size > |bytes| then None else Some(MemrefOutput(bytes, raw.size))
    case MemrefInout(bytes, _) => if raw.size > |bytes| then None else Some(MemrefInout(bytes, raw.size))
    case ValueOutput(_, _) => Some(ValueOutput(raw.a, raw.b))
    case ValueInout(_, _) => Some(ValueInout(raw.a, raw.b))
    case _ => Some(s)
  }

  /** The slot after a call that left `raw`: the bytes found there, with their size, or the values. */
  ghost predicate TakesOver(s: Slot, raw: RawParam, after: Slot)
    requires Consistent(s.Type(), raw)
  {
    match s
    case MemrefOutput(_, _) => after.MemrefOutput? && after.bytes == raw.memory && after.written == raw.size
    case MemrefInout(_, _) => after.MemrefInout? && after.bytes == raw.memory && after.written == raw.size
    case ValueOutput(_, _) => after.ValueOutput? && after.a == raw.a && after.b == raw.b
    case ValueInout(_, _) => after.ValueInout? && after.a == raw.a && after.b == raw.b
    case MemrefInput(_) => after.MemrefInput? && after.bytes == raw.memory
    case _ => after == s
  }

  /** A memory reference the callee may write, with a returned size beyond the buffer. */
  ghost predicate TooLarge(s: Slot, raw: RawParam) {
    (s.MemrefOutput? || s.MemrefInout?) && raw.Memref? && raw.size > |s.bytes|
  }

  /** One slot's copy-back is rejected if and only if such a size came back; otherwise it takes over what was left. */
  lemma UpdateSlotRejectsIff(s: Slot, raw: RawParam)
    requires Consistent(s.Type(), raw)
    ensures UpdateSlot(s, raw) == None <==> TooLarge(s, raw)
    ensures s == Shared(s, raw) && UpdateSlot(s, raw).Some? ==> TakesOver(s, raw, UpdateSlot(s, raw).value)
  {
  }

  /** Slots from `i` on are updated in order, up to the first rejected size. */
  function UpdateFromRaw(slots: seq<Slot>, raws: seq<RawParam>, i: nat): (seq<Slot>, bool)
    requires i <= |slots| == |raws| && forall j :: i <= j < |slots| ==> Consistent(slots[j].Type(), raws[j])
    decreases |slots| - i
  {
    if i == |slots| then (slots, true) else
    match UpdateSlot(slots[i], raws[i])
    case None => (slots, false)
    case Some(s) => UpdateFromRaw(slots[i := s], raws, i + 1)
  }

  /**
  Whatever sizes come back: slots before the first rejected one are updated, that one
  and all later ones are left alone, and every slot that was sound still is.
  */
  lemma {:induction false} UpdateEffect(slots: seq<Slot>, raws: seq<RawParam>, i: nat)
    requires i <= |slots| && ConsistentAll(TypesOf(slots), raws)
    ensures var (slots', ok) := UpdateFromRaw(slots, raws, i);
            && |slots'| == |slots| && slots'[..i] == slots[..i]
            && (ok <==> forall j :: i <= j < |slots| ==> UpdateSlot(slots[j], raws[j]).Some?)
            && (forall j :: i <= j < |slots| ==>
                  if forall k :: i <= k <= j ==> UpdateSlot(slots[k], raws[k]).Some?
                  then Some(slots'[j]) == UpdateSlot(slots[j], raws[j])
                  else slots'[j] == slots[j])
            && (forall j :: 0 <= j < |slots| && slots[j].Sound() ==> slots'[j].Sound())
    decreases |slots| - i
  {
    if i < |slots| {
      match UpdateSlot(slots[i], raws[i]) {
        case None =>
        case Some(s) =>
          var slots1 := slots[i := s];
          assert ConsistentAll(TypesOf(slots1), raws);
          UpdateEffect(slots1, raws, i + 1);
          var (slots', ok) := UpdateFromRaw(slots1, raws, i + 1);
          assert slots'[i] == slots'[..i + 1][i] == s;
          assert slots'[..i] == slots'[..i + 1][..i] == slots1[..i + 1][..i] == slots[..i];
          forall j | i <= j < |slots|
            ensures if forall k :: i <= k <= j ==> UpdateSlot(slots[k], raws[k]).Some?
                    then Some(slots'[j]) == UpdateSlot(slots[j], raws[j])
                    else slots'[j] == slots[j]
          {
            if j > i {
              assert forall k :: i + 1 <= k <= j ==> slots1[k] == slots[k];
            }
          }
      }
    }
  }

  // ------------------------------------------------------------- the whole call

  /** What the callee leaves in one raw slot. */
  ghost function AfterCallee(p: Parameter, ops: seq<CalleeOp>, before: RawParam): RawParam
    requires Usable(p)
  {
    RawAfter(CalleeRun(p, ops), before)
  }

  /** The outputs the caller reads afterwards are the callee's final ones. */
  ghost predicate Delivered(before: Slot, ops: seq<CalleeOp>, after: Slot)
    requires after.Sound()
  {
    match before
    case MemrefOutput(bytes, _) =>
      var b := Run(Buffer(bytes, |bytes|), EditsOf(ops));
      b.size <= |b.bytes| && after.WrittenSlice() == Some(b.bytes[..b.size])
    case MemrefInout(bytes, _) =>
      var b := Run(Buffer(bytes, |bytes|), EditsOf(ops));
      b.size <= |b.bytes| && after.WrittenSlice() == Some(b.bytes[..b.size])
    case ValueOutput(a, b) => after.OutputValue() == Some((LastA(a, ops), LastB(b, ops)))
    case ValueInout(a, b) => after.OutputValue() == Some((LastA(a, ops), LastB(b, ops)))
    case _ => after == before
  }

  lemma SlotRoundTrip(s: Slot, p: Parameter, ops: seq<CalleeOp>)
    requires s.Sound() && Presents(p, s)
    ensures Usable(p)
    ensures var raw := AfterCallee(p, ops, s.AsRaw());
            && Consistent(s.Type(), raw)
            && Shared(s, raw).Type() == s.Type()
            && (var u := UpdateSlot(Shared(s, raw), raw);
                u.Some? && u.value.Sound() && Delivered(s, ops, u.value))
  {
    CalleeEffect(p, ops);
    if s.MemrefOutput? || s.MemrefInout? {
      SizeWithinCapacity(Buffer(s.bytes, |s.bytes|), EditsOf(ops));
    }
  }

  /** Packing, decoding and the callee's operations: the raw parameters left behind; `None` if decoding fails. */
  ghost function Answered(slots: seq<Slot>, scripts: seq<seq<CalleeOp>>): Option<seq<RawParam>>
    requires |slots| == |scripts| == PARAM_COUNT
  {
    var types, sent := TypesIn(Packed(slots)), RawsOf(slots);
    if !ConsistentAll(types, sent) then None else
    match FromRawAll(types, sent, 0)
    case None => None
    case Some(ps) =>
      if |ps| != PARAM_COUNT || exists i :: 0 <= i < PARAM_COUNT && !Usable(ps[i]) then None else
      Some(seq(PARAM_COUNT, i requires 0 <= i < PARAM_COUNT => AfterCallee(ps[i], scripts[i], sent[i])))
  }

  /** What a call makes of the caller's slots, and whether every size that came back was accepted. */
  ghost function CopiedBack(slots: seq<Slot>, raws: seq<RawParam>): (seq<Slot>, bool)
    requires |slots| == |raws|
  {
    var shared := SharedAll(slots, raws);
    if ConsistentAll(TypesOf(shared), raws) then UpdateFromRaw(shared, raws, 0) else (shared, false)
  }

  /** What may come back for a slot: the side of the union its type says, over memory of the buffer's length. */
  ghost predicate MayComeBack(s: Slot, raw: RawParam) {
    && Consistent(s.Type(), raw)
    && (s.MemrefInput? || s.MemrefOutput? || s.MemrefInout? ==> |raw.memory| == |s.bytes|)
  }

  /** Every returned size is at most the length of its buffer. */
  ghost predicate SizesFit(slots: seq<Slot>, raws: seq<RawParam>)
    requires |slots| == |raws|
  {
    forall i :: 0 <= i < |slots| && (slots[i].MemrefOutput? || slots[i].MemrefInout?) ==>
                  raws[i].Memref? && raws[i].size <= |slots[i].bytes|
  }

  /**
  The copy-back of a call is accepted if and only if every output or inout memory
  reference came back with a size of at most its buffer's length; then every slot has
  taken over what the call left.
  */
  lemma CopyBackAcceptsIff(slots: seq<Slot>, raws: seq<RawParam>)
    requires |slots| == |raws| && forall i :: 0 <= i < |slots| ==> MayComeBack(slots[i], raws[i])
    ensures CopiedBack(slots, raws).1 <==> SizesFit(slots, raws)
    ensures |CopiedBack(slots, raws).0| == |slots|
    ensures SizesFit(slots, raws) ==>
              forall i :: 0 <= i < |slots| ==> TakesOver(slots[i], raws[i], CopiedBack(slots, raws).0[i])
  {
    var shared := SharedAll(slots, raws);
    assert ConsistentAll(TypesOf(shared), raws);
    UpdateEffect(shared, raws, 0);
    forall i | 0 <= i < |slots|
      ensures UpdateSlot(shared[i], raws[i]) == None <==> TooLarge(slots[i], raws[i])
      ensures UpdateSlot(shared[i], raws[i]).Some? ==>
                TakesOver(slots[i], raws[i], UpdateSlot(shared[i], raws[i]).value)
    {
      UpdateSlotRejectsIff(shared[i], raws[i]);
    }
  }

  /** The raw slot is accepted, and copied back it delivers the callee's final state. */
  ghost predicate SlotDelivers(s: Slot, ops: seq<CalleeOp>, raw: RawParam) {
    var shared := Shared(s, raw);
    Consistent(shared.Type(), raw)
    && var u := UpdateSlot(shared, raw); u.Some? && u.value.Sound() && Delivered(s, ops, u.value)
  }

  lemma AnsweredDelivers(slots: seq<Slot>, scripts: seq<seq<CalleeOp>>) returns (raws: seq<RawParam>)
    requires |slots| == |scripts| == PARAM_COUNT && forall i :: 0 <= i < PARAM_COUNT ==> slots[i].Sound()
    ensures Answered(slots, scripts) == Some(raws) && |raws| == PARAM_COUNT
    ensures forall i :: 0 <= i < PARAM_COUNT ==> SlotDelivers(slots[i], scripts[i], raws[i])
  {
    PackDecode(slots);
    var sent := RawsOf(slots);
    var ps := FromRawAll(TypesIn(Packed(slots)), sent, 0).value;
    forall i | 0 <= i < PARAM_COUNT
      ensures Usable(ps[i]) && SlotDelivers(slots[i], scripts[i], AfterCallee(ps[i], scripts[i], sent[i]))
    {
      SlotRoundTrip(slots[i], ps[i], scripts[i]);
    }
    raws := seq(PARAM_COUNT, i requires 0 <= i < PARAM_COUNT => AfterCallee(ps[i], scripts[i], sent[i]));
  }

  lemma CopyBackDelivers(slots: seq<Slot>, scripts: seq<seq<CalleeOp>>, raws: seq<RawParam>)
    requires |slots| == |scripts| == |raws|
    requires forall i :: 0 <= i < |slots| ==> SlotDelivers(slots[i], scripts[i], raws[i])
    ensures var (after, ok) := CopiedBack(slots, raws);
            && ok && |after| == |slots|
            && forall i :: 0 <= i < |slots| ==> after[i].Sound() && Delivered(slots[i], scripts[i], after[i])
  {
    var shared := SharedAll(slots, raws);
    assert ConsistentAll(TypesOf(shared), raws);
    UpdateEffect(shared, raws, 0);
  }

  /**
  For every four sound slots and every sequence of checked callee operations on each of
  them: packing then decoding succeeds, the copy-back is accepted, and every output slot
  then reads as the callee left it: the last reported size's worth of the last-written
  bytes (the whole buffer if no size was reported), or the last values set.
  */
  lemma CallRoundTrip(slots: seq<Slot>, scripts: seq<seq<CalleeOp>>)
    requires |slots| == |scripts| == PARAM_COUNT && forall i :: 0 <= i < PARAM_COUNT ==> slots[i].Sound()
    ensures match Answered(slots, scripts)
            case None => false
            case Some(raws) =>
              && |raws| == PARAM_COUNT
              && var (after, ok) := CopiedBack(slots, raws);
              && ok && |after| == PARAM_COUNT
              && forall i :: 0 <= i < PARAM_COUNT ==> after[i].Sound() && Delivered(slots[i], scripts[i], after[i])
  {
    var raws := AnsweredDelivers(slots, scripts);
    CopyBackDelivers(slots, scripts, raws);
  }

  // ------------------------------------------------------- any run of the caller

  /** The caller sets a slot, or a call returns raw parameters of any size, over buffers of the lengths passed. */
  datatype CallerOp = Set(i: nat, slot: Slot) | Returned(raws: seq<RawParam>)

  ghost predicate Possible(slots: seq<Slot>, op: CallerOp) {
    match op
    case Set(i, slot) => i < |slots| && (slot.MemrefOutput? || slot.MemrefInout? ==> slot.written == 0)
    case Returned(raws) =>
      && ConsistentAll(TypesOf(slots), raws)
      && forall j :: 0 <= j < |slots| && (slots[j].MemrefOutput? || slots[j].MemrefInout?) ==>
                       |raws[j].memory| == |slots[j].bytes|
  }

  ghost function CallerStep(slots: seq<Slot>, op: CallerOp): seq<Slot>
    requires Possible(slots, op)
  {
    match op
    case Set(i, slot) => slots[i := slot]
    case Returned(raws) =>
      var shared := SharedAll(slots, raws);
      assert ConsistentAll(TypesOf(shared), raws);
      UpdateFromRaw(shared, raws, 0).0
  }

  ghost predicate CallerRun(slots: seq<Slot>, ops: seq<CallerOp>, end: seq<Slot>)
    decreases |ops|
  {
    if ops == [] then end == slots
    else Possible(slots, ops[0]) && CallerRun(CallerStep(slots, ops[0]), ops[1..], end)
  }

  /** Over any run, with sizes as wild as a callee likes, no slot ever claims more written bytes than its buffer has. */
  lemma {:induction false} WrittenStaysInBuffer(slots: seq<Slot>, ops: seq<CallerOp>, end: seq<Slot>)
    requires (forall i :: 0 <= i < |slots| ==> slots[i].Sound()) && CallerRun(slots, ops, end)
    ensures |end| == |slots| && forall i :: 0 <= i < |end| ==> end[i].Sound()
    decreases |ops|
  {
    if ops != [] {
      if ops[0].Returned? {
        var raws := ops[0].raws;
        var shared := SharedAll(slots, raws);
        assert ConsistentAll(TypesOf(shared), raws);
        UpdateEffect(shared, raws, 0);
      }
      WrittenStaysInBuffer(CallerStep(slots, ops[0]), ops[1..], end);
    }
  }
}
