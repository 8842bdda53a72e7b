/**
`write_all` and `read_exact` over a socket. The adapter hands the transport the
buffer's length as a 32-bit number; the transport answers with how much it took or
delivered, at most what it was handed, or with an error.
*/
module Transfer {
  import opened Base

  const TWO_TO_32 := 0x1_0000_0000

  /** `buf.len() as u32`. */
  function Truncated(length: nat): u32 { length % TWO_TO_32 }

  /** A length below two to the 32 is handed over whole, and a longer one as its remainder. */
  lemma HandedOver(length: nat)
    ensures length < 0x1_0000_0000 ==> Truncated(length) == length
    ensures exists k: nat :: length == k * 0x1_0000_0000 + Truncated(length)
  {
    assert length == (length / TWO_TO_32) * 0x1_0000_0000 + Truncated(length);
  }

  /** What the n-th call to the transport does when handed so many bytes; `None` is an error. */
  type Counts = (nat, u32) -> Option<nat>

  ghost predicate Honest(counts: Counts) {
    forall n, handed :: match counts(n, handed) case Some(k) => k <= handed case None => true
  }

  /** The loop, on lengths alone: it ends well when nothing is left, and badly on an error or a zero count. */
  ghost predicate Completes(counts: Counts, n: nat, left: nat)
    decreases left
  {
    left == 0 ||
    match counts(n, Truncated(left))
    case Some(k) => 0 < k <= left && Completes(counts, n + 1, left - k)
    case None => false
  }

  lemma CompletesStep(counts: Counts, n: nat, left: nat)
    requires left > 0
    ensures match counts(n, Truncated(left))
            case Some(k) => 0 < k <= left ==> (Completes(counts, n, left) <==> Completes(counts, n + 1, left - k))
            case None => !Completes(counts, n, left)
    ensures counts(n, Truncated(left)) == Some(0) ==> !Completes(counts, n, left)
  {
  }

  /** Over two to the 32 bytes are never transferred: the truncated length cannot bring the rest below that. */
  lemma {:induction false} TooLongNeverCompletes(counts: Counts, n: nat, left: nat)
    requires Honest(counts) && left >= TWO_TO_32
    ensures !Completes(counts, n, left)
    decreases left
  {
    match counts(n, Truncated(left))
    case Some(k) =>
      if 0 < k <= left {
        assert left - k >= left - left % TWO_TO_32 >= TWO_TO_32;
        TooLongNeverCompletes(counts, n + 1, left - k);
      }
    case None =>
  }

  /** The transport never fails and always makes some progress when handed anything. */
  ghost predicate Progresses(counts: Counts) {
    forall n, handed :: handed > 0 ==> counts(n, handed).Some? && counts(n, handed).value > 0
  }

  /** Over a transport that always progresses, a transfer completes if and only if it is shorter than two to the 32. */
  lemma {:induction false} CompletesIffShort(counts: Counts, n: nat, left: nat)
    requires Honest(counts) && Progresses(counts)
    ensures Completes(counts, n, left) <==> left < TWO_TO_32
    decreases left
  {
    if left >= TWO_TO_32 {
      TooLongNeverCompletes(counts, n, left);
    } else if left > 0 {
      var k := counts(n, left).value;
      CompletesIffShort(counts, n + 1, left - k);
    }
  }

  // --------------------------------------------------------------------- sending

  lemma TakeMore(sent: Bytes, buf: Bytes, pos: nat, k: nat)
    requires pos + k <= |buf|
    ensures sent + buf[..pos] + buf[pos..][..k] == sent + buf[..pos + k]
  {
    assert buf[..pos] + buf[pos..][..k] == buf[..pos + k];
  }

  class Sender {
    const counts: Counts
    var calls: nat
    ghost var sent: Bytes

    constructor (counts: Counts)
      ensures this.counts == counts && calls == 0 && sent == []
    {
      this.counts, calls, sent := counts, 0, [];
    }

    /** The adapter's `send`: the transport takes a prefix of the buffer. */
    method Send(buf: Bytes) returns (r: Option<nat>)
      requires Honest(counts)
      modifies this
      ensures calls == old(calls) + 1 && r == counts(old(calls), Truncated(|buf|))
      ensures |buf| < 0x1_0000_0000 ==> r == counts(old(calls), |buf|)
      ensures r.Some? ==> r.value <= |buf|
      ensures sent == old(sent) + if r.Some? then buf[..r.value] else []
    {
      var length := Truncated(|buf|);
      r := counts(calls, length);
      calls := calls + 1;
      match r {
        case Some(k) => sent := sent + buf[..k];
        case None =>
      }
    }

    /** One round of the loop: what it takes off the rest, and what that says of the whole transfer. */
    method SendSome(buf: Bytes, pos: nat) returns (n: nat)
      requires Honest(counts) && pos < |buf|
      modifies this
      ensures pos + n <= |buf| && sent == old(sent) + buf[pos..][..n]
      ensures n == 0 ==> !Completes(counts, old(calls), |buf| - pos)
      ensures n > 0 ==> (Completes(counts, calls, |buf| - pos - n) <==> Completes(counts, old(calls), |buf| - pos))
    {
      CompletesStep(counts, calls, |buf| - pos);
      var r := Send(buf[pos..]);
      n := match r case Some(k) => k case None => 0;
      assert buf[pos..][..0] == [];
    }

    /**
    Succeeds exactly if every call made progress until nothing was left. On success the
    bytes taken are the whole buffer, in order, and it was shorter than two to the 32;
    otherwise they are a proper prefix of it.
    */
    method WriteAll(buf: Bytes) returns (ok: bool)
      requires Honest(counts)
      modifies this
      ensures ok <==> Completes(counts, old(calls), |buf|)
      ensures ok ==> sent == old(sent) + buf && |buf| < TWO_TO_32
      ensures !ok ==> exists k :: 0 <= k < |buf| && sent == old(sent) + buf[..k]
    {
      if |buf| >= TWO_TO_32 { TooLongNeverCompletes(counts, calls, |buf|); }
      var pos := 0;
      while pos < |buf|
        invariant 0 <= pos <= |buf|
        invariant sent == old(sent) + buf[..pos]
        invariant Completes(counts, calls, |buf| - pos) <==> Completes(counts, old(calls), |buf|)
        decreases |buf| - pos
      {
        var n := SendSome(buf, pos);
        TakeMore(old(sent), buf, pos, n);
        if n == 0 {
          assert sent == old(sent) + buf[..pos];
          return false;
        }
        pos := pos + n;
      }
      assert buf[..pos] == buf;
      ok := true;
    }
  }

  // ------------------------------------------------------------------- receiving

  class Receiver {
    const counts: Counts
    const stream: nat -> u8 // the bytes the peer sends, in order
    var calls: nat
    var taken: nat          // how many of them have been delivered

    constructor (counts: Counts, stream: nat -> u8)
      ensures this.counts == counts && this.stream == stream && calls == 0 && taken == 0
    {
      this.counts, this.stream, calls, taken := counts, stream, 0, 0;
    }

    /** The adapter's `recv` into the buffer from `pos` on: the next bytes of the stream. */
    method Recv(buf: array<u8>, pos: nat) returns (r: Option<nat>)
      requires pos <= buf.Length && Honest(counts)
      modifies this, buf
      ensures calls == old(calls) + 1 && r == counts(old(calls), Truncated(buf.Length - pos))
      ensures buf.Length - pos < 0x1_0000_0000 ==> r == counts(old(calls), buf.Length - pos)
      ensures var k := if r.Some? then r.value else 0;
              && taken == old(taken) + k && pos + k <= buf.Length
              && (forall i :: pos <= i < pos + k ==> buf[i] == stream(old(taken) + i - pos))
              && (forall i :: 0 <= i < buf.Length && !(pos <= i < pos + k) ==> buf[i] == old(buf[i]))
    {
      var length := Truncated(buf.Length - pos);
      r := counts(calls, length);
      calls := calls + 1;
      match r {
        case Some(k) =>
          forall i | pos <= i < pos + k {
            buf[i] := stream(taken + i - pos);
          }
          taken := taken + k;
        case None =>
      }
    }

    /** One round of the loop. */
    method RecvSome(buf: array<u8>, pos: nat) returns (n: nat)
      requires pos < buf.Length && Honest(counts)
      modifies this, buf
      ensures pos + n <= buf.Length && taken == old(taken) + n
      ensures forall i :: pos <= i < pos + n ==> buf[i] == stream(old(taken) + i - pos)
      ensures forall i :: 0 <= i < buf.Length && !(pos <= i < pos + n) ==> buf[i] == old(buf[i])
      ensures n == 0 ==> !Completes(counts, old(calls), buf.Length - pos)
      ensures n > 0 ==>
                (Completes(counts, calls, buf.Length - pos - n) <==> Completes(counts, old(calls), buf.Length - pos))
    {
      CompletesStep(counts, calls, buf.Length - pos);
      var r := Recv(buf, pos);
      n := match r case Some(k) => k case None => 0;
    }

    /**
    Succeeds exactly if every call delivered something until the buffer was full. The
    buffer always holds the bytes delivered, in the stream's order, followed by what it
    held before.
    */
    method ReadExact(buf: array<u8>) returns (ok: bool)
      requires Honest(counts)
      modifies this, buf
      ensures ok <==> Completes(counts, old(calls), buf.Length)
      ensures var k := taken - old(taken);
              && (if ok then k == buf.Length < TWO_TO_32 else 0 <= k < buf.Length)
              && (forall i :: 0 <= i < k ==> buf[i] == stream(old(taken) + i))
              && (forall i :: k <= i < buf.Length ==> buf[i] == old(buf[i]))
    {
      if buf.Length >= TWO_TO_32 { TooLongNeverCompletes(counts, calls, buf.Length); }
      var pos := 0;
      while pos < buf.Length
        invariant 0 <= pos <= buf.Length && taken == old(taken) + pos
        invariant forall i :: 0 <= i < pos ==> buf[i] == stream(old(taken) + i)
        invariant forall i :: pos <= i < buf.Length ==> buf[i] == old(buf[i])
        invariant Completes(counts, calls, buf.Length - pos) <==> Completes(counts, old(calls), buf.Length)
        decreases buf.Length - pos
      {
        var n := RecvSome(buf, pos);
        if n == 0 { break; }
        pos := pos + n;
      }
      ok := pos == buf.Length;
    }
  }
}
