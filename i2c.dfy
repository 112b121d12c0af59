/** The register-addressed I2C transport the trackball driver talks through.
    The real transport is a foreign library; here it is an object that keeps a
    ghost log of every transfer it was asked to perform, fails at will, and
    answers reads with bytes the model does not constrain beyond their number. */
module I2cBus {

  /** An unsigned 8-bit value. */
  type Byte = x: int | 0 <= x < 0x100

  /** Outcome of a bus operation; a transport fault carries no detail. */
  datatype Result<T> = Ok(value: T) | Err

  /** One request made to the bus. */
  datatype Op =
    | SetAddress(addr: int)
    | Write(reg: Byte, data: seq<Byte>)
    | Read(reg: Byte, len: nat)

  /** One entry of the log: a request that completed (with the bytes a read
      returned; empty for the others) or one that failed. */
  datatype Transfer = Completed(op: Op, reply: seq<Byte>) | Failed(op: Op)

  class I2c {
    /** Every transfer requested so far, in order. */
    ghost var log: seq<Transfer>

    constructor ()
      ensures log == []
    {
      log := [];
    }

    method SetSlaveAddress(addr: int) returns (r: Result<()>)
      modifies this
      ensures log == old(log) + [if r.Ok? then Completed(SetAddress(addr), []) else Failed(SetAddress(addr))]
    {
      var delivered: bool :| true;
      r := if delivered then Ok(()) else Err;
      log := log + [if r.Ok? then Completed(SetAddress(addr), []) else Failed(SetAddress(addr))];
    }

    method BlockWrite(reg: Byte, data: seq<Byte>) returns (r: Result<()>)
      modifies this
      ensures log == old(log) + [if r.Ok? then Completed(Write(reg, data), []) else Failed(Write(reg, data))]
    {
      var delivered: bool :| true;
      r := if delivered then Ok(()) else Err;
      log := log + [if r.Ok? then Completed(Write(reg, data), []) else Failed(Write(reg, data))];
    }

    /** Reads `len` consecutive registers starting at `reg`. */
    method BlockRead(reg: Byte, len: nat) returns (r: Result<seq<Byte>>)
      modifies this
      ensures r.Ok? ==> |r.value| == len
      ensures log == old(log) + [if r.Ok? then Completed(Read(reg, len), r.value) else Failed(Read(reg, len))]
    {
      ghost var zeros: seq<Byte> := seq(len, _ => 0);
      assert |zeros| == len;
      var reply: seq<Byte> :| |reply| == len;
      var delivered: bool :| true;
      r := if delivered then Ok(reply) else Err;
      log := log + [if r.Ok? then Completed(Read(reg, len), reply) else Failed(Read(reg, len))];
    }
  }

  /** The log entries left by a sequence of requests that all completed. */
  function Completions(ops: seq<Op>): (issued: seq<Transfer>)
    ensures |issued| == |ops|
    ensures forall i :: 0 <= i < |ops| ==> issued[i] == Completed(ops[i], [])
  {
    seq(|ops|, i requires 0 <= i < |ops| => Completed(ops[i], []))
  }

  /** `issued` is what the requests `ops`, issued one after another and
      abandoned at the first failure, leave in the log; `ok` says whether all
      of them completed. */
  ghost predicate StopsAtFirstFailure(ops: seq<Op>, issued: seq<Transfer>, ok: bool)
  {
    if ok then issued == Completions(ops)
    else 0 < |issued| <= |ops| &&
         issued == Completions(ops[..|issued| - 1]) + [Failed(ops[|issued| - 1])]
  }

  /** A run that stops at the first failure issues a prefix of the requests,
      in their order, and every one before the last has completed. */
  lemma IssuedInOrder(ops: seq<Op>, issued: seq<Transfer>, ok: bool)
    requires StopsAtFirstFailure(ops, issued, ok)
    ensures |issued| <= |ops|
    ensures ok <==> |issued| == |ops| && forall i :: 0 <= i < |issued| ==> issued[i].Completed?
    ensures forall i :: 0 <= i < |issued| ==> issued[i].op == ops[i]
    ensures forall i :: 0 <= i < |issued| - 1 ==> issued[i].Completed?
  {
    if !ok {
      assert issued[|issued| - 1].Failed?;
    }
  }
}
