/** The error stack of owerr.c: a ring buffer that keeps the most recent errors. */
module OwErr {
  import opened Bytes

  // ---------- the stack it stands for ----------

  /** Raising keeps the `size` most recent errors, the latest one last. */
  function Raised(s: seq<int>, err: int, size: nat): (s': seq<int>)
    requires 0 < size && |s| <= size
    ensures |s'| <= size
  {
    (if |s| < size then s else s[1..]) + [err]
  }

  function Popped(s: seq<int>): seq<int> { if s == [] then [] else s[..|s| - 1] }

  /** The top error; 0 for none. */
  function Top(s: seq<int>): int { if s == [] then 0 else Last(s) }

  datatype Op = Raise(err: int) | GetErrorNum | HasErrors

  function After(s: seq<int>, op: Op, size: nat): (s': seq<int>)
    requires 0 < size && |s| <= size
    ensures |s'| <= size
  {
    match op
    case Raise(err) => Raised(s, err, size)
    case GetErrorNum => Popped(s)
    case HasErrors => s
  }

  function Answer(s: seq<int>, op: Op): int {
    match op
    case Raise(_) => 0
    case GetErrorNum => Top(s)
    case HasErrors => if Top(s) != 0 then 1 else 0
  }

  function AfterAll(s: seq<int>, ops: seq<Op>, size: nat): (s': seq<int>)
    requires 0 < size && |s| <= size
    ensures |s'| <= size
    decreases |ops|
  {
    if ops == [] then s else After(AfterAll(s, ops[..|ops| - 1], size), Last(ops), size)
  }

  function Answers(s: seq<int>, ops: seq<Op>, size: nat): (outs: seq<int>)
    requires 0 < size && |s| <= size
    ensures |outs| == |ops|
    decreases |ops|
  {
    if ops == [] then []
    else Answers(s, ops[..|ops| - 1], size) + [Answer(AfterAll(s, ops[..|ops| - 1], size), Last(ops))]
  }

  // ---------- the ring ----------

  /** The slot that is `k` below the top. */
  function Slot(pointer: nat, k: nat, size: nat): (i: nat)
    requires pointer < size && k < size
    ensures i < size
  {
    if k <= pointer then pointer - k else pointer + size - k
  }

  /** How far slot `i` is below the top. */
  function Depth(pointer: nat, i: nat, size: nat): (k: nat)
    requires pointer < size && i < size
    ensures k < size && Slot(pointer, k, size) == i
  {
    if i <= pointer then pointer - i else pointer + size - i
  }

  /** Every slot holds the error that many below the top, or 0 if the stack is not that deep. */
  ghost predicate Holds(ring: seq<int>, pointer: nat, s: seq<int>) {
    && pointer < |ring| && |s| <= |ring|
    && forall i :: 0 <= i < |ring| ==> ring[i] == Below(s, Depth(pointer, i, |ring|))
  }

  function Below(s: seq<int>, k: nat): int { if k < |s| then s[|s| - 1 - k] else 0 }

  lemma DepthAfterRaise(pointer: nat, i: nat, size: nat)
    requires pointer < size && i < size
    ensures var p := if pointer + 1 == size then 0 else pointer + 1;
            Depth(p, i, size) == if i == p then 0 else Depth(pointer, i, size) + 1
  {}

  lemma RaiseHolds(ring: seq<int>, pointer: nat, s: seq<int>, err: int)
    requires Holds(ring, pointer, s)
    ensures var p := if pointer + 1 == |ring| then 0 else pointer + 1;
            Holds(ring[p := err], p, Raised(s, err, |ring|))
  {
    hide Depth;
    var p := if pointer + 1 == |ring| then 0 else pointer + 1;
    forall i | 0 <= i < |ring|
      ensures ring[p := err][i] == Below(Raised(s, err, |ring|), Depth(p, i, |ring|))
    {
      DepthAfterRaise(pointer, i, |ring|);
    }
  }

  lemma PopHolds(ring: seq<int>, pointer: nat, s: seq<int>)
    requires Holds(ring, pointer, s)
    ensures ring[pointer] == Top(s)
    ensures Holds(ring[pointer := 0], if pointer == 0 then |ring| - 1 else pointer - 1, Popped(s))
  {
    hide Depth;
    var p := if pointer == 0 then |ring| - 1 else pointer - 1;
    DepthAfterRaise(p, pointer, |ring|);
    forall i | 0 <= i < |ring|
      ensures ring[pointer := 0][i] == Below(Popped(s), Depth(p, i, |ring|))
    {
      DepthAfterRaise(p, i, |ring|);
      if i == pointer {
        LastDepth(p, |ring|);
      }
    }
  }

  /** The slot after the top is the deepest one. */
  lemma LastDepth(pointer: nat, size: nat)
    requires pointer < size
    ensures Depth(pointer, if pointer + 1 == size then 0 else pointer + 1, size) == size - 1
  {}

  lemma WrapAround(pointer: nat, size: nat)
    requires pointer < size
    ensures (pointer + 1) % size == if pointer + 1 == size then 0 else pointer + 1
  {}

  class ErrorStack {
    const owErrorStack: array<int>
    var owErrorPointer: nat
    ghost var errors: seq<int>

    ghost predicate Valid()
      reads this, owErrorStack
    {
      owErrorStack.Length > 0 && Holds(owErrorStack[..], owErrorPointer, errors)
    }

    constructor (size: nat)
      requires size > 0
      ensures Valid() && fresh(owErrorStack) && owErrorStack.Length == size && errors == []
    {
      owErrorStack := new int[size](_ => 0);
      owErrorPointer := 0;
      errors := [];
    }

    /** owRaiseError. */
    method RaiseError(err: int)
      requires Valid()
      modifies this, owErrorStack
      ensures Valid() && errors == Raised(old(errors), err, owErrorStack.Length)
    {
      RaiseHolds(owErrorStack[..], owErrorPointer, errors, err);
      WrapAround(owErrorPointer, owErrorStack.Length);
      hide Holds, Raised;
      owErrorPointer := (owErrorPointer + 1) % owErrorStack.Length;
      owErrorStack[owErrorPointer] := err;
      errors := Raised(errors, err, owErrorStack.Length);
    }

    /** owGetErrorNum. */
    method GetErrorNum() returns (i: int)
      requires Valid()
      modifies this, owErrorStack
      ensures Valid() && i == Top(old(errors)) && errors == Popped(old(errors))
    {
      PopHolds(owErrorStack[..], owErrorPointer, errors);
      i := owErrorStack[owErrorPointer];
      owErrorStack[owErrorPointer] := 0;
      if owErrorPointer == 0 {
        owErrorPointer := owErrorStack.Length - 1;
      } else {
        owErrorPointer := owErrorPointer - 1;
      }
      errors := Popped(errors);
    }

    /** owHasErrors. */
    method HasErrors() returns (i: int)
      requires Valid()
      ensures i == if Top(errors) != 0 then 1 else 0
    {
      PopHolds(owErrorStack[..], owErrorPointer, errors);
      i := if owErrorStack[owErrorPointer] != 0 then 1 else 0;
    }

    /** Any run of calls answers as the stack does. */
    method Run(ops: seq<Op>) returns (outs: seq<int>)
      requires Valid()
      modifies this, owErrorStack
      ensures Valid()
      ensures outs == Answers(old(errors), ops, owErrorStack.Length)
      ensures errors == AfterAll(old(errors), ops, owErrorStack.Length)
    {
      outs := [];
      for k := 0 to |ops|
        invariant Valid()
        invariant outs == Answers(old(errors), ops[..k], owErrorStack.Length)
        invariant errors == AfterAll(old(errors), ops[..k], owErrorStack.Length)
      {
        assert ops[..k + 1][..k] == ops[..k] && Last(ops[..k + 1]) == ops[k];
        var out := 0;
        match ops[k] {
          case Raise(err) => RaiseError(err);
          case GetErrorNum => out := GetErrorNum();
          case HasErrors => out := HasErrors();
        }
        outs := outs + [out];
      }
      assert ops[..|ops|] == ops;
    }
  }

  // ---------- what a caller sees ----------

  function Raises(errs: seq<int>): (ops: seq<Op>)
    ensures |ops| == |errs|
  {
    seq(|errs|, i requires 0 <= i < |errs| => Raise(errs[i]))
  }

  /** Raising a list of errors leaves its most recent ones. */
  lemma {:induction false} RaisedList(errs: seq<int>, size: nat)
    requires size > 0
    ensures AfterAll([], Raises(errs), size) == errs[if |errs| > size then |errs| - size else 0..]
  {
    if errs != [] {
      var init := errs[..|errs| - 1];
      RaisedList(init, size);
      assert Raises(errs)[..|errs| - 1] == Raises(init);
      assert errs == init + [Last(errs)];
    }
  }

  function Gets(n: nat): seq<Op> { seq(n, _ => GetErrorNum) }

  lemma {:induction false} PoppedList(s: seq<int>, n: nat, size: nat)
    requires 0 < size && |s| <= size
    ensures AfterAll(s, Gets(n), size) == s[..if n < |s| then |s| - n else 0]
    ensures forall k :: 0 <= k < n ==> Answers(s, Gets(n), size)[k] == Below(s, k)
  {
    if n > 0 {
      PoppedList(s, n - 1, size);
      assert Gets(n)[..n - 1] == Gets(n - 1);
    }
  }

  /** However many errors were raised, the most recent ones come back latest first, then 0 for ever. */
  lemma LatestFirst(errs: seq<int>, size: nat, n: nat)
    requires size > 0
    ensures forall k :: 0 <= k < n ==>
      Answers(AfterAll([], Raises(errs), size), Gets(n), size)[k] ==
      if k < |errs| && k < size then errs[|errs| - 1 - k] else 0
  {
    RaisedList(errs, size);
    PoppedList(AfterAll([], Raises(errs), size), n, size);
  }
}
