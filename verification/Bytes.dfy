/** Bytes, ROM codes and the few bit operations the 1-Wire client performs on them. */
module Bytes {

  /** An unsigned char. */
  type byte = x: int | 0 <= x < 256

  /** The 8-byte registration number of a 1-Wire part. */
  type Rom = s: seq<byte> | |s| == 8 witness [0, 0, 0, 0, 0, 0, 0, 0]

  /** The C operator `|` on non-negative integers. */
  function BitOr(a: nat, b: nat): nat {
    if a == 0 && b == 0 then 0
    else (if a % 2 == 1 || b % 2 == 1 then 1 else 0) + 2 * BitOr(a / 2, b / 2)
  }

  /** The last element of a sequence. */
  function Last<T>(s: seq<T>): T
    requires |s| > 0
  {
    s[|s| - 1]
  }

  /** The sequence without its first occurrence of `x`. */
  function Remove<T(==)>(s: seq<T>, x: T): seq<T> {
    if s == [] then []
    else if s[0] == x then s[1..]
    else [s[0]] + Remove(s[1..], x)
  }

  ghost predicate NoDuplicates<T>(s: seq<T>) {
    forall i, j :: 0 <= i < j < |s| ==> s[i] != s[j]
  }

  /** Removing an element by value is removing it by position. */
  lemma {:induction false} RemoveAt<T>(s: seq<T>, k: nat)
    requires NoDuplicates(s) && k < |s|
    ensures Remove(s, s[k]) == s[..k] + s[k + 1..]
    ensures NoDuplicates(Remove(s, s[k]))
  {
    RemoveFirst(s, k);
  }

  lemma {:induction false} RemoveSubset<T>(s: seq<T>, x: T)
    ensures forall y :: y in Remove(s, x) ==> y in s
  {
    if s != [] && s[0] != x {
      RemoveSubset(s[1..], x);
    }
  }

  /** Removing from a list without duplicates leaves no trace of the element. */
  lemma {:induction false} RemoveGone<T>(s: seq<T>, x: T)
    requires NoDuplicates(s)
    ensures NoDuplicates(Remove(s, x)) && x !in Remove(s, x)
    ensures forall y :: y in s && y != x ==> y in Remove(s, x)
  {
    if x in s {
      var k :| 0 <= k < |s| && s[k] == x;
      RemoveAt(s, k);
      var s' := s[..k] + s[k + 1..];
      forall y | y in s && y != x
        ensures y in s'
      {
        var i :| 0 <= i < |s| && s[i] == y;
        assert s'[if i < k then i else i - 1] == y;
      }
    } else {
      RemoveAbsent(s, x);
    }
  }

  lemma {:induction false} RemoveAbsent<T>(s: seq<T>, x: T)
    requires x !in s
    ensures Remove(s, x) == s
  {
    if s != [] {
      RemoveAbsent(s[1..], x);
    }
  }

  lemma {:induction false} RemoveFirst<T>(s: seq<T>, k: nat)
    requires k < |s| && s[k] !in s[..k]
    ensures Remove(s, s[k]) == s[..k] + s[k + 1..]
  {
    if k == 0 {
    } else {
      var t := s[1..];
      assert s[0] == s[..k][0];
      assert t[..k - 1] == s[..k][1..];
      RemoveFirst(t, k - 1);
      assert t[k..] == s[k + 1..];
      assert s[..k] == [s[0]] + t[..k - 1];
    }
  }

  /** `mem` with `data` written at address `at`. */
  function Overwrite<T>(mem: seq<T>, at: nat, data: seq<T>): (mem': seq<T>)
    requires at + |data| <= |mem|
    ensures |mem'| == |mem|
  {
    mem[..at] + data + mem[at + |data|..]
  }

  lemma OverwriteNone<T>(mem: seq<T>, at: nat, data: seq<T>)
    requires at + |data| <= |mem|
    ensures Overwrite(mem, at, data[..0]) == mem
  {}

  /** One byte of a buffer that is overwritten from its start. */
  lemma OverwriteByte<T>(mem: seq<T>, data: seq<T>, j: nat)
    requires |data| <= |mem| && j < |mem|
    ensures Overwrite(mem, 0, data)[j] == if j < |data| then data[j] else mem[j]
  {}

  lemma OverwriteTwice<T>(mem: seq<T>, at: nat, data: seq<T>, i: nat, j: nat)
    requires at + |data| <= |mem| && i <= j <= |data|
    ensures Overwrite(Overwrite(mem, at, data[..i]), at + i, data[i..j]) == Overwrite(mem, at, data[..j])
  {
    assert data[..i] + data[i..j] == data[..j];
  }

  lemma OverwriteFrame<T>(mem: seq<T>, mem': seq<T>, at: nat, data: seq<T>)
    requires at + |data| <= |mem| == |mem'|
    requires mem'[..at] == mem[..at] && mem'[at..at + |data|] == data && mem'[at + |data|..] == mem[at + |data|..]
    ensures mem' == Overwrite(mem, at, data)
  {
    assert mem' == mem'[..at] + mem'[at..at + |data|] + mem'[at + |data|..];
  }

  /** memcpy and memset: `data` into the array from index `at` on. */
  method CopyIn<T>(a: array<T>, at: nat, data: seq<T>)
    requires at + |data| <= a.Length
    modifies a
    ensures a[..] == Overwrite(old(a[..]), at, data)
  {
    for i := 0 to |data|
      invariant a[..at] == old(a[..at]) && a[at + i..] == old(a[at + i..])
      invariant a[at..at + i] == data[..i]
    {
      a[at + i] := data[i];
      assert a[at..at + i + 1] == a[at..at + i] + [data[i]];
    }
    assert data[..|data|] == data;
    OverwriteFrame(old(a[..]), a[..], at, data);
  }
}
