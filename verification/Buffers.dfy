/** Copying bytes into place in a buffer. */
module Buffers {
  import opened Bytes

  function Spliced(b: seq<u8>, at: nat, s: seq<u8>): (r: seq<u8>)
    requires at + |s| <= |b|
    ensures |r| == |b|
  {
    b[..at] + s + b[at + |s|..]
  }

  method CopyInto(buf: array<u8>, at: nat, s: seq<u8>)
    requires at + |s| <= buf.Length
    modifies buf
    ensures buf[..] == Spliced(old(buf[..]), at, s)
  {
    ghost var was := buf[..];
    for k := 0 to |s|
      invariant forall i :: 0 <= i < buf.Length ==> buf[i] == if at <= i < at + k then s[i - at] else was[i]
    {
      buf[at + k] := s[k];
    }
    assert buf[..] == Spliced(was, at, s);
  }

  /** A buffer of `n` bytes holding `done` and zeros after it. */
  ghost function OverZeros(done: seq<u8>, n: nat): (b: seq<u8>)
    requires |done| <= n
    ensures |b| == n
  {
    done + Zeros(n - |done|)
  }

  /** Writing further on leaves the gap and the rest zero. */
  lemma {:induction false} WriteFurther(done: seq<u8>, n: nat, at: nat, s: seq<u8>)
    requires |done| <= at && at + |s| <= n
    ensures Spliced(OverZeros(done, n), at, s) == OverZeros(done + Zeros(at - |done|) + s, n)
  {
    var b := OverZeros(done, n);
    assert b[..at] == done + Zeros(at - |done|);
    assert b[at + |s|..] == Zeros(n - at - |s|);
  }
}
