/**
  A `ByteArrayOutputStream`: bytes are only ever appended, into a buffer
  that is one Java array, so a write that would take it past the largest
  array fails with `OutOfMemoryError` and writes nothing.
 */
module Streams {
  import opened ProtoTypes

  /**
    An appending step that was meant to write `spec` did: on success the
    stream grew by exactly those bytes; on failure it threw the exception
    `spec` names before writing anything, or ran out of array space, which
    it can only do when those bytes would not fit in one array after `before`.
   */
  predicate Wrote(o: Outcome, spec: Result<seq<byte>>, before: seq<byte>, after: seq<byte>)
  {
    && (o.Pass? ==> spec.Ok? && after == before + spec.value)
    && (o.Fail? ==> o.error == OutOfMemory || (spec == Err(o.error) && after == before))
    && (spec.Ok? && |before| + |spec.value| <= MaxArrayLength ==> o.Pass?)
  }

  /** Prefixes of prefixes: what came after `a` in `c` is what came after it in `b`, then the rest of `c`. */
  lemma PrefixPrefix(a: seq<byte>, b: seq<byte>, c: seq<byte>)
    requires a <= b && b <= c
    ensures a <= c && c[|a|..] == b[|a|..] + c[|b|..]
  {
    assert c[|a|..] == c[|a|..|b|] + c[|b|..];
  }

  /** Writing element `k` after the first `k` elements of `s` gives the first `k + 1`. */
  lemma TakeOneMore(before: seq<byte>, s: seq<byte>, k: nat)
    requires k < |s|
    ensures before + s[..k] + [s[k]] == before + s[..k + 1]
  {
    assert s[..k + 1] == s[..k] + [s[k]];
  }

  /** Writing the last element of `s` after the others gives all of `s`. */
  lemma TakeLast(before: seq<byte>, s: seq<byte>, k: nat)
    requires k + 1 == |s|
    ensures before + s[..k] + [s[k]] == before + s
  {
    assert s[..k] + [s[k]] == s;
  }

  /** Two writes in a row wrote their bytes one after the other. */
  lemma AppendAssoc(a: seq<byte>, b: seq<byte>, c: seq<byte>)
    ensures (a + b) + c == a + (b + c)
  {
  }

  /** What was appended after `before` is what follows it. */
  lemma Appended(before: seq<byte>, written: seq<byte>, after: seq<byte>)
    requires after == before + written
    ensures before <= after && after[|before|..] == written
  {
  }

  /** Appending nothing leaves the bytes as they were. */
  lemma AppendNothing(s: seq<byte>)
    ensures s + [] == s
  {
  }

  /** A sequence is its first `j` elements followed by the rest. */
  lemma SplitAt<T>(s: seq<T>, j: nat)
    requires j <= |s|
    ensures s[..j] + s[j..] == s
  {
  }

  class ByteStream {
    var bytes: seq<byte>

    predicate Valid()
      reads this
    {
      |bytes| <= MaxArrayLength
    }

    constructor()
      ensures Valid() && bytes == []
    {
      bytes := [];
    }

    /** `size()`. */
    function Size(): (n: nat)
      reads this
      ensures n == |bytes|
    {
      |bytes|
    }

    /** `toByteArray()`: a copy of everything written so far. */
    function ToByteArray(): (a: ByteArray)
      reads this
      requires Valid()
      ensures a == bytes
    {
      bytes
    }

    /** `write(byte[])`: all of `data` at the end, or nothing and an `OutOfMemoryError`. */
    method Write(data: seq<byte>) returns (r: Outcome)
      requires Valid()
      modifies this
      ensures Valid()
      ensures r.Pass? <==> |old(bytes)| + |data| <= MaxArrayLength
      ensures r.Pass? ==> bytes == old(bytes) + data
      ensures r.Fail? ==> bytes == old(bytes) && r.error == OutOfMemory
    {
      if |bytes| + |data| > MaxArrayLength {
        return Fail(OutOfMemory);
      }
      bytes := bytes + data;
      r := Pass;
    }
  }
}
