/**
  What a protobuf reader expects of a message: a sequence of records, each
  a varint key whose low three bits name the wire type, followed by the
  payload that wire type announces. The encoder's output is meant to have
  this shape; these definitions let the model say when it does.
 */
module WireRecords {
  import opened ProtoTypes
  import opened VarintCodec

  /**
    How many bytes the payload of a record of wire type `id` takes at the
    front of `bs`: a varint, eight bytes, a length and that many bytes, or
    four bytes. Any other id, or too few bytes, is not a payload.
   */
  function PayloadSize(id: nat, bs: seq<byte>): (r: Option<nat>)
    ensures r.Some? ==> r.value <= |bs|
  {
    if id == 0 then
      match DecodeVarint(bs)
      case None => None
      case Some((_, n)) => Some(n)
    else if id == 1 then
      if |bs| >= 8 then Some(8) else None
    else if id == 2 then
      match DecodeVarint(bs)
      case None => None
      case Some((len, n)) => if n + len <= |bs| then Some(n + len) else None
    else if id == 5 then
      if |bs| >= 4 then Some(4) else None
    else None
  }

  /** `bs` splits into whole records, with nothing left over. */
  predicate Records(bs: seq<byte>)
    decreases |bs|
  {
    if bs == [] then true
    else
      match DecodeVarint(bs)
      case None => false
      case Some((key, n)) =>
        match PayloadSize(key % 8, bs[n..])
        case None => false
        case Some(m) => Records(bs[n + m..])
  }

  /** A varint that can be read from `bs` reads the same with more bytes after it. */
  lemma {:induction false} DecodeVarintPrefix(bs: seq<byte>, rest: seq<byte>)
    requires DecodeVarint(bs).Some?
    ensures DecodeVarint(bs + rest) == DecodeVarint(bs)
  {
    if bs[0] >= 0x80 {
      assert (bs + rest)[1..] == bs[1..] + rest;
      DecodeVarintPrefix(bs[1..], rest);
    }
  }

  lemma PayloadSizePrefix(id: nat, bs: seq<byte>, rest: seq<byte>)
    requires PayloadSize(id, bs).Some?
    ensures PayloadSize(id, bs + rest) == PayloadSize(id, bs)
  {
    if id == 0 || id == 2 {
      DecodeVarintPrefix(bs, rest);
    }
  }

  /** Records followed by records are records: a reader never reads across the seam. */
  lemma {:induction false} RecordsAppend(a: seq<byte>, b: seq<byte>)
    requires Records(a) && Records(b)
    ensures Records(a + b)
    decreases |a|
  {
    if a == [] {
      assert a + b == b;
    } else {
      var key, n := DecodeVarint(a).value.0, DecodeVarint(a).value.1;
      var m := PayloadSize(key % 8, a[n..]).value;
      RecordStep(a, key, n, m);
      DropAppend(a, b, n);
      DropAppend(a, b, n + m);
      assert DecodeVarint(a + b) == Some((key, n)) by {
        DecodeVarintPrefix(a, b);
      }
      assert PayloadSize(key % 8, (a + b)[n..]) == Some(m) by {
        PayloadSizePrefix(key % 8, a[n..], b);
      }
      RecordStep(a + b, key, n, m);
      RecordsAppend(a[n + m..], b);
    }
  }

  /** Dropping a prefix of `a` from `a + b`. */
  lemma DropAppend(a: seq<byte>, b: seq<byte>, n: nat)
    requires n <= |a|
    ensures (a + b)[n..] == a[n..] + b
  {
  }

  /** A non-empty sequence whose first record reads is records exactly when what follows that record is. */
  lemma RecordStep(bs: seq<byte>, key: nat, n: nat, m: nat)
    requires bs != [] && DecodeVarint(bs) == Some((key, n)) && n <= |bs|
    requires PayloadSize(key % 8, bs[n..]) == Some(m)
    ensures n + m <= |bs| && (Records(bs) <==> Records(bs[n + m..]))
  {
    var payload := bs[n..];
    var tail := bs[n + m..];
    assert Records(bs) == (PayloadSize(key % 8, payload).Some? && Records(tail));
  }

  /**
    One key and one payload make a record when the key's wire type is the
    payload's: its low bits are 0 and the payload one whole varint, 1 and
    eight bytes, 2 and a length with exactly that many bytes, or 5 and
    four bytes.
   */
  lemma OneRecord(key: nat, keyBytes: seq<byte>, payload: seq<byte>)
    requires DecodeVarint(keyBytes) == Some((key, |keyBytes|))
    requires key % 8 == 0 ==> DecodeVarint(payload).Some? && DecodeVarint(payload).value.1 == |payload|
    requires key % 8 == 1 ==> |payload| == 8
    requires key % 8 == 2 ==> DecodeVarint(payload).Some? && DecodeVarint(payload).value.0 + DecodeVarint(payload).value.1 == |payload|
    requires key % 8 == 5 ==> |payload| == 4
    requires key % 8 in {0, 1, 2, 5}
    ensures Records(keyBytes + payload)
  {
    var bs := keyBytes + payload;
    var n := |keyBytes|;
    assert DecodeVarint(bs) == Some((key, n)) by { DecodeVarintPrefix(keyBytes, payload); }
    assert bs[n..] == payload;
    WholePayload(key % 8, payload);
    RecordStep(bs, key, n, |payload|);
    assert bs[n + |payload|..] == [];
  }

  /** A payload of the shape its wire type calls for is read whole. */
  lemma WholePayload(id: nat, payload: seq<byte>)
    requires id == 0 ==> DecodeVarint(payload).Some? && DecodeVarint(payload).value.1 == |payload|
    requires id == 1 ==> |payload| == 8
    requires id == 2 ==> DecodeVarint(payload).Some? && DecodeVarint(payload).value.0 + DecodeVarint(payload).value.1 == |payload|
    requires id == 5 ==> |payload| == 4
    requires id in {0, 1, 2, 5}
    ensures PayloadSize(id, payload) == Some(|payload|)
  {
  }

  /** A key with no payload after it, where one is announced, is not a message. */
  lemma DanglingKey(key: byte)
    requires key < 0x80 && key % 8 in {0, 1, 2, 5}
    ensures !Records([key])
  {
    assert [key][1..] == [];
  }
}
