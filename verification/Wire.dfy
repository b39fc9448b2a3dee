/** Network byte order and the byte stream of lib/stream.c. */
module Wire {
  type byte = n: nat | n < 256

  function U16(w: nat): (b: seq<byte>)
    requires w < 0x1_0000
    ensures |b| == 2 && FromU16(b[0], b[1]) == w
  {
    [w / 256, w % 256]
  }

  function FromU16(hi: byte, lo: byte): (w: nat)
    ensures w < 0x1_0000
  {
    hi * 256 + lo
  }

  lemma U16Back(hi: byte, lo: byte)
    ensures U16(FromU16(hi, lo)) == [hi, lo]
  {
  }

  function U32(l: nat): (b: seq<byte>)
    requires l < 0x1_0000_0000
    ensures |b| == 4 && FromU32(b[0], b[1], b[2], b[3]) == l
  {
    U16(l / 0x1_0000) + U16(l % 0x1_0000)
  }

  function FromU32(b0: byte, b1: byte, b2: byte, b3: byte): (l: nat)
    ensures l < 0x1_0000_0000
  {
    FromU16(b0, b1) * 0x1_0000 + FromU16(b2, b3)
  }

  /** A slice of a slice. */
  lemma SliceOf(d: seq<byte>, p: nat, end: nat, i: nat, j: nat)
    requires i <= j && p + j <= end <= |d|
    ensures d[p..end][i..j] == d[p + i..p + j]
    ensures p + j == end ==> d[p..end][i..] == d[p + i..end]
  {
    assert forall k :: 0 <= k < j - i ==> d[p..end][i..j][k] == d[p + i..p + j][k];
  }

  /** A stream: size octets of storage, octets written so far and a read
      cursor. A put that does not fit and a get past the end do nothing. */
  class Stream {
    const size: nat
    var data: seq<byte>
    var getp: nat

    ghost predicate Valid()
      reads this
    {
      getp <= |data| <= size
    }

    constructor (capacity: nat)
      ensures Valid() && data == [] && getp == 0 && size == capacity
    {
      size := capacity;
      data := [];
      getp := 0;
    }

    function Writeable(): nat
      requires Valid()
      reads this
    {
      size - |data|
    }

    function Readable(): nat
      requires Valid()
      reads this
    {
      |data| - getp
    }

    /** stream_putc, stream_putw and stream_putl differ in what they put. */
    method Put(b: seq<byte>)
      requires Valid()
      modifies this
      ensures Valid() && getp == old(getp)
      ensures data == if |b| <= old(Writeable()) then old(data) + b else old(data)
    {
      if |b| <= size - |data| { data := data + b; }
    }

    method PutcAt(at: nat, c: byte)
      requires Valid()
      modifies this
      ensures Valid() && getp == old(getp)
      ensures data == if at < |old(data)| then old(data)[at := c] else old(data)
    {
      if at + 1 <= |data| { data := data[at := c]; }
    }

    method Getc() returns (c: byte)
      requires Valid()
      modifies this
      ensures Valid() && data == old(data)
      ensures old(Readable()) >= 1 ==> c == data[old(getp)] && getp == old(getp) + 1
      ensures old(Readable()) < 1 ==> c == 0 && getp == old(getp)
    {
      if |data| - getp < 1 { return 0; }
      c := data[getp];
      getp := getp + 1;
    }

    method Getw() returns (w: nat)
      requires Valid()
      modifies this
      ensures Valid() && data == old(data) && w < 0x1_0000
      ensures old(Readable()) >= 2 ==>
                getp == old(getp) + 2 && w == FromU16(data[old(getp)], data[old(getp) + 1])
      ensures old(Readable()) < 2 ==> w == 0 && getp == old(getp)
    {
      if |data| - getp < 2 { return 0; }
      w := FromU16(data[getp], data[getp + 1]);
      getp := getp + 2;
    }

    method Getl() returns (l: nat)
      requires Valid()
      modifies this
      ensures Valid() && data == old(data) && l < 0x1_0000_0000
      ensures old(Readable()) >= 4 ==>
                getp == old(getp) + 4 &&
                l == FromU32(data[old(getp)], data[old(getp) + 1], data[old(getp) + 2], data[old(getp) + 3])
      ensures old(Readable()) < 4 ==> l == 0 && getp == old(getp)
    {
      if |data| - getp < 4 { return 0; }
      l := FromU32(data[getp], data[getp + 1], data[getp + 2], data[getp + 3]);
      getp := getp + 4;
    }
  }
}
