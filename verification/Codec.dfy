/** The stream of length-prefixed records that map tasks write and reduce tasks read back (codec.c). */
module Codec {
  import opened Wrappers
  import opened Bytes

  const LENGTH_SIZE: nat := 8

  /** A number in k bytes, least significant first. */
  function Little(n: nat, k: nat): (b: seq<Byte>)
    ensures |b| == k
  {
    if k == 0 then [] else [n % 256] + Little(n / 256, k - 1)
  }

  function Number(b: seq<Byte>): nat {
    if b == [] then 0 else (b[0] as int) + 256 * Number(b[1..])
  }

  function Limit(k: nat): (n: nat)
    ensures n > 0
  {
    if k == 0 then 1 else 256 * Limit(k - 1)
  }

  lemma {:induction false} LittleNumber(n: nat, k: nat)
    requires n < Limit(k)
    ensures Number(Little(n, k)) == n
    decreases k
  {
    if k > 0 {
      LittleNumber(n / 256, k - 1);
      assert Little(n, k)[1..] == Little(n / 256, k - 1);
    }
  }

  /** A buffer whose length fits into the length field. */
  predicate Storable(b: seq<Byte>) { |b| < Limit(LENGTH_SIZE) }

  /** What ldw_write appends. */
  function Record(b: seq<Byte>): (r: seq<Byte>)
    ensures |r| == LENGTH_SIZE + |b|
  {
    Little(|b|, LENGTH_SIZE) + b
  }

  function Records(bs: seq<seq<Byte>>): seq<Byte> {
    if bs == [] then [] else Records(bs[..|bs| - 1]) + Record(bs[|bs| - 1])
  }

  datatype Item = Item(bytes: seq<Byte>, next: nat)

  /** What ldr_next finds at a position: a record, or None at the end of the file or in a cut-off record. */
  function At(file: seq<Byte>, p: nat): (r: Option<Item>)
    ensures r.Some? ==> p + LENGTH_SIZE <= r.value.next <= |file| && r.value.next == p + LENGTH_SIZE + |r.value.bytes|
  {
    if p + LENGTH_SIZE > |file| then None
    else
      var n := Number(file[p..p + LENGTH_SIZE]);
      if p + LENGTH_SIZE + n > |file| then None
      else Some(Item(file[p + LENGTH_SIZE..p + LENGTH_SIZE + n], p + LENGTH_SIZE + n))
  }

  /** All records from a position on, up to the first that is missing or cut off. */
  function From(file: seq<Byte>, p: nat): seq<seq<Byte>>
    decreases |file| - p
  {
    match At(file, p)
    case None => []
    case Some(x) => [x.bytes] + From(file, x.next)
  }

  lemma RecordAt(a: seq<Byte>, b: seq<Byte>, c: seq<Byte>)
    requires Storable(b)
    ensures At(a + Record(b) + c, |a|) == Some(Item(b, |a| + LENGTH_SIZE + |b|))
  {
    var file, p := a + Record(b) + c, |a|;
    assert file == a + Little(|b|, LENGTH_SIZE) + b + c;
    assert file[p..p + LENGTH_SIZE] == Little(|b|, LENGTH_SIZE);
    LittleNumber(|b|, LENGTH_SIZE);
    hide Little, Number, Limit;
    assert file[p + LENGTH_SIZE..p + LENGTH_SIZE + |b|] == b;
  }

  lemma {:induction false} RecordsSplit(bs: seq<seq<Byte>>, i: nat)
    requires i < |bs|
    ensures Records(bs[..i + 1]) == Records(bs[..i]) + Record(bs[i])
    ensures exists c :: Records(bs) == Records(bs[..i]) + Record(bs[i]) + c
    decreases |bs|
  {
    hide Record;
    assert bs[..i + 1][..i] == bs[..i];
    var n := |bs| - 1;
    if i == n {
      assert bs[..i + 1] == bs;
      assert Records(bs) == Records(bs[..i]) + Record(bs[i]) + [];
    } else {
      RecordsSplit(bs[..n], i);
      assert bs[..n][..i] == bs[..i] && bs[..n][i] == bs[i];
      var c :| Records(bs[..n]) == Records(bs[..i]) + Record(bs[i]) + c;
      assert Records(bs) == Records(bs[..i]) + Record(bs[i]) + (c + Record(bs[n]));
    }
  }

  /** Reading back what was written gives the same buffers. */
  lemma {:induction false} ReadBack(bs: seq<seq<Byte>>, i: nat)
    requires i <= |bs| && forall b | b in bs :: Storable(b)
    ensures From(Records(bs), |Records(bs[..i])|) == bs[i..]
    decreases |bs| - i
  {
    hide Record, Storable;
    if i == |bs| {
      assert bs[..i] == bs;
    } else {
      RecordsSplit(bs, i);
      var c :| Records(bs) == Records(bs[..i]) + Record(bs[i]) + c;
      RecordAt(Records(bs[..i]), bs[i], c);
      ReadBack(bs, i + 1);
      assert bs[i..] == [bs[i]] + bs[i + 1..];
    }
  }

  lemma RoundTrip(bs: seq<seq<Byte>>)
    requires forall b | b in bs :: Storable(b)
    ensures From(Records(bs), 0) == bs
  {
    ReadBack(bs, 0);
    assert bs[0..] == bs;
  }

  /** length_delimited_writer */
  class Writer {
    var outfile: seq<Byte>

    constructor ()
      ensures outfile == []
    {
      outfile := [];
    }

    /** ldw_write */
    method Write(b: seq<Byte>)
      modifies this
      ensures outfile == old(outfile) + Record(b)
    {
      outfile := outfile + Little(|b|, LENGTH_SIZE);
      outfile := outfile + b;
    }
  }

  /** length_delimited_reader */
  class Reader {
    const infile: seq<Byte>
    var pos: nat

    constructor (infile: seq<Byte>)
      ensures this.infile == infile && pos == 0
    {
      this.infile := infile;
      pos := 0;
    }

    /** ldr_next, when memory is available: None stands for a length of -1, after which nothing more can be
        read. */
    method Next() returns (r: Option<seq<Byte>>)
      requires pos <= |infile|
      modifies this
      ensures old(pos) <= pos <= |infile|
      ensures match At(infile, old(pos))
              case None => r == None && From(infile, pos) == []
              case Some(x) => r == Some(x.bytes) && pos == x.next
      ensures From(infile, old(pos)) == if r.None? then [] else [r.value] + From(infile, pos)
    {
      if pos + LENGTH_SIZE > |infile| {
        pos := |infile|;
        return None;
      }
      var length := Number(infile[pos..pos + LENGTH_SIZE]);
      pos := pos + LENGTH_SIZE;
      if length == 0 {
        return Some([]);
      }
      if pos + length > |infile| {
        pos := |infile|;
        return None;
      }
      r := Some(infile[pos..pos + length]);
      pos := pos + length;
    }

    /** ldr_count */
    method Count() returns (count: nat)
      requires pos <= |infile|
      modifies this
      ensures pos <= |infile| && count == |From(infile, old(pos))|
    {
      hide At;
      var next := Next();
      count := 0;
      while next.Some?
        invariant pos <= |infile|
        invariant |From(infile, old(pos))| == count + (if next.Some? then 1 + |From(infile, pos)| else 0)
        decreases |infile| - pos, next.Some?
      {
        next := Next();
        count := count + 1;
      }
    }

    /** ldr_rewind */
    method Rewind()
      modifies this
      ensures pos == 0
    {
      pos := 0;
    }
  }
}
