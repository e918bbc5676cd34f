/** A `#[repr(C)]` record whose fields are all `u32` words or byte arrays, laid out
    back to back with no padding, described by the list of its field lengths.
    `Concat` is the record's memory image (`to_img`), `Split` cuts a memory image back
    into fields, and field `i` lives at `Offset(lens, i)`. */
module Layout {
  import opened Wrappers

  /** The size of a record with fields of the given lengths (`size_of::<T>()`). */
  function Sum(lens: seq<nat>): nat
  {
    if lens == [] then 0 else lens[0] + Sum(lens[1..])
  }

  /** The byte offset of field `i`: the sizes of the fields before it. */
  function Offset(lens: seq<nat>, i: nat): nat
    requires i <= |lens|
  {
    Sum(lens[..i])
  }

  function Lengths(fields: seq<seq<bv8>>): (lens: seq<nat>)
    ensures |lens| == |fields| && forall i | 0 <= i < |fields| :: lens[i] == |fields[i]|
  {
    seq(|fields|, i requires 0 <= i < |fields| => |fields[i]|)
  }

  /** The fields written one after another. */
  function Concat(fields: seq<seq<bv8>>): seq<bv8>
  {
    if fields == [] then [] else fields[0] + Concat(fields[1..])
  }

  /** The first `Sum(lens)` bytes of `buf` cut into consecutive fields of the given lengths. */
  function Split(buf: seq<bv8>, lens: seq<nat>): (fields: seq<seq<bv8>>)
    requires Sum(lens) <= |buf|
    ensures Lengths(fields) == lens
  {
    if lens == [] then []
    else
      var rest := Split(buf[lens[0]..], lens[1..]);
      assert Lengths([buf[..lens[0]]] + rest) == [lens[0]] + lens[1..] by {
        assert forall i | 1 <= i < |lens| :: ([buf[..lens[0]]] + rest)[i] == rest[i - 1];
      }
      [buf[..lens[0]]] + rest
  }

  /** `from_img::<T>(buf, offset)`: reading a record at `offset` succeeds exactly when
      the record lies inside the buffer, and then yields the record's fields, which are
      the buffer's bytes from `offset` on. */
  function FromImg(buf: seq<bv8>, offset: nat, lens: seq<nat>): (r: Option<seq<seq<bv8>>>)
    ensures r.Some? <==> offset + Sum(lens) <= |buf|
    ensures r.Some? ==> Lengths(r.value) == lens && Concat(r.value) == buf[offset..offset + Sum(lens)]
  {
    if offset + Sum(lens) <= |buf| then
      ConcatSplit(buf[offset..], lens);
      assert buf[offset..][..Sum(lens)] == buf[offset..offset + Sum(lens)];
      Some(Split(buf[offset..], lens))
    else None
  }

  lemma {:induction false} SumAppend(a: seq<nat>, b: seq<nat>)
    ensures Sum(a + b) == Sum(a) + Sum(b)
  {
    if a == [] {
      assert a + b == b;
    } else {
      assert (a + b)[1..] == a[1..] + b;
      SumAppend(a[1..], b);
    }
  }

  /** `n` fields of `k` bytes each (an array of `n` records of size `k`). */
  function Repeat(n: nat, k: nat): (lens: seq<nat>)
    ensures |lens| == n && forall i | 0 <= i < n :: lens[i] == k
  {
    if n == 0 then [] else [k] + Repeat(n - 1, k)
  }

  lemma {:induction false} SumRepeat(n: nat, k: nat)
    ensures Sum(Repeat(n, k)) == n * k
  {
    if n > 0 {
      assert Repeat(n, k)[1..] == Repeat(n - 1, k);
      SumRepeat(n - 1, k);
    }
  }

  lemma {:induction false} ConcatLength(fields: seq<seq<bv8>>)
    ensures |Concat(fields)| == Sum(Lengths(fields))
  {
    if fields != [] {
      assert Lengths(fields)[1..] == Lengths(fields[1..]);
      ConcatLength(fields[1..]);
    }
  }

  /** Cutting a buffer into fields and writing them back gives the buffer. */
  lemma {:induction false} ConcatSplit(buf: seq<bv8>, lens: seq<nat>)
    requires Sum(lens) <= |buf|
    ensures Concat(Split(buf, lens)) == buf[..Sum(lens)]
  {
    if lens != [] {
      var rest := Split(buf[lens[0]..], lens[1..]);
      assert ([buf[..lens[0]]] + rest)[1..] == rest;
      ConcatSplit(buf[lens[0]..], lens[1..]);
      assert buf[..lens[0]] + buf[lens[0]..][..Sum(lens[1..])] == buf[..Sum(lens)];
    }
  }

  /** Writing fields one after another and cutting the result at their lengths gives the fields. */
  lemma {:induction false} SplitConcat(fields: seq<seq<bv8>>)
    ensures Sum(Lengths(fields)) == |Concat(fields)|
    ensures Split(Concat(fields), Lengths(fields)) == fields
  {
    ConcatLength(fields);
    if fields != [] {
      var c := Concat(fields);
      assert c[..|fields[0]|] == fields[0];
      assert c[|fields[0]|..] == Concat(fields[1..]);
      assert Lengths(fields)[1..] == Lengths(fields[1..]);
      SplitConcat(fields[1..]);
      assert fields == [fields[0]] + fields[1..];
    }
  }

  /** The offset table: field `i` of a split buffer is the slice of `lens[i]` bytes at `Offset(lens, i)`. */
  lemma {:induction false} SplitField(buf: seq<bv8>, lens: seq<nat>, i: nat)
    requires Sum(lens) <= |buf| && i < |lens|
    ensures Offset(lens, i) + lens[i] <= Sum(lens)
    ensures Split(buf, lens)[i] == buf[Offset(lens, i)..Offset(lens, i) + lens[i]]
  {
    assert lens == lens[..i] + lens[i..];
    SumAppend(lens[..i], lens[i..]);
    if i > 0 {
      SplitField(buf[lens[0]..], lens[1..], i - 1);
      assert lens[1..][..i - 1] == lens[..i][1..];
    }
  }
}
