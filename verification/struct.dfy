/**
 * Python's `struct` module restricted to what the packet codec uses: a big-endian
 * format made only of unsigned integer codes ('B' is one byte, 'H' two bytes).
 * A format is the sequence of its field widths in bytes, so '>BBHHHHH' is
 * [1, 1, 2, 2, 2, 2, 2].
 */
module Struct {
  import opened Wrappers

  /** One element of a Python `bytes` object. */
  type byte = b: int | 0 <= b < 256

  /** 256 to the power n: one more than the largest unsigned value n bytes hold. */
  function Pow256(n: nat): (r: nat)
    ensures r > 0
  {
    if n == 0 then 1 else 256 * Pow256(n - 1)
  }

  /** The unsigned big-endian value of a byte string. */
  function FromBigEndian(bs: seq<byte>): (r: nat)
    ensures r < Pow256(|bs|)
  {
    if |bs| == 0 then 0 else FromBigEndian(bs[..|bs| - 1]) * 256 + bs[|bs| - 1]
  }

  /** The `width`-byte big-endian representation of v; it decodes back to v. */
  function ToBigEndian(v: nat, width: nat): (r: seq<byte>)
    requires v < Pow256(width)
    ensures |r| == width
    ensures FromBigEndian(r) == v
  {
    if width == 0 then []
    else
      var r := ToBigEndian(v / 256, width - 1) + [v % 256];
      assert r[..|r| - 1] == ToBigEndian(v / 256, width - 1);
      r
  }

  /** `struct.calcsize`: the number of bytes a format packs into. */
  function Size(format: seq<nat>): nat
  {
    if |format| == 0 then 0 else format[0] + Size(format[1..])
  }

  /** The values are as many as the format's fields and each fits its field's width. */
  predicate Fits(format: seq<nat>, values: seq<int>)
  {
    && |values| == |format|
    && (|format| == 0 || (0 <= values[0] < Pow256(format[0]) && Fits(format[1..], values[1..])))
  }

  /**
   * `struct.pack`: `None` is the `struct.error` Python raises when the argument
   * count is wrong or a value is negative or too wide for its field.
   */
  function Pack(format: seq<nat>, values: seq<int>): (r: Option<seq<byte>>)
    ensures r.Some? <==> Fits(format, values)
    ensures r.Some? ==> |r.value| == Size(format)
  {
    if |values| != |format| then None
    else if |format| == 0 then Some([])
    else if !(0 <= values[0] < Pow256(format[0])) then None
    else
      match Pack(format[1..], values[1..])
      case None => None
      case Some(rest) => Some(ToBigEndian(values[0], format[0]) + rest)
  }

  /** The fields of a buffer whose length is exactly the format's size, in order. */
  function UnpackFields(format: seq<nat>, buf: seq<byte>): (r: seq<nat>)
    requires |buf| == Size(format)
    ensures |r| == |format|
    ensures forall i :: 0 <= i < |format| ==> r[i] < Pow256(format[i])
  {
    if |format| == 0 then []
    else [FromBigEndian(buf[..format[0]])] + UnpackFields(format[1..], buf[format[0]..])
  }

  /**
   * `struct.unpack`: `None` is the `struct.error` Python raises when the buffer's
   * length differs from the format's size.
   */
  function Unpack(format: seq<nat>, buf: seq<byte>): (r: Option<seq<nat>>)
    ensures r.Some? <==> |buf| == Size(format)
    ensures r.Some? ==> |r.value| == |format|
    ensures r.Some? ==> forall i :: 0 <= i < |format| ==> r.value[i] < Pow256(format[i])
  {
    if |buf| != Size(format) then None else Some(UnpackFields(format, buf))
  }

  /** Fits is the field-by-field range check `struct.pack` performs. */
  lemma {:induction false} FitsEach(format: seq<nat>, values: seq<int>)
    ensures Fits(format, values)
        <==> |values| == |format| && forall i :: 0 <= i < |format| ==> 0 <= values[i] < Pow256(format[i])
    decreases |format|
  {
    if |format| > 0 && |values| == |format| {
      FitsEach(format[1..], values[1..]);
      assert forall i :: 1 <= i < |format| ==> format[1..][i - 1] == format[i] && values[1..][i - 1] == values[i];
    }
  }

  /** The size of a format's first i fields, split after the first field. */
  lemma PrefixSize(format: seq<nat>, i: nat)
    requires 0 < i <= |format|
    ensures Size(format[..i]) == format[0] + Size(format[1..][..i - 1])
  {
    assert format[..i][1..] == format[1..][..i - 1];
  }

  /** The size of a concatenation of formats is the sum of their sizes. */
  lemma {:induction false} SizeAppend(a: seq<nat>, b: seq<nat>)
    ensures Size(a + b) == Size(a) + Size(b)
    decreases |a|
  {
    if |a| == 0 {
      assert a + b == b;
    } else {
      SizeAppend(a[1..], b);
      assert (a + b)[1..] == a[1..] + b;
    }
  }

  /** Adding field k to a prefix adds its width to the prefix's size. */
  lemma PrefixSizeNext(format: seq<nat>, k: nat)
    requires k < |format|
    ensures Size(format[..k + 1]) == Size(format[..k]) + format[k]
  {
    assert format[..k + 1] == format[..k] + [format[k]];
    SizeAppend(format[..k], [format[k]]);
    assert Size([format[k]]) == format[k] + Size([]);
  }

  /** Field i > 0 of an unpacked buffer is field i - 1 of the rest after the first field. */
  lemma UnpackFieldsTail(format: seq<nat>, buf: seq<byte>, i: nat)
    requires |buf| == Size(format) && 0 < i < |format|
    ensures UnpackFields(format, buf)[i] == UnpackFields(format[1..], buf[format[0]..])[i - 1]
  {
  }

  /** Slicing a suffix is slicing the whole at shifted bounds. */
  lemma SliceOfSuffix(buf: seq<byte>, k: nat, lo: nat, hi: nat)
    requires lo <= hi && k + hi <= |buf|
    ensures buf[k..][lo..hi] == buf[k + lo..k + hi]
  {
  }

  /** The bytes of field i of a buffer unpacked with a format. */
  function FieldBytes(format: seq<nat>, buf: seq<byte>, i: nat): seq<byte>
    requires i < |format| && Size(format[..i]) + format[i] <= |buf|
  {
    buf[Size(format[..i])..Size(format[..i]) + format[i]]
  }

  /** Field i > 0 of a buffer, located from where field i - 1 of the rest after the first field is. */
  lemma UnpackFieldStep(format: seq<nat>, buf: seq<byte>, i: nat)
    requires |buf| == Size(format) && 0 < i < |format|
    requires Size(format[1..][..i - 1]) + format[1..][i - 1] <= |buf[format[0]..]|
    requires UnpackFields(format[1..], buf[format[0]..])[i - 1]
          == FromBigEndian(FieldBytes(format[1..], buf[format[0]..], i - 1))
    ensures Size(format[..i]) + format[i] <= |buf|
    ensures UnpackFields(format, buf)[i] == FromBigEndian(FieldBytes(format, buf, i))
  {
    FieldBytesTail(format, buf, i);
    UnpackFieldsTail(format, buf, i);
  }

  /** The bytes of field i > 0 are those of field i - 1 of the rest after the first field. */
  lemma FieldBytesTail(format: seq<nat>, buf: seq<byte>, i: nat)
    requires 0 < i < |format| && |buf| == Size(format)
    requires Size(format[1..][..i - 1]) + format[1..][i - 1] <= |buf[format[0]..]|
    ensures Size(format[..i]) + format[i] <= |buf|
    ensures FieldBytes(format, buf, i) == FieldBytes(format[1..], buf[format[0]..], i - 1)
  {
    PrefixSize(format, i);
    var o := Size(format[1..][..i - 1]);
    var w := format[i];
    assert format[1..][i - 1] == w;
    SliceOfSuffix(buf, format[0], o, o + w);
  }

  /** Field i of an unpacked buffer is the big-endian value of its bytes, which start after the earlier fields. */
  lemma {:induction false} UnpackFieldAt(format: seq<nat>, buf: seq<byte>, i: nat)
    requires |buf| == Size(format) && i < |format|
    ensures Size(format[..i]) + format[i] <= |buf|
    ensures UnpackFields(format, buf)[i] == FromBigEndian(FieldBytes(format, buf, i))
    decreases i
  {
    if i == 0 {
      assert format[..0] == [];
      assert buf[0..format[0]] == buf[..format[0]];
    } else {
      UnpackFieldAt(format[1..], buf[format[0]..], i - 1);
      UnpackFieldStep(format, buf, i);
    }
  }

  /** A one-byte field's value is the byte. */
  lemma FromBigEndian1(bs: seq<byte>)
    requires |bs| == 1
    ensures FromBigEndian(bs) == bs[0]
  {
    assert bs[..0] == [];
  }

  /** A two-byte field's value is high byte times 256 plus low byte. */
  lemma FromBigEndian2(bs: seq<byte>)
    requires |bs| == 2
    ensures FromBigEndian(bs) == bs[0] as int * 256 + bs[1] as int
  {
    FromBigEndian1(bs[..1]);
  }

  /** A one-byte field at offset o unpacks to the byte there. */
  lemma UnpackByteField(format: seq<nat>, buf: seq<byte>, i: nat, o: nat)
    requires |buf| == Size(format) && i < |format| && format[i] == 1 && Size(format[..i]) == o
    ensures o < |buf| && UnpackFields(format, buf)[i] == buf[o]
  {
    UnpackFieldAt(format, buf, i);
    assert FieldBytes(format, buf, i) == buf[o..o + 1];
    FromBigEndian1(buf[o..o + 1]);
  }

  /** A two-byte field at offset o unpacks to the big-endian value of the two bytes there. */
  lemma UnpackShortField(format: seq<nat>, buf: seq<byte>, i: nat, o: nat)
    requires |buf| == Size(format) && i < |format| && format[i] == 2 && Size(format[..i]) == o
    ensures o + 1 < |buf| && UnpackFields(format, buf)[i] == buf[o] as int * 256 + buf[o + 1] as int
  {
    UnpackFieldAt(format, buf, i);
    assert FieldBytes(format, buf, i) == buf[o..o + 2];
    FromBigEndian2(buf[o..o + 2]);
  }

  /** Unpacking what was packed with the same format gives the values back. */
  lemma {:induction false} UnpackPack(format: seq<nat>, values: seq<int>)
    requires Fits(format, values)
    ensures Pack(format, values).Some?
    ensures Unpack(format, Pack(format, values).value) == Some(values)
    decreases |format|
  {
    if |format| > 0 {
      var head := ToBigEndian(values[0], format[0]);
      UnpackPack(format[1..], values[1..]);
      var rest := Pack(format[1..], values[1..]).value;
      var buf := head + rest;
      assert Pack(format, values).value == buf;
      assert |buf| == Size(format);
      assert buf[..format[0]] == head;
      assert buf[format[0]..] == rest;
      assert UnpackFields(format[1..], rest) == values[1..];
      assert UnpackFields(format, buf) == [values[0]] + values[1..];
      assert [values[0]] + values[1..] == values;
    }
  }
}
