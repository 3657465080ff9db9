// The `serialize` / `deserialize` overloads of src/serralize.hpp, as methods
// over the two streams. Each `serialize` appends exactly the bytes Format
// assigns to its value; each `deserialize` reads what Format's decoder reads
// from the unread part of the input stream and leaves the stream just past it.
// Decoding returns the value instead of constructing it in caller memory.

module Serralize {
  import opened Bytes
  import opened Format
  import opened Streams

  /** `serialize(o, const basic_string<T>&)` with `sizeof(T) == w`. */
  method SerializeString(o: OutMemStream, w: CharWidth, s: seq<nat>)
    requires StringFits(w, s)
    modifies o
    ensures o.buf == old(o.buf) + EncodeString(w, s)
  {
    var l: SizeT := |s| * w;
    o.Write(SizeBytes(l), SIZE_T_WIDTH);
    o.Write(UnitsBytes(s, w), l);
    assert SizeBytes(l)[..SIZE_T_WIDTH] == SizeBytes(l);
    assert UnitsBytes(s, w)[..l] == UnitsBytes(s, w);
  }

  /**
   * `deserialize(i, basic_string<T>*)` with `sizeof(T) == w`: the byte
   * length, then a string of `l / w` characters built over the next `l` bytes.
   */
  method DeserializeString(i: InMemStream, w: CharWidth) returns (r: Decoded<seq<nat>>)
    requires i.Valid()
    modifies i
    ensures i.Valid() && old(i.pos) <= i.pos
    ensures r == DecodeString(w, old(i.Unread()))
    ensures r.Ok? ==> i.Unread() == r.rest
  {
    var ok, lengthBytes := i.Read(SIZE_T_WIDTH);
    if !ok {
      return Truncated;
    }
    var l := SizeOf(lengthBytes);
    var ptr;
    ok, ptr := i.PosPtr(l);
    if !ok {
      return Truncated;
    }
    r := Ok(UnitsOf(i.buf[ptr..ptr + l], w), i.Unread());
  }

  /** `serialize(o, const vr::TrackedDevice&)`. */
  method SerializeDevice(o: OutMemStream, size: SizeT, d: TrackedDevice)
    requires DeviceFits(size, d)
    modifies o
    ensures o.buf == old(o.buf) + EncodeDevice(size, d)
  {
    ghost var b0 := o.buf;
    o.Write(d.raw, size);
    assert d.raw[..size] == d.raw;
    SerializeString(o, CHAR_WIDTH, d.manufacturer);
    SerializeString(o, CHAR_WIDTH, d.model);
    SerializeString(o, CHAR_WIDTH, d.serial);
    AppendFour(b0, d.raw, EncodeString(CHAR_WIDTH, d.manufacturer),
      EncodeString(CHAR_WIDTH, d.model), EncodeString(CHAR_WIDTH, d.serial));
  }

  /**
   * Four appends in a row append the four pieces joined together. This is
   * only associativity; it is a lemma of its own so that SerializeDevice can
   * use it on opaque pieces and the solver need not regroup them itself.
   */
  lemma AppendFour(b: seq<byte>, p1: seq<byte>, p2: seq<byte>, p3: seq<byte>, p4: seq<byte>)
    ensures b + p1 + p2 + p3 + p4 == b + (p1 + p2 + p3 + p4)
  {
  }

  /**
   * `deserialize(i, vr::TrackedDevice*)`: the struct bytes, then manufacturer,
   * model and serial.
   */
  method DeserializeDevice(i: InMemStream, size: SizeT) returns (r: Decoded<TrackedDevice>)
    requires i.Valid()
    modifies i
    ensures i.Valid() && old(i.pos) <= i.pos
    ensures r == DecodeDevice(size, old(i.Unread()))
    ensures r.Ok? ==> i.Unread() == r.rest
  {
    var ok, raw := i.Read(size);
    if !ok {
      return Truncated;
    }
    var manufacturer := DeserializeString(i, CHAR_WIDTH);
    if manufacturer.Truncated? {
      return Truncated;
    }
    var model := DeserializeString(i, CHAR_WIDTH);
    if model.Truncated? {
      return Truncated;
    }
    var serial := DeserializeString(i, CHAR_WIDTH);
    if serial.Truncated? {
      return Truncated;
    }
    r := Ok(TrackedDevice(raw, manufacturer.value, model.value, serial.value), i.Unread());
  }

  /** The `serialize` overload chosen by the static type `k`. */
  method Serialize(o: OutMemStream, k: Kind, v: Value)
    requires Representable(k, v)
    modifies o
    ensures o.buf == old(o.buf) + Encode(k, v)
    decreases k, 0, 0
  {
    match k
    case StringK(w) =>
      SerializeString(o, w, v.units);
    case DeviceK(size) =>
      SerializeDevice(o, size, v.device);
    case VectorK(e) =>
      SerializeVector(o, e, v.elems);
  }

  /** `serialize(o, const vector<T>&)`: the element count, then each element in order. */
  method SerializeVector(o: OutMemStream, e: Kind, xs: seq<Value>)
    requires Representable(VectorK(e), Vec(xs))
    modifies o
    ensures o.buf == old(o.buf) + Encode(VectorK(e), Vec(xs))
    decreases e, 2, 0
  {
    var count: SizeT := |xs|;
    ghost var b0 := o.buf;
    o.Write(SizeBytes(count), SIZE_T_WIDTH);
    assert SizeBytes(count)[..SIZE_T_WIDTH] == SizeBytes(count);
    SerializeElems(o, e, xs, ys => if AllRepresentable(e, ys) then EncodeElems(e, ys) else []);
    AppendTwo(b0, SizeBytes(count), EncodeElems(e, xs));
  }

  /**
   * The loop of `serialize(o, const vector<T>&)`: each element, in order.
   * `enc` is `EncodeElems(e, ·)` under another name, so that the loop
   * reasons about the encodings of prefixes without unfolding the encoder.
   */
  method SerializeElems(o: OutMemStream, e: Kind, xs: seq<Value>, ghost enc: seq<Value> -> seq<byte>)
    requires AllRepresentable(e, xs)
    requires forall ys {:trigger EncodeElems(e, ys)} :: AllRepresentable(e, ys) ==> enc(ys) == EncodeElems(e, ys)
    modifies o
    ensures o.buf == old(o.buf) + EncodeElems(e, xs)
    decreases e, 1, 0
  {
    ghost var start := o.buf;
    assert EncodeElems(e, xs[..0]) == [];
    for n := 0 to |xs|
      invariant o.buf == start + enc(xs[..n])
    {
      ghost var piece := SerializeNext(o, e, xs, n, enc);
      AppendTwo(start, enc(xs[..n]), piece);
    }
    assert xs[..|xs|] == xs;
  }

  /** One turn of the loop of `serialize(o, const vector<T>&)`: element `n`. */
  method SerializeNext(o: OutMemStream, e: Kind, xs: seq<Value>, n: nat,
                       ghost enc: seq<Value> -> seq<byte>)
    returns (ghost piece: seq<byte>)
    requires AllRepresentable(e, xs) && n < |xs|
    requires forall ys {:trigger EncodeElems(e, ys)} :: AllRepresentable(e, ys) ==> enc(ys) == EncodeElems(e, ys)
    modifies o
    ensures o.buf == old(o.buf) + piece
    ensures piece == Encode(e, xs[n])
    ensures EncodeElems(e, xs[..n + 1]) == EncodeElems(e, xs[..n]) + piece
    ensures enc(xs[..n + 1]) == enc(xs[..n]) + piece
    decreases e, 0, 1
  {
    EncodeElemsPrefixStep(e, xs, n);
    Serialize(o, e, xs[n]);
    piece := Encode(e, xs[n]);
  }

  /**
   * Two appends in a row append the two pieces joined together. This is
   * only associativity; it is a lemma of its own so that the loop of
   * SerializeElems and SerializeVector can use it on opaque pieces, which
   * keeps the solver's work small.
   */
  lemma AppendTwo(b: seq<byte>, p1: seq<byte>, p2: seq<byte>)
    ensures b + p1 + p2 == b + (p1 + p2)
  {
  }

  /** The outcome of decoding the rest of a vector after `xs` were decoded. */
  function Prepend(xs: seq<Value>, r: Decoded<seq<Value>>): Decoded<seq<Value>>
  {
    match r
    case Truncated => Truncated
    case Ok(ys, rest) => Ok(xs + ys, rest)
  }

  /** Nothing decoded before: the outcome is unchanged. */
  lemma PrependNothing(r: Decoded<seq<Value>>)
    ensures Prepend([], r) == r
  {
    match r
    case Truncated =>
    case Ok(ys, rest) =>
      assert [] + ys == ys;
  }

  /** Decoding one more element moves it from the outcome to the decoded prefix. */
  lemma PrependStep(xs: seq<Value>, x: Value, r: Decoded<seq<Value>>)
    ensures Prepend(xs, Prepend([x], r)) == Prepend(xs + [x], r)
  {
    match r
    case Truncated =>
    case Ok(ys, rest) =>
      assert xs + ([x] + ys) == (xs + [x]) + ys;
  }

  /** PrependStep, stated on the outcomes the loop of DeserializeElems keeps. */
  lemma PrependAdvance(whole: Decoded<seq<Value>>, xs: seq<Value>, x: Value,
                       before: Decoded<seq<Value>>, after: Decoded<seq<Value>>)
    requires whole == Prepend(xs, before)
    requires before == Prepend([x], after)
    ensures whole == Prepend(xs + [x], after)
  {
    PrependStep(xs, x, after);
  }

  /** The `deserialize` overload chosen by the static type `k`. */
  method Deserialize(i: InMemStream, k: Kind) returns (r: Decoded<Value>)
    requires i.Valid()
    modifies i
    ensures i.Valid() && old(i.pos) <= i.pos
    ensures r == Decode(k, old(i.Unread()))
    ensures r.Ok? ==> i.Unread() == r.rest
    decreases k, 0, 0
  {
    match k
    case StringK(w) =>
      var s := DeserializeString(i, w);
      r := if s.Ok? then Ok(Str(s.value), s.rest) else Truncated;
    case DeviceK(size) =>
      var d := DeserializeDevice(i, size);
      r := if d.Ok? then Ok(Dev(d.value), d.rest) else Truncated;
    case VectorK(e) =>
      r := DeserializeVector(i, e);
  }

  /**
   * `deserialize(i, vector<T>*)`: the element count, then that many
   * elements, decoded in turn and appended.
   */
  method DeserializeVector(i: InMemStream, e: Kind) returns (r: Decoded<Value>)
    requires i.Valid()
    modifies i
    ensures i.Valid() && old(i.pos) <= i.pos
    ensures r == Decode(VectorK(e), old(i.Unread()))
    ensures r.Ok? ==> i.Unread() == r.rest
    decreases e, 2, 0
  {
    var ok, countBytes := i.Read(SIZE_T_WIDTH);
    if !ok {
      return Truncated;
    }
    var count := SizeOf(countBytes);
    assert DecodeSize(old(i.Unread())) == Ok(count, i.Unread());
    var xs := DeserializeElems(i, e, count, (bs: seq<byte>, m: nat) => DecodeElems(e, bs, m));
    r := if xs.Ok? then Ok(Vec(xs.value), xs.rest) else Truncated;
  }

  /**
   * The loop of `deserialize(i, vector<T>*)`: `count` elements, each decoded
   * and appended in the order they lie in the stream. An element that does
   * not fit ends the loop with `failed` set, and the vector is Truncated. `dec` is
   * `DecodeElems(e, ·, ·)` under another name, so that the loop reasons about
   * what is left to decode without unfolding the decoder.
   */
  method DeserializeElems(i: InMemStream, e: Kind, count: nat,
                          ghost dec: (seq<byte>, nat) -> Decoded<seq<Value>>)
    returns (r: Decoded<seq<Value>>)
    requires i.Valid()
    requires forall bs, m {:trigger DecodeElems(e, bs, m)} :: dec(bs, m) == DecodeElems(e, bs, m)
    modifies i
    ensures i.Valid() && old(i.pos) <= i.pos
    ensures r == DecodeElems(e, old(i.Unread()), count)
    ensures r.Ok? ==> i.Unread() == r.rest
    decreases e, 1, 0
  {
    ghost var start := i.pos;
    ghost var whole := dec(i.Unread(), count);
    assert whole == DecodeElems(e, i.Unread(), count);
    PrependNothing(whole);
    var xs: seq<Value> := [];
    var n := 0;
    var failed := false;
    while n < count && !failed
      invariant i.Valid() && start <= i.pos
      invariant n <= count
      invariant if failed then whole == Truncated
                else whole == Prepend(xs, dec(i.Unread(), count - n))
      decreases count - n, if failed then 0 else 1
    {
      ghost var before := dec(i.Unread(), count - n);
      var x := DeserializeNext(i, e, count - n, dec);
      if x.Truncated? {
        failed := true;
      } else {
        PrependAdvance(whole, xs, x.value, before, dec(i.Unread(), count - n - 1));
        xs := xs + [x.value];
        n := n + 1;
      }
    }
    if failed {
      r := Truncated;
    } else {
      assert dec(i.Unread(), 0) == DecodeElems(e, i.Unread(), 0);
      assert xs + [] == xs;
      r := Ok(xs, i.Unread());
    }
  }

  /**
   * One turn of the loop of `deserialize(i, vector<T>*)`: the next element.
   * Failing fails the rest of the vector; otherwise the rest of the vector
   * is this element followed by the `left - 1` after it.
   */
  method DeserializeNext(i: InMemStream, e: Kind, ghost left: nat,
                         ghost dec: (seq<byte>, nat) -> Decoded<seq<Value>>)
    returns (x: Decoded<Value>)
    requires i.Valid() && left > 0
    requires forall bs, m {:trigger DecodeElems(e, bs, m)} :: dec(bs, m) == DecodeElems(e, bs, m)
    modifies i
    ensures i.Valid() && old(i.pos) <= i.pos
    ensures x.Truncated? ==> dec(old(i.Unread()), left) == Truncated
    ensures x.Ok? ==> i.Unread() == x.rest
    ensures x.Ok? ==> dec(old(i.Unread()), left) == Prepend([x.value], dec(x.rest, left - 1))
    decreases e, 0, 1
  {
    ghost var rest := i.Unread();
    x := Deserialize(i, e);
    assert dec(rest, left) == DecodeElems(e, rest, left);
    if x.Ok? {
      assert dec(x.rest, left - 1) == DecodeElems(e, x.rest, left - 1);
    }
  }
}
