// The byte grammar of the blitting codec of src/serralize.hpp, as pure
// functions: what `serialize` appends to the output stream for a value of each
// supported C++ type, and what `deserialize` makes of the unread bytes of an
// input stream. The imperative methods of module Serralize are proved equal to
// these functions; the laws of the format (round trip, truncation safety,
// layout) are proved here.

module Format {
  import opened Bytes

  /** `sizeof(T)` of the character type of a `std::basic_string<T>`. */
  type CharWidth = w: nat | w > 0 witness 1

  /** `sizeof(char)`: the width of the characters of `std::string`. */
  const CHAR_WIDTH: CharWidth := 1

  // ---------------------------------------------------------------------------
  // Character data in memory

  /** Every code unit of `s` fits in a character of `w` bytes. */
  predicate UnitsFit(s: seq<nat>, w: CharWidth)
  {
    forall k :: 0 <= k < |s| ==> s[k] < Pow256(w)
  }

  /** The memory `s.c_str()` points to: each code unit in host byte order. */
  function UnitsBytes(s: seq<nat>, w: CharWidth): (r: seq<byte>)
    requires UnitsFit(s, w)
    ensures |r| == |s| * w
  {
    if s == [] then [] else LittleEndian(s[0], w) + UnitsBytes(s[1..], w)
  }

  /**
   * The string `basic_string<T>(p, l / sizeof(T))` builds from a window of `l`
   * bytes: one code unit per whole character, a trailing part-character ignored.
   */
  function UnitsOf(bs: seq<byte>, w: CharWidth): (r: seq<nat>)
    decreases |bs|
  {
    if |bs| < w then [] else [FromLittleEndian(bs[..w])] + UnitsOf(bs[w..], w)
  }

  /** The string read from a window has one unit per whole character in it. */
  lemma {:induction false} UnitsOfLength(bs: seq<byte>, w: CharWidth)
    ensures |UnitsOf(bs, w)| == |bs| / w
    ensures UnitsFit(UnitsOf(bs, w), w)
    decreases |bs|
  {
    if |bs| >= w {
      UnitsOfLength(bs[w..], w);
      DivStep(|bs|, w);
    }
  }

  /** Removing one whole character's width removes one from the quotient. */
  lemma DivStep(n: nat, w: CharWidth)
    requires n >= w
    ensures (n - w) / w + 1 == n / w
  {
    var q, r := (n - w) / w, (n - w) % w;
    DivUnique(n, w, q + 1, r);
  }

  /** Floor division is the one quotient whose remainder is below the divisor. */
  lemma DivUnique(n: int, w: int, q: int, r: int)
    requires w > 0 && 0 <= r < w && n == q * w + r
    ensures n / w == q
  {
    var q', r' := n / w, n % w;
    assert (q' - q) * w == r - r';
    if q' > q {
      MulAtLeast(q' - q, w);
    } else if q' < q {
      MulAtLeast(q - q', w);
    }
  }

  /** A positive multiple of `w` is at least `w`. */
  lemma MulAtLeast(d: int, w: int)
    requires d >= 1 && w > 0
    ensures d * w >= w
  {
    assert d * w == (d - 1) * w + w;
  }

  /** Reading the characters of a string back from its memory gives the string. */
  lemma {:induction false} UnitsRoundTrip(s: seq<nat>, w: CharWidth)
    requires UnitsFit(s, w)
    ensures UnitsOf(UnitsBytes(s, w), w) == s
  {
    if s != [] {
      var bs := UnitsBytes(s, w);
      assert bs[..w] == LittleEndian(s[0], w);
      assert bs[w..] == UnitsBytes(s[1..], w);
      LittleEndianRoundTrip(s[0], w);
      UnitsRoundTrip(s[1..], w);
    }
  }

  // ---------------------------------------------------------------------------
  // Values of the serialisable C++ types

  /**
   * `vr::TrackedDevice`: the fixed-layout part of the struct is an opaque
   * block of raw bytes, followed by its three `std::string` members.
   */
  datatype TrackedDevice = TrackedDevice(
    raw: seq<byte>,
    manufacturer: seq<nat>,
    model: seq<nat>,
    serial: seq<nat>)

  /**
   * The static C++ type that selects a `serialize`/`deserialize` overload:
   * `std::basic_string<T>` with `sizeof(T) == width`, `vr::TrackedDevice`
   * with `sizeof(vr::TrackedDevice) == size`, or `std::vector<T>`.
   */
  datatype Kind =
    | StringK(width: CharWidth)
    | DeviceK(size: SizeT)
    | VectorK(elem: Kind)

  /** A value of one of the types above. */
  datatype Value =
    | Str(units: seq<nat>)
    | Dev(device: TrackedDevice)
    | Vec(elems: seq<Value>)

  /** A string whose byte length `length() * sizeof(T)` fits in a `size_t`. */
  predicate StringFits(w: CharWidth, s: seq<nat>)
  {
    UnitsFit(s, w) && |s| * w < SIZE_T_MODULUS
  }

  /** A device of the struct size the binary was built with. */
  predicate DeviceFits(size: SizeT, d: TrackedDevice)
  {
    |d.raw| == size
    && StringFits(CHAR_WIDTH, d.manufacturer)
    && StringFits(CHAR_WIDTH, d.model)
    && StringFits(CHAR_WIDTH, d.serial)
  }

  /** `v` is a value of the C++ type `k` that can exist in memory. */
  predicate Representable(k: Kind, v: Value)
    decreases k, 0
  {
    match k
    case StringK(w) => v.Str? && StringFits(w, v.units)
    case DeviceK(size) => v.Dev? && DeviceFits(size, v.device)
    case VectorK(e) =>
      v.Vec? && |v.elems| < SIZE_T_MODULUS && AllRepresentable(e, v.elems)
  }

  /** Every element of `xs` is a representable value of type `e`. */
  predicate AllRepresentable(e: Kind, xs: seq<Value>)
    decreases e, 1
  {
    forall j :: 0 <= j < |xs| ==> Representable(e, xs[j])
  }

  // ---------------------------------------------------------------------------
  // Encoding (what `serialize` appends)

  /** `serialize(o, const basic_string<T>&)`: byte length, then the raw characters. */
  function EncodeString(w: CharWidth, s: seq<nat>): (r: seq<byte>)
    requires StringFits(w, s)
    ensures |r| == SIZE_T_WIDTH + |s| * w
  {
    SizeBytes(|s| * w) + UnitsBytes(s, w)
  }

  /** `serialize(o, const vr::TrackedDevice&)`: the struct bytes, then the three strings. */
  function EncodeDevice(size: SizeT, d: TrackedDevice): (r: seq<byte>)
    requires DeviceFits(size, d)
    ensures |r| == size + 3 * SIZE_T_WIDTH + |d.manufacturer| + |d.model| + |d.serial|
  {
    d.raw
    + EncodeString(CHAR_WIDTH, d.manufacturer)
    + EncodeString(CHAR_WIDTH, d.model)
    + EncodeString(CHAR_WIDTH, d.serial)
  }

  /** The overload of `serialize` chosen by the static type `k`. */
  function Encode(k: Kind, v: Value): (r: seq<byte>)
    requires Representable(k, v)
    ensures |r| >= SIZE_T_WIDTH
    decreases v
  {
    match k
    case StringK(w) => EncodeString(w, v.units)
    case DeviceK(size) => EncodeDevice(size, v.device)
    case VectorK(e) => SizeBytes(|v.elems|) + EncodeElems(e, v.elems)
  }

  /** The elements of a vector, each encoded in turn. */
  function EncodeElems(e: Kind, xs: seq<Value>): (r: seq<byte>)
    requires AllRepresentable(e, xs)
    ensures |r| >= SIZE_T_WIDTH * |xs|
    decreases xs
  {
    if xs == [] then [] else Encode(e, xs[0]) + EncodeElems(e, xs[1..])
  }

  /** The empty vector body encodes to nothing. */
  lemma EncodeElemsNone(e: Kind, encElems: seq<Value> -> seq<byte>)
    requires forall ys {:trigger EncodeElems(e, ys)} ::
      AllRepresentable(e, ys) ==> encElems(ys) == EncodeElems(e, ys)
    ensures encElems([]) == []
  {
    assert encElems([]) == EncodeElems(e, []);
  }

  /** A non-empty vector body encodes as its first element, then the others. */
  lemma EncodeElemsFirst(e: Kind, xs: seq<Value>,
      encOne: Value -> seq<byte>, encElems: seq<Value> -> seq<byte>)
    requires forall x {:trigger Encode(e, x)} :: Representable(e, x) ==> encOne(x) == Encode(e, x)
    requires forall ys {:trigger EncodeElems(e, ys)} ::
      AllRepresentable(e, ys) ==> encElems(ys) == EncodeElems(e, ys)
    requires AllRepresentable(e, xs) && xs != []
    ensures Representable(e, xs[0]) && AllRepresentable(e, xs[1..])
    ensures encElems(xs) == encOne(xs[0]) + encElems(xs[1..])
  {
    assert Representable(e, xs[0]);
    assert AllRepresentable(e, xs[1..]) by {
      forall j | 0 <= j < |xs[1..]|
        ensures Representable(e, xs[1..][j])
      {
        assert xs[1..][j] == xs[j + 1];
      }
    }
    assert encElems(xs) == EncodeElems(e, xs);
    assert encOne(xs[0]) == Encode(e, xs[0]);
    assert encElems(xs[1..]) == EncodeElems(e, xs[1..]);
  }

  /** Encoding a vector one element more appends that element's encoding. */
  lemma EncodeElemsAppend(e: Kind, xs: seq<Value>, x: Value)
    requires AllRepresentable(e, xs)
    requires Representable(e, x)
    ensures AllRepresentable(e, xs + [x])
    ensures EncodeElems(e, xs + [x]) == EncodeElems(e, xs) + Encode(e, x)
  {
    var encOne := y => if Representable(e, y) then Encode(e, y) else [];
    var encElems := ys => if AllRepresentable(e, ys) then EncodeElems(e, ys) else [];
    AppendElems(e, xs, x, encOne, encElems);
    assert encElems(xs + [x]) == EncodeElems(e, xs + [x]);
  }

  /** EncodeElemsAppend, for `encOne` and `encElems` standing for `Encode(e, ·)` and `EncodeElems(e, ·)`. */
  lemma {:induction false} AppendElems(e: Kind, xs: seq<Value>, x: Value,
      encOne: Value -> seq<byte>, encElems: seq<Value> -> seq<byte>)
    requires forall x {:trigger Encode(e, x)} :: Representable(e, x) ==> encOne(x) == Encode(e, x)
    requires forall ys {:trigger EncodeElems(e, ys)} ::
      AllRepresentable(e, ys) ==> encElems(ys) == EncodeElems(e, ys)
    requires AllRepresentable(e, xs)
    requires Representable(e, x)
    ensures AllRepresentable(e, xs + [x])
    ensures encElems(xs + [x]) == encElems(xs) + encOne(x)
  {
    assert AllRepresentable(e, xs + [x]) by {
      forall j | 0 <= j < |xs + [x]|
        ensures Representable(e, (xs + [x])[j])
      {
        if j < |xs| {
          assert (xs + [x])[j] == xs[j];
        }
      }
    }
    EncodeElemsFirst(e, xs + [x], encOne, encElems);
    if xs == [] {
      assert (xs + [x])[1..] == [];
      EncodeElemsNone(e, encElems);
    } else {
      assert (xs + [x])[1..] == xs[1..] + [x];
      EncodeElemsFirst(e, xs, encOne, encElems);
      AppendElems(e, xs[1..], x, encOne, encElems);
    }
  }

  /** The encoding of the first `n + 1` elements extends that of the first `n`. */
  lemma EncodeElemsPrefixStep(e: Kind, xs: seq<Value>, n: nat)
    requires AllRepresentable(e, xs)
    requires n < |xs|
    ensures AllRepresentable(e, xs[..n]) && AllRepresentable(e, xs[..n + 1])
    ensures EncodeElems(e, xs[..n + 1]) == EncodeElems(e, xs[..n]) + Encode(e, xs[n])
  {
    assert xs[..n + 1] == xs[..n] + [xs[n]];
    EncodeElemsAppend(e, xs[..n], xs[n]);
  }

  // ---------------------------------------------------------------------------
  // Decoding (what `deserialize` reads)

  /** The outcome of reading a value from the unread bytes of a stream. */
  datatype Decoded<T> = Ok(value: T, rest: seq<byte>) | Truncated

  /**
   * `InMemStream::read` / `pos_ptr` of `n` bytes: the next `n` bytes and what
   * follows them, or `Truncated` where the bound assertion would fire.
   */
  function Take(bs: seq<byte>, n: nat): (r: Decoded<seq<byte>>)
    ensures r.Ok? <==> n <= |bs|
    ensures r.Ok? ==> |r.value| == n && |r.rest| == |bs| - n
  {
    if n <= |bs| then Ok(bs[..n], bs[n..]) else Truncated
  }

  /** `read(&sz, sizeof(size_t))`. */
  function DecodeSize(bs: seq<byte>): (r: Decoded<SizeT>)
    ensures r.Ok? <==> |bs| >= SIZE_T_WIDTH
    ensures r.Ok? ==> |r.rest| == |bs| - SIZE_T_WIDTH
  {
    match Take(bs, SIZE_T_WIDTH)
    case Truncated => Truncated
    case Ok(b, rest) => Ok(SizeOf(b), rest)
  }

  /**
   * `deserialize(i, basic_string<T>*)`: a byte length `l`, then a window of
   * `l` bytes holding `l / sizeof(T)` characters.
   */
  function DecodeString(w: CharWidth, bs: seq<byte>): (r: Decoded<seq<nat>>)
    ensures r.Ok? ==> |r.rest| + SIZE_T_WIDTH <= |bs|
  {
    match DecodeSize(bs)
    case Truncated => Truncated
    case Ok(l, afterLength) =>
      match Take(afterLength, l)
      case Truncated => Truncated
      case Ok(window, rest) => Ok(UnitsOf(window, w), rest)
  }

  /**
   * Decoding a string fails exactly when the input cannot hold the length
   * field and the `l` bytes it announces; otherwise it yields `l / sizeof(T)`
   * characters and resumes right after those `l` bytes.
   */
  lemma DecodeStringShape(w: CharWidth, bs: seq<byte>)
    ensures var r := DecodeString(w, bs);
      (r.Truncated? <==>
        |bs| < SIZE_T_WIDTH || |bs| - SIZE_T_WIDTH < FromLittleEndian(bs[..SIZE_T_WIDTH]))
      && (r.Ok? ==>
        var l := FromLittleEndian(bs[..SIZE_T_WIDTH]);
        |r.value| == l / w && UnitsFit(r.value, w)
        && r.rest == bs[SIZE_T_WIDTH + l..])
  {
    if |bs| >= SIZE_T_WIDTH {
      var l := FromLittleEndian(bs[..SIZE_T_WIDTH]);
      if l <= |bs| - SIZE_T_WIDTH {
        UnitsOfLength(bs[SIZE_T_WIDTH..][..l], w);
      }
    }
  }

  /**
   * `deserialize(i, vr::TrackedDevice*)`: the struct bytes, then manufacturer,
   * model and serial, in the order they were written.
   */
  function DecodeDevice(size: SizeT, bs: seq<byte>): (r: Decoded<TrackedDevice>)
    ensures r.Ok? ==> |r.value.raw| == size && |r.rest| + size + 3 * SIZE_T_WIDTH <= |bs|
  {
    match Take(bs, size)
    case Truncated => Truncated
    case Ok(raw, r1) =>
      match DecodeString(CHAR_WIDTH, r1)
      case Truncated => Truncated
      case Ok(manufacturer, r2) =>
        match DecodeString(CHAR_WIDTH, r2)
        case Truncated => Truncated
        case Ok(model, r3) =>
          match DecodeString(CHAR_WIDTH, r3)
          case Truncated => Truncated
          case Ok(serial, rest) =>
            Ok(TrackedDevice(raw, manufacturer, model, serial), rest)
  }

  /** The overload of `deserialize` chosen by the static type `k`. */
  function Decode(k: Kind, bs: seq<byte>): (r: Decoded<Value>)
    ensures r.Ok? ==> |r.rest| + SIZE_T_WIDTH <= |bs|
    decreases k, 0, 0
  {
    match k
    case StringK(w) =>
      (match DecodeString(w, bs)
       case Truncated => Truncated
       case Ok(s, rest) => Ok(Str(s), rest))
    case DeviceK(size) =>
      (match DecodeDevice(size, bs)
       case Truncated => Truncated
       case Ok(d, rest) => Ok(Dev(d), rest))
    case VectorK(e) =>
      (match DecodeSize(bs)
       case Truncated => Truncated
       case Ok(count, afterCount) =>
         match DecodeElems(e, afterCount, count)
         case Truncated => Truncated
         case Ok(xs, rest) => Ok(Vec(xs), rest))
  }

  /** The loop of `deserialize(i, vector<T>*)`: `count` elements, decoded in order. */
  function DecodeElems(e: Kind, bs: seq<byte>, count: nat): (r: Decoded<seq<Value>>)
    ensures r.Ok? ==> |r.value| == count
    ensures r.Ok? ==> |r.rest| <= |bs|
    decreases e, 1, count
  {
    if count == 0 then Ok([], bs)
    else
      match Decode(e, bs)
      case Truncated => Truncated
      case Ok(x, afterX) =>
        match DecodeElems(e, afterX, count - 1)
        case Truncated => Truncated
        case Ok(xs, rest) => Ok([x] + xs, rest)
  }

  // The three lemmas below unfold `Decode(e, ·)` and `DecodeElems(e, ·, ·)`
  // once each, for proofs that refer to them through the names `one` and
  // `elems` so as not to unfold them everywhere.

  /** No elements decode from any input, consuming nothing. */
  lemma ElemsNone(e: Kind, bs: seq<byte>, elems: (seq<byte>, nat) -> Decoded<seq<Value>>)
    requires forall b, m {:trigger DecodeElems(e, b, m)} :: elems(b, m) == DecodeElems(e, b, m)
    ensures elems(bs, 0) == Ok([], bs)
  {
    assert elems(bs, 0) == DecodeElems(e, bs, 0);
  }

  /** The first element and the remaining ones of a successfully decoded vector body. */
  lemma ElemsFirst(e: Kind, bs: seq<byte>, count: nat, xs: seq<Value>, rest: seq<byte>,
      one: seq<byte> -> Decoded<Value>, elems: (seq<byte>, nat) -> Decoded<seq<Value>>)
      returns (x: Value, afterX: seq<byte>, tail: seq<Value>)
    requires forall b {:trigger Decode(e, b)} :: one(b) == Decode(e, b)
    requires forall b, m {:trigger DecodeElems(e, b, m)} :: elems(b, m) == DecodeElems(e, b, m)
    requires count > 0 && elems(bs, count) == Ok(xs, rest)
    ensures one(bs) == Ok(x, afterX)
    ensures elems(afterX, count - 1) == Ok(tail, rest)
    ensures xs == [x] + tail
  {
    assert elems(bs, count) == DecodeElems(e, bs, count);
    assert one(bs) == Decode(e, bs);
    x, afterX := Decode(e, bs).value, Decode(e, bs).rest;
    tail := DecodeElems(e, afterX, count - 1).value;
    assert elems(afterX, count - 1) == DecodeElems(e, afterX, count - 1);
  }

  /** A vector body decodes from its first element followed by the remaining ones. */
  lemma ElemsNext(e: Kind, bs: seq<byte>, count: nat, x: Value, afterX: seq<byte>,
      tail: seq<Value>, rest: seq<byte>,
      one: seq<byte> -> Decoded<Value>, elems: (seq<byte>, nat) -> Decoded<seq<Value>>)
    requires forall b {:trigger Decode(e, b)} :: one(b) == Decode(e, b)
    requires forall b, m {:trigger DecodeElems(e, b, m)} :: elems(b, m) == DecodeElems(e, b, m)
    requires count > 0
    requires one(bs) == Ok(x, afterX)
    requires elems(afterX, count - 1) == Ok(tail, rest)
    ensures elems(bs, count) == Ok([x] + tail, rest)
  {
    assert one(bs) == Decode(e, bs);
    assert elems(afterX, count - 1) == DecodeElems(e, afterX, count - 1);
    assert elems(bs, count) == DecodeElems(e, bs, count);
  }

  // ---------------------------------------------------------------------------
  // Layout of the encodings

  /**
   * A string is its byte length `length() * sizeof(T)` as a `size_t`,
   * followed by exactly that many bytes holding its characters.
   */
  lemma StringLayout(w: CharWidth, s: seq<nat>)
    requires StringFits(w, s)
    ensures var enc := EncodeString(w, s);
      |enc| == SIZE_T_WIDTH + |s| * w
      && SizeOf(enc[..SIZE_T_WIDTH]) == |s| * w
      && UnitsOf(enc[SIZE_T_WIDTH..], w) == s
  {
    var enc := EncodeString(w, s);
    assert enc[..SIZE_T_WIDTH] == SizeBytes(|s| * w);
    assert enc[SIZE_T_WIDTH..] == UnitsBytes(s, w);
    UnitsRoundTrip(s, w);
  }

  /**
   * A device is its raw struct bytes followed by three length-prefixed
   * strings: manufacturer, model and serial.
   */
  lemma DeviceLayout(size: SizeT, d: TrackedDevice)
    requires DeviceFits(size, d)
    ensures var enc := EncodeDevice(size, d);
      var a := size + SIZE_T_WIDTH + |d.manufacturer|;
      var b := a + SIZE_T_WIDTH + |d.model|;
      |enc| == b + SIZE_T_WIDTH + |d.serial|
      && enc[..size] == d.raw
      && enc[size..a] == EncodeString(CHAR_WIDTH, d.manufacturer)
      && enc[a..b] == EncodeString(CHAR_WIDTH, d.model)
      && enc[b..] == EncodeString(CHAR_WIDTH, d.serial)
  {
    var m := EncodeString(CHAR_WIDTH, d.manufacturer);
    var mo := EncodeString(CHAR_WIDTH, d.model);
    var s := EncodeString(CHAR_WIDTH, d.serial);
    assert EncodeDevice(size, d) == d.raw + m + mo + s;
  }

  /**
   * A vector starts with its element count as a `size_t`; it is exactly that
   * count and nothing more if and only if the vector is empty.
   */
  lemma VectorLayout(e: Kind, xs: seq<Value>)
    requires Representable(VectorK(e), Vec(xs))
    ensures var enc := Encode(VectorK(e), Vec(xs));
      SizeOf(enc[..SIZE_T_WIDTH]) == |xs|
      && (xs == [] <==> |enc| == SIZE_T_WIDTH)
  {
    var enc := Encode(VectorK(e), Vec(xs));
    assert enc[..SIZE_T_WIDTH] == SizeBytes(|xs|);
  }

  // ---------------------------------------------------------------------------
  // Round trip: `deserialize` undoes `serialize` and consumes exactly its bytes

  /** The length field reads back as the value written. */
  lemma SizeRoundTrip(n: SizeT, rest: seq<byte>)
    ensures DecodeSize(SizeBytes(n) + rest) == Ok(n, rest)
  {
    var bs := SizeBytes(n) + rest;
    assert bs[..SIZE_T_WIDTH] == SizeBytes(n);
    assert bs[SIZE_T_WIDTH..] == rest;
  }

  /** A string reads back as itself, leaving the bytes that follow it. */
  lemma StringRoundTrip(w: CharWidth, s: seq<nat>, rest: seq<byte>)
    requires StringFits(w, s)
    ensures DecodeString(w, EncodeString(w, s) + rest) == Ok(s, rest)
  {
    var l := |s| * w;
    var chars := UnitsBytes(s, w);
    assert EncodeString(w, s) + rest == SizeBytes(l) + (chars + rest);
    SizeRoundTrip(l, chars + rest);
    assert (chars + rest)[..l] == chars;
    assert (chars + rest)[l..] == rest;
    UnitsRoundTrip(s, w);
  }

  /** A device reads back as itself, leaving the bytes that follow it. */
  lemma DeviceRoundTrip(size: SizeT, d: TrackedDevice, rest: seq<byte>)
    requires DeviceFits(size, d)
    ensures DecodeDevice(size, EncodeDevice(size, d) + rest) == Ok(d, rest)
  {
    var r3 := EncodeString(CHAR_WIDTH, d.serial) + rest;
    var r2 := EncodeString(CHAR_WIDTH, d.model) + r3;
    var r1 := EncodeString(CHAR_WIDTH, d.manufacturer) + r2;
    var bs := EncodeDevice(size, d) + rest;
    assert bs == d.raw + r1 by {
      Regroup(d.raw, EncodeString(CHAR_WIDTH, d.manufacturer),
        EncodeString(CHAR_WIDTH, d.model), EncodeString(CHAR_WIDTH, d.serial), rest);
    }
    TakeFront(d.raw, r1);
    StringRoundTrip(CHAR_WIDTH, d.manufacturer, r2);
    StringRoundTrip(CHAR_WIDTH, d.model, r3);
    StringRoundTrip(CHAR_WIDTH, d.serial, rest);
    DecodeDeviceSteps(size, bs, d.raw, r1, d.manufacturer, r2, d.model, r3, d.serial, rest);
  }

  /**
   * Concatenation regrouped to the right. This is only associativity; it is
   * a lemma of its own so that DeviceRoundTrip can use it on opaque pieces
   * and the solver need not regroup the four encodings itself.
   */
  lemma Regroup(a: seq<byte>, b: seq<byte>, c: seq<byte>, d: seq<byte>, e: seq<byte>)
    ensures a + b + c + d + e == a + (b + (c + (d + e)))
  {
  }

  /** Taking as many bytes as a prefix holds gives that prefix. */
  lemma TakeFront(a: seq<byte>, b: seq<byte>)
    ensures Take(a + b, |a|) == Ok(a, b)
  {
    assert (a + b)[..|a|] == a;
    assert (a + b)[|a|..] == b;
  }

  /** A device decodes from its four parts, decoded in turn. */
  lemma DecodeDeviceSteps(size: SizeT, bs: seq<byte>, raw: seq<byte>, r1: seq<byte>,
      manufacturer: seq<nat>, r2: seq<byte>, model: seq<nat>, r3: seq<byte>,
      serial: seq<nat>, rest: seq<byte>)
    requires Take(bs, size) == Ok(raw, r1)
    requires DecodeString(CHAR_WIDTH, r1) == Ok(manufacturer, r2)
    requires DecodeString(CHAR_WIDTH, r2) == Ok(model, r3)
    requires DecodeString(CHAR_WIDTH, r3) == Ok(serial, rest)
    ensures DecodeDevice(size, bs) == Ok(TrackedDevice(raw, manufacturer, model, serial), rest)
  {
  }

  /**
   * Round-trip law: decoding the encoding of any representable value of type
   * `k`, followed by any bytes, gives back the value and exactly those bytes.
   */
  lemma {:induction false} RoundTrip(k: Kind, v: Value, rest: seq<byte>)
    requires Representable(k, v)
    ensures Decode(k, Encode(k, v) + rest) == Ok(v, rest)
    decreases k, 0, 0
  {
    match k
    case StringK(w) =>
      StringRoundTrip(w, v.units, rest);
    case DeviceK(size) =>
      DeviceRoundTrip(size, v.device, rest);
    case VectorK(e) =>
      var body := EncodeElems(e, v.elems);
      assert Encode(k, v) + rest == SizeBytes(|v.elems|) + (body + rest);
      SizeRoundTrip(|v.elems|, body + rest);
      ElemsRoundTrip(e, v.elems, rest);
  }

  /** The elements of a vector read back in order, `|xs|` of them. */
  lemma ElemsRoundTrip(e: Kind, xs: seq<Value>, rest: seq<byte>)
    requires AllRepresentable(e, xs)
    ensures DecodeElems(e, EncodeElems(e, xs) + rest, |xs|) == Ok(xs, rest)
    decreases e, 3, 0
  {
    ElemsRoundTripVia(e, xs, rest,
      x => if Representable(e, x) then Encode(e, x) else [],
      ys => if AllRepresentable(e, ys) then EncodeElems(e, ys) else [],
      b => Decode(e, b), (b: seq<byte>, m: nat) => DecodeElems(e, b, m));
  }

  /**
   * ElemsRoundTrip, by induction on `xs`. `encOne`, `encElems`, `one` and
   * `elems` are `Encode(e, ·)`, `EncodeElems(e, ·)`, `Decode(e, ·)` and
   * `DecodeElems(e, ·, ·)` under other names, so that the induction step
   * reasons about them without unfolding them.
   */
  lemma {:induction false} ElemsRoundTripVia(e: Kind, xs: seq<Value>, rest: seq<byte>,
      encOne: Value -> seq<byte>, encElems: seq<Value> -> seq<byte>,
      one: seq<byte> -> Decoded<Value>, elems: (seq<byte>, nat) -> Decoded<seq<Value>>)
    requires forall x {:trigger Encode(e, x)} :: Representable(e, x) ==> encOne(x) == Encode(e, x)
    requires forall ys {:trigger EncodeElems(e, ys)} ::
      AllRepresentable(e, ys) ==> encElems(ys) == EncodeElems(e, ys)
    requires forall b {:trigger Decode(e, b)} :: one(b) == Decode(e, b)
    requires forall b, m {:trigger DecodeElems(e, b, m)} :: elems(b, m) == DecodeElems(e, b, m)
    requires AllRepresentable(e, xs)
    ensures elems(encElems(xs) + rest, |xs|) == Ok(xs, rest)
    decreases e, 2, |xs|
  {
    if xs == [] {
      EncodeElemsNone(e, encElems);
      assert encElems(xs) + rest == rest;
      ElemsNone(e, rest, elems);
    } else {
      EncodeElemsFirst(e, xs, encOne, encElems);
      var tail := encElems(xs[1..]) + rest;
      assert encElems(xs) + rest == encOne(xs[0]) + tail;
      OneRoundTrip(e, xs[0], tail, encOne, one);
      ElemsRoundTripVia(e, xs[1..], rest, encOne, encElems, one, elems);
      ElemsNext(e, encElems(xs) + rest, |xs|, xs[0], tail, xs[1..], rest, one, elems);
      assert [xs[0]] + xs[1..] == xs;
    }
  }

  /** RoundTrip, for `encOne` and `one`. */
  lemma OneRoundTrip(e: Kind, x: Value, rest: seq<byte>,
      encOne: Value -> seq<byte>, one: seq<byte> -> Decoded<Value>)
    requires forall x {:trigger Encode(e, x)} :: Representable(e, x) ==> encOne(x) == Encode(e, x)
    requires forall b {:trigger Decode(e, b)} :: one(b) == Decode(e, b)
    requires Representable(e, x)
    ensures one(encOne(x) + rest) == Ok(x, rest)
    decreases e, 1, 0
  {
    RoundTrip(e, x, rest);
  }

  // ---------------------------------------------------------------------------
  // Truncation safety

  /** Decoding depends only on the bytes it consumes: more input after them changes nothing. */
  lemma TakeExtends(bs: seq<byte>, n: nat, more: seq<byte>, taken: seq<byte>, rest: seq<byte>)
    requires Take(bs, n) == Ok(taken, rest)
    ensures Take(bs + more, n) == Ok(taken, rest + more)
  {
    assert (bs + more)[..n] == bs[..n];
    assert (bs + more)[n..] == bs[n..] + more;
  }

  /** As TakeExtends, for a string. */
  lemma StringExtends(w: CharWidth, bs: seq<byte>, more: seq<byte>, s: seq<nat>, rest: seq<byte>)
    requires DecodeString(w, bs) == Ok(s, rest)
    ensures DecodeString(w, bs + more) == Ok(s, rest + more)
  {
    var l := SizeOf(bs[..SIZE_T_WIDTH]);
    TakeExtends(bs, SIZE_T_WIDTH, more, bs[..SIZE_T_WIDTH], bs[SIZE_T_WIDTH..]);
    TakeExtends(bs[SIZE_T_WIDTH..], l, more, bs[SIZE_T_WIDTH..][..l], rest);
  }

  /** The four parts a successfully decoded device was read from. */
  lemma DeviceParts(size: SizeT, bs: seq<byte>)
      returns (raw: seq<byte>, r1: seq<byte>, manufacturer: seq<nat>, r2: seq<byte>,
        model: seq<nat>, r3: seq<byte>, serial: seq<nat>, rest: seq<byte>)
    requires DecodeDevice(size, bs).Ok?
    ensures Take(bs, size) == Ok(raw, r1)
    ensures DecodeString(CHAR_WIDTH, r1) == Ok(manufacturer, r2)
    ensures DecodeString(CHAR_WIDTH, r2) == Ok(model, r3)
    ensures DecodeString(CHAR_WIDTH, r3) == Ok(serial, rest)
    ensures DecodeDevice(size, bs) == Ok(TrackedDevice(raw, manufacturer, model, serial), rest)
  {
    raw, r1 := Take(bs, size).value, Take(bs, size).rest;
    manufacturer, r2 := DecodeString(CHAR_WIDTH, r1).value, DecodeString(CHAR_WIDTH, r1).rest;
    model, r3 := DecodeString(CHAR_WIDTH, r2).value, DecodeString(CHAR_WIDTH, r2).rest;
    serial, rest := DecodeString(CHAR_WIDTH, r3).value, DecodeString(CHAR_WIDTH, r3).rest;
  }

  /** As TakeExtends, for a device. */
  lemma DeviceExtends(size: SizeT, bs: seq<byte>, more: seq<byte>, d: TrackedDevice, rest: seq<byte>)
    requires DecodeDevice(size, bs) == Ok(d, rest)
    ensures DecodeDevice(size, bs + more) == Ok(d, rest + more)
  {
    var raw, r1, manufacturer, r2, model, r3, serial, rest' := DeviceParts(size, bs);
    TakeExtends(bs, size, more, raw, r1);
    StringExtends(CHAR_WIDTH, r1, more, manufacturer, r2);
    StringExtends(CHAR_WIDTH, r2, more, model, r3);
    StringExtends(CHAR_WIDTH, r3, more, serial, rest);
    DecodeDeviceSteps(size, bs + more, raw, r1 + more, manufacturer, r2 + more,
      model, r3 + more, serial, rest + more);
  }

  /** As TakeExtends, for a value of any type. */
  lemma {:induction false} DecodeExtends(k: Kind, bs: seq<byte>, more: seq<byte>, v: Value, rest: seq<byte>)
    requires Decode(k, bs) == Ok(v, rest)
    ensures Decode(k, bs + more) == Ok(v, rest + more)
    decreases k, 0, 0
  {
    match k
    case StringK(w) =>
      StringExtends(w, bs, more, v.units, rest);
    case DeviceK(size) =>
      DeviceExtends(size, bs, more, v.device, rest);
    case VectorK(e) =>
      var count := SizeOf(bs[..SIZE_T_WIDTH]);
      TakeExtends(bs, SIZE_T_WIDTH, more, bs[..SIZE_T_WIDTH], bs[SIZE_T_WIDTH..]);
      ElemsExtend(e, bs[SIZE_T_WIDTH..], count, more, v.elems, rest);
  }

  /** As TakeExtends, for the elements of a vector. */
  lemma ElemsExtend(e: Kind, bs: seq<byte>, count: nat, more: seq<byte>,
      xs: seq<Value>, rest: seq<byte>)
    requires DecodeElems(e, bs, count) == Ok(xs, rest)
    ensures DecodeElems(e, bs + more, count) == Ok(xs, rest + more)
    decreases e, 3, 0
  {
    ElemsExtendVia(e, bs, count, more, xs, rest,
      b => Decode(e, b), (b: seq<byte>, m: nat) => DecodeElems(e, b, m));
  }

  /**
   * ElemsExtend, by induction on `count`. `one` and `elems` are
   * `Decode(e, ·)` and `DecodeElems(e, ·, ·)` under other names, so that
   * the induction step reasons about them without unfolding them.
   */
  lemma {:induction false} ElemsExtendVia(e: Kind, bs: seq<byte>, count: nat, more: seq<byte>,
      xs: seq<Value>, rest: seq<byte>,
      one: seq<byte> -> Decoded<Value>, elems: (seq<byte>, nat) -> Decoded<seq<Value>>)
    requires forall b {:trigger Decode(e, b)} :: one(b) == Decode(e, b)
    requires forall b, m {:trigger DecodeElems(e, b, m)} :: elems(b, m) == DecodeElems(e, b, m)
    requires elems(bs, count) == Ok(xs, rest)
    ensures elems(bs + more, count) == Ok(xs, rest + more)
    decreases e, 2, count
  {
    if count == 0 {
      ElemsNone(e, bs, elems);
      ElemsNone(e, bs + more, elems);
    } else {
      var x, afterX, tail := ElemsFirst(e, bs, count, xs, rest, one, elems);
      OneExtends(e, bs, more, x, afterX, one);
      ElemsExtendVia(e, afterX, count - 1, more, tail, rest, one, elems);
      ElemsNext(e, bs + more, count, x, afterX + more, tail, rest + more, one, elems);
    }
  }

  /** DecodeExtends, for `one`. */
  lemma OneExtends(e: Kind, bs: seq<byte>, more: seq<byte>, x: Value, afterX: seq<byte>,
      one: seq<byte> -> Decoded<Value>)
    requires forall b {:trigger Decode(e, b)} :: one(b) == Decode(e, b)
    requires one(bs) == Ok(x, afterX)
    ensures one(bs + more) == Ok(x, afterX + more)
    decreases e, 1, 0
  {
    DecodeExtends(e, bs, more, x, afterX);
  }

  /**
   * Truncation safety: decoding any strict prefix of the encoding of a
   * representable value fails with `Truncated`, the outcome in which some
   * read's bound check rejects the read.
   */
  lemma StrictPrefixTruncated(k: Kind, v: Value, n: nat)
    requires Representable(k, v)
    requires n < |Encode(k, v)|
    ensures Decode(k, Encode(k, v)[..n]) == Truncated
  {
    var enc := Encode(k, v);
    RoundTrip(k, v, []);
    assert enc + [] == enc;
    PrefixOfExact(k, enc, v, n);
  }

  /**
   * An input that decodes to a value with nothing left over has no strict
   * prefix that decodes: a decodable prefix would leave bytes over in the
   * whole input.
   */
  lemma PrefixOfExact(k: Kind, bs: seq<byte>, v: Value, n: nat)
    requires Decode(k, bs) == Ok(v, [])
    requires n < |bs|
    ensures Decode(k, bs[..n]) == Truncated
  {
    var r := Decode(k, bs[..n]);
    if r.Ok? {
      PrefixExtends(k, bs, n, r.value, r.rest, b => Decode(k, b));
    }
  }

  /** DecodeExtends, for a prefix of `bs` and the rest of `bs`. */
  lemma PrefixExtends(k: Kind, bs: seq<byte>, n: nat, x: Value, rest: seq<byte>,
      one: seq<byte> -> Decoded<Value>)
    requires forall b {:trigger Decode(k, b)} :: one(b) == Decode(k, b)
    requires n <= |bs|
    requires one(bs[..n]) == Ok(x, rest)
    ensures one(bs) == Ok(x, rest + bs[n..])
  {
    OneExtends(k, bs[..n], bs[n..], x, rest, one);
    assert bs[..n] + bs[n..] == bs;
  }

  // ---------------------------------------------------------------------------
  // The element loop of `deserialize(i, vector<T>*)` as written

  /**
   * How many times `for (auto x : Range::range(static_cast<int>(sz)))` runs:
   * the conversion keeps the low 32 bits as a two's-complement `int`, and a
   * range up to a negative bound is empty.
   */
  function LoopCountAsWritten(sz: SizeT): (n: nat)
    ensures n < 0x8000_0000
    ensures sz < 0x8000_0000 ==> n == sz
  {
    var low := sz % 0x1_0000_0000;
    if low < 0x8000_0000 then low else 0
  }

  /** Every vector in `v`, at every depth, has fewer than 2^31 elements. */
  predicate CountsBelowIntMax(v: Value)
  {
    match v
    case Str(_) => true
    case Dev(_) => true
    case Vec(xs) =>
      |xs| < 0x8000_0000 && forall j :: 0 <= j < |xs| ==> CountsBelowIntMax(xs[j])
  }

  /**
   * `deserialize` with the loop count of the source. Every vector, the
   * elements of a vector included, goes through the same template and so
   * through the same truncated count; strings and devices decode as in
   * `Decode`.
   */
  function DecodeAsWritten(k: Kind, bs: seq<byte>): (r: Decoded<Value>)
    ensures r.Ok? ==> |r.rest| + SIZE_T_WIDTH <= |bs|
    ensures r.Ok? ==> CountsBelowIntMax(r.value)
    decreases k, 0, 0
  {
    match k
    case VectorK(e) =>
      (match DecodeSize(bs)
       case Truncated => Truncated
       case Ok(count, afterCount) =>
         match DecodeElemsAsWritten(e, afterCount, LoopCountAsWritten(count))
         case Truncated => Truncated
         case Ok(xs, rest) => Ok(Vec(xs), rest))
    case _ => Decode(k, bs)
  }

  /** The element loop as written, run `count` times. */
  function DecodeElemsAsWritten(e: Kind, bs: seq<byte>, count: nat): (r: Decoded<seq<Value>>)
    ensures r.Ok? ==> |r.value| == count && |r.rest| <= |bs|
    ensures r.Ok? ==> forall j :: 0 <= j < |r.value| ==> CountsBelowIntMax(r.value[j])
    decreases e, 1, count
  {
    if count == 0 then Ok([], bs)
    else
      match DecodeAsWritten(e, bs)
      case Truncated => Truncated
      case Ok(x, afterX) =>
        match DecodeElemsAsWritten(e, afterX, count - 1)
        case Truncated => Truncated
        case Ok(xs, rest) => Ok([x] + xs, rest)
  }

  /**
   * Whatever `Decode` reads with every vector below 2^31 elements, the
   * decoder as written reads the same way.
   */
  lemma {:induction false} AsWrittenAgrees(k: Kind, bs: seq<byte>, v: Value, rest: seq<byte>)
    requires Decode(k, bs) == Ok(v, rest)
    requires CountsBelowIntMax(v)
    ensures DecodeAsWritten(k, bs) == Ok(v, rest)
    decreases k, 0, 0
  {
    match k
    case StringK(_) =>
    case DeviceK(_) =>
    case VectorK(e) =>
      var count := SizeOf(bs[..SIZE_T_WIDTH]);
      assert LoopCountAsWritten(count) == count;
      ElemsAgree(e, bs[SIZE_T_WIDTH..], count, v.elems, rest);
  }

  /** AsWrittenAgrees, for the elements of a vector. */
  lemma ElemsAgree(e: Kind, bs: seq<byte>, count: nat, xs: seq<Value>, rest: seq<byte>)
    requires DecodeElems(e, bs, count) == Ok(xs, rest)
    requires forall j :: 0 <= j < |xs| ==> CountsBelowIntMax(xs[j])
    ensures DecodeElemsAsWritten(e, bs, count) == Ok(xs, rest)
    decreases e, 3, 0
  {
    ElemsAgreeVia(e, bs, count, xs, rest,
      b => Decode(e, b), (b: seq<byte>, m: nat) => DecodeElems(e, b, m),
      b => DecodeAsWritten(e, b), (b: seq<byte>, m: nat) => DecodeElemsAsWritten(e, b, m));
  }

  /**
   * ElemsAgree, by induction on `count`. `one`, `elems`, `oneW` and `elemsW`
   * are `Decode(e, ·)`, `DecodeElems(e, ·, ·)`, `DecodeAsWritten(e, ·)` and
   * `DecodeElemsAsWritten(e, ·, ·)` under other names.
   */
  lemma {:induction false} ElemsAgreeVia(e: Kind, bs: seq<byte>, count: nat,
      xs: seq<Value>, rest: seq<byte>,
      one: seq<byte> -> Decoded<Value>, elems: (seq<byte>, nat) -> Decoded<seq<Value>>,
      oneW: seq<byte> -> Decoded<Value>, elemsW: (seq<byte>, nat) -> Decoded<seq<Value>>)
    requires forall b {:trigger Decode(e, b)} :: one(b) == Decode(e, b)
    requires forall b, m {:trigger DecodeElems(e, b, m)} :: elems(b, m) == DecodeElems(e, b, m)
    requires forall b {:trigger DecodeAsWritten(e, b)} :: oneW(b) == DecodeAsWritten(e, b)
    requires forall b, m {:trigger DecodeElemsAsWritten(e, b, m)} ::
      elemsW(b, m) == DecodeElemsAsWritten(e, b, m)
    requires elems(bs, count) == Ok(xs, rest)
    requires forall j :: 0 <= j < |xs| ==> CountsBelowIntMax(xs[j])
    ensures elemsW(bs, count) == Ok(xs, rest)
    decreases e, 2, count
  {
    if count == 0 {
      ElemsNone(e, bs, elems);
      ElemsNoneAsWritten(e, bs, elemsW);
    } else {
      var x, afterX, tail := ElemsFirst(e, bs, count, xs, rest, one, elems);
      CountsSplit(x, tail);
      OneAgrees(e, bs, x, afterX, one, oneW);
      ElemsAgreeVia(e, afterX, count - 1, tail, rest, one, elems, oneW, elemsW);
      ElemsNextAsWritten(e, bs, count, x, afterX, tail, rest, oneW, elemsW);
    }
  }

  /** AsWrittenAgrees, for `one` and `oneW`. */
  lemma OneAgrees(e: Kind, bs: seq<byte>, x: Value, afterX: seq<byte>,
      one: seq<byte> -> Decoded<Value>, oneW: seq<byte> -> Decoded<Value>)
    requires forall b {:trigger Decode(e, b)} :: one(b) == Decode(e, b)
    requires forall b {:trigger DecodeAsWritten(e, b)} :: oneW(b) == DecodeAsWritten(e, b)
    requires one(bs) == Ok(x, afterX)
    requires CountsBelowIntMax(x)
    ensures oneW(bs) == Ok(x, afterX)
    decreases e, 1, 0
  {
    AsWrittenAgrees(e, bs, x, afterX);
  }

  /** The bound on every element of `[x] + tail` is the bound on `x` and on each of `tail`. */
  lemma CountsSplit(x: Value, tail: seq<Value>)
    requires forall j :: 0 <= j < |[x] + tail| ==> CountsBelowIntMax(([x] + tail)[j])
    ensures CountsBelowIntMax(x)
    ensures forall j :: 0 <= j < |tail| ==> CountsBelowIntMax(tail[j])
  {
    assert ([x] + tail)[0] == x;
    forall j | 0 <= j < |tail|
      ensures CountsBelowIntMax(tail[j])
    {
      assert ([x] + tail)[j + 1] == tail[j];
    }
  }

  /** No elements decode from any input under the loop as written, consuming nothing. */
  lemma ElemsNoneAsWritten(e: Kind, bs: seq<byte>, elemsW: (seq<byte>, nat) -> Decoded<seq<Value>>)
    requires forall b, m {:trigger DecodeElemsAsWritten(e, b, m)} ::
      elemsW(b, m) == DecodeElemsAsWritten(e, b, m)
    ensures elemsW(bs, 0) == Ok([], bs)
  {
    assert elemsW(bs, 0) == DecodeElemsAsWritten(e, bs, 0);
  }

  /** ElemsNext, for the loop as written. */
  lemma ElemsNextAsWritten(e: Kind, bs: seq<byte>, count: nat, x: Value, afterX: seq<byte>,
      tail: seq<Value>, rest: seq<byte>,
      oneW: seq<byte> -> Decoded<Value>, elemsW: (seq<byte>, nat) -> Decoded<seq<Value>>)
    requires forall b {:trigger DecodeAsWritten(e, b)} :: oneW(b) == DecodeAsWritten(e, b)
    requires forall b, m {:trigger DecodeElemsAsWritten(e, b, m)} ::
      elemsW(b, m) == DecodeElemsAsWritten(e, b, m)
    requires count > 0
    requires oneW(bs) == Ok(x, afterX)
    requires elemsW(afterX, count - 1) == Ok(tail, rest)
    ensures elemsW(bs, count) == Ok([x] + tail, rest)
  {
    assert oneW(bs) == DecodeAsWritten(e, bs);
    assert elemsW(afterX, count - 1) == DecodeElemsAsWritten(e, afterX, count - 1);
    assert elemsW(bs, count) == DecodeElemsAsWritten(e, bs, count);
  }

  /**
   * With every vector, at every depth, below 2^31 elements, the loop as
   * written still round-trips.
   */
  lemma AsWrittenRoundTripBelowIntMax(k: Kind, v: Value, rest: seq<byte>)
    requires Representable(k, v)
    requires CountsBelowIntMax(v)
    ensures DecodeAsWritten(k, Encode(k, v) + rest) == Ok(v, rest)
  {
    RoundTrip(k, v, rest);
    AsWrittenAgrees(k, Encode(k, v) + rest, v, rest);
  }

  /**
   * A vector of 2^31 strings encodes with its true count, but the loop as
   * written decodes it as an empty vector and leaves every element unread.
   */
  lemma AsWrittenDropsElements()
    ensures var e := StringK(CHAR_WIDTH);
      var xs := seq(0x8000_0000, _ => Str([]));
      Representable(VectorK(e), Vec(xs))
      && DecodeAsWritten(VectorK(e), Encode(VectorK(e), Vec(xs)))
         == Ok(Vec([]), EncodeElems(e, xs))
      && Decode(VectorK(e), Encode(VectorK(e), Vec(xs))) == Ok(Vec(xs), [])
  {
    var e := StringK(CHAR_WIDTH);
    var xs := seq(0x8000_0000, _ => Str([]));
    assert Representable(VectorK(e), Vec(xs)) by {
      forall x | x in xs
        ensures Representable(e, x)
      {
        var k :| 0 <= k < |xs| && xs[k] == x;
      }
    }
    var enc := Encode(VectorK(e), Vec(xs));
    var body := EncodeElems(e, xs);
    assert DecodeSize(enc) == Ok(0x8000_0000, body) by {
      assert enc == SizeBytes(|xs|) + body;
      SizeRoundTrip(|xs|, body);
    }
    assert LoopCountAsWritten(0x8000_0000) == 0;
    assert DecodeElemsAsWritten(e, body, 0) == Ok([], body);
    assert enc + [] == enc;
    RoundTrip(VectorK(e), Vec(xs), []);
  }

  /**
   * When the loop as written runs no times, a vector decodes as an empty
   * vector and all its elements are left unread.
   */
  lemma AsWrittenSkipsElements(e: Kind, xs: seq<Value>, rest: seq<byte>)
    requires Representable(VectorK(e), Vec(xs))
    requires LoopCountAsWritten(|xs|) == 0
    ensures DecodeAsWritten(VectorK(e), Encode(VectorK(e), Vec(xs)) + rest)
      == Ok(Vec([]), EncodeElems(e, xs) + rest)
  {
    var body := EncodeElems(e, xs);
    var enc := Encode(VectorK(e), Vec(xs));
    assert enc + rest == SizeBytes(|xs|) + (body + rest);
    SizeRoundTrip(|xs|, body + rest);
    assert DecodeElemsAsWritten(e, body + rest, 0) == Ok([], body + rest);
  }

  /**
   * The truncated count applies to element vectors too: a vector holding one
   * vector whose loop as written runs no times decodes as a vector holding
   * one empty vector, the inner elements left unread, while `Decode` gives
   * the value back.
   */
  lemma AsWrittenDropsNestedElements(e: Kind, xs: seq<Value>, rest: seq<byte>)
    requires Representable(VectorK(e), Vec(xs))
    requires LoopCountAsWritten(|xs|) == 0
    ensures Representable(VectorK(VectorK(e)), Vec([Vec(xs)]))
    ensures var enc := Encode(VectorK(VectorK(e)), Vec([Vec(xs)]));
      DecodeAsWritten(VectorK(VectorK(e)), enc + rest)
        == Ok(Vec([Vec([])]), EncodeElems(e, xs) + rest)
      && Decode(VectorK(VectorK(e)), enc + rest) == Ok(Vec([Vec(xs)]), rest)
  {
    var inner := Vec(xs);
    var k := VectorK(VectorK(e));
    var v := Vec([inner]);
    SingletonEncoding(VectorK(e), inner);
    var innerEnc := Encode(VectorK(e), inner);
    var body := EncodeElems(e, xs);
    assert Encode(k, v) + rest == SizeBytes(1) + (innerEnc + rest);
    AsWrittenSkipsElements(e, xs, rest);
    SingletonAsWritten(VectorK(e), innerEnc + rest, Vec([]), body + rest);
    RoundTrip(k, v, rest);
  }

  /** A vector of one element is the count 1, then that element. */
  lemma SingletonEncoding(e: Kind, x: Value)
    requires Representable(e, x)
    ensures Representable(VectorK(e), Vec([x]))
    ensures Encode(VectorK(e), Vec([x])) == SizeBytes(1) + Encode(e, x)
  {
    assert AllRepresentable(e, [x]);
    assert EncodeElems(e, [x]) == Encode(e, x) + EncodeElems(e, []);
  }

  /** A count of one followed by one element decodes, as written, as a vector of that element. */
  lemma SingletonAsWritten(e: Kind, bs: seq<byte>, x: Value, rest: seq<byte>)
    requires DecodeAsWritten(e, bs) == Ok(x, rest)
    ensures DecodeAsWritten(VectorK(e), SizeBytes(1) + bs) == Ok(Vec([x]), rest)
  {
    ElemsOneAsWritten(e, bs, x, rest);
    VectorAsWritten(e, 1, bs, [x], rest);
  }

  /** One element, as the loop as written decodes it. */
  lemma ElemsOneAsWritten(e: Kind, bs: seq<byte>, x: Value, rest: seq<byte>)
    requires DecodeAsWritten(e, bs) == Ok(x, rest)
    ensures DecodeElemsAsWritten(e, bs, 1) == Ok([x], rest)
  {
    assert DecodeElemsAsWritten(e, rest, 0) == Ok([], rest);
    assert [x] + [] == [x];
  }

  /** A count `n` followed by the elements the loop as written reads for it. */
  lemma VectorAsWritten(e: Kind, n: SizeT, bs: seq<byte>, xs: seq<Value>, rest: seq<byte>)
    requires DecodeElemsAsWritten(e, bs, LoopCountAsWritten(n)) == Ok(xs, rest)
    ensures DecodeAsWritten(VectorK(e), SizeBytes(n) + bs) == Ok(Vec(xs), rest)
  {
    SizeRoundTrip(n, bs);
  }
}
