/**
 * The part of Python's `struct` module the codec relies on: format strings made of the
 * type codes c, B, b, H, h, I, i, Q, q, always built with the '<' prefix (little-endian,
 * standard sizes, no padding), and pack / unpack_from over Python 2 values.
 */
module PyStruct {
  import opened Common

  /** A Python value as the codec sees it; a Python 2 `str` is a byte string. */
  datatype Value =
    | VNone
    | VInt(i: int)
    | VBool(b: bool)
    | VStr(s: seq<byte>)
    | VTuple(items: seq<Value>)

  /** The struct type codes the field kinds use. */
  datatype Code = Char | UByte | SByte | UShort | SShort | UInt | SInt | ULongLong | SLongLong

  function CodeOf(ch: char): Option<Code> {
    match ch
    case 'c' => Some(Char)
    case 'B' => Some(UByte)
    case 'b' => Some(SByte)
    case 'H' => Some(UShort)
    case 'h' => Some(SShort)
    case 'I' => Some(UInt)
    case 'i' => Some(SInt)
    case 'Q' => Some(ULongLong)
    case 'q' => Some(SLongLong)
    case _ => None
  }

  function CharOf(code: Code): (ch: char)
    ensures CodeOf(ch) == Some(code)
  {
    match code
    case Char => 'c'
    case UByte => 'B'
    case SByte => 'b'
    case UShort => 'H'
    case SShort => 'h'
    case UInt => 'I'
    case SInt => 'i'
    case ULongLong => 'Q'
    case SLongLong => 'q'
  }

  /** The format string that spells a layout, one code per item. */
  function FormatOf(layout: seq<Code>): (fmt: string)
    ensures |fmt| == |layout|
  {
    if layout == [] then [] else [CharOf(layout[0])] + FormatOf(layout[1..])
  }

  /** Byte width of a code in standard ('<') mode. */
  function Width(code: Code): nat {
    match code
    case Char => 1
    case UByte => 1
    case SByte => 1
    case UShort => 2
    case SShort => 2
    case UInt => 4
    case SInt => 4
    case ULongLong => 8
    case SLongLong => 8
  }

  predicate IsSigned(code: Code) {
    code == SByte || code == SShort || code == SInt || code == SLongLong
  }

  function Pow256(n: nat): (p: nat)
    ensures p > 0
  {
    if n == 0 then 1 else 256 * Pow256(n - 1)
  }

  /** Smallest and largest integer an integer code packs. */
  function Lo(code: Code): int {
    if IsSigned(code) then -(Pow256(Width(code)) / 2) else 0
  }

  function Hi(code: Code): int {
    if IsSigned(code) then Pow256(Width(code)) / 2 - 1 else Pow256(Width(code)) - 1
  }

  /** Total byte size of a layout: the sum of the widths, with no alignment padding. */
  function Size(layout: seq<Code>): nat {
    if layout == [] then 0 else Width(layout[0]) + Size(layout[1..])
  }

  lemma {:induction false} SizeAppend(a: seq<Code>, b: seq<Code>)
    ensures Size(a + b) == Size(a) + Size(b)
  {
    if a != [] {
      assert (a + b)[0] == a[0];
      assert (a + b)[1..] == a[1..] + b;
      SizeAppend(a[1..], b);
    } else {
      assert a + b == b;
    }
  }

  predicate IsByteOrderMark(ch: char) {
    ch == '@' || ch == '=' || ch == '<' || ch == '>' || ch == '!'
  }

  /** Parses the type codes of a format (after its byte-order mark); any other character is a struct.error. */
  function ParseCodes(fmt: string): Result<seq<Code>> {
    if fmt == [] then Success([])
    else
      match CodeOf(fmt[0])
      case None => Failure(StructError)
      case Some(code) =>
        var rest :- ParseCodes(fmt[1..]);
        Success([code] + rest)
  }

  lemma {:induction false} ParseCodesLength(fmt: string)
    requires ParseCodes(fmt).Success?
    ensures |ParseCodes(fmt).value| == |fmt|
  {
    if fmt != [] {
      ParseCodesLength(fmt[1..]);
    }
  }

  /**
   * StructField._build_struct followed by Struct(): a leading byte-order mark is dropped
   * and '<' is put in its place, so every layout is little-endian with standard sizes.
   * An empty format has no first character to inspect.
   */
  function BuildStruct(fmt: string): (r: Result<seq<Code>>)
    ensures fmt == [] ==> r == Failure(IndexError)
    ensures fmt != [] && IsByteOrderMark(fmt[0]) ==> r == ParseCodes(fmt[1..])
    ensures fmt != [] && !IsByteOrderMark(fmt[0]) ==> r == ParseCodes(fmt)
  {
    if fmt == [] then Failure(IndexError)
    else ParseCodes(if IsByteOrderMark(fmt[0]) then fmt[1..] else fmt)
  }

  lemma {:induction false} ParseCodesAppend(a: string, b: string)
    requires ParseCodes(a).Success? && ParseCodes(b).Success?
    ensures ParseCodes(a + b) == Success(ParseCodes(a).value + ParseCodes(b).value)
  {
    if a != [] {
      var code := CodeOf(a[0]).value;
      assert (a + b)[0] == a[0];
      assert (a + b)[1..] == a[1..] + b;
      ParseCodesAppend(a[1..], b);
      var ra, rb := ParseCodes(a[1..]).value, ParseCodes(b).value;
      assert ParseCodes(a) == Success([code] + ra);
      assert ParseCodes(a + b) == Success([code] + (ra + rb));
      assert [code] + (ra + rb) == ([code] + ra) + rb;
    } else {
      assert a + b == b;
      assert ParseCodes(a).value == [];
      assert ParseCodes(a).value + ParseCodes(b).value == ParseCodes(b).value;
    }
  }

  lemma {:induction false} ParseFormatOf(layout: seq<Code>)
    ensures ParseCodes(FormatOf(layout)) == Success(layout)
  {
    if layout != [] {
      var fmt := FormatOf(layout);
      ParseFormatOf(layout[1..]);
      assert fmt[0] == CharOf(layout[0]);
      assert fmt[1..] == FormatOf(layout[1..]);
      assert CodeOf(fmt[0]) == Some(layout[0]);
      assert layout == [layout[0]] + layout[1..];
    }
  }

  /** Whatever byte-order mark a format starts with, the built layout is the same '<' layout. */
  lemma ByteOrderMarkReplaced(mark: char, layout: seq<Code>)
    requires IsByteOrderMark(mark)
    ensures BuildStruct([mark] + FormatOf(layout)) == Success(layout)
    ensures layout != [] ==> BuildStruct(FormatOf(layout)) == Success(layout)
  {
    ParseFormatOf(layout);
    assert ([mark] + FormatOf(layout))[1..] == FormatOf(layout);
  }

  // ---------------------------------------------------------------- little-endian integers

  /** The n low-order bytes of x, least significant first. */
  function LittleEndian(x: nat, n: nat): (r: seq<byte>)
    ensures |r| == n
  {
    if n == 0 then [] else [x % 256] + LittleEndian(x / 256, n - 1)
  }

  function FromLittleEndian(bs: seq<byte>): nat {
    if bs == [] then 0 else bs[0] + 256 * FromLittleEndian(bs[1..])
  }

  lemma {:induction false} FromLittleEndianBound(bs: seq<byte>)
    ensures FromLittleEndian(bs) < Pow256(|bs|)
  {
    if bs != [] {
      FromLittleEndianBound(bs[1..]);
      var t := FromLittleEndian(bs[1..]);
      assert t + 1 <= Pow256(|bs| - 1);
      assert 256 * (t + 1) <= 256 * Pow256(|bs| - 1);
    }
  }

  lemma {:induction false} LittleEndianRoundTrip(x: nat, n: nat)
    requires x < Pow256(n)
    ensures FromLittleEndian(LittleEndian(x, n)) == x
  {
    if n > 0 {
      var q := x / 256;
      assert x == 256 * q + x % 256;
      assert x < 256 * Pow256(n - 1);
      assert q < Pow256(n - 1);
      LittleEndianRoundTrip(q, n - 1);
      assert LittleEndian(x, n)[1..] == LittleEndian(q, n - 1);
    }
  }

  lemma DivModByte(x: int, q: int, r: int)
    requires 0 <= r < 256 && x == 256 * q + r
    ensures x / 256 == q && x % 256 == r
  {
  }

  lemma {:induction false} FromLittleEndianInverse(bs: seq<byte>)
    ensures LittleEndian(FromLittleEndian(bs), |bs|) == bs
  {
    if bs != [] {
      var t := FromLittleEndian(bs[1..]);
      var x := bs[0] + 256 * t;
      DivModByte(x, t, bs[0]);
      FromLittleEndianInverse(bs[1..]);
      assert LittleEndian(x, |bs|) == [bs[0]] + LittleEndian(t, |bs| - 1);
    }
  }

  // ---------------------------------------------------------------- one item

  /** What struct.pack accepts for an integer code: an int, or a bool (a Python int). */
  function AsInteger(v: Value): Option<int> {
    match v
    case VInt(i) => Some(i)
    case VBool(b) => Some(if b then 1 else 0)
    case _ => None
  }

  /** Packs one item; a value of the wrong type or out of range is a struct.error, never wrapped. */
  function PackOne(code: Code, v: Value): (r: Result<seq<byte>>)
    ensures r.Success? ==> |r.value| == Width(code)
  {
    if code == Char then
      if v.VStr? && |v.s| == 1 then Success(v.s) else Failure(StructError)
    else
      match AsInteger(v)
      case None => Failure(StructError)
      case Some(i) =>
        if Lo(code) <= i <= Hi(code) then
          Success(LittleEndian(if i < 0 then i + Pow256(Width(code)) else i, Width(code)))
        else Failure(StructError)
  }

  /** Unpacks one item: 'c' gives a one-byte str, integer codes give two's-complement ints. */
  function UnpackOne(code: Code, bs: seq<byte>): Value
    requires |bs| == Width(code)
  {
    if code == Char then VStr(bs)
    else
      var u := FromLittleEndian(bs);
      if IsSigned(code) && u > Hi(code) then VInt(u - Pow256(Width(code))) else VInt(u)
  }

  /** The values that pack under a code and unpack to themselves. */
  predicate Fits(code: Code, v: Value) {
    if code == Char then v.VStr? && |v.s| == 1
    else v.VInt? && Lo(code) <= v.i <= Hi(code)
  }

  lemma PackOneRoundTrip(code: Code, v: Value)
    requires Fits(code, v)
    ensures PackOne(code, v).Success?
    ensures UnpackOne(code, PackOne(code, v).value) == v
  {
    if code != Char {
      var w := Width(code);
      var i := v.i;
      var u: nat := if i < 0 then i + Pow256(w) else i;
      LittleEndianRoundTrip(u, w);
    }
  }

  lemma UnpackOneRoundTrip(code: Code, bs: seq<byte>)
    requires |bs| == Width(code)
    ensures Fits(code, UnpackOne(code, bs))
    ensures PackOne(code, UnpackOne(code, bs)) == Success(bs)
  {
    if code != Char {
      FromLittleEndianBound(bs);
      FromLittleEndianInverse(bs);
      HalfPow(Width(code));
      IntRoundTrip(code, bs, Width(code), Pow256(Width(code)), FromLittleEndian(bs));
    }
  }

  /** An integer code's bytes, read as an unsigned u below p, unpack to a value that packs back. */
  lemma IntRoundTrip(code: Code, bs: seq<byte>, w: nat, p: nat, u: nat)
    requires code != Char && |bs| == w && w == Width(code) && p == Pow256(w) && p == 2 * (p / 2)
    requires u == FromLittleEndian(bs) && u < p && LittleEndian(u, w) == bs
    ensures Fits(code, UnpackOne(code, bs))
    ensures PackOne(code, UnpackOne(code, bs)) == Success(bs)
  {
    if IsSigned(code) && u > Hi(code) {
      assert UnpackOne(code, bs) == VInt(u as int - p);
      WrappedRoundTrip(code, w, p, u, u as int - p);
    } else {
      assert UnpackOne(code, bs) == VInt(u);
      assert Lo(code) <= 0 && u <= Hi(code);
      assert PackOne(code, VInt(u)) == Success(LittleEndian(u, w));
    }
  }

  /** A signed code's high half: the negative value packs back to the unsigned bytes it came from. */
  lemma WrappedRoundTrip(code: Code, w: nat, p: nat, u: nat, i: int)
    requires code != Char && IsSigned(code) && w == Width(code) && p == Pow256(w) && p == 2 * (p / 2)
    requires Hi(code) < u < p && i == u - p
    ensures Fits(code, VInt(i))
    ensures PackOne(code, VInt(i)) == Success(LittleEndian(u, w))
  {
    assert Lo(code) == -(p / 2) && Hi(code) == p / 2 - 1;
    assert i < 0 && i + p == u;
  }

  /** A power of 256 past the first is twice its half: the signed range splits it evenly. */
  lemma HalfPow(n: nat)
    requires n >= 1
    ensures Pow256(n) == 2 * (Pow256(n) / 2)
  {
    assert Pow256(n) == 2 * (128 * Pow256(n - 1));
  }

  // ---------------------------------------------------------------- whole layouts

  /** struct.pack: one value per code, else struct.error. */
  function Pack(layout: seq<Code>, values: seq<Value>): Result<seq<byte>> {
    if |values| != |layout| then Failure(StructError) else PackAll(layout, values)
  }

  function PackAll(layout: seq<Code>, values: seq<Value>): (r: Result<seq<byte>>)
    requires |values| == |layout|
    ensures r.Success? ==> |r.value| == Size(layout)
  {
    if layout == [] then Success([])
    else
      var head :- PackOne(layout[0], values[0]);
      var tail :- PackAll(layout[1..], values[1..]);
      Success(head + tail)
  }

  /** struct.unpack_from: needs Size(layout) bytes from index on, else struct.error. */
  function Unpack(layout: seq<Code>, data: seq<byte>, index: nat): (r: Result<seq<Value>>)
    ensures r.Success? <==> index + Size(layout) <= |data|
    ensures r.Success? ==> |r.value| == |layout|
  {
    if |data| < index + Size(layout) then Failure(StructError)
    else Success(UnpackExact(layout, data[index..index + Size(layout)]))
  }

  /** struct.unpack on a buffer of exactly the layout's size. */
  function UnpackExact(layout: seq<Code>, bs: seq<byte>): (r: seq<Value>)
    requires |bs| == Size(layout)
    ensures |r| == |layout|
  {
    if layout == [] then []
    else
      var w := Width(layout[0]);
      [UnpackOne(layout[0], bs[..w])] + UnpackExact(layout[1..], bs[w..])
  }

  /** One value per code, each fitting its code. */
  predicate AllFit(layout: seq<Code>, values: seq<Value>) {
    |values| == |layout| && forall k :: 0 <= k < |layout| ==> Fits(layout[k], values[k])
  }

  lemma AllFitAppend(la: seq<Code>, va: seq<Value>, lb: seq<Code>, vb: seq<Value>)
    requires AllFit(la, va) && AllFit(lb, vb)
    ensures AllFit(la + lb, va + vb)
  {
    forall k | 0 <= k < |la| + |lb| ensures Fits((la + lb)[k], (va + vb)[k]) {
      if k >= |la| {
        assert (la + lb)[k] == lb[k - |la|] && (va + vb)[k] == vb[k - |la|];
      }
    }
  }

  /** Unpacking packed values gives the values back. */
  lemma {:induction false} PackUnpackExact(layout: seq<Code>, values: seq<Value>)
    requires |values| == |layout|
    requires forall k :: 0 <= k < |layout| ==> Fits(layout[k], values[k])
    ensures Pack(layout, values).Success?
    ensures UnpackExact(layout, Pack(layout, values).value) == values
  {
    if layout != [] {
      PackOneRoundTrip(layout[0], values[0]);
      assert forall k :: 0 <= k < |layout| - 1 ==> Fits(layout[1..][k], values[1..][k]) by {
        forall k | 0 <= k < |layout| - 1 ensures Fits(layout[1..][k], values[1..][k]) {
          assert layout[1..][k] == layout[k + 1] && values[1..][k] == values[k + 1];
        }
      }
      PackUnpackExact(layout[1..], values[1..]);
      var head := PackOne(layout[0], values[0]).value;
      var tail := PackAll(layout[1..], values[1..]).value;
      var bs := head + tail;
      assert PackAll(layout, values) == Success(bs);
      assert bs[..|head|] == head && bs[|head|..] == tail;
      assert UnpackExact(layout, bs) == [values[0]] + values[1..];
      assert [values[0]] + values[1..] == values;
    }
  }

  /** Unpacking packed values, wherever they sit in a longer buffer, gives the values back. */
  lemma PackUnpack(layout: seq<Code>, values: seq<Value>, before: seq<byte>, after: seq<byte>)
    requires |values| == |layout|
    requires forall k :: 0 <= k < |layout| ==> Fits(layout[k], values[k])
    ensures Pack(layout, values).Success?
    ensures |Pack(layout, values).value| == Size(layout)
    ensures Unpack(layout, before + Pack(layout, values).value + after, |before|) == Success(values)
  {
    PackUnpackExact(layout, values);
    var p := Pack(layout, values).value;
    assert (before + p + after)[|before|..|before| + |p|] == p;
  }

  /** Every byte string of the right size unpacks to fitting values that pack back to it. */
  lemma {:induction false} UnpackPackExact(layout: seq<Code>, bs: seq<byte>)
    requires |bs| == Size(layout)
    ensures forall k :: 0 <= k < |layout| ==> Fits(layout[k], UnpackExact(layout, bs)[k])
    ensures Pack(layout, UnpackExact(layout, bs)) == Success(bs)
  {
    if layout != [] {
      var w := Width(layout[0]);
      var chunk, rest := bs[..w], bs[w..];
      UnpackOneRoundTrip(layout[0], chunk);
      UnpackPackExact(layout[1..], rest);
      var vs := UnpackExact(layout, bs);
      assert vs[0] == UnpackOne(layout[0], chunk) && vs[1..] == UnpackExact(layout[1..], rest);
      FitsCons(layout, vs);
      PackCons(layout, vs, chunk, rest);
      assert chunk + rest == bs;
    }
  }

  lemma PackCons(layout: seq<Code>, vs: seq<Value>, head: seq<byte>, tail: seq<byte>)
    requires layout != [] && |vs| == |layout|
    requires PackOne(layout[0], vs[0]) == Success(head) && Pack(layout[1..], vs[1..]) == Success(tail)
    ensures Pack(layout, vs) == Success(head + tail)
  {
  }

  /** Values fit a layout when the first fits its code and the rest fit the rest. */
  lemma FitsCons(layout: seq<Code>, vs: seq<Value>)
    requires layout != [] && |vs| == |layout| && Fits(layout[0], vs[0])
    requires forall k :: 0 <= k < |layout| - 1 ==> Fits(layout[1..][k], vs[1..][k])
    ensures forall k :: 0 <= k < |layout| ==> Fits(layout[k], vs[k])
  {
    forall k | 0 < k < |layout| ensures Fits(layout[k], vs[k]) {
      assert layout[k] == layout[1..][k - 1] && vs[k] == vs[1..][k - 1];
    }
  }

  /** Every long-enough byte string unpacks to fitting values that pack back to the same bytes. */
  lemma UnpackPack(layout: seq<Code>, data: seq<byte>, index: nat)
    requires index + Size(layout) <= |data|
    ensures Unpack(layout, data, index).Success?
    ensures forall k :: 0 <= k < |layout| ==> Fits(layout[k], Unpack(layout, data, index).value[k])
    ensures Pack(layout, Unpack(layout, data, index).value) == Success(data[index..index + Size(layout)])
  {
    UnpackPackExact(layout, data[index..index + Size(layout)]);
  }
}
