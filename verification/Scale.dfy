/**
 The encodings of keys and values: fixed-width little-endian integers, byte strings behind a
 compact length, and tuples, as in section A.2.2 (SCALE Codec) of the Polkadot Protocol
 Specification. Decoding is proved the exact inverse, which makes every type's encoding prefix-free.
 */
module Scale {
  import opened Wrappers
  import opened Bytes

  /** A tuple type is its first component and the tuple of the others; `(T, U)` is `Tuple(T, Tuple(U, Unit))`. */
  datatype Ty = Unit | UInt(width: nat) | ByteString | Tuple(head: Ty, tail: Ty)

  datatype Val = Empty | Num(n: nat) | Blob(bytes: Data) | Pair(first: Val, rest: Val)

  const TWO_TO_THE_32 := 0x1_0000_0000

  function Pow256(width: nat): (p: nat)
    ensures p > 0
  {
    if width == 0 then 1 else 256 * Pow256(width - 1)
  }

  predicate HasType(v: Val, ty: Ty)
  {
    match ty
    case Unit => v.Empty?
    case UInt(width) => v.Num? && v.n < Pow256(width)
    case ByteString => v.Blob? && |v.bytes| < TWO_TO_THE_32
    case Tuple(head, tail) => v.Pair? && HasType(v.first, head) && HasType(v.rest, tail)
  }

  function LittleEndian(n: nat, width: nat): (bytes: Data)
    ensures |bytes| == width
  {
    if width == 0 then [] else [n % 256] + LittleEndian(n / 256, width - 1)
  }

  function FromLittleEndian(bytes: Data): nat
  {
    if bytes == [] then 0 else bytes[0] + 256 * FromLittleEndian(bytes[1..])
  }

  lemma {:induction false} LittleEndianRoundTrip(n: nat, width: nat)
    requires n < Pow256(width)
    ensures FromLittleEndian(LittleEndian(n, width)) == n
  {
    if width > 0 {
      LittleEndianRoundTrip(n / 256, width - 1);
      assert LittleEndian(n, width)[1..] == LittleEndian(n / 256, width - 1);
    }
  }

  lemma LowByte(low: Byte, high: nat)
    ensures (low + 256 * high) % 256 == low && (low + 256 * high) / 256 == high
  {}

  lemma {:induction false} FromLittleEndianRoundTrip(bytes: Data)
    ensures FromLittleEndian(bytes) < Pow256(|bytes|)
    ensures LittleEndian(FromLittleEndian(bytes), |bytes|) == bytes
  {
    if bytes != [] {
      var rest := FromLittleEndian(bytes[1..]);
      FromLittleEndianRoundTrip(bytes[1..]);
      LowByte(bytes[0], rest);
      assert LittleEndian(bytes[0] + 256 * rest, |bytes|) == [bytes[0]] + LittleEndian(rest, |bytes| - 1);
      assert bytes == [bytes[0]] + bytes[1..];
    }
  }

  // ---- compact lengths ----

  /** The two low bits of the first byte say how many bytes carry the number. */
  function EncodeLength(n: nat): Data
    requires n < TWO_TO_THE_32
  {
    if n < 0x40 then [4 * n]
    else if n < 0x4000 then LittleEndian(4 * n + 1, 2)
    else if n < 0x4000_0000 then LittleEndian(4 * n + 2, 4)
    else [3] + LittleEndian(n, 4)
  }

  /** Only the shortest form is accepted. */
  function DecodeLength(bytes: Data): Option<(nat, Data)>
  {
    if bytes == [] then None
    else match bytes[0] % 4
      case 0 => Some((bytes[0] / 4, bytes[1..]))
      case 1 => if |bytes| < 2 then None else AtLeast(0x40, FromLittleEndian(bytes[..2]) / 4, bytes[2..])
      case 2 => if |bytes| < 4 then None else AtLeast(0x4000, FromLittleEndian(bytes[..4]) / 4, bytes[4..])
      case _ => if |bytes| < 5 || bytes[0] != 3 then None
                else AtLeast(0x4000_0000, FromLittleEndian(bytes[1..5]), bytes[5..])
  }

  function AtLeast(bound: nat, n: nat, rest: Data): Option<(nat, Data)>
  {
    if n < bound then None else Some((n, rest))
  }

  lemma Pow256Values()
    ensures Pow256(0) == 1 && Pow256(1) == 0x100 && Pow256(2) == 0x1_0000 && Pow256(4) == TWO_TO_THE_32
  {
    assert Pow256(3) == 256 * Pow256(2) && Pow256(4) == 256 * Pow256(3);
  }

  lemma LittleEndianInFront(x: nat, width: nat, rest: Data)
    requires 0 < width && x < Pow256(width)
    ensures var bytes := LittleEndian(x, width) + rest;
            && bytes[0] % 4 == x % 4
            && FromLittleEndian(bytes[..width]) == x
            && bytes[width..] == rest
  {
    var bytes := LittleEndian(x, width) + rest;
    assert bytes[..width] == LittleEndian(x, width);
    assert bytes[0] == x % 256;
    LittleEndianRoundTrip(x, width);
  }

  lemma OneByteLength(n: nat, rest: Data)
    requires n < 0x40
    ensures DecodeLength([4 * n] + rest) == Some((n, rest))
  {
    var bytes: Data := [4 * n] + rest;
    assert bytes[1..] == rest;
  }

  /** The two- and four-byte forms: `x` carries the number above its two low bits. */
  lemma ShiftedLength(x: nat, n: nat, width: nat, rest: Data)
    requires x < Pow256(width) && n == x / 4
    requires (width == 2 && x % 4 == 1 && 0x40 <= n) || (width == 4 && x % 4 == 2 && 0x4000 <= n)
    ensures DecodeLength(LittleEndian(x, width) + rest) == Some((n, rest))
  {
    LittleEndianInFront(x, width, rest);
  }

  lemma BigLength(n: nat, rest: Data)
    requires 0x4000_0000 <= n < TWO_TO_THE_32
    ensures DecodeLength([3] + LittleEndian(n, 4) + rest) == Some((n, rest))
  {
    Pow256Values();
    var bytes := [3] + LittleEndian(n, 4) + rest;
    LittleEndianRoundTrip(n, 4);
    assert bytes[1..5] == LittleEndian(n, 4) && bytes[5..] == rest;
  }

  lemma LengthRoundTrip(n: nat, rest: Data)
    requires n < TWO_TO_THE_32
    ensures DecodeLength(EncodeLength(n) + rest) == Some((n, rest))
  {
    Pow256Values();
    if n < 0x40 {
      OneByteLength(n, rest);
    } else if n < 0x4000 {
      ShiftedLength(4 * n + 1, n, 2, rest);
    } else if n < 0x4000_0000 {
      ShiftedLength(4 * n + 2, n, 4, rest);
    } else {
      BigLength(n, rest);
    }
  }

  /** The two low bits of the first byte are those of the number. */
  lemma LowBits(bytes: Data, bits: nat)
    requires bytes != [] && bytes[0] % 4 == bits
    ensures FromLittleEndian(bytes) == 4 * (FromLittleEndian(bytes) / 4) + bits
  {}

  lemma LengthIsCanonical(bytes: Data)
    requires DecodeLength(bytes).Some?
    ensures var (n, rest) := DecodeLength(bytes).value;
            n < TWO_TO_THE_32 && bytes == EncodeLength(n) + rest
  {
    Pow256Values();
    var (n, rest) := DecodeLength(bytes).value;
    match bytes[0] % 4 {
      case 0 =>
        assert bytes == [bytes[0]] + rest;
      case 1 =>
        FromLittleEndianRoundTrip(bytes[..2]);
        LowBits(bytes[..2], 1);
        assert bytes == bytes[..2] + rest;
      case 2 =>
        FromLittleEndianRoundTrip(bytes[..4]);
        LowBits(bytes[..4], 2);
        assert bytes == bytes[..4] + rest;
      case _ =>
        FromLittleEndianRoundTrip(bytes[1..5]);
        assert bytes == [3] + bytes[1..5] + rest;
    }
  }

  // ---- values ----

  function Encode(ty: Ty, v: Val): Data
    requires HasType(v, ty)
  {
    match ty
    case Unit => []
    case UInt(width) => LittleEndian(v.n, width)
    case ByteString => EncodeLength(|v.bytes|) + v.bytes
    case Tuple(head, tail) => Encode(head, v.first) + Encode(tail, v.rest)
  }

  /** Reads one value off the front. */
  function Decode(ty: Ty, bytes: Data): Option<(Val, Data)>
  {
    match ty
    case Unit => Some((Empty, bytes))
    case UInt(width) =>
      if |bytes| < width then None else Some((Num(FromLittleEndian(bytes[..width])), bytes[width..]))
    case ByteString =>
      (match DecodeLength(bytes)
       case None => None
       case Some((n, rest)) => if |rest| < n then None else Some((Blob(rest[..n]), rest[n..])))
    case Tuple(head, tail) =>
      (match Decode(head, bytes)
       case None => None
       case Some((first, more)) =>
         match Decode(tail, more)
         case None => None
         case Some((rest, left)) => Some((Pair(first, rest), left)))
  }

  lemma {:induction false} DecodeUndoesEncode(ty: Ty, v: Val, rest: Data)
    requires HasType(v, ty)
    ensures Decode(ty, Encode(ty, v) + rest) == Some((v, rest))
  {
    var bytes := Encode(ty, v) + rest;
    match ty {
      case Unit =>
        assert bytes == rest;
      case UInt(width) =>
        LittleEndianRoundTrip(v.n, width);
        assert bytes[..width] == LittleEndian(v.n, width) && bytes[width..] == rest;
      case ByteString =>
        assert bytes == EncodeLength(|v.bytes|) + (v.bytes + rest);
        LengthRoundTrip(|v.bytes|, v.bytes + rest);
        assert (v.bytes + rest)[..|v.bytes|] == v.bytes && (v.bytes + rest)[|v.bytes|..] == rest;
      case Tuple(head, tail) =>
        assert bytes == Encode(head, v.first) + (Encode(tail, v.rest) + rest);
        DecodeUndoesEncode(head, v.first, Encode(tail, v.rest) + rest);
        DecodeUndoesEncode(tail, v.rest, rest);
    }
  }

  lemma ByteStringIsCanonical(bytes: Data)
    requires Decode(ByteString, bytes).Some?
    ensures var (v, rest) := Decode(ByteString, bytes).value;
            HasType(v, ByteString) && bytes == Encode(ByteString, v) + rest
  {
    var (n, more) := DecodeLength(bytes).value;
    LengthIsCanonical(bytes);
    assert more == more[..n] + more[n..];
    assert bytes == EncodeLength(n) + (more[..n] + more[n..]);
  }

  /** Every byte string that decodes is the encoding of what it decodes to. */
  lemma {:induction false} EncodeUndoesDecode(ty: Ty, bytes: Data)
    requires Decode(ty, bytes).Some?
    ensures var (v, rest) := Decode(ty, bytes).value;
            HasType(v, ty) && bytes == Encode(ty, v) + rest
  {
    var (v, rest) := Decode(ty, bytes).value;
    match ty {
      case Unit =>
      case UInt(width) =>
        FromLittleEndianRoundTrip(bytes[..width]);
        assert bytes == bytes[..width] + bytes[width..];
      case ByteString =>
        ByteStringIsCanonical(bytes);
      case Tuple(head, tail) =>
        var (first, more) := Decode(head, bytes).value;
        EncodeUndoesDecode(head, bytes);
        EncodeUndoesDecode(tail, more);
        assert bytes == Encode(head, first) + (Encode(tail, v.rest) + rest);
    }
  }

  /** No encoding is a proper prefix of another of the same type, nor do two values share one. */
  lemma EncodingIsPrefixFree(ty: Ty, v: Val, w: Val, more: Data, others: Data)
    requires HasType(v, ty) && HasType(w, ty)
    requires Encode(ty, v) + more == Encode(ty, w) + others
    ensures v == w && more == others
  {
    DecodeUndoesEncode(ty, v, more);
    DecodeUndoesEncode(ty, w, others);
  }

  /** `decode_all`: nothing may be left over. */
  function DecodeAll(ty: Ty, bytes: Data): Option<Val>
  {
    match Decode(ty, bytes)
    case Some((v, rest)) => if rest == [] then Some(v) else None
    case None => None
  }

  lemma DecodeAllIsInverse(ty: Ty, bytes: Data, v: Val)
    ensures DecodeAll(ty, bytes) == Some(v) <==> HasType(v, ty) && bytes == Encode(ty, v)
  {
    if DecodeAll(ty, bytes) == Some(v) {
      EncodeUndoesDecode(ty, bytes);
      assert Encode(ty, v) + [] == Encode(ty, v);
    }
    if HasType(v, ty) && bytes == Encode(ty, v) {
      DecodeUndoesEncode(ty, v, []);
      assert Encode(ty, v) + [] == bytes;
    }
  }

  // ---- tuple prefixes ----

  /** `HasPrefix`: the unit type is a prefix of everything, leading components are a prefix of a tuple. */
  predicate IsPrefixOf(prefix: Ty, ty: Ty)
  {
    prefix.Unit? || (prefix.Tuple? && ty.Tuple? && prefix.head == ty.head && IsPrefixOf(prefix.tail, ty.tail))
  }

  /** How many components a tuple type has; other types are not taken apart. */
  function Arity(ty: Ty): nat
  {
    if ty.Tuple? then 1 + Arity(ty.tail) else 0
  }

  /** The tuple of the first `n` components. */
  function FirstComponents(ty: Ty, n: nat): Ty
    requires n <= Arity(ty)
  {
    if n == 0 then Unit else Tuple(ty.head, FirstComponents(ty.tail, n - 1))
  }

  lemma {:induction false} FirstComponentsArePrefix(ty: Ty, n: nat)
    requires n <= Arity(ty)
    ensures IsPrefixOf(FirstComponents(ty, n), ty)
  {
    if n > 0 {
      FirstComponentsArePrefix(ty.tail, n - 1);
    }
  }

  lemma {:induction false} PrefixIsFirstComponents(prefix: Ty, ty: Ty) returns (n: nat)
    requires IsPrefixOf(prefix, ty)
    ensures n <= Arity(ty) && prefix == FirstComponents(ty, n)
  {
    if prefix.Unit? {
      n := 0;
    } else {
      n := PrefixIsFirstComponents(prefix.tail, ty.tail);
      n := n + 1;
    }
  }

  /** The prefix types are the tuples of leading components, for every number of them. */
  lemma PrefixesAreLeadingComponents(prefix: Ty, ty: Ty)
    ensures IsPrefixOf(prefix, ty) <==> exists n: nat :: n <= Arity(ty) && prefix == FirstComponents(ty, n)
  {
    if IsPrefixOf(prefix, ty) {
      var n := PrefixIsFirstComponents(prefix, ty);
    }
    forall n: nat | n <= Arity(ty) ensures IsPrefixOf(FirstComponents(ty, n), ty) {
      FirstComponentsArePrefix(ty, n);
    }
  }

  /** The prefixes the program declares: nothing of any type, and the shorter tuples of pairs and triples. */
  lemma DeclaredPrefixes(t: Ty, u: Ty, w: Ty)
    ensures IsPrefixOf(Unit, t)
    ensures IsPrefixOf(Tuple(t, Unit), Tuple(t, Tuple(u, Unit)))
    ensures IsPrefixOf(Tuple(t, Unit), Tuple(t, Tuple(u, Tuple(w, Unit))))
    ensures IsPrefixOf(Tuple(t, Tuple(u, Unit)), Tuple(t, Tuple(u, Tuple(w, Unit))))
  {}

  /** The leading components of `v` that `prefix` asks for. */
  function Leading(prefix: Ty, ty: Ty, v: Val): (p: Val)
    requires IsPrefixOf(prefix, ty) && HasType(v, ty)
    ensures HasType(p, prefix)
  {
    match prefix
    case Tuple(_, tail) => Pair(v.first, Leading(tail, ty.tail, v.rest))
    case _ => Empty
  }

  lemma {:induction false} EncodingStartsWithLeading(prefix: Ty, ty: Ty, v: Val)
    requires IsPrefixOf(prefix, ty) && HasType(v, ty)
    ensures StartsWith(Encode(ty, v), Encode(prefix, Leading(prefix, ty, v)))
  {
    if prefix.Tuple? {
      EncodingStartsWithLeading(prefix.tail, ty.tail, v.rest);
    }
  }

  /** An encoded key starts with an encoded prefix exactly when its leading components are that prefix. */
  lemma PrefixMatchesLeading(prefix: Ty, p: Val, ty: Ty, v: Val)
    requires IsPrefixOf(prefix, ty) && HasType(p, prefix) && HasType(v, ty)
    ensures StartsWith(Encode(ty, v), Encode(prefix, p)) <==> Leading(prefix, ty, v) == p
  {
    var lead := Leading(prefix, ty, v);
    EncodingStartsWithLeading(prefix, ty, v);
    if StartsWith(Encode(ty, v), Encode(prefix, p)) {
      var bytes := Encode(ty, v);
      assert bytes == Encode(prefix, p) + bytes[|Encode(prefix, p)|..];
      assert bytes == Encode(prefix, lead) + bytes[|Encode(prefix, lead)|..];
      EncodingIsPrefixFree(prefix, p, lead, bytes[|Encode(prefix, p)|..], bytes[|Encode(prefix, lead)|..]);
    }
  }

  /** Encoded keys sort in numeric order exactly for one-byte (and zero-byte) integers. */
  lemma KeyOrderIsNumericExactlyWhen(width: nat)
    ensures (forall a: nat, b: nat | a < b < Pow256(width) :: Below(LittleEndian(a, width), LittleEndian(b, width)))
       <==> width <= 1
  {
    Pow256Values();
    if width <= 1 {
      forall a: nat, b: nat | a < b < Pow256(width) ensures Below(LittleEndian(a, width), LittleEndian(b, width)) {
        assert width == 1;
      }
    } else {
      assert Pow256(width) == 256 * (256 * Pow256(width - 2));
      assert 1 < 256 < Pow256(width);
      assert LittleEndian(1, width)[0] == 1 && LittleEndian(256, width)[0] == 0;
      assert !Below(LittleEndian(1, width), LittleEndian(256, width));
    }
  }

  // ---- the order of encoded keys ----

  /** The keys' own order: numbers by size, byte strings by the byte, tuples by the first component that differs. */
  predicate NativeLess(ty: Ty, v: Val, w: Val)
    requires HasType(v, ty) && HasType(w, ty)
  {
    match ty
    case Unit => false
    case UInt(_) => v.n < w.n
    case ByteString => Below(v.bytes, w.bytes)
    case Tuple(head, tail) =>
      NativeLess(head, v.first, w.first) || (v.first == w.first && NativeLess(tail, v.rest, w.rest))
  }

  predicate KeepsOrder(ty: Ty, v: Val, w: Val)
  {
    HasType(v, ty) && HasType(w, ty) && NativeLess(ty, v, w) ==> Below(Encode(ty, v), Encode(ty, w))
  }

  /** Key types built from units and integers of at most one byte. */
  predicate OneByteOnly(ty: Ty)
  {
    match ty
    case Unit => true
    case UInt(width) => width <= 1
    case ByteString => false
    case Tuple(head, tail) => OneByteOnly(head) && OneByteOnly(tail)
  }

  /**
   A scan, which follows the encoded keys, comes out in the keys' own order for all keys of a type if and
   only if the type holds neither a wider integer nor a byte string anywhere.
   */
  lemma KeyOrderIsNativeExactlyWhen(ty: Ty)
    ensures (forall v, w :: KeepsOrder(ty, v, w)) <==> OneByteOnly(ty)
  {
    if OneByteOnly(ty) {
      forall v, w ensures KeepsOrder(ty, v, w) {
        if HasType(v, ty) && HasType(w, ty) && NativeLess(ty, v, w) {
          OneByteKeysKeepTheirOrder(ty, v, w);
        }
      }
    } else {
      var v, w := KeysOutOfOrder(ty);
      CompareIsTotal(Encode(ty, v), Encode(ty, w));
      assert !KeepsOrder(ty, v, w);
    }
  }

  lemma {:induction false} OneByteKeysKeepTheirOrder(ty: Ty, v: Val, w: Val)
    requires OneByteOnly(ty) && HasType(v, ty) && HasType(w, ty) && NativeLess(ty, v, w)
    ensures Below(Encode(ty, v), Encode(ty, w))
  {
    match ty {
      case UInt(width) =>
        Pow256Values();
        KeyOrderIsNumericExactlyWhen(width);
      case Tuple(head, tail) =>
        if NativeLess(head, v.first, w.first) {
          OneByteKeysKeepTheirOrder(head, v.first, w.first);
          EarlierFirstComponent(head, v.first, w.first, Encode(tail, v.rest), Encode(tail, w.rest));
        } else {
          OneByteKeysKeepTheirOrder(tail, v.rest, w.rest);
          BelowAfterCommonFront(Encode(head, v.first), Encode(tail, v.rest), Encode(tail, w.rest));
        }
    }
  }

  /** Two keys of any other type whose encodings are in the wrong order. */
  lemma {:induction false} KeysOutOfOrder(ty: Ty) returns (v: Val, w: Val)
    requires !OneByteOnly(ty)
    ensures HasType(v, ty) && HasType(w, ty) && NativeLess(ty, v, w)
    ensures Below(Encode(ty, w), Encode(ty, v))
  {
    match ty {
      case UInt(width) =>
        Pow256Values();
        assert Pow256(width) == 256 * (256 * Pow256(width - 2));
        v, w := Num(1), Num(256);
        assert LittleEndian(1, width)[0] == 1 && LittleEndian(256, width)[0] == 0;
      case ByteString =>
        v, w := Blob([0, 0]), Blob([1]);
        assert Below(v.bytes, w.bytes);
        assert Encode(ty, v)[0] == 8 && Encode(ty, w)[0] == 4;
      case Tuple(head, tail) =>
        if OneByteOnly(head) {
          var x, y := KeysOutOfOrder(tail);
          v, w := Pair(Sample(head), x), Pair(Sample(head), y);
          BelowAfterCommonFront(Encode(head, Sample(head)), Encode(tail, y), Encode(tail, x));
        } else {
          var x, y := KeysOutOfOrder(head);
          v, w := Pair(x, Sample(tail)), Pair(y, Sample(tail));
          CompareIsTotal(Encode(head, x), Encode(head, y));
          EarlierFirstComponent(head, y, x, Encode(tail, Sample(tail)), Encode(tail, Sample(tail)));
        }
    }
  }

  /** Every type has a value. */
  function Sample(ty: Ty): (v: Val)
    ensures HasType(v, ty)
  {
    match ty
    case Unit => Empty
    case UInt(_) => Num(0)
    case ByteString => Blob([])
    case Tuple(head, tail) => Pair(Sample(head), Sample(tail))
  }

  lemma {:induction false} BelowAfterCommonFront(front: Data, x: Data, y: Data)
    ensures Below(front + x, front + y) <==> Below(x, y)
  {
    if front == [] {
      assert front + x == x && front + y == y;
    } else {
      assert (front + x)[1..] == front[1..] + x && (front + y)[1..] == front[1..] + y;
      BelowAfterCommonFront(front[1..], x, y);
    }
  }

  lemma {:induction false} BelowWhateverFollows(a: Data, b: Data, x: Data, y: Data)
    requires Below(a, b) && !StartsWith(b, a)
    ensures Below(a + x, b + y)
  {
    if a[0] == b[0] {
      assert (a + x)[1..] == a[1..] + x && (b + y)[1..] == b[1..] + y;
      assert a == [a[0]] + a[1..] && b == [b[0]] + b[1..];
      BelowWhateverFollows(a[1..], b[1..], x, y);
    }
  }

  /** The first components decide the order of encoded tuples, because no encoding is a prefix of another. */
  lemma EarlierFirstComponent(head: Ty, v: Val, w: Val, x: Data, y: Data)
    requires HasType(v, head) && HasType(w, head) && Below(Encode(head, v), Encode(head, w))
    ensures Below(Encode(head, v) + x, Encode(head, w) + y)
  {
    var a, b := Encode(head, v), Encode(head, w);
    if StartsWith(b, a) {
      assert a + b[|a|..] == b + [];
      EncodingIsPrefixFree(head, v, w, b[|a|..], []);
      CompareIsTotal(a, b);
    } else {
      BelowWhateverFollows(a, b, x, y);
    }
  }
}
