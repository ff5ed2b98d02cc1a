/** The prime field a secret is shared over: pkg/wallets/backup/field.go.
    A `bigmod.Nat` is an integer in [0, modulus). */
module Field {
  import opened Wrappers
  import opened ModArith

  const UINT32_LIMIT: nat := 0x1_0000_0000
  const UINT64_LIMIT: nat := 0x1_0000_0000_0000_0000

  type Uint64 = n: int | 0 <= n < UINT64_LIMIT

  type Byte = b: int | 0 <= b < 256

  // ---- big-endian encodings ------------------------------------------------

  function Pow256(n: nat): (r: nat)
    ensures r > 0
  {
    if n == 0 then 1 else 256 * Pow256(n - 1)
  }

  lemma {:induction false} Pow256Monotone(m: nat, n: nat)
    requires m <= n
    ensures Pow256(m) <= Pow256(n)
  {
    if m < n {
      Pow256Monotone(m, n - 1);
    }
  }

  /** The number a big-endian byte string spells. */
  function Decode(b: seq<Byte>): nat {
    if |b| == 0 then 0 else 256 * Decode(b[..|b| - 1]) + b[|b| - 1]
  }

  /** The big-endian byte string of `n` at a fixed width. */
  function Encode(n: nat, width: nat): (b: seq<Byte>)
    ensures |b| == width
  {
    if width == 0 then [] else Encode(n / 256, width - 1) + [n % 256]
  }

  lemma {:induction false} DecodeBound(b: seq<Byte>)
    ensures Decode(b) < Pow256(|b|)
  {
    if |b| > 0 {
      DecodeBound(b[..|b| - 1]);
    }
  }

  lemma {:induction false} DecodeEncode(n: nat, width: nat)
    requires n < Pow256(width)
    ensures Decode(Encode(n, width)) == n
  {
    if width > 0 {
      DecodeEncode(n / 256, width - 1);
      var e := Encode(n, width);
      assert e[..|e| - 1] == Encode(n / 256, width - 1);
    }
  }

  lemma {:induction false} EncodeDecode(b: seq<Byte>)
    ensures Encode(Decode(b), |b|) == b
  {
    if |b| > 0 {
      EncodeDecode(b[..|b| - 1]);
      assert Decode(b) / 256 == Decode(b[..|b| - 1]);
      assert Decode(b) % 256 == b[|b| - 1];
      assert b == b[..|b| - 1] + [b[|b| - 1]];
    }
  }

  function Zeros(n: nat): (z: seq<Byte>)
    ensures |z| == n
  {
    seq(n, _ => 0)
  }

  /** Left padding does not change the number. */
  lemma {:induction false} DecodePadded(z: nat, b: seq<Byte>)
    ensures Decode(Zeros(z) + b) == Decode(b)
    decreases z + |b|
  {
    var s := Zeros(z) + b;
    if |b| > 0 {
      DecodePadded(z, b[..|b| - 1]);
      assert s[..|s| - 1] == Zeros(z) + b[..|b| - 1];
    } else if z > 0 {
      DecodePadded(z - 1, b);
      assert s[..|s| - 1] == Zeros(z - 1) + b;
    }
  }

  predicate AllZero(b: seq<Byte>) {
    forall i :: 0 <= i < |b| ==> b[i] == 0
  }

  /** A number that fits k bytes is encoded in w >= k bytes with w - k leading
      zeros, and only such a number is. */
  lemma {:induction false} LeadingZeros(n: nat, w: nat, k: nat)
    requires k <= w && n < Pow256(w)
    ensures n < Pow256(k) <==> AllZero(Encode(n, w)[..w - k])
    ensures n < Pow256(k) ==> Encode(n, w)[w - k..] == Encode(n, k)
    decreases w
  {
    if k == 0 {
      DecodeEncode(n, w);
      assert Encode(n, w)[..w] == Encode(n, w);
      if AllZero(Encode(n, w)) {
        assert Encode(n, w) == Zeros(w) + [];
        DecodePadded(w, []);
      } else if n == 0 {
        EncodeZero(w);
      }
    } else {
      LeadingZeros(n / 256, w - 1, k - 1);
      var e, h := Encode(n, w), Encode(n / 256, w - 1);
      assert e[..w - k] == h[..w - k];
      assert e[w - k..] == h[w - k..] + [n % 256];
    }
  }

  lemma {:induction false} EncodeZero(w: nat)
    ensures Encode(0, w) == Zeros(w)
  {
    if w > 0 {
      EncodeZero(w - 1);
    }
  }

  // ---- the field -------------------------------------------------------------

  /** `size` is the width of an element, `secretSize` that of the secrets. */
  datatype Field = Field(id: nat, modulus: nat, size: nat, secretSize: nat)

  /** What `mustPrimeField` establishes, with the bound above 2^64 that
      `ElementFromUint64` relies on. */
  ghost predicate Valid(f: Field) {
    && IsPrime(f.modulus)
    && UINT64_LIMIT < f.modulus
    && 1 <= f.secretSize <= f.size
    && Pow256(f.size - 1) <= f.modulus < Pow256(f.size)
  }

  /** field.Element: left-pad to the field's width, reject what is not reduced. */
  function Element(f: Field, b: seq<Byte>): (r: Result<nat>)
    ensures r.Ok? <==> |b| <= f.size && Decode(b) < f.modulus
    ensures r.Ok? ==> r.value == Decode(b)
  {
    if |b| > f.size then
      Err("value exceeds the field")
    else
      var padded := Zeros(f.size - |b|) + b;
      DecodePadded(f.size - |b|, b);
      if Decode(padded) >= f.modulus then
        Err("value is not smaller than the field modulus")
      else
        Ok(Decode(padded))
  }

  /** field.Bytes: the fixed-width encoding of an element. */
  function Bytes(f: Field, n: nat): (b: seq<Byte>)
    requires n < f.modulus
    ensures |b| == f.size
  {
    Encode(n, f.size)
  }

  /** Serialising an element and reading it back is the identity. */
  lemma ElementOfBytes(f: Field, n: nat)
    requires Valid(f) && n < f.modulus
    ensures Element(f, Bytes(f, n)) == Ok(n)
  {
    DecodeEncode(n, f.size);
  }

  /** Different elements have different encodings. */
  lemma BytesInjective(f: Field, m: nat, n: nat)
    requires Valid(f) && m < f.modulus && n < f.modulus
    ensures Bytes(f, m) == Bytes(f, n) <==> m == n
  {
    DecodeEncode(m, f.size);
    DecodeEncode(n, f.size);
  }

  lemma FieldHoldsUint64(f: Field)
    requires Valid(f)
    ensures f.size >= 8
  {
    if f.size < 8 {
      Pow256Monotone(f.size, 7);
      assert Pow256(7) == 0x100_0000_0000_0000 by { Pow256Seven(); }
      assert false;
    }
  }

  lemma Pow256Seven()
    ensures Pow256(7) == 0x100_0000_0000_0000 && Pow256(8) == UINT64_LIMIT
  {
  }

  /** field.ElementFromUint64: every share index is its own field element. The
      byte at 7-i is v shifted right by 8·i, cut to a byte. */
  method ElementFromUint64(f: Field, v: Uint64) returns (n: nat)
    requires Valid(f)
    ensures n == v && n < f.modulus
  {
    var buf: seq<Byte> := [];
    var rest := v;
    ghost var todo := 8;
    Pow256Seven();
    assert buf == Encode(v, 8)[8..];
    for i := 0 to 8
      invariant todo == 8 - i && |buf| == i
      invariant Encode(v, 8) == Encode(rest, todo) + buf
    {
      buf := [rest % 256] + buf;
      assert Encode(rest, todo) == Encode(rest / 256, todo - 1) + [rest % 256];
      rest, todo := rest / 256, todo - 1;
    }
    assert Encode(rest, 0) == [];
    assert buf == Encode(v, 8);
    FieldHoldsUint64(f);
    var padded := Zeros(f.size - |buf|) + buf;
    DecodePadded(f.size - |buf|, buf);
    DecodeEncode(v, 8);
    n := Decode(padded);
  }

  /** What SecretBytes returns, without its scan: the value at secret width if
      it fits there, an error otherwise. */
  function SecretOf(f: Field, n: nat): Result<seq<Byte>>
  {
    if n < Pow256(f.secretSize) then Ok(Encode(n, f.secretSize))
    else Err("reconstructed value is wider than the field's secrets")
  }

  /** Bitwise or of two numbers below 2^bits. */
  function Or(a: nat, b: nat, bits: nat): (r: nat)
    ensures a < Pow2(bits) && b < Pow2(bits) ==> r < Pow2(bits) && (r == 0 <==> a == 0 && b == 0)
  {
    if bits == 0 then 0
    else 2 * Or(a / 2, b / 2, bits - 1) + (if a % 2 == 1 || b % 2 == 1 then 1 else 0)
  }

  function Pow2(n: nat): nat {
    if n == 0 then 1 else 2 * Pow2(n - 1)
  }

  function OrByte(a: Byte, b: Byte): (r: Byte)
    ensures r == 0 <==> a == 0 && b == 0
  {
    assert Pow2(4) == 16;
    assert Pow2(8) == 256;
    Or(a, b, 8)
  }

  /** field.SecretBytes: OR together the bytes above the secret's width. */
  method SecretBytes(f: Field, n: nat) returns (r: Result<seq<Byte>>)
    requires Valid(f) && n < f.modulus
    ensures r == SecretOf(f, n)
    ensures r.Ok? <==> n < Pow256(f.secretSize)
    ensures r.Ok? ==> |r.value| == f.secretSize && Decode(r.value) == n
  {
    var b := Bytes(f, n);
    var lead := |b| - f.secretSize;
    var high: Byte := 0;
    for i := 0 to lead
      invariant high == 0 <==> AllZero(b[..i])
    {
      high := OrByte(high, b[i]);
      assert b[..i + 1] == b[..i] + [b[i]];
    }
    LeadingZeros(n, f.size, f.secretSize);
    if high != 0 {
      return Err("reconstructed value is wider than the field's secrets");
    }
    DecodeEncode(n, f.secretSize);
    return Ok(b[lead..]);
  }
}
