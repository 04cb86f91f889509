/** The Base32 codec of crates/auth-local/src/lib.rs (module `base32`): a 32-bit buffer that silently
    drops its high bits, against the bit-string definition of section 6 of RFC 4648. */
module Base32 {
  import opened Options

  type Byte = b: int | 0 <= b < 256
  type Quintet = q: int | 0 <= q < 32

  const U32 := 0x1_0000_0000

  // ---- Bit strings ----

  function Pow2(n: nat): (p: nat)
    ensures p > 0
  {
    if n == 0 then 1 else 2 * Pow2(n - 1)
  }

  /** The low `n` bits of `v`, most significant first. */
  function Bits(v: nat, n: nat): (s: seq<int>)
    ensures |s| == n
  {
    if n == 0 then [] else Bits(v / 2, n - 1) + [v % 2]
  }

  /** The input as one string of bits: bytes of eight. */
  function ByteBits(data: seq<Byte>): (s: seq<int>)
    ensures |s| == 8 * |data|
  {
    if data == [] then [] else ByteBits(data[..|data| - 1]) + Bits(data[|data| - 1], 8)
  }

  /** The output as one string of bits: quintets of five. */
  function QuintetBits(qs: seq<Quintet>): (s: seq<int>)
    ensures |s| == 5 * |qs|
  {
    if qs == [] then [] else QuintetBits(qs[..|qs| - 1]) + Bits(qs[|qs| - 1], 5)
  }

  function Zeros(n: nat): seq<int> { seq(n, _ => 0) }

  /** `v >> k`. */
  function Shr(v: nat, k: nat): nat {
    if k == 0 then v else Shr(v / 2, k - 1)
  }

  lemma {:induction false} BitsSplit(v: nat, n: nat, k: nat)
    ensures Bits(v, n + k) == Bits(Shr(v, k), n) + Bits(v, k)
  {
    if k > 0 {
      BitsSplit(v / 2, n, k - 1);
    }
  }

  /** Bits above the low `m` are invisible to the low `n`. */
  lemma {:induction false} HighBitsInvisible(v: nat, x: nat, n: nat, m: nat)
    requires n <= m
    ensures Bits(v + x * Pow2(m), n) == Bits(v, n)
  {
    if n > 0 {
      var y := x * Pow2(m - 1);
      assert x * Pow2(m) == 2 * y;
      assert (v + 2 * y) / 2 == v / 2 + y && (v + 2 * y) % 2 == v % 2;
      HighBitsInvisible(v / 2, x, n - 1, m - 1);
    }
  }

  lemma {:induction false} Powers()
    ensures Pow2(5) == 32 && Pow2(8) == 256 && Pow2(24) == 0x100_0000 && Pow2(27) == 0x800_0000
  {
    assert Pow2(4) == 16 && Pow2(8) == 256 && Pow2(12) == 4096 && Pow2(16) == 0x1_0000 && Pow2(20) == 0x10_0000;
  }

  lemma {:induction false} ShrTakesQuotient(w: nat, b: nat, k: nat)
    requires b < Pow2(k)
    ensures Shr(w * Pow2(k) + b, k) == w
  {
    if k > 0 {
      var y := w * Pow2(k - 1);
      assert w * Pow2(k) == 2 * y;
      assert (2 * y + b) / 2 == y + b / 2;
      ShrTakesQuotient(w, b / 2, k - 1);
    }
  }

  /** Shifting in `k` bits appends them. */
  lemma {:induction false} PushBits(w: nat, n: nat, b: nat, k: nat)
    requires b < Pow2(k)
    ensures Bits(b + w * Pow2(k), n + k) == Bits(w, n) + Bits(b, k)
  {
    BitsSplit(b + w * Pow2(k), n, k);
    ShrTakesQuotient(w, b, k);
    HighBitsInvisible(b, w, k, k);
  }

  /** `(buffer << 8) | byte` on u32: what was waiting, then the byte, for any buffer contents. */
  lemma {:induction false} PushByte(buffer: nat, n: nat, byte: Byte)
    requires n <= 24
    ensures buffer * 256 % U32 + byte < U32
    ensures Bits(buffer * 256 % U32 + byte, n + 8) == Bits(buffer, n) + Bits(byte, 8)
  {
    Powers();
    var q, w := buffer / 0x100_0000, buffer % 0x100_0000;
    assert buffer * 256 % U32 == w * 256;
    PushBits(w, n, byte, 8);
    HighBitsInvisible(w, q, n, 24);
  }

  /** `(buffer << 5) | value` on u32. */
  lemma {:induction false} PushQuintet(buffer: nat, n: nat, value: Quintet)
    requires n <= 27
    ensures buffer * 32 % U32 + value < U32
    ensures Bits(buffer * 32 % U32 + value, n + 5) == Bits(buffer, n) + Bits(value, 5)
  {
    Powers();
    var q, w := buffer / 0x800_0000, buffer % 0x800_0000;
    assert buffer * 32 % U32 == w * 32;
    PushBits(w, n, value, 5);
    HighBitsInvisible(w, q, n, 27);
  }

  /** `(buffer >> n) & mask`, with a mask of `k` bits, takes the `k` bits in front of the low `n`. */
  lemma {:induction false} PopFront(buffer: nat, n: nat, k: nat, q: nat, r: nat)
    requires Shr(buffer, n) == r + q * Pow2(k)
    ensures Bits(buffer, n + k) == Bits(r, k) + Bits(buffer, n)
  {
    BitsSplit(buffer, k, n);
    HighBitsInvisible(r, q, k, k);
  }

  /** Masking with `0x1f` keeps the low five bits, wrapped to u32 or not. */
  lemma {:induction false} LowQuintet(y: nat)
    ensures Bits(y % U32 % 32, 5) == Bits(y, 5)
  {
    Powers();
    assert y % U32 % 32 == y % 32;
    HighBitsInvisible(y % 32, y / 32, 5, 5);
  }

  /** `(buffer << z) & 0x1f` with `z = 5 - n`: the low `n` bits, padded with zeros. */
  lemma {:induction false} PadLast(buffer: nat, n: nat)
    requires 0 < n < 5
    ensures Bits(buffer * Pow2(5 - n) % U32 % 32, 5) == Bits(buffer, n) + Zeros(5 - n)
  {
    ShiftedBits(buffer, n, 5 - n);
    LowQuintet(buffer * Pow2(5 - n));
  }

  lemma {:induction false} ShiftedBits(v: nat, n: nat, z: nat)
    ensures Bits(v * Pow2(z), n + z) == Bits(v, n) + Zeros(z)
  {
    if z > 0 {
      var y := v * Pow2(z - 1);
      assert v * Pow2(z) == 2 * y;
      ShiftedBits(v, n, z - 1);
      assert Zeros(z) == Zeros(z - 1) + [0];
    }
  }

  // ---- The alphabet of RFC 4648, table 3 ----

  function Symbol(q: Quintet): char {
    if q < 26 then ('A' as int + q) as char else ('2' as int + q - 26) as char
  }

  lemma SymbolsInOrder(q: Quintet)
    ensures Symbol(q) == "ABCDEFGHIJKLMNOPQRSTUVWXYZ234567"[q]
  {
  }

  /** The position of `c` in the alphabet. */
  function Position(c: char): (q: Option<Quintet>)
    ensures q.Some? ==> Symbol(q.value) == c
    ensures q.None? ==> forall v: Quintet :: Symbol(v) != c
  {
    if 'A' <= c <= 'Z' then Some(c as int - 'A' as int)
    else if '2' <= c <= '7' then Some(c as int - '2' as int + 26)
    else None
  }

  function Upper(c: char): char {
    if 'a' <= c <= 'z' then (c as int - 'a' as int + 'A' as int) as char else c
  }

  ghost predicate Spells(text: string, qs: seq<Quintet>) {
    |text| == |qs| && forall i :: 0 <= i < |text| ==> text[i] == Symbol(qs[i])
  }

  // ---- Specifications ----

  /** `text` spells the input bits, padded with fewer than five zero bits. */
  ghost predicate IsEncoding(data: seq<Byte>, text: string) {
    exists qs :: Spells(text, qs) && EncodesAs(data, qs)
  }

  ghost predicate EncodesAs(data: seq<Byte>, qs: seq<Quintet>) {
    var pad := 5 * |qs| - 8 * |data|;
    0 <= pad < 5 && QuintetBits(qs) == ByteBits(data) + Zeros(pad)
  }

  /** `data` is the whole bytes in front of the bits spelled by `qs`. */
  ghost predicate DecodesAs(qs: seq<Quintet>, data: seq<Byte>) {
    var left := 5 * |qs| - 8 * |data|;
    0 <= left < 8 && ByteBits(data) == QuintetBits(qs)[..8 * |data|]
  }

  // ---- The loops ----

  /** Lines 520-538. */
  method Encode(data: seq<Byte>) returns (output: string)
    ensures IsEncoding(data, output)
    ensures |output| == (8 * |data| + 4) / 5
  {
    output := "";
    ghost var qs: seq<Quintet> := [];
    var buffer: nat, bits: nat := 0, 0;
    for i := 0 to |data|
      invariant buffer < U32 && bits < 5
      invariant Spells(output, qs)
      invariant QuintetBits(qs) + Bits(buffer, bits) == ByteBits(data[..i])
    {
      assert data[..i + 1] == data[..i] + [data[i]];
      output, buffer, bits, qs := TakeByte(data[..i], data[i], output, qs, buffer, bits);
    }
    assert data[..|data|] == data;
    output := Flush(data, output, qs, buffer, bits);
  }

  /** Lines 533-536: the last quintet, padded with zero bits. */
  method Flush(ghost data: seq<Byte>, output: string, ghost qs: seq<Quintet>, buffer: nat, bits: nat) returns (output': string)
    requires buffer < U32 && bits < 5 && Spells(output, qs)
    requires QuintetBits(qs) + Bits(buffer, bits) == ByteBits(data)
    ensures IsEncoding(data, output')
    ensures |output'| == (8 * |data| + 4) / 5
  {
    if bits > 0 {
      var index: Quintet := buffer * Pow2(5 - bits) % U32 % 32;
      PadOut(qs, buffer, bits, index);
      output' := output + [Symbol(index)];
      assert Spells(output', qs + [index]) && EncodesAs(data, qs + [index]);
    } else {
      output' := output;
      assert QuintetBits(qs) == ByteBits(data) + Zeros(0);
      assert EncodesAs(data, qs);
    }
  }

  /** Lines 524-532: one byte into the buffer, whole quintets out of it. */
  method TakeByte(ghost data: seq<Byte>, byte: Byte, output: string, ghost qs: seq<Quintet>, buffer: nat, bits: nat)
    returns (output': string, buffer': nat, bits': nat, ghost qs': seq<Quintet>)
    requires buffer < U32 && bits < 5 && Spells(output, qs)
    requires QuintetBits(qs) + Bits(buffer, bits) == ByteBits(data)
    ensures buffer' < U32 && bits' < 5 && Spells(output', qs')
    ensures QuintetBits(qs') + Bits(buffer', bits') == ByteBits(data + [byte])
  {
    AppendByte(data, byte, qs, buffer, bits);
    buffer' := buffer * 256 % U32 + byte;
    output', bits', qs' := Drain(output, qs, buffer', bits + 8);
  }

  /** Lines 527-531: five bits at a time leave the front of the buffer. */
  method Drain(output: string, ghost qs: seq<Quintet>, buffer: nat, bits: nat)
    returns (output': string, bits': nat, ghost qs': seq<Quintet>)
    requires buffer < U32 && bits <= 12 && Spells(output, qs)
    ensures bits' < 5 && Spells(output', qs')
    ensures QuintetBits(qs') + Bits(buffer, bits') == QuintetBits(qs) + Bits(buffer, bits)
  {
    output', bits', qs' := output, bits, qs;
    while bits' >= 5
      invariant Spells(output', qs')
      invariant QuintetBits(qs') + Bits(buffer, bits') == QuintetBits(qs) + Bits(buffer, bits)
    {
      bits' := bits' - 5;
      var index: Quintet := Shr(buffer, bits') % 32;
      PushOut(qs', buffer, bits', index);
      output' := output' + [Symbol(index)];
      qs' := qs' + [index];
    }
  }

  lemma {:induction false} Assoc(a: seq<int>, b: seq<int>, c: seq<int>)
    ensures a + (b + c) == a + b + c
  {
  }

  lemma {:induction false} ByteBitsSnoc(data: seq<Byte>, b: Byte)
    ensures ByteBits(data + [b]) == ByteBits(data) + Bits(b, 8)
  {
    assert (data + [b])[..|data|] == data;
  }

  lemma {:induction false} QuintetBitsSnoc(qs: seq<Quintet>, q: Quintet)
    ensures QuintetBits(qs + [q]) == QuintetBits(qs) + Bits(q, 5)
  {
    assert (qs + [q])[..|qs|] == qs;
  }

  lemma {:induction false} AppendByte(data: seq<Byte>, b: Byte, qs: seq<Quintet>, buffer: nat, n: nat)
    requires n < 5 && QuintetBits(qs) + Bits(buffer, n) == ByteBits(data)
    ensures buffer * 256 % U32 + b < U32
    ensures QuintetBits(qs) + Bits(buffer * 256 % U32 + b, n + 8) == ByteBits(data + [b])
  {
    PushByte(buffer, n, b);
    ByteBitsSnoc(data, b);
    Assoc(QuintetBits(qs), Bits(buffer, n), Bits(b, 8));
  }

  lemma {:induction false} PadOut(qs: seq<Quintet>, buffer: nat, n: nat, q: Quintet)
    requires 0 < n < 5 && q == buffer * Pow2(5 - n) % U32 % 32
    ensures QuintetBits(qs + [q]) == QuintetBits(qs) + Bits(buffer, n) + Zeros(5 - n)
  {
    PadLast(buffer, n);
    QuintetBitsSnoc(qs, q);
    Assoc(QuintetBits(qs), Bits(buffer, n), Zeros(5 - n));
  }

  /** Moving five bits from the buffer to the output moves no bit past another. */
  lemma {:induction false} PushOut(qs: seq<Quintet>, buffer: nat, n: nat, q: Quintet)
    requires q == Shr(buffer, n) % 32
    ensures QuintetBits(qs + [q]) + Bits(buffer, n) == QuintetBits(qs) + Bits(buffer, n + 5)
  {
    Powers();
    var x := Shr(buffer, n);
    PopFront(buffer, n, 5, x / 32, q);
    QuintetBitsSnoc(qs, q);
    Assoc(QuintetBits(qs), Bits(q, 5), Bits(buffer, n));
  }

  lemma {:induction false} PushOutByte(data: seq<Byte>, buffer: nat, n: nat, b: Byte)
    requires b == Shr(buffer, n) % 256
    ensures ByteBits(data + [b]) + Bits(buffer, n) == ByteBits(data) + Bits(buffer, n + 8)
  {
    Powers();
    var x := Shr(buffer, n);
    PopFront(buffer, n, 8, x / 256, b);
    ByteBitsSnoc(data, b);
    Assoc(ByteBits(data), Bits(b, 8), Bits(buffer, n));
  }

  lemma {:induction false} AppendQuintet(bytes: seq<Byte>, qs: seq<Quintet>, buffer: nat, n: nat, q: Quintet)
    requires n < 8 && ByteBits(bytes) + Bits(buffer, n) == QuintetBits(qs)
    ensures buffer * 32 % U32 + q < U32
    ensures ByteBits(bytes) + Bits(buffer * 32 % U32 + q, n + 5) == QuintetBits(qs + [q])
  {
    PushQuintet(buffer, n, q);
    QuintetBitsSnoc(qs, q);
    Assoc(ByteBits(bytes), Bits(buffer, n), Bits(q, 5));
  }

  /** The positions of the characters, when every one has a position. */
  ghost predicate Reads(input: string, qs: seq<Quintet>) {
    |input| == |qs| && forall i :: 0 <= i < |input| ==> Position(Upper(input[i])) == Some(qs[i])
  }

  /** Lines 548-553: one quintet into the buffer, a whole byte out of it when there is one. */
  method TakeQuintet(value: Quintet, bytes: seq<Byte>, ghost qs: seq<Quintet>, buffer: nat, bits: nat)
    returns (bytes': seq<Byte>, buffer': nat, bits': nat)
    requires buffer < U32 && bits < 8 && ByteBits(bytes) + Bits(buffer, bits) == QuintetBits(qs)
    ensures buffer' < U32 && bits' < 8 && ByteBits(bytes') + Bits(buffer', bits') == QuintetBits(qs + [value])
  {
    AppendQuintet(bytes, qs, buffer, bits, value);
    bytes', buffer', bits' := bytes, buffer * 32 % U32 + value, bits + 5;
    if bits' >= 8 {
      bits' := bits' - 8;
      var b: Byte := Shr(buffer', bits') % 256;
      PushOutByte(bytes, buffer', bits', b);
      bytes' := bytes + [b];
    }
  }

  /** Lines 541-556: refused exactly when some character, upper-cased, is outside the alphabet. */
  method Decode(input: string) returns (output: Option<seq<Byte>>, ghost qs: seq<Quintet>)
    ensures output.None? <==> exists i :: 0 <= i < |input| && Position(Upper(input[i])).None?
    ensures output.Some? ==> Reads(input, qs) && DecodesAs(qs, output.value)
  {
    qs := [];
    var buffer: nat, bits: nat := 0, 0;
    var bytes: seq<Byte> := [];
    for i := 0 to |input|
      invariant buffer < U32 && bits < 8
      invariant |qs| == i && forall k :: 0 <= k < i ==> Position(Upper(input[k])) == Some(qs[k])
      invariant ByteBits(bytes) + Bits(buffer, bits) == QuintetBits(qs)
    {
      var value := Position(Upper(input[i]));
      if value.None? {
        return None, qs;
      }
      bytes, buffer, bits := TakeQuintet(value.value, bytes, qs, buffer, bits);
      qs := qs + [value.value];
    }
    output := Some(bytes);
    WholeBytes(bytes, qs, Bits(buffer, bits));
  }

  lemma {:induction false} WholeBytes(bytes: seq<Byte>, qs: seq<Quintet>, left: seq<int>)
    requires |left| < 8 && ByteBits(bytes) + left == QuintetBits(qs)
    ensures DecodesAs(qs, bytes)
  {
    assert QuintetBits(qs)[..8 * |bytes|] == ByteBits(bytes);
  }

  // ---- Round trip ----

  lemma {:induction false} BitsInjective(v: nat, w: nat, n: nat)
    requires v < Pow2(n) && w < Pow2(n) && Bits(v, n) == Bits(w, n)
    ensures v == w
  {
    if n > 0 {
      var a, b := Bits(v, n), Bits(w, n);
      assert a[..n - 1] == Bits(v / 2, n - 1) && b[..n - 1] == Bits(w / 2, n - 1);
      assert a[n - 1] == v % 2 && b[n - 1] == w % 2;
      BitsInjective(v / 2, w / 2, n - 1);
    }
  }

  lemma BytesInjective(a: Byte, b: Byte)
    requires Bits(a, 8) == Bits(b, 8)
    ensures a == b
  {
    Powers();
    BitsInjective(a, b, 8);
  }

  lemma LastByte(a: seq<Byte>)
    requires a != []
    ensures var n := |a| - 1; ByteBits(a)[..8 * n] == ByteBits(a[..n]) && ByteBits(a)[8 * n..] == Bits(a[n], 8)
  {
  }

  lemma {:induction false} ByteBitsInjective(a: seq<Byte>, b: seq<Byte>)
    requires |a| == |b| && ByteBits(a) == ByteBits(b)
    ensures a == b
  {
    if a != [] {
      var n := |a| - 1;
      LastByte(a);
      LastByte(b);
      BytesInjective(a[n], b[n]);
      ByteBitsInjective(a[..n], b[..n]);
      assert a == a[..n] + [a[n]] && b == b[..n] + [b[n]];
    }
  }

  lemma {:induction false} ReadsSpelled(text: string, qs: seq<Quintet>)
    requires Spells(text, qs)
    ensures Reads(text, qs)
  {
    forall i | 0 <= i < |text| ensures Position(Upper(text[i])) == Some(qs[i]) {
      assert Upper(Symbol(qs[i])) == Symbol(qs[i]);
    }
  }

  /** Decoding an encoding, in whatever letter case it comes back, gives the original bytes. */
  lemma {:induction false} RoundTrip(data: seq<Byte>, text: string, typed: string, qs: seq<Quintet>, back: seq<Byte>)
    requires IsEncoding(data, text)
    requires |typed| == |text| && forall i :: 0 <= i < |text| ==> Upper(typed[i]) == text[i]
    requires Reads(typed, qs) && DecodesAs(qs, back)
    ensures back == data
  {
    var sent :| Spells(text, sent) && EncodesAs(data, sent);
    ReadsSpelled(text, sent);
    assert sent == qs;
    assert |back| == |data|;
    assert QuintetBits(qs)[..8 * |data|] == ByteBits(data);
    ByteBitsInjective(back, data);
  }

  /** The loops themselves, composed: never refused, nothing lost. */
  method EncodeDecode(data: seq<Byte>) returns (back: Option<seq<Byte>>)
    ensures back == Some(data)
  {
    var text := Encode(data);
    ghost var sent :| Spells(text, sent) && EncodesAs(data, sent);
    ReadsSpelled(text, sent);
    ghost var qs;
    back, qs := Decode(text);
    RoundTrip(data, text, text, qs, back.value);
  }
}
