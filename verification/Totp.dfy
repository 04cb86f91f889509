/** One-time codes of crates/auth-local/src/lib.rs: HOTP truncation (section 5.3 of RFC 4226), the
    time window, and the shapes that keep one-time codes and backup codes apart. */
module Totp {
  import opened Base32
  import opened Numerals
  import opened Options

  type Digest = d: seq<Byte> | |d| == 20 witness seq(20, _ => 0)

  /** HMAC-SHA1 of a counter under a secret; None when the key is rejected. */
  type Hmac = (seq<Byte>, nat) -> Option<Digest>

  const STEP_SECONDS := 30
  const CODES := 1_000_000

  // ---- Dynamic truncation ----

  /** Lines 487-492. */
  function Truncate(digest: Digest): (code: nat)
    ensures code < CODES
  {
    var offset := digest[19] % 16;
    var b0: int, b1: int, b2: int, b3: int := digest[offset], digest[offset + 1], digest[offset + 2], digest[offset + 3];
    (b0 % 128 * 0x100_0000 + b1 * 0x1_0000 + b2 * 0x100 + b3) % CODES
  }

  function BigEndian(bytes: seq<Byte>): nat {
    if bytes == [] then 0 else 256 * BigEndian(bytes[..|bytes| - 1]) + bytes[|bytes| - 1]
  }

  /** Section 5.3 of RFC 4226: four bytes from the offset in the last nibble, read big-endian, top bit
      masked; the offset never leads outside the digest. */
  lemma {:induction false} TruncateIsDynamic(digest: Digest)
    ensures digest[19] % 16 + 4 <= |digest|
    ensures var o := digest[19] % 16;
            Truncate(digest) == BigEndian(digest[o..o + 4]) % 0x8000_0000 % CODES
  {
    var o := digest[19] % 16;
    var w := digest[o..o + 4];
    FourBytes(w);
    assert w[0] == digest[o] && w[1] == digest[o + 1] && w[2] == digest[o + 2] && w[3] == digest[o + 3];
    MaskTopBit(w[0], w[1] as int * 0x1_0000 + w[2] as int * 0x100 + w[3] as int);
  }

  lemma {:induction false} FourBytes(w: seq<Byte>)
    requires |w| == 4
    ensures BigEndian(w) == w[0] as int * 0x100_0000 + (w[1] as int * 0x1_0000 + w[2] as int * 0x100 + w[3] as int)
  {
    var b0: int, b1: int, b2: int := w[0], w[1], w[2];
    var a, b, c := w[..1], w[..2], w[..3];
    assert a[..0] == [];
    assert BigEndian(a) == b0;
    assert b[..1] == a;
    assert BigEndian(b) == 256 * b0 + b1;
    assert c[..2] == b;
    assert BigEndian(c) == 256 * (256 * b0 + b1) + b2;
  }

  lemma MaskTopBit(b0: int, low: int)
    requires 0 <= b0 < 256 && 0 <= low < 0x100_0000
    ensures (b0 * 0x100_0000 + low) % 0x8000_0000 == b0 % 128 * 0x100_0000 + low
  {
  }

  // ---- Code texts ----

  /** `n` in decimal, zero-padded to `width` places. */
  function Padded(n: nat, width: nat): (s: string)
    ensures |s| == width
    ensures forall i :: 0 <= i < width ==> IsDigit(s[i])
  {
    if width == 0 then "" else Padded(n / 10, width - 1) + [('0' as int + n % 10) as char]
  }

  function CodeText(code: nat): (s: string)
    ensures |s| == 6 && forall i :: 0 <= i < 6 ==> IsDigit(s[i])
  {
    Padded(code, 6)
  }

  function Power10(k: nat): nat { if k == 0 then 1 else 10 * Power10(k - 1) }

  lemma {:induction false} PaddedInjective(m: nat, n: nat, width: nat)
    requires m < Power10(width) && n < Power10(width) && Padded(m, width) == Padded(n, width)
    ensures m == n
  {
    if width > 0 {
      var a, b := Padded(m, width), Padded(n, width);
      assert a[..width - 1] == Padded(m / 10, width - 1) && b[..width - 1] == Padded(n / 10, width - 1);
      assert a[width - 1] as int - '0' as int == m % 10 && b[width - 1] as int - '0' as int == n % 10;
      PaddedInjective(m / 10, n / 10, width - 1);
    }
  }

  /** Six digits lose nothing: different codes are written differently. */
  lemma CodeTextInjective(m: nat, n: nat)
    requires m < CODES && n < CODES && CodeText(m) == CodeText(n)
    ensures m == n
  {
    assert Power10(3) == 1000 && Power10(6) == CODES;
    PaddedInjective(m, n, 6);
  }

  /** The text of a number spells that number. */
  lemma {:induction false} PaddedSpells(n: nat, width: nat)
    requires n < Power10(width)
    ensures Decimal(Padded(n, width)) == n
  {
    if width > 0 {
      var s := Padded(n, width);
      assert s[..width - 1] == Padded(n / 10, width - 1);
      PaddedSpells(n / 10, width - 1);
    }
  }

  /** And it is the only text of its width that does. */
  lemma {:induction false} PaddedOfSpelled(s: string)
    requires AllDigits(s)
    ensures 0 <= Decimal(s) < Power10(|s|) && Padded(Decimal(s), |s|) == s
  {
    if s != "" {
      var n := |s| - 1;
      PaddedOfSpelled(s[..n]);
      assert s == s[..n] + [s[n]];
      assert Decimal(s) / 10 == Decimal(s[..n]) && Decimal(s) % 10 == s[n] as int - '0' as int;
    }
  }

  /** A code text is the six digits that spell the code. */
  lemma CodeTextIff(code: nat, s: string)
    requires code < 1_000_000
    ensures s == CodeText(code) <==> |s| == 6 && AllDigits(s) && Decimal(s) == code
  {
    assert Power10(3) == 1000 && Power10(6) == 1_000_000;
    PaddedSpells(code, 6);
    if |s| == 6 && AllDigits(s) { PaddedOfSpelled(s); }
  }

  /** Lines 571-573. */
  function HexEncode(bytes: seq<Byte>): (s: string)
    ensures |s| == 2 * |bytes|
  {
    if bytes == [] then "" else [HexDigit(bytes[0] / 16), HexDigit(bytes[0] % 16)] + HexEncode(bytes[1..])
  }

  /** Each byte is written as two lower-case hexadecimal digits, the high one first. */
  lemma {:induction false} HexSpells(bytes: seq<Byte>, i: nat)
    requires i < |bytes|
    ensures var s := HexEncode(bytes);
            LowerHexValue(s[2 * i]) < 16 && LowerHexValue(s[2 * i + 1]) < 16
            && 16 * LowerHexValue(s[2 * i]) + LowerHexValue(s[2 * i + 1]) == bytes[i]
  {
    var s := HexEncode(bytes);
    if i > 0 {
      HexSpells(bytes[1..], i - 1);
      assert s[2 * i] == HexEncode(bytes[1..])[2 * (i - 1)] && s[2 * i + 1] == HexEncode(bytes[1..])[2 * (i - 1) + 1];
    }
  }

  /** A backup code: four random bytes in hexadecimal. */
  ghost predicate IsBackupCode(code: string) { |code| == 8 }

  // ---- The time window ----

  function CodeAt(hmac: Hmac, secret: seq<Byte>, step: nat): (code: Option<string>)
    ensures code.Some? ==> |code.value| == 6 && forall i :: 0 <= i < 6 ==> IsDigit(code.value[i])
  {
    match hmac(secret, step)
    case None => None
    case Some(digest) => Some(CodeText(Truncate(digest)))
  }

  /** `code` is the code of the current step or of a neighbour. */
  ghost predicate Accepts(hmac: Hmac, secret: seq<Byte>, now: nat, code: string) {
    exists step: nat :: now / STEP_SECONDS - 1 <= step <= now / STEP_SECONDS + 1 && CodeAt(hmac, secret, step) == Some(code)
  }

  /** `code` is six digits that spell what section 5.3 of RFC 4226 makes of the digest. */
  ghost predicate SpellsCodeOf(digest: Digest, code: string) {
    var o := digest[19] % 16;
    |code| == 6 && AllDigits(code) && Decimal(code) == BigEndian(digest[o..o + 4]) % 0x8000_0000 % 1_000_000
  }

  /** Accepted are exactly the codes of the thirty-second steps from one before to one after the current
      one, as section 4 of RFC 6238 counts them from the epoch. */
  lemma AcceptsIff(hmac: Hmac, secret: seq<Byte>, now: nat, code: string)
    ensures Accepts(hmac, secret, now, code)
            <==> exists step: nat :: 30 * (step - 1) <= now < 30 * (step + 2)
                                     && hmac(secret, step).Some? && SpellsCodeOf(hmac(secret, step).value, code)
  {
    forall step: nat
      ensures CodeAt(hmac, secret, step) == Some(code) <==> hmac(secret, step).Some? && SpellsCodeOf(hmac(secret, step).value, code)
      ensures now / STEP_SECONDS - 1 <= step <= now / STEP_SECONDS + 1 <==> 30 * (step - 1) <= now < 30 * (step + 2)
    {
      if hmac(secret, step).Some? {
        var digest := hmac(secret, step).value;
        TruncateIsDynamic(digest);
        CodeTextIff(Truncate(digest), code);
      }
    }
  }

  /** Lines 501-513. */
  method VerifyAt(hmac: Hmac, secret: seq<Byte>, now: nat, code: string) returns (ok: bool)
    ensures ok <==> Accepts(hmac, secret, now, code)
  {
    var counter := now / STEP_SECONDS;
    for delta := -1 to 2
      invariant forall step: nat :: counter - 1 <= step < counter + delta ==> CodeAt(hmac, secret, step) != Some(code)
    {
      var step := counter + delta;
      if step >= 0 && CodeAt(hmac, secret, step) == Some(code) {
        return true;
      }
    }
    return false;
  }

  /** A backup code is never mistaken for a one-time code, whatever the secret and the time. */
  lemma BackupCodeNeverAccepted(hmac: Hmac, secret: seq<Byte>, now: nat, code: string)
    requires IsBackupCode(code)
    ensures !Accepts(hmac, secret, now, code)
  {
  }
}
