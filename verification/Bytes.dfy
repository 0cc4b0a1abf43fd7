/** Byte strings, digests, and the encodings that the audit subsystem hashes.

Hash functions are parameters: every result about hashing is stated for an arbitrary function
from byte strings to 32-byte digests. Each of them has collisions, so a binding result that would
need injectivity says which of the strings that were hashed would have to collide. */
module Bytes {
  newtype byte = x: int | 0 <= x < 256
  type Bytes = seq<byte>
  type Digest = d: Bytes | |d| == 32 witness Zeros(32)
  type Hash = Bytes -> Digest

  function Zeros(n: nat): (b: Bytes)
    ensures |b| == n && forall i :: 0 <= i < n ==> b[i] as int == 0
  {
    seq(n, _ => 0)
  }

  const ZERO32: Digest := Zeros(32)

  datatype Option<+T> = None | Some(value: T)

  ghost predicate Collision(h: Hash, x: Bytes, y: Bytes) {
    x != y && h(x) == h(y)
  }

  // ---------- order on byte strings ----------

  /** From position `i` on, `a` is lexicographically smaller than `b`. */
  predicate LexLessFrom(a: Bytes, b: Bytes, i: nat)
    decreases |b| - i
  {
    i < |b| && (i >= |a| || a[i] < b[i] || (a[i] == b[i] && LexLessFrom(a, b, i + 1)))
  }

  /** The lexicographic order of Python `bytes`; a proper prefix is smaller. */
  predicate LexLess(a: Bytes, b: Bytes) {
    LexLessFrom(a, b, 0)
  }

  lemma {:induction false} LexTrichotomyFrom(a: Bytes, b: Bytes, i: nat)
    ensures LexLessFrom(a, b, i) || LexLessFrom(b, a, i) || (i >= |a| && i >= |b|) || (|a| == |b| && a[i..] == b[i..])
    ensures !(LexLessFrom(a, b, i) && LexLessFrom(b, a, i))
    decreases |a| + |b| - i
  {
    if i < |a| && i < |b| {
      LexTrichotomyFrom(a, b, i + 1);
    }
  }

  lemma {:induction false} LexTrichotomy(a: Bytes, b: Bytes)
    ensures LexLess(a, b) || LexLess(b, a) || a == b
    ensures !(LexLess(a, b) && LexLess(b, a))
    ensures !LexLess(a, a)
  {
    LexTrichotomyFrom(a, b, 0);
    LexTrichotomyFrom(a, a, 0);
  }

  /** Position `i` decides that `a` is smaller: up to there they agree, and `a` ends or has the smaller byte. */
  ghost predicate DecidesAt(a: Bytes, b: Bytes, i: nat) {
    i <= |a| && i < |b| && (forall j :: 0 <= j < i ==> a[j] == b[j]) && (i == |a| || a[i] as int < b[i] as int)
  }

  lemma {:induction false} LexLessFromIff(a: Bytes, b: Bytes, i: nat)
    requires i <= |a| && i <= |b| && forall j :: 0 <= j < i ==> a[j] == b[j]
    ensures LexLessFrom(a, b, i) <==> exists k :: i <= k && DecidesAt(a, b, k)
    decreases |b| - i
  {
    if i < |a| && i < |b| && a[i] == b[i] {
      LexLessFromIff(a, b, i + 1);
      assert !DecidesAt(a, b, i);
    } else if LexLessFrom(a, b, i) {
      assert DecidesAt(a, b, i);
    }
  }

  /** The order is the one of the bytes: the first difference decides, and a proper prefix is smaller. */
  lemma {:induction false} LexLessIff(a: Bytes, b: Bytes)
    ensures LexLess(a, b) <==> exists k: nat :: DecidesAt(a, b, k)
  {
    LexLessFromIff(a, b, 0);
  }

  // ---------- fixed-width big-endian integers ----------

  function Pow256(w: nat): (p: nat)
    ensures p > 0
  {
    if w == 0 then 1 else 256 * Pow256(w - 1)
  }

  /** `n.to_bytes(w, "big")`. */
  function BigEndian(n: nat, w: nat): (b: Bytes)
    requires n < Pow256(w)
    ensures |b| == w
  {
    if w == 0 then [] else BigEndian(n / 256, w - 1) + [(n % 256) as byte]
  }

  lemma {:induction false} BigEndianInjective(m: nat, n: nat, w: nat)
    requires m < Pow256(w) && n < Pow256(w)
    requires BigEndian(m, w) == BigEndian(n, w)
    ensures m == n
  {
    if w > 0 {
      var p, q := BigEndian(m / 256, w - 1), BigEndian(n / 256, w - 1);
      assert p == (p + [(m % 256) as byte])[..w - 1];
      assert q == (q + [(n % 256) as byte])[..w - 1];
      assert (p + [(m % 256) as byte])[w - 1] == (q + [(n % 256) as byte])[w - 1];
      BigEndianInjective(m / 256, n / 256, w - 1);
    }
  }

  /** The number that bytes spell, most significant first. */
  function BigEndianValue(b: Bytes): nat {
    if b == [] then 0 else (b[0] as nat) * Pow256(|b| - 1) + BigEndianValue(b[1..])
  }

  lemma {:induction false} BigEndianValueAppend(b: Bytes, last: byte)
    ensures BigEndianValue(b + [last]) == 256 * BigEndianValue(b) + last as nat
  {
    if b == [] {
      assert [last][1..] == [];
    } else {
      assert (b + [last])[1..] == b[1..] + [last];
      BigEndianValueAppend(b[1..], last);
      assert Pow256(|b|) == 256 * Pow256(|b| - 1);
      assert (b[0] as nat) * (256 * Pow256(|b| - 1)) == 256 * ((b[0] as nat) * Pow256(|b| - 1));
    }
  }

  /** `to_bytes` writes the number, most significant byte first. */
  lemma {:induction false} BigEndianSpells(n: nat, w: nat)
    requires n < Pow256(w)
    ensures BigEndianValue(BigEndian(n, w)) == n
  {
    if w > 0 {
      BigEndianSpells(n / 256, w - 1);
      BigEndianValueAppend(BigEndian(n / 256, w - 1), (n % 256) as byte);
    }
  }

  // ---------- hexadecimal ----------

  function HexDigit(d: nat): (c: char)
    requires d < 16
  {
    if d < 10 then '0' + d as char else 'a' + (d - 10) as char
  }

  function HexValue(c: char): (v: Option<nat>)
    ensures v.Some? ==> v.value < 16
  {
    if '0' <= c <= '9' then Some((c - '0') as nat)
    else if 'a' <= c <= 'f' then Some((c - 'a') as nat + 10)
    else if 'A' <= c <= 'F' then Some((c - 'A') as nat + 10)
    else None
  }

  /** `bytes.hex`. */
  function Hex(b: Bytes): (s: string) {
    if b == [] then "" else [HexDigit(b[0] as nat / 16), HexDigit(b[0] as nat % 16)] + Hex(b[1..])
  }

  predicate IsSpace(c: char) {
    c in [' ', '\t', '\n', '\r', 11 as char, 12 as char]
  }

  /** `bytes.fromhex`: blanks between byte pairs are skipped, anything else malformed is rejected. */
  function FromHex(s: string): (r: Option<Bytes>) {
    if s == [] then Some([])
    else if IsSpace(s[0]) then FromHex(s[1..])
    else if |s| == 1 then None
    else
      var hi, lo, rest := HexValue(s[0]), HexValue(s[1]), FromHex(s[2..]);
      if hi.Some? && lo.Some? && rest.Some?
      then Some([(16 * hi.value + lo.value) as byte] + rest.value)
      else None
  }

  lemma {:induction false} HexDigitRoundTrip(d: nat)
    requires d < 16
    ensures HexValue(HexDigit(d)) == Some(d)
    ensures !IsSpace(HexDigit(d))
  {
    if d >= 10 {
      assert HexDigit(d) as int == 87 + d;
    } else {
      assert HexDigit(d) as int == 48 + d;
    }
  }

  lemma {:induction false} HexRoundTrip(b: Bytes)
    ensures FromHex(Hex(b)) == Some(b)
  {
    if b != [] {
      var hi, lo := b[0] as nat / 16, b[0] as nat % 16;
      HexDigitRoundTrip(hi);
      HexDigitRoundTrip(lo);
      HexRoundTrip(b[1..]);
      assert Hex(b)[2..] == Hex(b[1..]);
      assert b == [b[0]] + b[1..];
    }
  }

  // ---------- decimal numerals ----------

  /** `str(n)`. */
  function Decimal(n: nat): (s: string)
    ensures |s| > 0
    ensures forall i :: 0 <= i < |s| ==> '0' <= s[i] <= '9'
  {
    var digit := ['0' + (n % 10) as char];
    if n < 10 then digit else Decimal(n / 10) + digit
  }

  lemma {:induction false} DecimalInjective(m: nat, n: nat)
    requires Decimal(m) == Decimal(n)
    ensures m == n
  {
    var s, t := Decimal(m), Decimal(n);
    assert s[|s| - 1] == '0' + (m % 10) as char && t[|t| - 1] == '0' + (n % 10) as char;
    if m >= 10 && n >= 10 {
      assert Decimal(m / 10) == s[..|s| - 1] == t[..|t| - 1] == Decimal(n / 10);
      DecimalInjective(m / 10, n / 10);
    }
  }
}
