/** Byte strings: their lexicographic order, and the integer encodings the repository writes into them. */
module Bytes {
  import opened Wrappers

  newtype byte = x: int | 0 <= x < 256

  type Key = seq<byte>
  type Value = seq<byte>

  function Ascii(s: string): seq<byte> {
    seq(|s|, i requires 0 <= i < |s| => (s[i] as int % 256) as byte)
  }

  // ---------- lexicographic order ----------

  predicate Less(a: seq<byte>, b: seq<byte>) {
    if |b| == 0 then false
    else if |a| == 0 then true
    else if a[0] != b[0] then a[0] < b[0]
    else Less(a[1..], b[1..])
  }

  lemma {:induction false} LessIrreflexive(a: seq<byte>)
    ensures !Less(a, a)
  {
    if |a| > 0 { LessIrreflexive(a[1..]); }
  }

  lemma {:induction false} LessTransitive(a: seq<byte>, b: seq<byte>, c: seq<byte>)
    requires Less(a, b) && Less(b, c)
    ensures Less(a, c)
  {
    if |a| > 0 && a[0] == b[0] == c[0] { LessTransitive(a[1..], b[1..], c[1..]); }
  }

  lemma {:induction false} LessTotal(a: seq<byte>, b: seq<byte>)
    ensures a == b || Less(a, b) || Less(b, a)
  {
    if |a| > 0 && |b| > 0 && a[0] == b[0] {
      LessTotal(a[1..], b[1..]);
      assert a == [a[0]] + a[1..] && b == [b[0]] + b[1..];
    }
  }

  lemma PrefixUnfold(p: seq<byte>, s: seq<byte>)
    requires |p| > 0
    ensures p <= s <==> |s| > 0 && p[0] == s[0] && p[1..] <= s[1..]
  {
    if |s| > 0 && p[0] == s[0] && p[1..] <= s[1..] {
      assert p == [p[0]] + p[1..] && s == [s[0]] + s[1..];
    }
    if p <= s {
      assert p[1..] == s[1..][..|p| - 1];
    }
  }

  /** A key that starts with `p` is never before `p`: seeking to `p` skips no match. */
  lemma {:induction false} PrefixNotBefore(p: seq<byte>, k: seq<byte>)
    requires p <= k
    ensures !Less(k, p)
  {
    if |p| > 0 {
      PrefixUnfold(p, k);
      PrefixNotBefore(p[1..], k[1..]);
    }
  }

  /** Past the first non-match at or after `p` there is no further match: the matches form an interval. */
  lemma {:induction false} PrefixInterval(p: seq<byte>, k: seq<byte>, later: seq<byte>)
    requires !Less(k, p) && !(p <= k) && Less(k, later)
    ensures !(p <= later)
  {
    if |p| > 0 && |k| > 0 && k[0] == p[0] && later[0] == k[0] {
      PrefixUnfold(p, k);
      PrefixUnfold(p, later);
      PrefixInterval(p[1..], k[1..], later[1..]);
    }
  }

  // ---------- fixed-width integers ----------

  function Pow256(w: nat): nat {
    if w == 0 then 1 else 256 * Pow256(w - 1)
  }

  /** `to_le_bytes`, of the low `w` bytes. */
  function LittleEndian(n: nat, w: nat): (s: seq<byte>)
    ensures |s| == w
  {
    if w == 0 then [] else [(n % 256) as byte] + LittleEndian(n / 256, w - 1)
  }

  function FromLittleEndian(s: seq<byte>): nat {
    if |s| == 0 then 0 else s[0] as nat + 256 * FromLittleEndian(s[1..])
  }

  lemma {:induction false} LittleEndianRoundTrip(n: nat, w: nat)
    requires n < Pow256(w)
    ensures FromLittleEndian(LittleEndian(n, w)) == n
  {
    if w > 0 {
      LittleEndianRoundTrip(n / 256, w - 1);
      assert LittleEndian(n, w)[1..] == LittleEndian(n / 256, w - 1);
    }
  }

  /** `to_be_bytes`, of the low `w` bytes. */
  function BigEndian(n: nat, w: nat): (s: seq<byte>)
    ensures |s| == w
  {
    if w == 0 then [] else BigEndian(n / 256, w - 1) + [(n % 256) as byte]
  }

  function FromBigEndian(s: seq<byte>): nat {
    if |s| == 0 then 0 else 256 * FromBigEndian(s[..|s| - 1]) + s[|s| - 1] as nat
  }

  lemma {:induction false} BigEndianRoundTrip(n: nat, w: nat)
    requires n < Pow256(w)
    ensures FromBigEndian(BigEndian(n, w)) == n
  {
    if w > 0 {
      BigEndianRoundTrip(n / 256, w - 1);
      assert BigEndian(n, w)[..w - 1] == BigEndian(n / 256, w - 1);
    }
  }

  lemma {:induction false} BigEndianInverse(s: seq<byte>)
    ensures BigEndian(FromBigEndian(s), |s|) == s
  {
    if |s| > 0 {
      var front, last := s[..|s| - 1], s[|s| - 1];
      BigEndianInverse(front);
      assert FromBigEndian(s) / 256 == FromBigEndian(front) && FromBigEndian(s) % 256 == last as nat;
      assert s == front + [last];
    }
  }

  /** Byte by byte: the first of eight little-endian bytes counts ones, the next 256s, and so on. */
  lemma LittleEndianLayout(s: seq<byte>)
    requires |s| == 8
    ensures FromLittleEndian(s)
            == s[0] as nat + 0x100 * s[1] as nat + 0x1_0000 * s[2] as nat + 0x100_0000 * s[3] as nat
               + 0x1_0000_0000 * s[4] as nat + 0x100_0000_0000 * s[5] as nat
               + 0x1_0000_0000_0000 * s[6] as nat + 0x100_0000_0000_0000 * s[7] as nat
  {
    LittleEndianHalf(s[4..]);
    assert s[1..][1..] == s[2..] && s[2..][1..] == s[3..] && s[3..][1..] == s[4..];
    assert FromLittleEndian(s[3..]) == s[3] as nat + 0x100 * FromLittleEndian(s[4..]);
    assert FromLittleEndian(s[2..]) == s[2] as nat + 0x100 * FromLittleEndian(s[3..]);
    assert FromLittleEndian(s[1..]) == s[1] as nat + 0x100 * FromLittleEndian(s[2..]);
  }

  lemma LittleEndianHalf(s: seq<byte>)
    requires |s| == 4
    ensures FromLittleEndian(s)
            == s[0] as nat + 0x100 * s[1] as nat + 0x1_0000 * s[2] as nat + 0x100_0000 * s[3] as nat
  {
    assert s[1..][1..] == s[2..] && s[2..][1..] == s[3..] && s[3..][1..] == [];
    assert FromLittleEndian(s[3..]) == s[3] as nat;
    assert FromLittleEndian(s[2..]) == s[2] as nat + 0x100 * s[3] as nat;
    assert FromLittleEndian(s[1..]) == s[1] as nat + 0x100 * FromLittleEndian(s[2..]);
  }

  /** The first of four big-endian bytes is the most significant. */
  lemma BigEndianLayout(s: seq<byte>)
    requires |s| == 4
    ensures FromBigEndian(s)
            == 0x100_0000 * s[0] as nat + 0x1_0000 * s[1] as nat + 0x100 * s[2] as nat + s[3] as nat
  {
    assert s[..3][..2] == s[..2] && s[..2][..1] == s[..1] && s[..1][..0] == [];
    assert FromBigEndian(s[..1]) == s[0] as nat;
    assert FromBigEndian(s[..2]) == 0x100 * s[0] as nat + s[1] as nat;
    assert FromBigEndian(s[..3]) == 0x100 * FromBigEndian(s[..2]) + s[2] as nat;
  }

  // ---------- decimal ----------

  /** The decimal digits of `n`, as `format!("{}", n)` prints them. */
  function Decimal(n: nat): (s: seq<byte>)
    ensures |s| > 0
  {
    if n < 10 then [(48 + n) as byte] else Decimal(n / 10) + [(48 + n % 10) as byte]
  }

  function FromDecimal(s: seq<byte>): int {
    if |s| == 0 then 0 else 10 * FromDecimal(s[..|s| - 1]) + (s[|s| - 1] as int - 48)
  }

  lemma {:induction false} DecimalRoundTrip(n: nat)
    ensures FromDecimal(Decimal(n)) == n
  {
    if n < 10 {
      assert Decimal(n)[..0] == [];
    } else {
      DecimalRoundTrip(n / 10);
      assert Decimal(n)[..|Decimal(n)| - 1] == Decimal(n / 10);
    }
  }

  /** What is printed are digits, without a leading zero: with the round trip, the number's one decimal form. */
  lemma {:induction false} DecimalDigits(n: nat)
    ensures forall i :: 0 <= i < |Decimal(n)| ==> '0' as int <= Decimal(n)[i] as int <= '9' as int
    ensures Decimal(n)[0] as int == '0' as int ==> n == 0 && |Decimal(n)| == 1
  {
    if n >= 10 { DecimalDigits(n / 10); }
  }

  // ---------- self-delimiting pieces ----------

  /** Base-128 integer, low group first, high bit set on every byte but the last. */
  function Varint(n: nat): (s: seq<byte>)
    ensures |s| > 0
  {
    if n < 128 then [n as byte] else [(128 + n % 128) as byte] + Varint(n / 128)
  }

  function ReadVarint(s: seq<byte>): (r: Option<(nat, seq<byte>)>)
    ensures r.Some? ==> |r.value.1| < |s|
  {
    if |s| == 0 then None
    else if s[0] < 128 then Some((s[0] as nat, s[1..]))
    else match ReadVarint(s[1..])
         case None => None
         case Some((n, rest)) => Some(((s[0] as nat - 128) + 128 * n, rest))
  }

  lemma {:induction false} VarintRoundTrip(n: nat, rest: seq<byte>)
    ensures ReadVarint(Varint(n) + rest) == Some((n, rest))
  {
    var s := Varint(n) + rest;
    if n < 128 {
      assert s[1..] == rest;
    } else {
      VarintRoundTrip(n / 128, rest);
      assert s[1..] == Varint(n / 128) + rest;
    }
  }

  /** A byte string preceded by its length. */
  function Chunk(b: seq<byte>): (s: seq<byte>)
    ensures |s| > |b|
  {
    Varint(|b|) + b
  }

  function ReadChunk(s: seq<byte>): (r: Option<(seq<byte>, seq<byte>)>)
    ensures r.Some? ==> |r.value.1| < |s|
  {
    match ReadVarint(s)
    case None => None
    case Some((n, rest)) => if n <= |rest| then Some((rest[..n], rest[n..])) else None
  }

  lemma ChunkRoundTrip(b: seq<byte>, rest: seq<byte>)
    ensures ReadChunk(Chunk(b) + rest) == Some((b, rest))
  {
    VarintRoundTrip(|b|, b + rest);
    assert Chunk(b) + rest == Varint(|b|) + (b + rest);
    assert (b + rest)[..|b|] == b && (b + rest)[|b|..] == rest;
  }
}
