/** The PS2 APA partition-header check behind `HDD.is_apa_partitioned`
    (hdlg/hdd.py): the 1024-byte header at the start of the disk holds a
    stored checksum in bytes 0..4 and the magic "APA\0" in bytes 4..8; the
    checksum hdlg recomputes is the low four bytes, little-endian, of the
    sum of the 255 little-endian 32-bit words at offsets 4, 8, ..., 1020
    (the magic is one of them). */
module Apa {
  import opened Utils

  type byte = x: int | 0 <= x < 256
  type u32 = x: int | 0 <= x < 0x1_0000_0000

  const HEADER_SIZE: nat := 1024
  const TWO32: nat := 0x1_0000_0000
  const TWO64: nat := 0x1_0000_0000_0000_0000

  /** b"APA\0" */
  const APA_MAGIC: seq<byte> := [0x41, 0x50, 0x41, 0x00]

  // ---------------------------------------------------------------------
  // Little-endian encoding: struct.unpack("<I") and struct.pack("<Q")

  /** The unsigned value of little-endian bytes. */
  function FromLE(s: seq<byte>): (v: nat)
    ensures v < Pow(256, |s|)
  {
    if |s| == 0 then 0 else s[0] + 256 * FromLE(s[1..])
  }

  /** The `n` low bytes of `v`, least significant first. */
  function ToLE(v: nat, n: nat): (s: seq<byte>)
    ensures |s| == n
  {
    if n == 0 then [] else [v % 256] + ToLE(v / 256, n - 1)
  }

  /** Decoding what was encoded gives the value back when it fits. */
  lemma {:induction false} FromToLE(v: nat, n: nat)
    requires v < Pow(256, n)
    ensures FromLE(ToLE(v, n)) == v
  {
    if n > 0 {
      FromToLE(v / 256, n - 1);
      assert ToLE(v, n)[1..] == ToLE(v / 256, n - 1);
    }
  }

  /** Encoding what was decoded gives the bytes back. */
  lemma {:induction false} ToFromLE(s: seq<byte>)
    ensures ToLE(FromLE(s), |s|) == s
  {
    if |s| > 0 {
      ToFromLE(s[1..]);
      assert (s[0] + 256 * FromLE(s[1..])) / 256 == FromLE(s[1..]);
      assert [s[0]] + s[1..] == s;
    }
  }

  /** The first `k` bytes of an encoding are the encoding in `k` bytes. */
  lemma {:induction false} ToLEPrefix(v: nat, n: nat, k: nat)
    requires k <= n
    ensures ToLE(v, n)[..k] == ToLE(v, k)
  {
    if k > 0 {
      ToLEPrefix(v / 256, n - 1, k - 1);
      assert ToLE(v, n)[..k] == [v % 256] + ToLE(v / 256, n - 1)[..k - 1];
    }
  }

  lemma ModUnique(v: int, m: int, q: int, r: int)
    requires m > 0 && 0 <= r < m && v == m * q + r
    ensures v % m == r && v / m == q
  {
    var k := q - v / m;
    assert m * k == v % m - r;
    assert k >= 1 ==> m * k >= m;
    assert k <= -1 ==> m * k <= -m;
  }

  /** The encoding in `n` bytes only sees the value modulo 256^n. */
  lemma {:induction false} ToLEMod(v: nat, n: nat)
    ensures ToLE(v, n) == ToLE(v % Pow(256, n), n)
  {
    if n > 0 {
      var p: int := Pow(256, n - 1);
      var big: int := Pow(256, n);
      assert big == 256 * p;
      // v = 256 * q + r0 and q = p * a + rq, so v = big * a + (256 * rq + r0)
      var q, r0 := v / 256, v % 256;
      var a, rq := q / p, q % p;
      assert q == p * a + rq;
      var r := 256 * rq + r0;
      assert 0 <= r < big by {
        assert 256 * rq <= 256 * (p - 1);
      }
      assert v == big * a + r by {
        assert 256 * (p * a) == (256 * p) * a;
      }
      ModUnique(v, big, a, r);
      var w := v % big;
      ModUnique(w, 256, rq, r0);
      ToLEMod(q, n - 1);
    }
  }

  /** Different values below 2^32 have different four-byte encodings. */
  lemma ToLE4Injective(x: nat, y: nat)
    requires x < TWO32 && y < TWO32 && x != y
    ensures ToLE(x, 4) != ToLE(y, 4)
  {
    FromToLE(x, 4);
    FromToLE(y, 4);
  }

  // ---------------------------------------------------------------------
  // The checksum

  /** The sum of the little-endian 32-bit words of `s`, four bytes at a time;
      it never exceeds (2^32 - 1) per word. */
  function WordSum(s: seq<byte>): (sum: nat)
    requires |s| % 4 == 0
    ensures sum <= (|s| / 4) * (TWO32 - 1)
  {
    if |s| == 0 then 0 else FromLE(s[..4]) + WordSum(s[4..])
  }

  /** `struct.pack("<Q", sum(words))[:4]` over the words at offsets 4..1020:
      the 64-bit pack cannot fail (255 words sum to less than 2^64), and its
      first four bytes are the low 32 bits of the sum, little-endian. */
  function ComputedChecksum(header: seq<byte>): (c: seq<byte>)
    requires |header| == HEADER_SIZE
    ensures c == ToLE(WordSum(header[4..]) % TWO32, 4)
  {
    var sum := WordSum(header[4..]);
    assert sum < TWO64;
    ToLEPrefix(sum, 8, 4);
    ToLEMod(sum, 4);
    ToLE(sum, 8)[..4]
  }

  /** `magic == b"APA\0" and checksum == new_checksum`. */
  predicate IsApaHeader(header: seq<byte>)
    requires |header| == HEADER_SIZE
  {
    header[4..8] == APA_MAGIC && header[..4] == ComputedChecksum(header)
  }

  /** A header built the way the check expects: the checksum of the payload
      (bytes 4..1024) written in front of it. */
  function Seal(payload: seq<byte>): (header: seq<byte>)
    requires |payload| == HEADER_SIZE - 4
    ensures |header| == HEADER_SIZE && header[4..] == payload
  {
    ToLE(WordSum(payload) % TWO32, 4) + payload
  }

  /** A sealed payload passes the check exactly when it starts with the magic. */
  lemma SealedAccepted(payload: seq<byte>)
    requires |payload| == HEADER_SIZE - 4
    ensures IsApaHeader(Seal(payload)) <==> payload[..4] == APA_MAGIC
  {
    var h := Seal(payload);
    assert h[4..8] == payload[..4];
    assert h[..4] == ToLE(WordSum(payload) % TWO32, 4);
  }

  /** Every header that passes the check is a sealed payload that starts with
      the magic: together with SealedAccepted, the check accepts exactly these. */
  lemma AcceptedIsSealed(header: seq<byte>)
    requires |header| == HEADER_SIZE && IsApaHeader(header)
    ensures header == Seal(header[4..]) && header[4..8] == APA_MAGIC
  {
    assert header == header[..4] + header[4..];
  }

  lemma {:induction false} FromLEUpdate(w: seq<byte>, j: nat, b: byte)
    requires j < |w|
    ensures FromLE(w[j := b]) == FromLE(w) + (b - w[j]) * Pow(256, j)
  {
    var u := w[j := b];
    if j > 0 {
      assert u[0] == w[0] && u[1..] == w[1..][j - 1 := b];
      FromLEUpdate(w[1..], j - 1, b);
      var d := (b - w[j]) * Pow(256, j - 1);
      assert FromLE(u[1..]) == FromLE(w[1..]) + d;
      ShiftWeight(b - w[j], Pow(256, j - 1));
      assert FromLE(u) == w[0] + 256 * FromLE(w[1..]) + 256 * d;
    } else {
      assert u[0] == b && u[1..] == w[1..];
    }
  }

  /** Moving a byte one place up multiplies its weight by 256. */
  lemma ShiftWeight(x: int, p: int)
    ensures 256 * (x * p) == x * (256 * p)
  {
  }

  /** Changing one byte moves the word sum by the change times the weight of
      that byte within its word. */
  lemma {:induction false} WordSumUpdate(s: seq<byte>, j: nat, b: byte)
    requires |s| % 4 == 0 && j < |s|
    ensures WordSum(s[j := b]) == WordSum(s) + (b - s[j]) * Pow(256, j % 4)
  {
    var t := s[j := b];
    var d := (b - s[j]) * Pow(256, j % 4);
    if j < 4 {
      assert t[..4] == s[..4][j := b];
      assert t[4..] == s[4..];
      FromLEUpdate(s[..4], j, b);
      assert FromLE(t[..4]) == FromLE(s[..4]) + d;
    } else {
      assert t[..4] == s[..4];
      assert t[4..] == s[4..][j - 4 := b];
      assert s[4..][j - 4] == s[j] && (j - 4) % 4 == j % 4;
      WordSumUpdate(s[4..], j - 4, b);
      assert WordSum(t[4..]) == WordSum(s[4..]) + d;
    }
    assert WordSum(t) == FromLE(t[..4]) + WordSum(t[4..]);
    assert WordSum(s) == FromLE(s[..4]) + WordSum(s[4..]);
  }

  lemma ModShift(a: int, d: int, m: int)
    requires m > 0 && -m < d < m && d != 0
    ensures (a + d) % m != a % m
  {
    var k := (a + d) / m - a / m;
    assert d == m * k + ((a + d) % m - a % m);
    assert k >= 1 ==> m * k >= m;
    assert k <= -1 ==> m * k <= -m;
  }

  /** One byte changed by `e` at position `k` of its word moves the word by
      less than 2^32 and by something. */
  lemma ByteWeightBound(e: int, k: nat)
    requires k < 4 && -256 < e < 256 && e != 0
    ensures var d := e * Pow(256, k); -(TWO32 as int) < d < TWO32 && d != 0
  {
    var p: int := Pow(256, k);
    assert 1 <= p <= 0x100_0000 by {
      assert k in {0, 1, 2, 3};
    }
    assert e > 0 ==> e * p <= 255 * p;
    assert e < 0 ==> e * p >= -255 * p;
    assert e > 0 ==> e * p >= p;
    assert e < 0 ==> e * p <= -p;
  }

  /** The check catches any change to a single byte of bytes 4..1024 (and so
      any single flipped bit there) when the stored checksum is not updated. */
  lemma SingleByteChangeDetected(header: seq<byte>, i: nat, b: byte)
    requires |header| == HEADER_SIZE && IsApaHeader(header)
    requires 4 <= i < HEADER_SIZE && b != header[i]
    ensures !IsApaHeader(header[i := b])
  {
    var h := header[i := b];
    var s, s' := header[4..], h[4..];
    assert s' == s[i - 4 := b];
    WordSumUpdate(s, i - 4, b);
    var d := (b - header[i]) * Pow(256, (i - 4) % 4);
    ByteWeightBound(b - header[i], (i - 4) % 4);
    assert WordSum(s') == WordSum(s) + d;
    ModShift(WordSum(s), d, TWO32);
    ToLE4Injective(WordSum(s) % TWO32, WordSum(s') % TWO32);
    assert h[..4] == header[..4];
  }
}
