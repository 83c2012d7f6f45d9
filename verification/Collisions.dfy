/** Digests show fifteen bits of the hash, so among enough data some must share one, whatever the hash is. */
module Collisions {
  import opened Bytes
  import opened Bits
  import opened Ciphers
  import opened CipherLaws

  lemma {:induction false} Pigeonhole(values: seq<nat>, n: nat)
    requires forall i :: 0 <= i < |values| ==> values[i] < n
    requires forall i, j :: 0 <= i < j < |values| ==> values[i] != values[j]
    ensures |values| <= n
    decreases n
  {
    if values != [] {
      assert values[0] < n;
      if k :| 0 <= k < |values| && values[k] == n - 1 {
        Pigeonhole(values[..k] + values[k + 1..], n - 1);
      } else {
        Pigeonhole(values, n - 1);
      }
    }
  }

  predicate AllDiffer(data: seq<seq<byte>>) {
    forall i, j :: 0 <= i < j < |data| ==> data[i] != data[j]
  }

  /** Two of the data have the same digest. */
  predicate Collide(h: Hasher, data: seq<seq<byte>>) {
    exists i, j :: 0 <= i < j < |data| && Digest(h, data[i]) == Digest(h, data[j])
  }

  // ---------- The fifteen bits as a number ----------

  /** Two bytes as one number, the first of them the low one. */
  function Number(lo: bv8, hi: bv8): (n: nat)
    ensures n % 0x100 == lo as int && n / 0x100 == hi as int
  {
    lo as int + 0x100 * (hi as int)
  }

  lemma SameNumberSameByte(b: bv8, c: bv8)
    requires b as int == c as int
    ensures b == c
  {
  }

  lemma SameNumber(lo: bv8, hi: bv8, lo': bv8, hi': bv8)
    requires Number(lo, hi) == Number(lo', hi')
    ensures lo == lo' && hi == hi'
  {
    SameNumberSameByte(lo, lo');
    SameNumberSameByte(hi, hi');
  }

  lemma NextByte(b: bv8)
    requires b < 0xFF
    ensures (b + 1) as int == b as int + 1
  {
  }

  function ByteOf(n: nat): (b: bv8)
    requires n < 0x100
    ensures b as int == n
  {
    if n == 0 then 0
    else
      NextByte(ByteOf(n - 1));
      ByteOf(n - 1) + 1
  }

  lemma HalfByte(b: bv8)
    ensures (b >> 1) as int < 0x80
  {
  }

  /** A digest as a number below 2^15: byte 0, and byte 7 without the bit that the two share. */
  function Shown(d: seq<byte>): (n: nat)
    requires |d| == DIGEST_LEN
    ensures n < 0x8000
  {
    HalfByte(d[7]);
    Number(d[0], d[7] >> 1)
  }

  lemma DigestSharesBit(h: Hasher, a: seq<byte>)
    ensures Digest(h, a)[7] & 1 == Digest(h, a)[0] >> 7
  {
    WindowsShareBit(h(a));
  }

  lemma BitsDecide(x: bv8, y: bv8)
    requires x >> 1 == y >> 1 && x & 1 == y & 1
    ensures x == y
  {
  }

  lemma SameShownSameHalves(d: seq<byte>, e: seq<byte>)
    requires |d| == |e| == DIGEST_LEN && Shown(d) == Shown(e)
    ensures d[0] == e[0] && d[7] >> 1 == e[7] >> 1
  {
    SameNumber(d[0], d[7] >> 1, e[0], e[7] >> 1);
  }

  /** The number determines the digest. */
  lemma SameShownSameDigest(h: Hasher, a: seq<byte>, b: seq<byte>)
    requires Shown(Digest(h, a)) == Shown(Digest(h, b))
    ensures Digest(h, a) == Digest(h, b)
  {
    SameShownSameHalves(Digest(h, a), Digest(h, b));
    DigestSharesBit(h, a);
    DigestSharesBit(h, b);
    BitsDecide(Digest(h, a)[7], Digest(h, b)[7]);
    OuterBytesDecide(h, a, b);
    SameLowBitsSameDigest(h, a, b);
  }

  function Wide(lo: bv8, hi: bv8): bv64 {
    lo as bv64 | (hi as bv64 << 8)
  }

  lemma WindowsOfWide(lo: bv8, hi: bv8)
    requires hi < 0x80
    ensures Window(Wide(lo, hi), 0) == lo && Window(Wide(lo, hi), 7) >> 1 == hi
  {
  }

  lemma SmallByte(b: bv8)
    requires b as int < 0x80
    ensures b < 0x80
  {
  }

  /** A hash whose digest has these two bytes. */
  lemma DigestOfWide(h: Hasher, a: seq<byte>, lo: bv8, hi: bv8)
    requires h(a) == Wide(lo, hi) && hi < 0x80
    ensures Digest(h, a)[0] == lo && Digest(h, a)[7] >> 1 == hi
  {
    WindowsOfWide(lo, hi);
  }

  lemma DigestShows(h: Hasher, a: seq<byte>, n: nat)
    requires n < 0x8000 && h(a) == Wide(ByteOf(n % 0x100), ByteOf(n / 0x100))
    ensures Shown(Digest(h, a)) == n
  {
    SmallByte(ByteOf(n / 0x100));
    DigestOfWide(h, a, ByteOf(n % 0x100), ByteOf(n / 0x100));
  }

  // ---------- Collisions ----------

  lemma DigestsCollide(h: Hasher, data: seq<seq<byte>>)
    requires |data| > 0x8000
    ensures Collide(h, data)
  {
    var shown := seq(|data|, i requires 0 <= i < |data| => Shown(Digest(h, data[i])));
    if !Collide(h, data) {
      forall i, j | 0 <= i < j < |shown|
        ensures shown[i] != shown[j]
      {
        if shown[i] == shown[j] {
          SameShownSameDigest(h, data[i], data[j]);
        }
      }
      Pigeonhole(shown, 0x8000);
    }
  }

  function IndexOf(data: seq<seq<byte>>, s: seq<byte>): (i: nat)
    requires s in data
    ensures i < |data| && data[i] == s
  {
    if data[0] == s then 0 else 1 + IndexOf(data[1..], s)
  }

  function Numbering(n: nat): bv64 {
    if n < 0x8000 then Wide(ByteOf(n % 0x100), ByteOf(n / 0x100)) else 0
  }

  /** The hash that numbers the data. */
  lemma SomeHashTellsApart(data: seq<seq<byte>>) returns (h: Hasher)
    requires AllDiffer(data) && |data| <= 0x8000
    ensures !Collide(h, data)
  {
    h := s => if s in data then Numbering(IndexOf(data, s)) else 0;
    forall i, j | 0 <= i < j < |data|
      ensures Digest(h, data[i]) != Digest(h, data[j])
    {
      DigestShows(h, data[i], IndexOf(data, data[i]));
      DigestShows(h, data[j], IndexOf(data, data[j]));
    }
  }

  /** Whatever the hash, two of the given data have the same digest: this is so exactly when there are more than 2^15 of
      them. */
  lemma CollisionExact(data: seq<seq<byte>>)
    requires AllDiffer(data)
    ensures (forall h: Hasher :: Collide(h, data)) <==> |data| > 0x8000
  {
    if |data| > 0x8000 {
      forall h: Hasher
        ensures Collide(h, data)
      {
        DigestsCollide(h, data);
      }
    } else {
      var h := SomeHashTellsApart(data);
    }
  }

  function TwoBytes(n: nat): seq<byte>
    requires n < 0x1_0000
  {
    [ByteOf(n % 0x100), ByteOf(n / 0x100)]
  }

  lemma TwoBytesDiffer(m: nat, n: nat)
    requires m < n < 0x1_0000
    ensures TwoBytes(m) != TwoBytes(n)
  {
    assert TwoBytes(m)[0] as int + 0x100 * (TwoBytes(m)[1] as int) == m;
    assert TwoBytes(n)[0] as int + 0x100 * (TwoBytes(n)[1] as int) == n;
  }

  function Samples(n: nat): (r: seq<seq<byte>>)
    requires n <= 0x1_0000
    ensures |r| == n && forall i :: 0 <= i < n ==> r[i] == TwoBytes(i)
  {
    seq(n, i requires 0 <= i < n => TwoBytes(i))
  }

  predicate Twins(h: Hasher, a: seq<byte>, b: seq<byte>) {
    a != b && Digest(h, a) == Digest(h, b)
  }

  /** In particular two messages of two bytes share a digest, whatever the hash. */
  lemma ShortDataCollide(h: Hasher)
    ensures exists a, b :: |a| == 2 && |b| == 2 && Twins(h, a, b)
  {
    var data := Samples(0x8001);
    DigestsCollide(h, data);
    var i, j :| 0 <= i < j < |data| && Digest(h, data[i]) == Digest(h, data[j]);
    TwoBytesDiffer(i, j);
    assert Twins(h, TwoBytes(i), TwoBytes(j));
  }
}
