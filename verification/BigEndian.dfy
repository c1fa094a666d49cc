/** Eight-byte big-endian numbers: their byte order is the numeric order. */
module BigEndian {
  import opened Bytes
  import opened Common

  /** The low `width` bytes of n, most significant first. */
  function Encode(n: nat, width: nat): (d: seq<byte>)
    ensures |d| == width
  {
    if width == 0 then [] else Encode(n / 256, width - 1) + [n % 256]
  }

  function Decode(d: seq<byte>): nat
  {
    if d == [] then 0 else 256 * Decode(d[..|d| - 1]) + d[|d| - 1]
  }

  function Limit(width: nat): nat
  {
    if width == 0 then 1 else 256 * Limit(width - 1)
  }

  lemma {:induction false} DecodeEncode(n: nat, width: nat)
    requires n < Limit(width)
    ensures Decode(Encode(n, width)) == n
  {
    if width > 0 {
      DecodeEncode(n / 256, width - 1);
      assert Encode(n, width)[..width - 1] == Encode(n / 256, width - 1);
    }
  }

  /** Appending a byte to strings of equal length. */
  lemma {:induction false} LessAppend(a: seq<byte>, b: seq<byte>, x: byte, y: byte)
    requires |a| == |b|
    ensures Less(a + [x], b + [y]) <==> Less(a, b) || (a == b && x < y)
  {
    if a == [] {
    } else {
      assert (a + [x])[1..] == a[1..] + [x] && (b + [y])[1..] == b[1..] + [y];
      assert a == [a[0]] + a[1..] && b == [b[0]] + b[1..];
      LessAppend(a[1..], b[1..], x, y);
    }
  }

  lemma {:induction false} EncodeOrder(m: nat, n: nat, width: nat)
    requires m < Limit(width) && n < Limit(width)
    ensures Less(Encode(m, width), Encode(n, width)) <==> m < n
    ensures Encode(m, width) == Encode(n, width) <==> m == n
  {
    DecodeEncode(m, width);
    DecodeEncode(n, width);
    if width > 0 {
      EncodeOrder(m / 256, n / 256, width - 1);
      LessAppend(Encode(m / 256, width - 1), Encode(n / 256, width - 1), m % 256, n % 256);
    }
  }

  lemma {:induction false} LessPrefix(p: seq<byte>, a: seq<byte>, b: seq<byte>)
    ensures Less(p + a, p + b) <==> Less(a, b)
  {
    if p == [] {
      assert p + a == a && p + b == b;
    } else {
      assert (p + a)[1..] == p[1..] + a && (p + b)[1..] == p[1..] + b;
      LessPrefix(p[1..], a, b);
    }
  }

  lemma LimitOfEight()
    ensures Limit(8) == U64
  {
    assert Limit(1) == 256 && Limit(2) == 256 * Limit(1) && Limit(3) == 256 * Limit(2);
    assert Limit(4) == 256 * Limit(3) && Limit(5) == 256 * Limit(4) && Limit(6) == 256 * Limit(5);
    assert Limit(7) == 256 * Limit(6) && Limit(8) == 256 * Limit(7);
  }
}
