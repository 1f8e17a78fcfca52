/** Fixed-width big-endian numbers, and the order of byte strings. */
module BigEndian {
  type Byte = b: int | 0 <= b < 256

  function Pow256(n: nat): (p: int)
    ensures p >= 1
  {
    if n == 0 then 1 else 256 * Pow256(n - 1)
  }

  lemma {:induction false} PowSum(m: nat, n: nat)
    ensures Pow256(m + n) == Pow256(m) * Pow256(n)
  {
    if m > 0 {
      PowSum(m - 1, n);
      assert Pow256(m - 1 + n) == Pow256(m - 1) * Pow256(n);
    }
  }

  /** The low `width` bytes of `x`, the most significant one first. */
  function Encode(width: nat, x: nat): (bytes: seq<Byte>)
    ensures |bytes| == width
  {
    if width == 0 then [] else Encode(width - 1, x / 256) + [x % 256]
  }

  function Decode(bytes: seq<Byte>): nat {
    if bytes == [] then 0 else 256 * Decode(bytes[..|bytes| - 1]) + bytes[|bytes| - 1]
  }

  lemma {:induction false} DecodeEncode(width: nat, x: nat)
    requires x < Pow256(width)
    ensures Decode(Encode(width, x)) == x
  {
    if width > 0 {
      DecodeEncode(width - 1, x / 256);
      assert Encode(width, x)[..width - 1] == Encode(width - 1, x / 256);
    }
  }

  /** Byte-wise comparison from the left; a proper prefix comes first. */
  predicate Before(a: seq<Byte>, b: seq<Byte>) {
    b != [] && (a == [] || a[0] < b[0] || (a[0] == b[0] && Before(a[1..], b[1..])))
  }

  lemma {:induction false} NotBeforeSelf(a: seq<Byte>)
    ensures !Before(a, a)
  {
    if a != [] { NotBeforeSelf(a[1..]); }
  }

  /** Strings whose first parts have one length are ordered by those parts first. */
  lemma {:induction false} BeforeParts(a: seq<Byte>, x: seq<Byte>, b: seq<Byte>, y: seq<Byte>)
    requires |a| == |b|
    ensures Before(a + x, b + y) <==> Before(a, b) || (a == b && Before(x, y))
  {
    if a == [] {
      assert a + x == x && b + y == y;
    } else {
      assert (a + x)[1..] == a[1..] + x && (b + y)[1..] == b[1..] + y;
      BeforeParts(a[1..], x, b[1..], y);
      assert a == b <==> a[0] == b[0] && a[1..] == b[1..];
    }
  }

  /** Big-endian numbers of one width are ordered as byte strings the way they are as numbers. */
  lemma {:induction false} EncodeOrder(width: nat, x: nat, y: nat)
    requires x < Pow256(width) && y < Pow256(width)
    ensures Before(Encode(width, x), Encode(width, y)) <==> x < y
    ensures Encode(width, x) == Encode(width, y) <==> x == y
  {
    DecodeEncode(width, x);
    DecodeEncode(width, y);
    if width > 0 {
      EncodeOrder(width - 1, x / 256, y / 256);
      BeforeParts(Encode(width - 1, x / 256), [x % 256], Encode(width - 1, y / 256), [y % 256]);
    }
  }

  /** A big-endian number between a leading part and a tail decides the order before the tail does. */
  lemma NumberThenTail(width: nat, x: nat, s: seq<Byte>, y: nat, t: seq<Byte>)
    requires x < Pow256(width) && y < Pow256(width)
    ensures Before(Encode(width, x) + s, Encode(width, y) + t) <==> x < y || (x == y && Before(s, t))
  {
    EncodeOrder(width, x, y);
    BeforeParts(Encode(width, x), s, Encode(width, y), t);
  }
}
