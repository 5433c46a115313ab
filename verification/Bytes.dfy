/** Bytes, byte strings and the few facts about positions in them that all text formats share. */
module Bytes {

  datatype Option<+T> = None | Some(value: T)

  type byte = b: int | 0 <= b < 256

  function Max(a: nat, b: nat): (m: nat)
    ensures m >= a && m >= b && (m == a || m == b)
  {
    if a < b then b else a
  }

  lemma Assoc<T>(r: seq<T>, s: seq<T>, t: seq<T>)
    ensures (r + s) + t == r + (s + t)
  {
  }

  // `r` stands in `c` at offset `o`.
  predicate At<T(==)>(c: seq<T>, o: nat, r: seq<T>) {
    o + |r| <= |c| && c[o..o + |r|] == r
  }

  lemma AtSplit<T>(c: seq<T>, o: nat, r: seq<T>, s: seq<T>)
    requires At(c, o, r + s)
    ensures At(c, o, r) && At(c, o + |r|, s) && o + |r| + |s| <= |c|
  {
    assert c[o..o + |r|] == c[o..o + |r + s|][..|r|] == r;
    assert c[o + |r|..o + |r| + |s|] == c[o..o + |r + s|][|r|..] == s;
  }

  lemma AtWhole<T>(c: seq<T>)
    ensures At(c, 0, c)
  {
    assert c[0..|c|] == c;
  }

  lemma AtSplit3<T>(c: seq<T>, o: nat, r: seq<T>, s: seq<T>, t: seq<T>)
    requires At(c, o, r + s + t)
    ensures At(c, o, r) && At(c, o + |r|, s) && At(c, o + |r| + |s|, t) && o + |r| + |s| + |t| <= |c|
  {
    AtSplit(c, o, r + s, t);
    AtSplit(c, o, r, s);
  }

  // The byte of `c` at offset `o + k` is the k-th byte of what stands at `o`.
  lemma AtIndex<T>(c: seq<T>, o: nat, r: seq<T>, k: nat)
    requires At(c, o, r) && k < |r|
    ensures o + k < |c| && c[o + k] == r[k]
  {
    assert c[o..o + |r|][k] == r[k];
  }

  predicate NulFree(s: seq<byte>) {
    forall i :: 0 <= i < |s| ==> s[i] != 0
  }

  // A C string: its bytes and the terminator.
  function Terminated(s: seq<byte>): seq<byte> {
    s + [0]
  }

  // A number as four bytes, the most significant first.
  function Be32(u: nat): (r: seq<byte>)
    requires u < 0x1_0000_0000
    ensures |r| == 4
  {
    [u / 0x100_0000, u / 0x1_0000 % 0x100, u / 0x100 % 0x100, u % 0x100]
  }

  function FromBe32(f: seq<byte>, o: nat): nat
    requires o + 4 <= |f|
  {
    f[o] as int * 0x100_0000 + f[o + 1] as int * 0x1_0000 + f[o + 2] as int * 0x100 + f[o + 3]
  }

  // The four bytes are the digits of the number to the base 256.
  lemma Be32Digits(u: nat)
    requires u < 0x1_0000_0000
    ensures var r := Be32(u);
      r[0] as int * 0x100_0000 + r[1] as int * 0x1_0000 + r[2] as int * 0x100 + r[3] == u
  {
    assert u / 0x1_0000 == u / 0x100 / 0x100 && u / 0x100_0000 == u / 0x1_0000 / 0x100;
  }

  lemma Be32Inverts(u: nat, f: seq<byte>, o: nat)
    requires u < 0x1_0000_0000 && At(f, o, Be32(u))
    ensures o + 4 <= |f| && FromBe32(f, o) == u
  {
    hide Be32;
    var r := Be32(u);
    AtIndex(f, o, r, 0);
    AtIndex(f, o, r, 1);
    AtIndex(f, o, r, 2);
    AtIndex(f, o, r, 3);
    Be32Digits(u);
  }

  // And any four bytes are those of some number.
  lemma Be32Of(d: seq<byte>)
    requires |d| == 4
    ensures FromBe32(d, 0) < 0x1_0000_0000 && Be32(FromBe32(d, 0)) == d
  {
    var high: nat := d[0] as int * 0x1_0000 + d[1] as int * 0x100 + d[2];
    var top: nat := d[0] as int * 0x100 + d[1];
    LowDigit(high, d[3], FromBe32(d, 0));
    LowDigit(top, d[2], high);
    LowDigit(d[0] as int, d[1], top);
    var u := FromBe32(d, 0);
    assert u / 0x1_0000 == u / 0x100 / 0x100 && u / 0x100_0000 == u / 0x100 / 0x100 / 0x100;
  }

  lemma LowDigit(high: nat, low: byte, n: nat)
    requires n == high * 0x100 + low
    ensures n / 0x100 == high && n % 0x100 == low
  {
  }
}
