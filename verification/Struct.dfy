/** Fixed-width little-endian records, as Python's `struct` packs and unpacks them. */
module Struct {

  type byte = x: int | 0 <= x < 256
  type bytes = seq<byte>

  /** The field widths of a record, in order: `[4, 2]` is the format `"<IH"`. */
  type Format = seq<nat>

  function Le(b: bytes): nat {
    if b == [] then 0 else b[0] + 256 * Le(b[1..])
  }

  function ToLe(n: nat, width: nat): (b: bytes)
    ensures |b| == width
  {
    if width == 0 then [] else [n % 256] + ToLe(n / 256, width - 1)
  }

  function Pow256(width: nat): (p: nat)
    ensures p > 0
  {
    if width == 0 then 1 else 256 * Pow256(width - 1)
  }

  lemma {:induction false} LeBound(b: bytes)
    ensures Le(b) < Pow256(|b|)
  {
    if b != [] {
      LeBound(b[1..]);
    }
  }

  lemma LeCons(first: byte, rest: bytes)
    ensures Le([first] + rest) == first + 256 * Le(rest)
    ensures ToLe(Le([first] + rest), 1 + |rest|) == [first] + ToLe(Le(rest), |rest|)
  {
    var b := [first] + rest;
    assert b[1..] == rest;
    assert Le(b) == first + 256 * Le(rest);
    assert Le(b) % 256 == first && Le(b) / 256 == Le(rest);
  }

  lemma {:induction false} ToLeOfLe(b: bytes)
    ensures ToLe(Le(b), |b|) == b
  {
    if b != [] {
      ToLeOfLe(b[1..]);
      LeCons(b[0], b[1..]);
      assert [b[0]] + b[1..] == b;
    }
  }

  lemma {:induction false} LeOfToLe(n: nat, width: nat)
    requires n < Pow256(width)
    ensures Le(ToLe(n, width)) == n
  {
    if width > 0 {
      LeOfToLe(n / 256, width - 1);
      assert ToLe(n, width)[1..] == ToLe(n / 256, width - 1);
    }
  }

  function Width(f: Format): nat {
    if f == [] then 0 else f[0] + Width(f[1..])
  }

  function Unpack(f: Format, b: bytes): (vs: seq<nat>)
    requires |b| == Width(f)
    ensures |vs| == |f|
  {
    if f == [] then [] else [Le(b[..f[0]])] + Unpack(f[1..], b[f[0]..])
  }

  function Pack(f: Format, vs: seq<nat>): (b: bytes)
    requires |vs| == |f|
    ensures |b| == Width(f)
  {
    if f == [] then [] else ToLe(vs[0], f[0]) + Pack(f[1..], vs[1..])
  }

  /** Every value is in the range of its field, so that `struct.pack` accepts it. */
  ghost predicate Fits(f: Format, vs: seq<nat>) {
    |vs| == |f| && forall i :: 0 <= i < |f| ==> vs[i] < Pow256(f[i])
  }

  lemma {:induction false} PackUnpack(f: Format, b: bytes)
    requires |b| == Width(f)
    ensures Pack(f, Unpack(f, b)) == b
    ensures Fits(f, Unpack(f, b))
  {
    if f != [] {
      var head, tail := b[..f[0]], b[f[0]..];
      PackUnpack(f[1..], tail);
      ToLeOfLe(head);
      LeBound(head);
      var vs := Unpack(f, b);
      assert vs[1..] == Unpack(f[1..], tail);
      assert head + tail == b;
      forall i | 0 <= i < |f|
        ensures vs[i] < Pow256(f[i])
      {
        if i > 0 {
          assert vs[i] == vs[1..][i - 1] && f[i] == f[1..][i - 1];
        }
      }
    }
  }

  lemma {:induction false} UnpackPack(f: Format, vs: seq<nat>)
    requires Fits(f, vs)
    ensures Unpack(f, Pack(f, vs)) == vs
  {
    if f != [] {
      assert Fits(f[1..], vs[1..]) by {
        forall i | 0 <= i < |f| - 1
          ensures vs[1..][i] < Pow256(f[1..][i])
        {
          assert vs[i + 1] < Pow256(f[i + 1]);
        }
      }
      UnpackPack(f[1..], vs[1..]);
      LeOfToLe(vs[0], f[0]);
      var b := Pack(f, vs);
      assert b[..f[0]] == ToLe(vs[0], f[0]);
      assert b[f[0]..] == Pack(f[1..], vs[1..]);
    }
  }

  lemma {:induction false} WidthAppend(f: Format, g: Format)
    ensures Width(f + g) == Width(f) + Width(g)
  {
    if f == [] {
      assert f + g == g;
    } else {
      assert (f + g)[1..] == f[1..] + g;
      WidthAppend(f[1..], g);
    }
  }

  lemma UnpackCons(f: Format, x: bytes)
    requires f != [] && |x| == Width(f)
    ensures f[0] <= |x| && |x[f[0]..]| == Width(f[1..])
    ensures Unpack(f, x) == [Le(x[..f[0]])] + Unpack(f[1..], x[f[0]..])
  {
    hide Le;
  }

  /** The appended record starts like the first one. */
  lemma AppendCons(f: Format, g: Format, x: bytes, y: bytes)
    requires f != [] && f[0] <= |x|
    ensures (f + g)[0] == f[0] && (f + g)[1..] == f[1..] + g
    ensures (x + y)[..f[0]] == x[..f[0]] && (x + y)[f[0]..] == x[f[0]..] + y
  {
  }

  lemma UnpackNone(g: Format, x: bytes, y: bytes)
    requires |x| == Width([]) && |y| == Width(g)
    ensures [] + g == g && x + y == y && [] + Unpack(g, y) == Unpack(g, y) && Unpack([], x) == []
  {
    hide Le;
  }

  /** Unpacking a record in two calls is unpacking it in one (`unpack_from` at an offset). */
  lemma {:induction false} UnpackAppend(f: Format, g: Format, x: bytes, y: bytes)
    requires |x| == Width(f) && |y| == Width(g)
    ensures Width(f + g) == |x + y|
    ensures Unpack(f + g, x + y) == Unpack(f, x) + Unpack(g, y)
  {
    hide *;
    WidthAppend(f, g);
    if f == [] {
      UnpackNone(g, x, y);
    } else {
      UnpackCons(f, x);
      UnpackCons(f + g, x + y);
      AppendCons(f, g, x, y);
      UnpackAppend(f[1..], g, x[f[0]..], y);
      ConsAppend(Le(x[..f[0]]), Unpack(f[1..], x[f[0]..]), Unpack(g, y));
    }
  }

  lemma ConsAppend<T>(a: T, s: seq<T>, t: seq<T>)
    ensures [a] + (s + t) == [a] + s + t
  {
  }

  /** `n` fields of one width: `H(6)` is the format `"6H"`. */
  function Run(width: nat, n: nat): (f: Format)
    ensures |f| == n
    ensures forall i :: 0 <= i < n ==> f[i] == width
  {
    seq(n, _ => width)
  }

  function H(n: nat): (f: Format)
    ensures |f| == n
    ensures forall i :: 0 <= i < n ==> f[i] == 2
  {
    Run(2, n)
  }

  function I(n: nat): (f: Format)
    ensures |f| == n
    ensures forall i :: 0 <= i < n ==> f[i] == 4
  {
    Run(4, n)
  }

  function Q(n: nat): (f: Format)
    ensures |f| == n
    ensures forall i :: 0 <= i < n ==> f[i] == 8
  {
    Run(8, n)
  }

  lemma {:induction false} WidthRun(width: nat, n: nat)
    ensures Width(Run(width, n)) == n * width
  {
    if n > 0 {
      WidthRun(width, n - 1);
      assert Run(width, n)[1..] == Run(width, n - 1);
    }
  }

  lemma Pow256Values()
    ensures Pow256(2) == 0x1_0000
    ensures Pow256(4) == 0x1_0000_0000
    ensures Pow256(8) == 0x1_0000_0000_0000_0000
  {
    assert Pow256(2) == 256 * Pow256(1) == 256 * 256 * Pow256(0);
    assert Pow256(4) == 256 * Pow256(3) == 256 * 256 * Pow256(2);
    assert Pow256(6) == 256 * Pow256(5) == 256 * 256 * Pow256(4);
    assert Pow256(8) == 256 * Pow256(7) == 256 * 256 * Pow256(6);
  }

  lemma SliceOfSuffix<T>(s: seq<T>, start: nat, i: nat, j: nat)
    requires i <= j && start + j <= |s|
    ensures s[start..][i..j] == s[start + i..start + j]
  {
  }
}
