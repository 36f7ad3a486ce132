/** UTF-8, as far as manifests depend on it: its byte order is the order of the code points, so a Rust String and a
    Python str sort the same way. */
module Utf8 {
  import opened Sequences

  /** The bytes of one code point. */
  function Octets(c: nat): (r: seq<int>)
    requires c < 0x11_0000
    ensures 0 < |r| && forall k :: 0 <= k < |r| ==> 0 <= r[k] < 256
  {
    if c < 0x80 then [c]
    else if c < 0x800 then [0xC0 + c / 64, 0x80 + c % 64]
    else if c < 0x1_0000 then [0xE0 + c / 64 / 64, 0x80 + c / 64 % 64, 0x80 + c % 64]
    else [0xF0 + c / 64 / 64 / 64, 0x80 + c / 64 / 64 % 64, 0x80 + c / 64 % 64, 0x80 + c % 64]
  }

  /** The bytes are those of RFC 3629, section 3: the first tells the length, every other one is 10xxxxxx, and the x bits in
      order are the code point; and no shorter form would do. */
  lemma OctetsAre(c: nat)
    requires c < 0x11_0000
    ensures
      var r := Octets(c);
      && (forall k :: 1 <= k < |r| ==> 0x80 <= r[k] < 0xC0)
      && (|r| == 1 <==> c <= 0x7F) && (|r| == 2 <==> 0x80 <= c <= 0x7FF) && (|r| == 3 <==> 0x800 <= c <= 0xFFFF) && |r| <= 4
      && (|r| == 1 ==> r[0] == c)
      && (|r| == 2 ==> 0xC0 <= r[0] < 0xE0 && c == (r[0] - 0xC0) * 64 + (r[1] - 0x80))
      && (|r| == 3 ==> 0xE0 <= r[0] < 0xF0 && c == ((r[0] - 0xE0) * 64 + (r[1] - 0x80)) * 64 + (r[2] - 0x80))
      && (|r| == 4 ==> 0xF0 <= r[0] < 0xF5 && c == (((r[0] - 0xF0) * 64 + (r[1] - 0x80)) * 64 + (r[2] - 0x80)) * 64 + (r[3] - 0x80))
  {
    assert c == c / 64 * 64 + c % 64;
    assert c / 64 == c / 64 / 64 * 64 + c / 64 % 64;
    assert c / 64 / 64 == c / 64 / 64 / 64 * 64 + c / 64 / 64 % 64;
  }

  function Encode(s: string): seq<int> {
    if |s| == 0 then [] else Octets(s[0] as int) + Encode(s[1..])
  }

  /** The sequences first differ at position k, where u is smaller. */
  ghost predicate Splits(u: seq<int>, v: seq<int>, k: nat) {
    k < |u| && k < |v| && u[k] < v[k] && forall i :: 0 <= i < k ==> u[i] == v[i]
  }

  /** No code point's bytes begin another's, and the smaller code point has the smaller first different byte. */
  lemma OctetsSplit(c: nat, d: nat) returns (k: nat)
    requires c < d < 0x11_0000
    ensures Splits(Octets(c), Octets(d), k)
  {
    if Class(c) < Class(d) || d < 0x80 {
      k := 0;
    } else if d < 0x800 {
      DigitsOrdered(c, d);
      k := if c / 64 < d / 64 then 0 else 1;
    } else if d < 0x1_0000 {
      k := ThreeSplit(c, d);
    } else {
      k := FourSplit(c, d);
    }
  }

  function Class(c: nat): nat {
    if c < 0x80 then 1 else if c < 0x800 then 2 else if c < 0x1_0000 then 3 else 4
  }

  lemma ThreeSplit(c: nat, d: nat) returns (k: nat)
    requires 0x800 <= c < d < 0x1_0000
    ensures Splits(Octets(c), Octets(d), k)
  {
    DigitsOrdered(c, d);
    if c / 64 == d / 64 {
      k := 2;
    } else {
      DigitsOrdered(c / 64, d / 64);
      k := if c / 64 / 64 < d / 64 / 64 then 0 else 1;
    }
  }

  lemma FourSplit(c: nat, d: nat) returns (k: nat)
    requires 0x1_0000 <= c < d < 0x11_0000
    ensures Splits(Octets(c), Octets(d), k)
  {
    DigitsOrdered(c, d);
    if c / 64 == d / 64 {
      k := 3;
    } else {
      DigitsOrdered(c / 64, d / 64);
      if c / 64 / 64 == d / 64 / 64 {
        k := 2;
      } else {
        DigitsOrdered(c / 64 / 64, d / 64 / 64);
        k := if c / 64 / 64 / 64 < d / 64 / 64 / 64 then 0 else 1;
      }
    }
  }

  lemma DigitsOrdered(c: nat, d: nat)
    requires c < d
    ensures c / 64 < d / 64 || (c / 64 == d / 64 && c % 64 < d % 64)
  {
  }

  lemma {:induction false} SplitDecides(u: seq<int>, v: seq<int>, x: seq<int>, y: seq<int>, k: nat)
    requires Splits(u, v, k)
    ensures LexLe(u + x, v + y) && !LexLe(v + y, u + x)
  {
    if k > 0 {
      assert (u + x)[1..] == u[1..] + x && (v + y)[1..] == v[1..] + y;
      SplitDecides(u[1..], v[1..], x, y, k - 1);
    }
  }

  lemma {:induction false} SameFront(u: seq<int>, x: seq<int>, y: seq<int>)
    ensures LexLe(u + x, u + y) <==> LexLe(x, y)
  {
    if |u| == 0 {
      assert u + x == x && u + y == y;
    } else {
      assert (u + x)[1..] == u[1..] + x && (u + y)[1..] == u[1..] + y;
      SameFront(u[1..], x, y);
    }
  }

  /** Comparing bytes is comparing code points. */
  lemma {:induction false} OrderAgrees(a: string, b: string)
    ensures LexLe(Encode(a), Encode(b)) <==> LexLe(CodePoints(a), CodePoints(b))
  {
    if |a| > 0 && |b| > 0 {
      var c, d := a[0] as int, b[0] as int;
      var x, y := Encode(a[1..]), Encode(b[1..]);
      assert CodePoints(a)[1..] == CodePoints(a[1..]) && CodePoints(b)[1..] == CodePoints(b[1..]);
      if c < d {
        var k := OctetsSplit(c, d);
        SplitDecides(Octets(c), Octets(d), x, y, k);
      } else if d < c {
        var k := OctetsSplit(d, c);
        SplitDecides(Octets(d), Octets(c), y, x, k);
      } else {
        SameFront(Octets(c), x, y);
        OrderAgrees(a[1..], b[1..]);
      }
    }
  }

  lemma EncodeInjective(a: string, b: string)
    requires Encode(a) == Encode(b)
    ensures a == b
  {
    LexTotal(Encode(a), Encode(b));
    OrderAgrees(a, b);
    OrderAgrees(b, a);
    LexTotal(CodePoints(a), CodePoints(b));
    CodePointsInjective(a, b);
  }

  /** Only the NUL character is encoded with a zero byte. */
  lemma {:induction false} NoZero(s: string)
    ensures 0 in Encode(s) <==> '\0' in s
  {
    if |s| > 0 {
      NoZero(s[1..]);
      assert s == [s[0]] + s[1..];
      assert 0 in Octets(s[0] as int) <==> s[0] == '\0';
    }
  }

  lemma {:induction false} EncodeConcat(a: string, b: string)
    ensures Encode(a + b) == Encode(a) + Encode(b)
  {
    hide Octets;
    if |a| == 0 {
      assert a + b == b;
    } else {
      EncodeConcat(a[1..], b);
      assert (a + b)[1..] == a[1..] + b && (a + b)[0] == a[0];
    }
  }

  lemma EncodeAround(x: string, y: string)
    ensures Encode(x + "\0" + y) == Encode(x) + [0] + Encode(y)
  {
    EncodeConcat(x + "\0", y);
    EncodeConcat(x, "\0");
    assert "\0"[1..] == "";
  }
}
