/**
 * Rust compares strings by their UTF-8 bytes. That is the order of their characters, because the encoding of section 3
 * of RFC 3629 keeps the order of code points.
 */
module Utf8Order {
  import opened Utf8
  import opened Health
  import StringOrder

  predicate BytesLess(a: Text, b: Text) {
    if b == [] then false
    else if a == [] then true
    else if a[0] != b[0] then a[0] < b[0]
    else BytesLess(a[1..], b[1..])
  }

  /** The first difference decides. */
  lemma {:induction false} FirstDifference(a: Text, b: Text, k: nat)
    requires k < |a| && k < |b| && a[..k] == b[..k] && a[k] != b[k]
    ensures BytesLess(a, b) <==> a[k] < b[k]
  {
    if k > 0 {
      assert a[0] == a[..k][0] == b[..k][0] == b[0];
      assert a[1..][..k - 1] == a[..k][1..] && b[1..][..k - 1] == b[..k][1..];
      FirstDifference(a[1..], b[1..], k - 1);
    }
  }

  lemma {:induction false} CommonPrefix(p: Text, a: Text, b: Text)
    ensures BytesLess(p + a, p + b) <==> BytesLess(a, b)
  {
    if p == [] {
      assert p + a == a && p + b == b;
    } else {
      assert (p + a)[1..] == p[1..] + a && (p + b)[1..] == p[1..] + b;
      CommonPrefix(p[1..], a, b);
    }
  }

  /** Where the encodings of two different characters first differ, and that they do so in the order of the characters. */
  lemma CharsDiffer(c: char, d: char) returns (k: nat)
    requires c != d
    ensures var a, b := EncodeChar(c), EncodeChar(d);
            k < |a| && k < |b| && a[..k] == b[..k] && a[k] != b[k] && (a[k] < b[k] <==> c < d)
  {
    var a, b := EncodeChar(c), EncodeChar(d);
    var v, w := c as int, d as int;
    if |a| != |b| || a[0] != b[0] {
      k := 0;
    } else {
      SameLeadByte(c, d);
      if a[1] != b[1] {
        k := 1;
        assert a[..1] == [a[0]] && b[..1] == [b[0]];
      } else if a[2] != b[2] {
        k := 2;
        assert a[..2] == [a[0], a[1]] && b[..2] == [b[0], b[1]];
      } else {
        k := 3;
        assert a[..3] == [a[0], a[1], a[2]] && b[..3] == [b[0], b[1], b[2]];
      }
    }
  }

  lemma SameLeadByte(c: char, d: char)
    requires c != d && |EncodeChar(c)| == |EncodeChar(d)| && EncodeChar(c)[0] == EncodeChar(d)[0]
    ensures var a, b := EncodeChar(c), EncodeChar(d);
            && |a| > 1
            && (a[1] != b[1] ==> (a[1] < b[1] <==> c < d))
            && (a[1] == b[1] ==> |a| > 2 && (a[2] != b[2] ==> (a[2] < b[2] <==> c < d)))
            && (a[1] == b[1] && a[2] == b[2] ==> |a| > 3 && a[3] != b[3] && (a[3] < b[3] <==> c < d))
  {
    DecodeEncoded(c);
    DecodeEncoded(d);
  }

  lemma {:induction false} EncodeFront(c: char, s: string)
    ensures Encode([c] + s) == EncodeChar(c) + Encode(s)
  {
    hide EncodeChar;
    var all := [c] + s;
    if s == [] {
      assert all[..0] == [] && all == [c];
      assert EncodeChar(c) + [] == EncodeChar(c);
    } else {
      var front, last := s[..|s| - 1], s[|s| - 1];
      EncodeFront(c, front);
      assert all[..|all| - 1] == [c] + front && all[|all| - 1] == last;
      Grouped(EncodeChar(c), Encode(front), EncodeChar(last));
    }
  }

  lemma Grouped(a: Text, b: Text, c: Text)
    ensures (a + b) + c == a + (b + c)
  {
  }

  /** Comparing strings by their characters is comparing them by their bytes. */
  lemma {:induction false} ByteOrderIsCharacterOrder(a: string, b: string)
    ensures StringOrder.Less(a, b) <==> BytesLess(Encode(a), Encode(b))
  {
    if a != [] {
      assert a == [a[0]] + a[1..];
      EncodeFront(a[0], a[1..]);
    }
    if b != [] {
      assert b == [b[0]] + b[1..];
      EncodeFront(b[0], b[1..]);
    }
    hide EncodeChar, Encode;
    if a != [] && b != [] {
      var p, q := EncodeChar(a[0]), EncodeChar(b[0]);
      var x, y := Encode(a[1..]), Encode(b[1..]);
      if a[0] == b[0] {
        CommonPrefix(p, x, y);
        ByteOrderIsCharacterOrder(a[1..], b[1..]);
      } else {
        FirstCharacterDecides(a[0], b[0], x, y);
      }
    } else {
      assert Encode([]) == [] by { NothingEncoded(); }
    }
  }

  lemma NothingEncoded()
    ensures Encode([]) == []
  {
  }

  lemma FirstCharacterDecides(c: char, d: char, x: Text, y: Text)
    requires c != d
    ensures BytesLess(EncodeChar(c) + x, EncodeChar(d) + y) <==> c < d
  {
    hide EncodeChar, BytesLess;
    var p, q := EncodeChar(c), EncodeChar(d);
    var k := CharsDiffer(c, d);
    assert (p + x)[..k] == p[..k] && (q + y)[..k] == q[..k];
    FirstDifference(p + x, q + y, k);
  }
}
