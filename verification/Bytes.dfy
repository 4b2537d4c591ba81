/** Bytes, text as bytes, and UTF-8 encoding of the formatter's output. */
module Bytes {
  type byte = x: int | 0 <= x < 256

  predicate IsDigit(b: byte) { 48 <= b <= 57 }

  function ZeroBytes(n: nat): (r: seq<byte>)
    ensures |r| == n && forall i :: 0 <= i < n ==> r[i] == 0
  {
    seq(n, _ => 0)
  }

  /** The text the lexer makes of raw bytes: each byte becomes one character. */
  function Latin(s: seq<byte>): string {
    seq(|s|, i requires 0 <= i < |s| => s[i] as char)
  }

  ghost predicate IsAscii(w: string) {
    forall i :: 0 <= i < |w| ==> w[i] as int < 128
  }

  /** UTF-8 (RFC 3629, section 3): one to four bytes a character. */
  function Utf8(c: char): (r: seq<byte>)
    ensures 1 <= |r| <= 4
    ensures c as int < 128 ==> r == [c as int]
    ensures c as int >= 128 ==> |r| >= 2 && forall i :: 0 <= i < |r| ==> r[i] >= 128
  {
    var x := c as int;
    if x < 0x80 then [x]
    else if x < 0x800 then [0xC0 + x / 0x40, 0x80 + x % 0x40]
    else if x < 0x10000 then [0xE0 + x / 0x1000, 0x80 + x / 0x40 % 0x40, 0x80 + x % 0x40]
    else [0xF0 + x / 0x40000, 0x80 + x / 0x1000 % 0x40, 0x80 + x / 0x40 % 0x40, 0x80 + x % 0x40]
  }

  /** RFC 3629, section 3: the lead byte tells the length, and six bits follow in each other byte. */
  lemma Utf8Is(c: char)
    ensures var r, x := Utf8(c), c as int;
            && (|r| == 1 <==> x < 0x80) && (|r| == 2 <==> 0x80 <= x < 0x800)
            && (|r| == 3 <==> 0x800 <= x < 0x10000) && (|r| == 4 <==> 0x10000 <= x)
            && (forall i :: 0 < i < |r| ==> 0x80 <= r[i] < 0xC0)
            && (|r| == 2 ==> x == Below(0xC0, r[0]) * 64 + Below(0x80, r[1]))
            && (|r| == 3 ==> x == (Below(0xE0, r[0]) * 64 + Below(0x80, r[1])) * 64 + Below(0x80, r[2]))
            && (|r| == 4 ==>
                  x == ((Below(0xF0, r[0]) * 64 + Below(0x80, r[1])) * 64 + Below(0x80, r[2])) * 64 + Below(0x80, r[3]))
  {
    var x := c as int;
    assert x == x / 0x40 * 64 + x % 0x40;
    assert x / 0x40 == x / 0x1000 * 64 + x / 0x40 % 0x40;
    assert x / 0x1000 == x / 0x40000 * 64 + x / 0x1000 % 0x40;
  }

  /** What a marked byte holds below its mark. */
  function Below(mark: int, b: byte): int { b as int - mark }

  function Encode(w: string): (r: seq<byte>) {
    if w == "" then [] else Utf8(w[0]) + Encode(w[1..])
  }

  lemma {:induction false} EncodeConcat(a: string, b: string)
    ensures Encode(a + b) == Encode(a) + Encode(b)
  {
    if a == "" {
      assert a + b == b;
    } else {
      assert (a + b)[1..] == a[1..] + b;
      EncodeConcat(a[1..], b);
    }
  }

  lemma {:induction false} EncodeAscii(w: string)
    requires IsAscii(w)
    ensures |Encode(w)| == |w| && forall i :: 0 <= i < |w| ==> Encode(w)[i] == w[i] as int
    ensures Latin(Encode(w)) == w
  {
    if w != "" {
      EncodeAscii(w[1..]);
      assert Encode(w) == [w[0] as int] + Encode(w[1..]);
    }
  }

  lemma LatinConcat(a: seq<byte>, b: seq<byte>)
    ensures Latin(a + b) == Latin(a) + Latin(b)
  {
  }

  /** Reading encoded text byte by byte gives the text back exactly when it is ASCII. */
  lemma {:induction false} LatinOfEncode(w: string)
    ensures |Encode(w)| >= |w|
    ensures Latin(Encode(w)) == w <==> IsAscii(w)
    ensures !IsAscii(w) ==> |Encode(w)| > |w|
  {
    if w != "" {
      LatinOfEncode(w[1..]);
      LatinConcat(Utf8(w[0]), Encode(w[1..]));
      if w[0] as int < 128 {
        EncodeStep(w);
        assert IsAscii(w) <==> IsAscii(w[1..]) by {
          assert forall i :: 0 <= i < |w| - 1 ==> w[i + 1] == w[1..][i];
          if IsAscii(w[1..]) {
            forall i | 0 <= i < |w| ensures w[i] as int < 128 {
              assert i > 0 ==> w[i] == w[1..][i - 1];
            }
          }
        }
      }
    }
  }

  lemma EncodeStep(w: string)
    requires w != "" && w[0] as int < 128
    ensures Encode(w) == [w[0] as int] + Encode(w[1..])
    ensures Latin(Encode(w)) == [w[0]] + Latin(Encode(w[1..]))
  {
  }

  /** The bytes from offset i on, taken apart. */
  lemma SuffixSplit(s: seq<byte>, i: nat, head: seq<byte>, tail: seq<byte>)
    requires i <= |s| && s[i..] == head + tail
    ensures i + |head| <= |s| && s[i..i + |head|] == head && s[i + |head|..] == tail
  {
    assert s[i..i + |head|] == s[i..][..|head|];
    assert s[i + |head|..] == s[i..][|head|..];
  }

  /** Two concatenations with heads of one length agree part by part. */
  lemma SplitEqual<T>(a: seq<T>, s: seq<T>, b: seq<T>, t: seq<T>)
    requires |a| == |b| && a + s == b + t
    ensures a == b && s == t
  {
    assert a == (a + s)[..|a|] && b == (b + t)[..|b|];
    assert s == (a + s)[|a|..] && t == (b + t)[|b|..];
  }

  lemma Associate<T>(a: seq<T>, b: seq<T>, c: seq<T>)
    ensures a + (b + c) == a + b + c
  {
  }
}
