/** Page ids and the text key under which a store files them. */
module PageKey {
  import opened Arithmetic
  import opened Bytes
  import opened Digests

  datatype PageId = PageId(
    node: Digest,
    ordinal: u32,
    tokenStart: u64,
    tokenEnd: u64,
    layerStart: u32,
    layerEnd: u32,
    headStart: u32,
    headEnd: u32,
    logicalGeneration: u64)
  {
    predicate Valid() {
      tokenEnd > tokenStart && layerEnd > layerStart && headEnd >= headStart
    }
  }

  // ---- decimal numbers ------------------------------------------------------------

  function Digits(n: nat): (r: seq<byte>)
    ensures |r| > 0 && forall i :: 0 <= i < |r| ==> IsDigit(r[i])
  {
    if n < 10 then [48 + n] else Digits(n / 10) + [48 + n % 10]
  }

  lemma {:induction false} DigitsInjective(m: nat, n: nat)
    requires Digits(m) == Digits(n)
    ensures m == n
  {
    var a, b := Digits(m), Digits(n);
    assert a[|a| - 1] == b[|b| - 1];
    if m >= 10 && n >= 10 {
      assert Digits(m / 10) == a[..|a| - 1] == b[..|b| - 1] == Digits(n / 10);
      DigitsInjective(m / 10, n / 10);
    }
  }

  /** The number that a decimal text spells. */
  function Spelled(s: seq<byte>): int {
    if s == [] then 0 else Spelled(s[..|s| - 1]) * 10 + (s[|s| - 1] as int - 48)
  }

  /** A number's text spells it, in digits, without a leading zero. */
  lemma {:induction false} DigitsSpell(n: nat)
    ensures Spelled(Digits(n)) == n && (Digits(n) == [48] || Digits(n)[0] != 48)
  {
    var s := Digits(n);
    if n >= 10 {
      DigitsSpell(n / 10);
      assert s[..|s| - 1] == Digits(n / 10);
    } else {
      assert s[..0] == [] && Spelled(s[..0]) == 0;
    }
  }

  lemma {:induction false} DigitsAtMost(n: nat, k: nat)
    requires n < Pow2(k)
    ensures |Digits(n)| <= k + 1
    decreases n
  {
    if n >= 10 {
      DigitsAtMost(n / 10, k - 1);
    }
  }

  lemma U64Digits(n: u64)
    ensures |Digits(n)| <= 65
  {
    Pow2Of64();
    DigitsAtMost(n, 64);
  }

  /** What follows a number does not read on as part of it. */
  predicate Stops(s: seq<byte>) {
    s == [] || !IsDigit(s[0])
  }

  lemma NotShorter(a: seq<byte>, s: seq<byte>, b: seq<byte>, t: seq<byte>)
    requires forall i :: 0 <= i < |b| ==> IsDigit(b[i])
    requires a + s == b + t && Stops(s)
    ensures |a| >= |b|
  {
    assert |a| < |a + s| ==> (a + s)[|a|] == s[0];
  }

  lemma DigitsEnd(a: seq<byte>, s: seq<byte>, b: seq<byte>, t: seq<byte>)
    requires forall i :: 0 <= i < |a| ==> IsDigit(a[i])
    requires forall i :: 0 <= i < |b| ==> IsDigit(b[i])
    requires a + s == b + t && Stops(s) && Stops(t)
    ensures a == b && s == t
  {
    NotShorter(a, s, b, t);
    NotShorter(b, t, a, s);
    SplitEqual(a, s, b, t);
  }

  // ---- the key ----------------------------------------------------------------------

  /** A separator, a number, and the rest. */
  function Field(separator: seq<byte>, n: nat, rest: seq<byte>): seq<byte> {
    separator + (Digits(n) + rest)
  }

  lemma FieldStops(separator: seq<byte>, n: nat, rest: seq<byte>)
    requires separator != [] && Stops(separator)
    ensures Stops(Field(separator, n, rest))
  {
    assert Field(separator, n, rest)[0] == separator[0];
  }

  lemma FieldInjective(separator: seq<byte>, m: nat, s: seq<byte>, n: nat, t: seq<byte>)
    requires Field(separator, m, s) == Field(separator, n, t) && Stops(s) && Stops(t)
    ensures m == n && s == t
  {
    SplitEqual(separator, Digits(m) + s, separator, Digits(n) + t);
    DigitsEnd(Digits(m), s, Digits(n), t);
    DigitsInjective(m, n);
  }

  const COLON: seq<byte> := [58]
  const DASH: seq<byte> := [45]
  const COLON_L: seq<byte> := [58, 76]
  const COLON_H: seq<byte> := [58, 72]
  const COLON_G: seq<byte> := [58, 103]

  /** `:Ls-e:Hs-e:gG` */
  function KeyShape(p: PageId): seq<byte> {
    Field(COLON_L, p.layerStart, Field(DASH, p.layerEnd,
      Field(COLON_H, p.headStart, Field(DASH, p.headEnd, Field(COLON_G, p.logicalGeneration, [])))))
  }

  /** `node:ordinal:start-end:Ls-e:Hs-e:gG` */
  function KeyBytes(p: PageId): seq<byte> {
    p.node + Field(COLON, p.ordinal, Field(COLON, p.tokenStart, Field(DASH, p.tokenEnd, KeyShape(p))))
  }

  lemma KeyIsShort(p: PageId)
    ensures |KeyBytes(p)| < 1000
  {
    U64Digits(p.ordinal);
    U64Digits(p.tokenStart);
    U64Digits(p.tokenEnd);
    U64Digits(p.layerStart);
    U64Digits(p.layerEnd);
    U64Digits(p.headStart);
    U64Digits(p.headEnd);
    U64Digits(p.logicalGeneration);
    hide Digits;
  }

  function Key(p: PageId): Text {
    KeyIsShort(p);
    KeyBytes(p)
  }

  /** `node:ordinal:start-end:Lstart-end:Hstart-end:ggeneration`, the numbers in decimal. */
  lemma KeyIs(p: PageId)
    ensures Key(p) == p.node + [58] + Digits(p.ordinal) + [58] + Digits(p.tokenStart) + [45] + Digits(p.tokenEnd)
                      + [58, 76] + Digits(p.layerStart) + [45] + Digits(p.layerEnd)
                      + [58, 72] + Digits(p.headStart) + [45] + Digits(p.headEnd)
                      + [58, 103] + Digits(p.logicalGeneration)
  {
    var g := Field(COLON_G, p.logicalGeneration, []);
    var front := p.node + [58] + Digits(p.ordinal) + [58] + Digits(p.tokenStart) + [45] + Digits(p.tokenEnd);
    AddField(p.node, COLON, p.ordinal, Field(COLON, p.tokenStart, Field(DASH, p.tokenEnd, KeyShape(p))));
    AddField(p.node + [58] + Digits(p.ordinal), COLON, p.tokenStart, Field(DASH, p.tokenEnd, KeyShape(p)));
    AddField(p.node + [58] + Digits(p.ordinal) + [58] + Digits(p.tokenStart), DASH, p.tokenEnd, KeyShape(p));
    var h := Field(COLON_H, p.headStart, Field(DASH, p.headEnd, g));
    AddField(front, COLON_L, p.layerStart, Field(DASH, p.layerEnd, h));
    AddField(front + [58, 76] + Digits(p.layerStart), DASH, p.layerEnd, h);
    var back := front + [58, 76] + Digits(p.layerStart) + [45] + Digits(p.layerEnd);
    AddField(back, COLON_H, p.headStart, Field(DASH, p.headEnd, g));
    AddField(back + [58, 72] + Digits(p.headStart), DASH, p.headEnd, g);
    AddField(back + [58, 72] + Digits(p.headStart) + [45] + Digits(p.headEnd), COLON_G, p.logicalGeneration, []);
    hide Field, Digits;
    Nothing(back + [58, 72] + Digits(p.headStart) + [45] + Digits(p.headEnd) + [58, 103] + Digits(p.logicalGeneration));
  }

  lemma AddField(front: seq<byte>, separator: seq<byte>, n: nat, rest: seq<byte>)
    ensures front + Field(separator, n, rest) == front + separator + Digits(n) + rest
  {
    Associate(front, separator, Digits(n) + rest);
    Associate(front + separator, Digits(n), rest);
  }

  lemma Nothing(s: seq<byte>)
    ensures s + [] == s
  {
  }

  lemma ShapeInjective(p: PageId, q: PageId)
    requires KeyShape(p) == KeyShape(q)
    ensures p.layerStart == q.layerStart && p.layerEnd == q.layerEnd && p.headStart == q.headStart
    ensures p.headEnd == q.headEnd && p.logicalGeneration == q.logicalGeneration
  {
    var p4, q4 := Field(COLON_G, p.logicalGeneration, []), Field(COLON_G, q.logicalGeneration, []);
    var p3, q3 := Field(DASH, p.headEnd, p4), Field(DASH, q.headEnd, q4);
    var p2, q2 := Field(COLON_H, p.headStart, p3), Field(COLON_H, q.headStart, q3);
    var p1, q1 := Field(DASH, p.layerEnd, p2), Field(DASH, q.layerEnd, q2);
    hide Field;
    FieldsStop(p.logicalGeneration, [], p.headEnd, p4, p.headStart, p3, p.layerEnd, p2);
    FieldsStop(q.logicalGeneration, [], q.headEnd, q4, q.headStart, q3, q.layerEnd, q2);
    FieldInjective(COLON_L, p.layerStart, p1, q.layerStart, q1);
    FieldInjective(DASH, p.layerEnd, p2, q.layerEnd, q2);
    FieldInjective(COLON_H, p.headStart, p3, q.headStart, q3);
    FieldInjective(DASH, p.headEnd, p4, q.headEnd, q4);
    FieldInjective(COLON_G, p.logicalGeneration, [], q.logicalGeneration, []);
  }

  lemma FieldsStop(g: nat, r4: seq<byte>, e: nat, r3: seq<byte>, s: nat, r2: seq<byte>, l: nat, r1: seq<byte>)
    ensures Stops(Field(COLON_G, g, r4)) && Stops(Field(DASH, e, r3)) && Stops(Field(COLON_H, s, r2))
            && Stops(Field(DASH, l, r1))
  {
    FieldStops(COLON_G, g, r4);
    FieldStops(DASH, e, r3);
    FieldStops(COLON_H, s, r2);
    FieldStops(DASH, l, r1);
  }

  /** Distinct pages have distinct keys. */
  lemma KeyInjective(p: PageId, q: PageId)
    requires Key(p) == Key(q)
    ensures p == q
  {
    var p2, q2 := Field(DASH, p.tokenEnd, KeyShape(p)), Field(DASH, q.tokenEnd, KeyShape(q));
    var p1, q1 := Field(COLON, p.tokenStart, p2), Field(COLON, q.tokenStart, q2);
    FieldStops(COLON_L, p.layerStart, Field(DASH, p.layerEnd,
      Field(COLON_H, p.headStart, Field(DASH, p.headEnd, Field(COLON_G, p.logicalGeneration, [])))));
    FieldStops(COLON_L, q.layerStart, Field(DASH, q.layerEnd,
      Field(COLON_H, q.headStart, Field(DASH, q.headEnd, Field(COLON_G, q.logicalGeneration, [])))));
    hide KeyShape;
    FieldStops(DASH, p.tokenEnd, KeyShape(p));
    FieldStops(DASH, q.tokenEnd, KeyShape(q));
    FieldStops(COLON, p.tokenStart, p2);
    FieldStops(COLON, q.tokenStart, q2);
    hide Field;
    SplitEqual(p.node, Field(COLON, p.ordinal, p1), q.node, Field(COLON, q.ordinal, q1));
    FieldInjective(COLON, p.ordinal, p1, q.ordinal, q1);
    FieldInjective(COLON, p.tokenStart, p2, q.tokenStart, q2);
    FieldInjective(DASH, p.tokenEnd, KeyShape(p), q.tokenEnd, KeyShape(q));
    ShapeInjective(p, q);
  }
}
