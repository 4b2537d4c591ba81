/** Which texts are identifiers and numbers, and how the lexer reads them back. */
module LexicalText {
  import opened Wrappers
  import opened Bytes
  import opened Lexer

  ghost predicate WordBytes(b: seq<byte>) {
    b != [] && IsWordStart(b[0]) && forall i :: 0 <= i < |b| ==> IsWordByte(b[i])
  }

  ghost predicate NumberBytes(b: seq<byte>) {
    b != [] && StartsNumber(b, 0) && NumberEnd(b, 0) == |b|
  }

  ghost predicate IsWord(w: string) {
    IsAscii(w) && WordBytes(Encode(w))
  }

  ghost predicate IsNumber(t: string) {
    IsAscii(t) && NumberBytes(Encode(t))
  }

  lemma EncodeLatin(b: seq<byte>)
    requires forall i :: 0 <= i < |b| ==> b[i] < 128
    ensures IsAscii(Latin(b)) && Encode(Latin(b)) == b
  {
    EncodeAsciiBytes(Latin(b));
  }

  lemma EncodeAsciiBytes(w: string)
    requires IsAscii(w)
    ensures |Encode(w)| == |w| && forall i :: 0 <= i < |w| ==> Encode(w)[i] == w[i] as int
  {
    EncodeAscii(w);
  }

  // ---- runs -------------------------------------------------------------------

  lemma {:induction false} RunIs(s: seq<byte>, i: nat, p: byte -> bool)
    requires i <= |s|
    ensures forall k :: i <= k < RunEnd(s, i, p) ==> p(s[k])
    ensures RunEnd(s, i, p) < |s| ==> !p(s[RunEnd(s, i, p)])
    decreases |s| - i
  {
    if i < |s| && p(s[i]) {
      RunIs(s, i + 1, p);
    }
  }

  lemma {:induction false} RunEndsAt(s: seq<byte>, i: nat, p: byte -> bool, n: nat)
    requires i <= n <= |s| && (forall k :: i <= k < n ==> p(s[k])) && (n < |s| ==> !p(s[n]))
    ensures RunEnd(s, i, p) == n
    decreases n - i
  {
    if i < n {
      RunEndsAt(s, i + 1, p, n);
    }
  }

  // ---- a number on its own ------------------------------------------------------

  predicate SameByte(s: seq<byte>, i: nat, t: seq<byte>, j: nat, k: nat)
    requires i + k < |s| && j + k < |t|
  {
    s[i + k] == t[j + k]
  }

  ghost predicate SameBytes(s: seq<byte>, i: nat, t: seq<byte>, j: nat, n: nat) {
    && i + n <= |s| && j + n <= |t|
    && forall k :: 0 <= k < n ==> SameByte(s, i, t, j, k)
  }

  /** A run that ends inside a window ends at the same place in any equal window. */
  lemma RunInWindow(s: seq<byte>, i: nat, t: seq<byte>, j: nat, n: nat, k: nat, p: byte -> bool)
    requires SameBytes(s, i, t, j, n) && k <= n
    requires RunEnd(s, i + k, p) <= i + n
    requires RunEnd(s, i + k, p) == i + n ==> j + n == |t| || !p(t[j + n])
    ensures RunEnd(t, j + k, p) == j + (RunEnd(s, i + k, p) - i)
  {
    var m := RunEnd(s, i + k, p) - i;
    RunIs(s, i + k, p);
    forall x | j + k <= x < j + m ensures p(t[x]) {
      assert SameByte(s, i, t, j, x - j);
    }
    assert m < n ==> SameByte(s, i, t, j, m);
    RunEndsAt(t, j + k, p, j + m);
  }

  predicate EndsNumber(b: byte) {
    b == 32 || b == 44 || b == 59 || b == 93  // space , ; ]
  }

  /** n bytes of s stand at j in t too, and what follows them there cannot extend a number. */
  ghost predicate Window(s: seq<byte>, i: nat, t: seq<byte>, j: nat, n: nat) {
    && n > 0 && SameBytes(s, i, t, j, n)
    && (j + n == |t| || EndsNumber(t[j + n])
        || (t[j + n] == DOT && At(t, j + n + 1) == Some(DOT) && s[i + n - 1] != DOT))
  }

  lemma SecondStop(s: seq<byte>, i: nat, t: seq<byte>, j: nat, n: nat, a: nat)
    requires Window(s, i, t, j, n) && a <= n && FractionEnd(s, i + a) <= i + n
    requires FractionEnd(s, i + a) == i + a && a < n ==> s[i + a] != DOT
    ensures FractionEnd(t, j + a) - j == FractionEnd(s, i + a) - i
  {
    var b := FractionEnd(s, i + a) - i;
    if b > a {
      RunInWindow(s, i, t, j, n, a + 1, IsDigit);
      assert SameByte(s, i, t, j, a);
      if a + 1 < n {
        assert SameByte(s, i, t, j, a + 1);
      } else {
        assert s[i + n - 1] == DOT;
      }
    } else if a < n {
      assert SameByte(s, i, t, j, a);
      assert a + 1 < n ==> SameByte(s, i, t, j, a + 1);
    }
  }

  lemma ThirdStop(s: seq<byte>, i: nat, t: seq<byte>, j: nat, n: nat, b: nat)
    requires Window(s, i, t, j, n) && b <= n
    requires ExponentEnd(s, i + b) == i + n
    ensures ExponentEnd(t, j + b) == j + n
  {
    if b < n {
      assert SameByte(s, i, t, j, b);
      var c := SignEnd(s, i + b + 1) - i;
      if b + 1 < n {
        assert SameByte(s, i, t, j, b + 1);
      }
      assert SignEnd(t, j + b + 1) == j + c;
      RunInWindow(s, i, t, j, n, c, IsDigit);
    }
  }

  /** After its first digits, a number's bytes read the same wherever they stand. */
  lemma RestMoves(s: seq<byte>, i: nat, t: seq<byte>, j: nat, n: nat, a: nat)
    requires Window(s, i, t, j, n) && a <= n
    requires ExponentEnd(s, FractionEnd(s, i + a)) == i + n
    ensures ExponentEnd(t, FractionEnd(t, j + a)) == j + n
  {
    SecondStop(s, i, t, j, n, a);
    ThirdStop(s, i, t, j, n, FractionEnd(s, i + a) - i);
  }

  /** The same bytes are the same number wherever they stand. */
  lemma NumberMoves(s: seq<byte>, i: nat, t: seq<byte>, j: nat, n: nat)
    requires i < |s| && Window(s, i, t, j, n) && NumberEnd(s, i) == i + n
    ensures NumberEnd(t, j) == j + n
  {
    var a := RunEnd(s, i + 1, IsDigit) - i;
    RunInWindow(s, i, t, j, n, 1, IsDigit);
    RestMoves(s, i, t, j, n, a);
  }

  // ---- dots moved over a range -----------------------------------------------------

  /** A number that ends with its dot is a number without it. */
  lemma DotDropped(b: seq<byte>)
    requires NumberBytes(b) && b[|b| - 1] == DOT
    ensures NumberBytes(b[..|b| - 1]) && b[|b| - 2] != DOT
  {
    var n := |b|;
    var t := b[..n - 1];
    var a := RunEnd(b, 1, IsDigit);
    RunIs(b, 1, IsDigit);
    var f := FractionEnd(b, a);
    if f < n {
      RunIs(b, SignEnd(b, f + 1), IsDigit);
    } else if f > a {
      RunIs(b, a + 1, IsDigit);
    }
    assert a == n - 1;
    RunEndsAt(t, 1, IsDigit, n - 1);
    assert b[0] == DOT ==> t[1] == b[1];
  }

  /** A number that starts with a digit is still one after a dot. */
  lemma DotAdded(b: seq<byte>)
    requires NumberBytes(b) && b[0] != DOT
    ensures NumberBytes([DOT] + b)
  {
    var t := [DOT] + b;
    forall k | 0 <= k < |b| ensures SameByte(b, 0, t, 1, k) {
    }
    var a := RunEnd(b, 1, IsDigit);
    assert a == RunEnd(b, 0, IsDigit);
    RunInWindow(b, 0, t, 1, |b|, 0, IsDigit);
    RestMoves(b, 0, t, 1, |b|, a);
  }

  /** A number that starts with a dot is a number without it. */
  lemma DotStripped(b: seq<byte>)
    requires NumberBytes(b) && b[0] == DOT
    ensures NumberBytes(b[1..]) && b[1] != DOT
  {
    var t := b[1..];
    NumberAfterDot(b, 0);
    forall k | 0 <= k < |t| ensures SameByte(b, 1, t, 0, k) {
    }
    var a := RunEnd(b, 1, IsDigit);
    RunInWindow(b, 1, t, 0, |t|, 0, IsDigit);
    assert RunEnd(t, 0, IsDigit) == RunEnd(t, 1, IsDigit);
    RestMoves(b, 1, t, 0, |t|, a - 1);
  }

  lemma NumberIsAscii(s: seq<byte>, i: nat)
    requires i < |s| && StartsNumber(s, i)
    ensures forall k :: i <= k < NumberEnd(s, i) ==> s[k] < 128
  {
    var a := RunEnd(s, i + 1, IsDigit);
    RunIs(s, i + 1, IsDigit);
    var b := FractionEnd(s, a);
    if b > a {
      RunIs(s, a + 1, IsDigit);
    }
    if ExponentEnd(s, b) > b {
      RunIs(s, SignEnd(s, b + 1), IsDigit);
    }
  }

  // ---- tokens of the lexer carry lexical texts -----------------------------------

  ghost predicate LexicalKind(kind: TokenKind) {
    match kind
    case Ident(w) => IsWord(w)
    case Number(t) => IsNumber(t)
    case _ => true
  }

  lemma WordTokenIsLexical(s: seq<byte>, i: nat)
    requires i < |s| && IsWordStart(s[i])
    ensures IsWord(Latin(s[i..RunEnd(s, i + 1, IsWordByte)]))
  {
    RunIs(s, i + 1, IsWordByte);
    EncodeLatin(s[i..RunEnd(s, i + 1, IsWordByte)]);
  }

  lemma NumberTokenIsLexical(s: seq<byte>, i: nat)
    requires i < |s| && StartsNumber(s, i)
    ensures IsNumber(Latin(s[i..NumberEnd(s, i)]))
  {
    var e := NumberEnd(s, i);
    var t := s[i..e];
    NumberIsAscii(s, i);
    EncodeLatin(t);
    NumberMoves(s, i, t, 0, e - i);
    if s[i] == DOT {
      NumberAfterDot(s, i);
      assert t[1] == s[i + 1];
    }
  }

  lemma NumberAfterDot(s: seq<byte>, i: nat)
    requires i < |s| && StartsNumber(s, i) && s[i] == DOT
    ensures NumberEnd(s, i) >= i + 2
  {
    assert RunEnd(s, i + 1, IsDigit) >= i + 2;
  }

  lemma {:induction false} LexedKindsAreLexical(s: seq<byte>, i: nat)
    requires i <= |s|
    ensures forall t :: t in LexFrom(s, i).tokens ==> LexicalKind(t.kind)
    decreases |s| - i
  {
    if i < |s| {
      LexedKindsAreLexical(s, Scan(s, i).end);
      ScannedKindIsLexical(s, i);
    }
  }

  lemma ScannedKindIsLexical(s: seq<byte>, i: nat)
    requires i < |s|
    ensures forall t :: t in Scan(s, i).tokens ==> LexicalKind(t.kind)
  {
    if IsWordStart(s[i]) {
      WordTokenIsLexical(s, i);
    }
    if StartsNumber(s, i) {
      NumberTokenIsLexical(s, i);
    }
  }
}
