/**
 Sorted-address deltas with unsigned LEB128 integers (section 7.6 of the DWARF 5
 standard), in u64 arithmetic.
 */
module DeltaAddresses {
  import opened Wrappers
  import opened Arithmetic
  import opened Bytes
  import opened BitOps

  // ---- one integer ------------------------------------------------------------------

  /** Seven bits a byte, low bits first; the high bit marks every byte but the last. */
  function Varint(value: nat): (r: seq<byte>)
    ensures |r| > 0
  {
    if value < 128 then [value] else [value % 128 + 128] + Varint(value / 128)
  }

  /** `(value as u8) | 0x80` and `byte & 0x7f`, as the code writes them. */
  lemma MarkedByte(value: nat)
    ensures Or(value % 128, 128) == value % 128 + 128
  {
    Pow2Of64();
    OrDisjoint(value % 128, 1, 7);
  }

  method PutVarint(value: u64, out: seq<byte>) returns (out': seq<byte>)
    ensures out' == out + Varint(value)
  {
    hide Varint, Or;
    out' := out;
    var rest: nat := value;
    while rest >= 0x80
      invariant out' + Varint(rest) == out + Varint(value)
      decreases rest
    {
      MarkedByte(rest);
      VarintStep(rest, out');
      out' := out' + [Or(rest % 128, 0x80)];
      rest := rest / 128;
    }
    VarintStep(rest, out');
    out' := out' + [rest];
  }

  lemma VarintStep(value: nat, before: seq<byte>)
    ensures before + Varint(value) ==
            if value < 128 then before + [value] else before + [value % 128 + 128] + Varint(value / 128)
  {
  }

  /** A value shifted left in 64 bits loses its high bits. */
  function ShiftLeft(x: nat, shift: nat): u64 {
    (x * Pow2(shift)) % TWO_64
  }

  /** The reader from its k-th byte on, at offset i, with `value` gathered so far. */
  function GetFrom(b: seq<byte>, i: nat, k: nat, value: nat): Option<(nat, nat)>
    requires i <= |b|
    decreases |b| - i
  {
    if i == |b| || k * 7 >= 64 then None
    else
      var next := Or(value, ShiftLeft(b[i] % 128, k * 7));
      if b[i] < 128 then Some((next, k + 1)) else GetFrom(b, i + 1, k + 1, next)
  }

  method GetVarint(b: seq<byte>, offset: nat) returns (r: Option<(nat, nat)>)
    requires offset <= |b|
    ensures r == GetFrom(b, offset, 0, 0)
  {
    var value, index := 0, 0;
    while offset + index < |b|
      invariant 0 <= index && offset + index <= |b| && value >= 0
      invariant GetFrom(b, offset, 0, 0) == GetFrom(b, offset + index, index, value)
      decreases |b| - index
    {
      var shift := index * 7;
      if shift >= 64 {
        return None;
      }
      var next := b[offset + index];
      value := Or(value, ShiftLeft(next % 128, shift));
      if next < 128 {
        return Some((value, index + 1));
      }
      index := index + 1;
    }
    r := None;
  }

  /** How many bytes a value takes. */
  lemma {:induction false} VarintLength(value: nat, k: nat)
    requires k > 0 && value < Pow2(7 * k)
    ensures |Varint(value)| <= k
    decreases k
  {
    Pow2Of64();
    if value >= 128 && k > 1 {
      Pow2Sum(7, 7 * (k - 1));
      assert value < 128 * Pow2(7 * (k - 1));
      VarintLength(value / 128, k - 1);
    }
  }

  /** Ten bytes hold every u64. */
  lemma U64TakesTenBytes(value: u64)
    ensures 1 <= |Varint(value)| <= 10
  {
    Pow2Of64();
    Pow2Monotone(64, 70);
    VarintLength(value, 10);
  }

  /** Adding the digit at its place: no bit is lost or overlaps. */
  lemma DigitAdded(low: nat, digit: nat, k: nat)
    requires low < Pow2(7 * k) && digit * Pow2(7 * k) < TWO_64
    ensures Or(low, ShiftLeft(digit, k * 7)) == low + digit * Pow2(7 * k)
  {
    hide Or, Pow2;
    OrDisjoint(low, digit, 7 * k);
  }

  lemma PlaceOf(k: nat)
    ensures Pow2(7 * k) >= 1 && Pow2(7 * (k + 1)) == 128 * Pow2(7 * k)
  {
    Pow2Of64();
    Pow2Positive(7 * k);
    Pow2Sum(7, 7 * k);
  }

  lemma MulDistributes(a: nat, b: nat, p: nat)
    ensures (a + b) * p == a * p + b * p && a * p <= (a + b) * p
  {
  }

  lemma MulRegroups(q: nat, p: nat)
    ensures (128 * q) * p == q * (128 * p)
  {
  }

  lemma MulAtMost(d: nat, p: nat)
    requires d < 128
    ensures d * p <= 127 * p
  {
    MulDistributes(d, 127 - d, p);
  }

  /** The value splits into its low digit and the rest, at place p. */
  lemma SplitDigit(low: nat, rest: nat, p: nat)
    requires low < p
    ensures var d, q := rest % 128, rest / 128;
            && low + rest * p == low + d * p + q * (128 * p)
            && d * p <= rest * p && low + d * p < 128 * p
  {
    var d, q := rest % 128, rest / 128;
    assert rest == d + 128 * q;
    MulDistributes(d, 128 * q, p);
    MulRegroups(q, p);
    MulAtMost(d, p);
  }

  lemma NoTenthContinuation(low: nat, rest: nat)
    requires low + rest * Pow2(63) < TWO_64
    ensures rest < 128
  {
    Pow2Of64();
    Pow2Sum(63, 1);
    if rest >= 128 {
      MulDistributes(128, rest - 128, Pow2(63));
    }
  }

  lemma VarintSlice(b: seq<byte>, i: nat, value: nat)
    requires i + |Varint(value)| <= |b| && b[i..i + |Varint(value)|] == Varint(value)
    ensures value < 128 ==> b[i] == value
    ensures value >= 128 ==> b[i] == value % 128 + 128 && |Varint(value)| == 1 + |Varint(value / 128)|
    ensures value >= 128 ==> b[i + 1..i + 1 + |Varint(value / 128)|] == Varint(value / 128)
  {
    var v := Varint(value);
    assert b[i] == b[i..i + |v|][0] == v[0];
    if value >= 128 {
      assert b[i + 1..i + |v|] == b[i..i + |v|][1..] == v[1..];
    }
  }

  /** One byte read, the reader's definition unfolded once. */
  lemma GetStep(b: seq<byte>, i: nat, k: nat, low: nat, digit: nat, next: nat)
    requires i < |b| && k <= 9 && digit == b[i] % 128 && next == Or(low, ShiftLeft(digit, k * 7))
    ensures GetFrom(b, i, k, low) == if b[i] < 128 then Some((next, k + 1)) else GetFrom(b, i + 1, k + 1, next)
  {
    hide Or, ShiftLeft;
  }

  /** Gathering continues: low bits so far, then the rest of the value above them. */
  lemma {:induction false} GetPut(b: seq<byte>, i: nat, k: nat, low: nat, rest: nat)
    requires k <= 9 && low < Pow2(7 * k) && low + rest * Pow2(7 * k) < TWO_64
    requires i + |Varint(rest)| <= |b| && b[i..i + |Varint(rest)|] == Varint(rest)
    ensures GetFrom(b, i, k, low) == Some((low + rest * Pow2(7 * k), k + |Varint(rest)|))
    decreases rest, 1
  {
    hide Pow2, Or, ShiftLeft, Varint, GetFrom;
    VarintSlice(b, i, rest);
    var digit := rest % 128;
    SplitDigit(low, rest, Pow2(7 * k));
    DigitAdded(low, digit, k);
    PlaceOf(k);
    if rest >= 128 {
      GetPutMore(b, i, k, low, rest, digit);
    } else {
      VarintOne(rest);
      GetStep(b, i, k, low, digit, low + digit * Pow2(7 * k));
    }
  }

  lemma {:induction false} GetPutMore(b: seq<byte>, i: nat, k: nat, low: nat, rest: nat, digit: nat)
    requires k <= 9 && rest >= 128 && digit == rest % 128 && low + rest * Pow2(7 * k) < TWO_64
    requires var p := Pow2(7 * k);
             && Pow2(7 * (k + 1)) == 128 * p && Or(low, ShiftLeft(digit, k * 7)) == low + digit * p
             && low + rest * p == low + digit * p + rest / 128 * (128 * p) && low + digit * p < 128 * p
    requires i < |b| && b[i] == digit + 128 && |Varint(rest)| == 1 + |Varint(rest / 128)|
    requires i + |Varint(rest)| <= |b| && b[i + 1..i + 1 + |Varint(rest / 128)|] == Varint(rest / 128)
    ensures GetFrom(b, i, k, low) == Some((low + rest * Pow2(7 * k), k + |Varint(rest)|))
    decreases rest, 0
  {
    hide Pow2, Or, ShiftLeft, Varint, GetFrom;
    var next := low + digit * Pow2(7 * k);
    GetStep(b, i, k, low, digit, next);
    if k == 9 {
      NoTenthContinuation(low, rest);
    } else {
      GetPut(b, i + 1, k + 1, next, rest / 128);
    }
  }

  lemma VarintOne(value: nat)
    ensures value < 128 ==> |Varint(value)| == 1
  {
  }

  /** Reading what was written gives the value, whatever follows it. */
  lemma GetOfPut(b: seq<byte>, i: nat, value: u64)
    requires i + |Varint(value)| <= |b| && b[i..i + |Varint(value)|] == Varint(value)
    ensures GetFrom(b, i, 0, 0) == Some((value, |Varint(value)|)) && |Varint(value)| <= 10
  {
    U64TakesTenBytes(value);
    GetPut(b, i, 0, 0, value);
  }

  // ---- address lists ------------------------------------------------------------------

  /** Addresses never go down, from `previous` on. */
  ghost predicate SortedFrom(previous: nat, entries: seq<(u64, u64)>)
    decreases entries
  {
    if entries == [] then true else previous <= entries[0].0 && SortedFrom(entries[0].0, entries[1..])
  }

  /** Subtraction in wrapping u64 arithmetic. */
  function WrappingSub(a: u64, b: u64): u64 {
    if a >= b then a - b else a - b + TWO_64
  }

  function Encoded(previous: u64, entries: seq<(u64, u64)>): seq<byte>
    decreases entries
  {
    if entries == [] then []
    else Varint(WrappingSub(entries[0].0, previous)) + Varint(entries[0].1) + Encoded(entries[0].0, entries[1..])
  }

  /** The decoder from offset i on, with n entries still to read. */
  function DecodedFrom(b: seq<byte>, i: nat, previous: u64, n: nat): Option<seq<(u64, u64)>>
    requires i <= |b|
    decreases n
  {
    if n == 0 then if i == |b| then Some([]) else None
    else
      match EntryAt(b, i, previous)
      case None => None
      case Some((entry, next)) => Consed(entry, DecodedFrom(b, next, entry.0, n - 1))
  }

  function Consed(entry: (u64, u64), rest: Option<seq<(u64, u64)>>): Option<seq<(u64, u64)>> {
    match rest
    case None => None
    case Some(entries) => Some([entry] + entries)
  }

  /** One entry: two integers, and an address that must not overflow. */
  function EntryAt(b: seq<byte>, i: nat, previous: u64): (r: Option<((u64, u64), nat)>)
    requires i <= |b|
    ensures r.Some? ==> i <= r.value.1 <= |b|
  {
    match GetFrom(b, i, 0, 0)
    case None => None
    case Some((delta, used)) =>
      GetUses(b, i, 0, 0);
      match GetFrom(b, i + used, 0, 0)
      case None => None
      case Some((value, used')) =>
        GetUses(b, i + used, 0, 0);
        if previous + delta >= TWO_64 then None else Some(((previous + delta, value), i + used + used'))
  }

  lemma {:induction false} OrBounded(a: nat, b: nat, k: nat)
    requires a < Pow2(k) && b < Pow2(k)
    ensures Or(a, b) < Pow2(k)
    decreases k
  {
    if k > 0 {
      OrBounded(a / 2, b / 2, k - 1);
    }
  }

  /** A successful read stays inside the input and yields a u64. */
  lemma {:induction false} GetUses(b: seq<byte>, i: nat, k: nat, value: nat)
    requires i <= |b| && value < TWO_64
    ensures var r := GetFrom(b, i, k, value);
            r.Some? ==> k < r.value.1 && i + (r.value.1 - k) <= |b| && r.value.0 < TWO_64
    decreases |b| - i
  {
    if i < |b| && k * 7 < 64 {
      Pow2Of64();
      var next := ShiftLeft(b[i] % 128, k * 7);
      OrBounded(value, next, 64);
      hide ShiftLeft, Or, Pow2;
      if b[i] >= 128 {
        GetUses(b, i + 1, k + 1, Or(value, next));
      }
    }
  }

  method EncodeDeltaAddresses(entries: seq<(u64, u64)>) returns (out: seq<byte>)
    ensures out == Encoded(0, entries)
  {
    out := [];
    var previous: u64 := 0;
    for i := 0 to |entries|
      invariant out + Encoded(previous, entries[i..]) == Encoded(0, entries)
    {
      var (address, value) := entries[i];
      ghost var before, delta := out, WrappingSub(address, previous);
      assert entries[i..][0] == entries[i] && entries[i..][1..] == entries[i + 1..];
      out := PutVarint(WrappingSub(address, previous), out);
      out := PutVarint(value, out);
      assert before + (Varint(delta) + Varint(value) + Encoded(address, entries[i + 1..]))
          == out + Encoded(address, entries[i + 1..]);
      previous := address;
    }
  }

  /** One round of the decoder loop. */
  method DecodeEntry(b: seq<byte>, start: nat, previous: u64) returns (r: Option<((u64, u64), nat)>)
    requires start <= |b|
    ensures r == EntryAt(b, start, previous)
  {
    hide GetFrom;
    GetUses(b, start, 0, 0);
    var delta := GetVarint(b, start);
    if delta.None? {
      return None;
    }
    var offset := start + delta.value.1;
    GetUses(b, offset, 0, 0);
    var value := GetVarint(b, offset);
    if value.None? {
      return None;
    }
    offset := offset + value.value.1;
    if previous + delta.value.0 >= TWO_64 {
      return None;
    }
    r := Some(((previous + delta.value.0, value.value.0), offset));
  }

  method DecodeDeltaAddresses(b: seq<byte>, count: nat) returns (r: Option<seq<(u64, u64)>>)
    ensures r == DecodedFrom(b, 0, 0, count)
  {
    hide EntryAt;
    var offset: nat, previous: u64 := 0, 0;
    var out: seq<(u64, u64)> := [];
    JoinedNothing(DecodedFrom(b, 0, 0, count));
    for n := 0 to count
      invariant offset <= |b|
      invariant DecodedFrom(b, 0, 0, count) == Joined(out, DecodedFrom(b, offset, previous, count - n))
    {
      var entry := DecodeEntry(b, offset, previous);
      if entry.None? {
        return None;
      }
      var (pair, next) := entry.value;
      JoinedConsed(out, pair, DecodedFrom(b, next, pair.0, count - n - 1));
      out, offset, previous := out + [pair], next, pair.0;
    }
    assert out + [] == out;
    r := if offset == |b| then Some(out) else None;
  }

  lemma JoinedNothing(rest: Option<seq<(u64, u64)>>)
    ensures Joined([], rest) == rest
  {
    if rest.Some? {
      assert [] + rest.value == rest.value;
    }
  }

  function Joined(out: seq<(u64, u64)>, rest: Option<seq<(u64, u64)>>): Option<seq<(u64, u64)>> {
    match rest
    case None => None
    case Some(entries) => Some(out + entries)
  }

  lemma JoinedConsed(out: seq<(u64, u64)>, entry: (u64, u64), rest: Option<seq<(u64, u64)>>)
    ensures Joined(out, Consed(entry, rest)) == Joined(out + [entry], rest)
  {
    if rest.Some? {
      assert out + ([entry] + rest.value) == out + [entry] + rest.value;
    }
  }

  /** The first entry of an encoding, and where the second begins. */
  lemma EntryOfEncoded(b: seq<byte>, i: nat, previous: u64, entries: seq<(u64, u64)>)
    requires i <= |b| && entries != [] && b[i..] == Encoded(previous, entries)
    ensures entries[0].0 < previous ==> EntryAt(b, i, previous) == None
    ensures entries[0].0 >= previous ==>
              && EntryAt(b, i, previous).Some? && EntryAt(b, i, previous).value.0 == entries[0]
              && b[EntryAt(b, i, previous).value.1..] == Encoded(entries[0].0, entries[1..])
  {
    var delta, value := WrappingSub(entries[0].0, previous), entries[0].1;
    var rest := Encoded(entries[0].0, entries[1..]);
    FirstEncoded(previous, entries);
    hide Varint, Encoded, GetFrom, EntryAt;
    EntryOfBytes(b, i, previous, delta, value, rest);
  }

  lemma FirstEncoded(previous: u64, entries: seq<(u64, u64)>)
    requires entries != []
    ensures Encoded(previous, entries)
         == Varint(WrappingSub(entries[0].0, previous)) + (Varint(entries[0].1) + Encoded(entries[0].0, entries[1..]))
  {
    hide Varint, WrappingSub;
  }

  /** Two integers and what follows them, read back as one entry. */
  lemma EntryOfBytes(b: seq<byte>, i: nat, previous: u64, delta: u64, value: u64, rest: seq<byte>)
    requires i <= |b| && b[i..] == Varint(delta) + (Varint(value) + rest)
    ensures EntryAt(b, i, previous) ==
            if previous + delta >= TWO_64 then None
            else Some(((previous + delta, value), i + |Varint(delta)| + |Varint(value)|))
    ensures i + |Varint(delta)| + |Varint(value)| <= |b| && b[i + |Varint(delta)| + |Varint(value)|..] == rest
  {
    hide Varint, GetFrom, EntryAt;
    var v, w := Varint(delta), Varint(value);
    SuffixSplit(b, i, v, w + rest);
    SuffixSplit(b, i + |v|, w, rest);
    GetOfPut(b, i, delta);
    GetOfPut(b, i + |v|, value);
    EntryOf(b, i, previous, delta, |v|, value, |w|);
  }

  /** An entry from its two integers. */
  lemma EntryOf(b: seq<byte>, i: nat, previous: u64, delta: u64, used: nat, value: u64, used': nat)
    requires i + used <= |b|
    requires GetFrom(b, i, 0, 0) == Some((delta, used)) && GetFrom(b, i + used, 0, 0) == Some((value, used'))
    ensures EntryAt(b, i, previous)
            == if previous + delta >= TWO_64 then None else Some(((previous + delta, value), i + used + used'))
  {
    hide GetFrom;
  }

  /** Decoding an encoding: exact for sorted addresses and the right count, else nothing. */
  lemma {:induction false} DecodesEncoded(b: seq<byte>, i: nat, previous: u64, entries: seq<(u64, u64)>, n: nat)
    requires i <= |b| && b[i..] == Encoded(previous, entries)
    ensures DecodedFrom(b, i, previous, n)
            == if SortedFrom(previous, entries) && n == |entries| then Some(entries) else None
    decreases n
  {
    if n == 0 {
      if entries == [] {
        assert |b[i..]| == 0;
      } else {
        assert |b[i..]| > 0;
      }
    } else if entries == [] {
      assert |b[i..]| == 0;
    } else {
      EntryOfEncoded(b, i, previous, entries);
      hide EntryAt, Encoded;
      if entries[0].0 >= previous {
        DecodesEncoded(b, EntryAt(b, i, previous).value.1, entries[0].0, entries[1..], n - 1);
        assert entries == [entries[0]] + entries[1..];
      }
    }
  }

  /** The round trip holds exactly for address-sorted lists decoded with their own length. */
  lemma RoundTripsIff(entries: seq<(u64, u64)>, n: nat)
    ensures DecodedFrom(Encoded(0, entries), 0, 0, n) == Some(entries) <==> SortedFrom(0, entries) && n == |entries|
  {
    var b := Encoded(0, entries);
    assert b[0..] == b;
    DecodesEncoded(b, 0, 0, entries, n);
  }

  // ---- the bytes themselves --------------------------------------------------------------------

  /** What seven-bit groups mean, the lowest first. */
  function Groups(b: seq<byte>): nat {
    if b == [] then 0 else b[0] % 128 + 128 * Groups(b[1..])
  }

  /**
   A value's bytes: its groups in order, every one but the last marked by the
   high bit, and the last not zero unless the value is.
   */
  lemma {:induction false} VarintIs(value: nat)
    ensures var b := Varint(value);
            && Groups(b) == value && b[|b| - 1] < 128 && (value > 0 ==> b[|b| - 1] > 0)
            && forall i :: 0 <= i < |b| - 1 ==> b[i] >= 128
  {
    var b := Varint(value);
    if value >= 128 {
      VarintIs(value / 128);
      assert b[1..] == Varint(value / 128);
      forall i | 0 <= i < |b| - 1 ensures b[i] >= 128 {
        assert i > 0 ==> b[i] == b[1..][i - 1];
      }
    } else {
      assert b[1..] == [];
    }
  }

  /** The first byte from i on without the mark. */
  ghost predicate Terminates(b: seq<byte>, i: nat, n: nat) {
    0 < n && i + n <= |b| && b[i + n - 1] < 128 && forall j :: i <= j < i + n - 1 ==> b[j] >= 128
  }

  lemma OrDigit(low: nat, digit: nat, k: nat)
    requires k <= 9 && low < Pow2(7 * k) && digit < 128
    ensures Or(low, ShiftLeft(digit, k * 7)) == (low + digit * Pow2(7 * k)) % TWO_64
    ensures k < 9 ==> low + digit * Pow2(7 * k) < Pow2(7 * (k + 1)) <= TWO_64
  {
    hide Pow2, Or, ShiftLeft;
    if k < 9 {
      PlaceBound(k);
      var p := Pow2(7 * k);
      MulAtMost(digit, p);
      FitsBelow(low + digit * p);
      DigitAdded(low, digit, k);
    } else {
      TopDigit(low, digit);
    }
  }

  lemma PlaceBound(k: nat)
    requires k < 9
    ensures Pow2(7 * (k + 1)) == 128 * Pow2(7 * k) <= TWO_64
  {
    PlaceOf(k);
    Pow2Monotone(7 * (k + 1), 64);
    Pow2Of64();
    hide Pow2;
  }

  /** Of the tenth group only the lowest bit is left in sixty-four. */
  lemma TopDigit(low: nat, digit: nat)
    requires low < Pow2(63) && digit < 128
    ensures Or(low, ShiftLeft(digit, 63)) == (low + digit * Pow2(63)) % TWO_64
  {
    hide Pow2, Or, ShiftLeft;
    TwoHalves();
    var half, bit := Pow2(63), digit % 2;
    TopShift(digit);
    HalvedDigit(digit, half);
    SmallBit(bit, half);
    WholeTurns(digit / 2, low + bit * half);
    OrDisjoint(low, bit, 63);
  }

  lemma TwoHalves()
    ensures TWO_64 == 2 * Pow2(63)
  {
    Pow2Of64();
    assert Pow2(64) == 2 * Pow2(63);
    hide Pow2;
  }

  lemma SmallBit(bit: nat, half: nat)
    requires bit <= 1
    ensures bit * half <= half
  {
    if bit == 1 {
      assert bit * half == half;
    }
  }

  lemma TopShift(digit: nat)
    ensures ShiftLeft(digit, 63) == digit % 2 * Pow2(63)
  {
    hide Pow2;
    TwoHalves();
    HalvedDigit(digit, Pow2(63));
    SmallBit(digit % 2, Pow2(63));
    WholeTurns(digit / 2, digit % 2 * Pow2(63));
  }

  lemma HalvedDigit(digit: nat, half: nat)
    ensures digit * half == digit / 2 * (2 * half) + digit % 2 * half
  {
    assert digit == 2 * (digit / 2) + digit % 2;
    MulDistributes(2 * (digit / 2), digit % 2, half);
  }

  lemma WholeTurns(turns: nat, rest: nat)
    requires rest < TWO_64
    ensures (turns * TWO_64 + rest) % TWO_64 == rest
  {
    DivModUnique(turns * TWO_64 + rest, TWO_64, turns, rest);
  }

  lemma {:induction false} GetGroups(b: seq<byte>, i: nat, k: nat, low: nat, n: nat)
    requires low < Pow2(7 * k) && k + n <= 10 && Terminates(b, i, n)
    ensures i <= |b| && GetFrom(b, i, k, low) == Some(((low + Groups(b[i..i + n]) * Pow2(7 * k)) % TWO_64, k + n))
    decreases n
  {
    hide Pow2, Or, ShiftLeft, Groups, GetFrom;
    var digit := b[i] % 128;
    OrDigit(low, digit, k);
    var next := Or(low, ShiftLeft(digit, k * 7));
    GetStep(b, i, k, low, digit, next);
    if n == 1 {
      LastGroup(b, i);
    } else {
      assert Terminates(b, i + 1, n - 1);
      PlaceOf(k);
      FitsBelow(low + digit * Pow2(7 * k));
      GetGroups(b, i + 1, k + 1, next, n - 1);
      MoreGroups(b, i, n, low, next, Pow2(7 * k));
    }
  }

  lemma FitsBelow(x: nat)
    ensures x < TWO_64 ==> x % TWO_64 == x
  {
  }

  lemma {:induction false} GetTerminates(b: seq<byte>, i: nat, k: nat, low: nat) returns (n: nat)
    requires i <= |b| && k <= 10 && GetFrom(b, i, k, low).Some?
    ensures k + n <= 10 && Terminates(b, i, n)
    decreases 10 - k
  {
    hide Or, ShiftLeft;
    if b[i] < 128 {
      n := 1;
    } else {
      n := GetTerminates(b, i + 1, k + 1, Or(low, ShiftLeft(b[i] % 128, k * 7)));
      n := n + 1;
    }
  }

  lemma LastGroup(b: seq<byte>, i: nat)
    requires i < |b| && b[i] < 128
    ensures Groups(b[i..i + 1]) == b[i] % 128
  {
    assert b[i..i + 1] == [b[i]] && b[i..i + 1][1..] == [];
  }

  lemma MoreGroups(b: seq<byte>, i: nat, n: nat, low: nat, next: nat, p: nat)
    requires n > 1 && i + n <= |b| && next == low + b[i] % 128 * p
    ensures low + Groups(b[i..i + n]) * p == next + Groups(b[i + 1..i + n]) * (128 * p)
  {
    assert b[i..i + n][1..] == b[i + 1..i + n];
    var g := Groups(b[i + 1..i + n]);
    MulDistributes(b[i] % 128, 128 * g, p);
    MulRegroups(g, p);
  }

  /**
   Reading any bytes, canonical or not: a value exactly if a byte without the mark
   comes within ten, and then its groups, modulo 2^64.
   */
  lemma GetIs(b: seq<byte>, offset: nat)
    requires offset <= |b|
    ensures GetFrom(b, offset, 0, 0).Some? <==> exists n: nat :: n <= 10 && Terminates(b, offset, n)
    ensures forall n: nat :: n <= 10 && Terminates(b, offset, n) ==>
              GetFrom(b, offset, 0, 0) == Some((Groups(b[offset..offset + n]) % TWO_64, n))
  {
    forall n: nat | n <= 10 && Terminates(b, offset, n)
      ensures GetFrom(b, offset, 0, 0) == Some((Groups(b[offset..offset + n]) % TWO_64, n))
    {
      GetGroups(b, offset, 0, 0, n);
    }
    hide Groups, GetFrom;
    if GetFrom(b, offset, 0, 0).Some? {
      var n := GetTerminates(b, offset, 0, 0);
    }
  }
}
