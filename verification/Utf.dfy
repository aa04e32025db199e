/**
 * Unicode text as Go sees it.  A Go string is a sequence of bytes; ranging over it decodes UTF-8
 * (RFC 3629, sections 3 and 4) and yields U+FFFD, one byte wide, wherever no well-formed
 * sequence starts.  UTF-16 is RFC 2781, sections 2.1 and 2.2.
 */
module Utf {
  import opened Go

  /** A code point that is not a surrogate: what both encodings can carry. */
  type Scalar = x: int | 0 <= x < 0xD800 || 0xE000 <= x <= 0x10FFFF

  const REPLACEMENT: Scalar := 0xFFFD

  // ---------------------------------------------------------------- UTF-8

  predicate IsContinuation(b: byte) { 0x80 <= b < 0xC0 }

  /** `utf8.RuneLen` on a scalar value. */
  function RuneLen(r: Scalar): nat {
    if r < 0x80 then 1 else if r < 0x800 then 2 else if r < 0x1_0000 then 3 else 4
  }

  /** A continuation byte carrying the low six bits of `x`. */
  function Tail(x: nat): byte { 0x80 + x % 0x40 }

  function EncodeRune(r: Scalar): (s: seq<byte>)
    ensures |s| == RuneLen(r)
    ensures !IsContinuation(s[0])
    ensures forall i | 0 < i < |s| :: IsContinuation(s[i])
  {
    var r1 := r / 0x40;
    var r2 := r1 / 0x40;
    var r3 := r2 / 0x40;
    if r < 0x80 then [r]
    else if r < 0x800 then [0xC0 + r1, Tail(r)]
    else if r < 0x1_0000 then [0xE0 + r2, Tail(r1), Tail(r)]
    else [0xF0 + r3, Tail(r2), Tail(r1), Tail(r)]
  }

  /** The length of the well-formed sequence that `s` starts with, 0 if there is none (RFC 3629, section 4). */
  function PrefixLen(s: seq<byte>): (n: nat)
    requires s != []
    ensures n <= |s|
  {
    if s[0] < 0x80 then 1
    else if 0xC2 <= s[0] < 0xE0 && |s| >= 2 && IsContinuation(s[1]) then 2
    else if 0xE0 <= s[0] < 0xF0 && |s| >= 3
            && (if s[0] == 0xE0 then 0xA0 else 0x80) <= s[1] < (if s[0] == 0xED then 0xA0 else 0xC0)
            && IsContinuation(s[2]) then 3
    else if 0xF0 <= s[0] < 0xF5 && |s| >= 4
            && (if s[0] == 0xF0 then 0x90 else 0x80) <= s[1] < (if s[0] == 0xF4 then 0x90 else 0xC0)
            && IsContinuation(s[2]) && IsContinuation(s[3]) then 4
    else 0
  }

  /** One iteration of `for _, v := range s`: the rune, and how many code units it took. */
  datatype Step = Step(rune: Scalar, width: nat, wellFormed: bool)

  /** Append the six bits of a continuation byte to the bits read so far. */
  function Join(high: int, b: byte): int { high * 0x40 + (b - 0x80) }

  function DecodeRune(s: seq<byte>): (d: Step)
    requires s != []
    ensures 1 <= d.width <= |s|
    ensures d.wellFormed == (PrefixLen(s) > 0)
    ensures !d.wellFormed ==> d == Step(REPLACEMENT, 1, false)
  {
    match PrefixLen(s)
    case 1 => Step(s[0], 1, true)
    case 2 => Step(Join(s[0] - 0xC0, s[1]), 2, true)
    case 3 => Step(Join(Join(s[0] - 0xE0, s[1]), s[2]), 3, true)
    case 4 => Step(Join(Join(Join(s[0] - 0xF0, s[1]), s[2]), s[3]), 4, true)
    case _ => Step(REPLACEMENT, 1, false)
  }

  /** The runes `range` yields. */
  function Runes(s: seq<byte>): seq<Scalar> {
    if s == [] then [] else [DecodeRune(s).rune] + Runes(s[DecodeRune(s).width..])
  }

  predicate ValidUtf8(s: seq<byte>) {
    s == [] || (DecodeRune(s).wellFormed && ValidUtf8(s[DecodeRune(s).width..]))
  }

  function Utf8(rs: seq<Scalar>): seq<byte> {
    if rs == [] then [] else EncodeRune(rs[0]) + Utf8(rs[1..])
  }

  lemma DecodeInvertsEncode(r: Scalar, rest: seq<byte>)
    ensures DecodeRune(EncodeRune(r) + rest) == Step(r, RuneLen(r), true)
  {
    var s := EncodeRune(r) + rest;
    assert forall i | 0 <= i < RuneLen(r) :: s[i] == EncodeRune(r)[i];
    assert PrefixLen(s) == RuneLen(r);
  }

  lemma JoinSplits(high: nat, b: byte)
    requires IsContinuation(b)
    ensures Join(high, b) / 0x40 == high && Tail(Join(high, b)) == b
  {
  }

  lemma EncodeInvertsDecode(s: seq<byte>)
    requires s != [] && DecodeRune(s).wellFormed
    ensures EncodeRune(DecodeRune(s).rune) == s[..DecodeRune(s).width]
    ensures RuneLen(DecodeRune(s).rune) == DecodeRune(s).width
  {
    var n := PrefixLen(s);
    if n >= 2 {
      var h := s[0] as int - if n == 2 then 0xC0 else if n == 3 then 0xE0 else 0xF0;
      JoinSplits(h, s[1]);
      if n >= 3 {
        JoinSplits(Join(h, s[1]), s[2]);
        if n == 4 { JoinSplits(Join(Join(h, s[1]), s[2]), s[3]); }
      }
    }
  }

  lemma {:induction false} Utf8Concat(a: seq<Scalar>, b: seq<Scalar>)
    ensures Utf8(a + b) == Utf8(a) + Utf8(b)
  {
    if a == [] {
      assert a + b == b;
    } else {
      assert (a + b)[1..] == a[1..] + b;
      Utf8Concat(a[1..], b);
    }
  }

  lemma RunesOfCons(r: Scalar, rest: seq<byte>)
    ensures Runes(EncodeRune(r) + rest) == [r] + Runes(rest)
    ensures ValidUtf8(EncodeRune(r) + rest) == ValidUtf8(rest)
  {
    DecodeInvertsEncode(r, rest);
    assert (EncodeRune(r) + rest)[RuneLen(r)..] == rest;
  }

  /** A valid string may be cut off the front: decoding restarts cleanly behind it. */
  lemma {:induction false} RunesConcat(rs: seq<Scalar>, rest: seq<byte>)
    ensures Runes(Utf8(rs) + rest) == rs + Runes(rest)
    ensures ValidUtf8(Utf8(rs) + rest) == ValidUtf8(rest)
  {
    hide EncodeRune;
    hide Runes;
    hide ValidUtf8;
    if rs == [] {
      assert Utf8(rs) + rest == rest;
    } else {
      var tail := Utf8(rs[1..]) + rest;
      RunesConcat(rs[1..], rest);
      RunesOfCons(rs[0], tail);
      assert Utf8(rs) + rest == EncodeRune(rs[0]) + tail;
      assert [rs[0]] + (rs[1..] + Runes(rest)) == rs + Runes(rest);
    }
  }

  lemma RunesOfUtf8(rs: seq<Scalar>)
    ensures ValidUtf8(Utf8(rs)) && Runes(Utf8(rs)) == rs
  {
    RunesConcat(rs, []);
    assert Utf8(rs) + [] == Utf8(rs);
  }

  /** Re-encoding the runes of a string restores it exactly when it is valid, and lengthens it otherwise. */
  lemma {:induction false} Utf8OfRunes(s: seq<byte>)
    ensures ValidUtf8(s) <==> Utf8(Runes(s)) == s
    ensures !ValidUtf8(s) ==> |Utf8(Runes(s))| > |s|
  {
    if s == [] {
    } else {
      var d := DecodeRune(s);
      Utf8OfRunes(s[d.width..]);
      if d.wellFormed { EncodeInvertsDecode(s); }
      assert s == s[..d.width] + s[d.width..];
    }
  }

  /** The offset `p` does not cut a rune in two. */
  predicate Boundary(s: seq<byte>, p: nat)
    requires p <= |s|
  {
    p == |s| || !IsContinuation(s[p])
  }

  lemma {:induction false} BoundarySplitsRunes(rs: seq<Scalar>, p: nat) returns (k: nat)
    requires p <= |Utf8(rs)| && Boundary(Utf8(rs), p)
    ensures k <= |rs|
    ensures Utf8(rs)[..p] == Utf8(rs[..k]) && Utf8(rs)[p..] == Utf8(rs[k..])
  {
    if p == 0 {
      k := 0;
    } else {
      var n := RuneLen(rs[0]);
      assert forall i | 0 <= i < n :: Utf8(rs)[i] == EncodeRune(rs[0])[i];
      assert p >= n;
      var rest := Utf8(rs[1..]);
      assert p < |Utf8(rs)| ==> Utf8(rs)[p] == rest[p - n];
      var j := BoundarySplitsRunes(rs[1..], p - n);
      k := j + 1;
      assert rs[..k][1..] == rs[1..][..j] && rs[k..] == rs[1..][j..];
      assert Utf8(rs)[..p] == EncodeRune(rs[0]) + rest[..p - n];
    }
  }

  /** Cutting a valid string at a boundary leaves two valid strings whose runes are the whole string's. */
  lemma CutAtBoundary(s: seq<byte>, p: nat)
    requires ValidUtf8(s) && p <= |s| && Boundary(s, p)
    ensures ValidUtf8(s[..p]) && ValidUtf8(s[p..])
    ensures Runes(s) == Runes(s[..p]) + Runes(s[p..])
  {
    hide Runes;
    hide Utf8;
    hide ValidUtf8;
    var rs := Runes(s);
    Utf8OfRunes(s);
    var k := BoundarySplitsRunes(rs, p);
    RunesOfUtf8(rs[..k]);
    RunesOfUtf8(rs[k..]);
    assert rs == rs[..k] + rs[k..];
  }

  // ---------------------------------------------------------------- UTF-16

  predicate IsHigh(u: uint16) { 0xD800 <= u < 0xDC00 }
  predicate IsLow(u: uint16) { 0xDC00 <= u < 0xE000 }

  /** The number of code units of a rune. */
  function UnitLen(r: Scalar): nat { if r < 0x1_0000 then 1 else 2 }

  function EncodeUnits(r: Scalar): (u: seq<uint16>)
    ensures |u| == UnitLen(r)
  {
    if r < 0x1_0000 then [r]
    else [0xD800 + (r - 0x1_0000) / 0x400, 0xDC00 + (r - 0x1_0000) % 0x400]
  }

  function DecodeUnits(u: seq<uint16>): (d: Step)
    requires u != []
    ensures 1 <= d.width <= |u|
  {
    if u[0] < 0xD800 || u[0] >= 0xE000 then Step(u[0], 1, true)
    else if IsHigh(u[0]) && |u| > 1 && IsLow(u[1]) then
      Step(0x1_0000 + (u[0] as int - 0xD800) * 0x400 + (u[1] - 0xDC00), 2, true)
    else Step(REPLACEMENT, 1, false)
  }

  function Utf16(rs: seq<Scalar>): seq<uint16> {
    if rs == [] then [] else EncodeUnits(rs[0]) + Utf16(rs[1..])
  }

  function Runes16(u: seq<uint16>): seq<Scalar> {
    if u == [] then [] else [DecodeUnits(u).rune] + Runes16(u[DecodeUnits(u).width..])
  }

  lemma {:induction false} Utf16Concat(a: seq<Scalar>, b: seq<Scalar>)
    ensures Utf16(a + b) == Utf16(a) + Utf16(b)
  {
    if a == [] {
      assert a + b == b;
    } else {
      assert (a + b)[1..] == a[1..] + b;
      Utf16Concat(a[1..], b);
    }
  }

  lemma {:induction false} Runes16OfUtf16(rs: seq<Scalar>)
    ensures Runes16(Utf16(rs)) == rs
  {
    if rs == [] {
    } else {
      var u := Utf16(rs);
      assert DecodeUnits(u) == Step(rs[0], UnitLen(rs[0]), true);
      assert u[UnitLen(rs[0])..] == Utf16(rs[1..]);
      Runes16OfUtf16(rs[1..]);
    }
  }

  // ------------------------------------------- what the two functions of the package compute

  /** EncodeStringToUTF16 as a value. */
  function Encode16(s: seq<byte>): seq<uint16> { Utf16(Runes(s)) }

  /** DecodeUTF16ToString as a value. */
  function Decode16(u: seq<uint16>): seq<byte> { Utf8(Runes16(u)) }

  /** Encoding and decoding back is the identity exactly on valid UTF-8. */
  lemma DecodeEncode16(s: seq<byte>)
    ensures Decode16(Encode16(s)) == s <==> ValidUtf8(s)
    ensures Decode16(Encode16(s)) == Utf8(Runes(s))
  {
    Runes16OfUtf16(Runes(s));
    Utf8OfRunes(s);
  }

  /** A surrogate unit whose other half is not beside it. */
  predicate Unpaired(u: seq<uint16>, i: nat)
    requires i < |u|
  {
    || (IsHigh(u[i]) && !(i + 1 < |u| && IsLow(u[i + 1])))
    || (IsLow(u[i]) && !(i > 0 && IsHigh(u[i - 1])))
  }

  /** `u` with every unpaired surrogate replaced by U+FFFD. */
  function Repair(u: seq<uint16>): (v: seq<uint16>)
    ensures |v| == |u|
  {
    seq(|u|, i requires 0 <= i < |u| => if Unpaired(u, i) then REPLACEMENT else u[i])
  }

  /** One decoded step, encoded again, is the repaired stretch it came from. */
  lemma StepRepairs(u: seq<uint16>, k: nat)
    requires k < |u|
    requires k == 0 || !(IsHigh(u[k - 1]) && IsLow(u[k]))
    ensures var d := DecodeUnits(u[k..]);
            k + d.width <= |u| && EncodeUnits(d.rune) == Repair(u)[k..k + d.width]
    ensures var j := k + DecodeUnits(u[k..]).width;
            j < |u| ==> !(IsHigh(u[j - 1]) && IsLow(u[j]))
  {
    assert |u| - k > 1 ==> u[k..][1] == u[k + 1];
  }

  lemma {:induction false} EncodeDecode16At(u: seq<uint16>, k: nat)
    requires k <= |u|
    requires k == 0 || k == |u| || !(IsHigh(u[k - 1]) && IsLow(u[k]))
    ensures Utf16(Runes16(u[k..])) == Repair(u)[k..]
    decreases |u| - k
  {
    hide DecodeUnits;
    hide EncodeUnits;
    hide Repair;
    if k == |u| {
    } else {
      var d := DecodeUnits(u[k..]);
      StepRepairs(u, k);
      EncodeDecode16At(u, k + d.width);
      var rest := Runes16(u[k + d.width..]);
      assert u[k..][d.width..] == u[k + d.width..];
      assert Runes16(u[k..]) == [d.rune] + rest;
      assert ([d.rune] + rest)[1..] == rest;
      assert Repair(u)[k..] == Repair(u)[k..k + d.width] + Repair(u)[k + d.width..];
    }
  }

  /**
   * Decoding then encoding keeps the length and every unit, except that each unpaired surrogate
   * becomes U+FFFD.
   */
  lemma EncodeDecode16(u: seq<uint16>)
    ensures Encode16(Decode16(u)) == Repair(u)
  {
    RunesOfUtf8(Runes16(u));
    EncodeDecode16At(u, 0);
    assert u[0..] == u && Repair(u)[0..] == Repair(u);
  }

  /** ... so it is the identity exactly on well-formed UTF-16, and doing it twice is doing it once. */
  lemma EncodeDecode16Laws(u: seq<uint16>)
    ensures Encode16(Decode16(u)) == u <==> forall i | 0 <= i < |u| :: !Unpaired(u, i)
    ensures Encode16(Decode16(Encode16(Decode16(u)))) == Encode16(Decode16(u))
  {
    hide Encode16;
    hide Decode16;
    EncodeDecode16(u);
    EncodeDecode16(Repair(u));
    forall i | 0 <= i < |u| && Unpaired(u, i)
      ensures Repair(u)[i] != u[i]
    {
    }
    if forall i | 0 <= i < |u| :: !Unpaired(u, i) {
      assert Repair(u) == u;
    } else {
      var i :| 0 <= i < |u| && Unpaired(u, i);
      assert Repair(u)[i] != u[i];
    }
  }
}
