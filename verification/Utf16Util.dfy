/**
 * pkg/mention/utf16_util.go: the two transcoders and the byte-to-unit index.
 * `for _, v := range s` is a loop on the byte position `k`, one DecodeRune at a time.
 */
module Utf16Util {
  import opened Go
  import opened Utf
  import opened UtfTables

  /** One iteration of ranging over a string, in terms of the whole encoding. */
  lemma Encode16Step(s: seq<byte>, k: nat)
    requires k < |s|
    ensures var d := DecodeRune(s[k..]);
            k + d.width <= |s| && Encode16(s[k..]) == EncodeUnits(d.rune) + Encode16(s[k + d.width..])
  {
    var d := DecodeRune(s[k..]);
    assert s[k..][d.width..] == s[k + d.width..];
    assert ([d.rune] + Runes(s[k + d.width..]))[1..] == Runes(s[k + d.width..]);
  }

  /** One iteration of the decoding loops. */
  lemma Decode16Step(u: seq<uint16>, i: nat)
    requires i < |u|
    ensures var d := DecodeUnits(u[i..]);
            i + d.width <= |u| && Decode16(u[i..]) == EncodeRune(d.rune) + Decode16(u[i + d.width..])
  {
    var d := DecodeUnits(u[i..]);
    assert u[i..][d.width..] == u[i + d.width..];
    assert ([d.rune] + Runes16(u[i + d.width..]))[1..] == Runes16(u[i + d.width..]);
  }

  lemma TranscribesText(s: seq<byte>)
    ensures Transcribes16(Runes(s), Encode16(s))
    ensures ValidUtf8(s) ==> Transcribes8(Runes(s), s)
  {
    Utf16Transcribes(Runes(s));
    if ValidUtf8(s) { ValidTranscribes(s); }
  }

  lemma TranscribesUnits(u: seq<uint16>)
    ensures Transcribes8(Runes16(u), Decode16(u))
    ensures (forall i | 0 <= i < |u| :: !Unpaired(u, i)) ==> Transcribes16(Runes16(u), u)
  {
    Utf8Transcribes(Runes16(u));
    if forall i | 0 <= i < |u| :: !Unpaired(u, i) { WellFormedTranscribes(u); }
  }

  lemma EmptyEncodesToNothing(s: seq<byte>)
    requires s == []
    ensures Encode16(s) == []
  {
  }

  /**
   * The first loop counts, the second writes.  That every write `a[n]` is in range is checked by the
   * verifier; the array returned is the whole of what was allocated.
   */
  method EncodeStringToUTF16(s: seq<byte>) returns (a: array<uint16>)
    ensures fresh(a)
    ensures a[..] == Encode16(s) && Transcribes16(Runes(s), a[..])
    ensures ValidUtf8(s) ==> Transcribes8(Runes(s), s)
  {
    hide DecodeRune;
    hide Encode16;
    var n, k := 0, 0;
    while k < |s|
      invariant 0 <= k <= |s|
      invariant n + |Encode16(s[k..])| == |Encode16(s)|
    {
      Encode16Step(s, k);
      var v := DecodeRune(s[k..]).rune;
      n := n + 1;
      if v >= 0x1_0000 { n := n + 1; }
      k := k + DecodeRune(s[k..]).width;
    }
    EmptyEncodesToNothing(s[k..]);
    a := new uint16[n];
    n, k := 0, 0;
    while k < |s|
      invariant 0 <= k <= |s|
      invariant n <= a.Length && Encode16(s) == a[..n] + Encode16(s[k..])
    {
      Encode16Step(s, k);
      var v := DecodeRune(s[k..]).rune;
      if 0 <= v < 0xD800 || 0xE000 <= v < 0x1_0000 {
        a[n] := v;
        n := n + 1;
      } else if 0x1_0000 <= v <= 0x10FFFF {
        var x := v as int - 0x1_0000;
        a[n] := 0xD800 + x / 0x400;
        a[n + 1] := 0xDC00 + x % 0x400;
        n := n + 2;
      }
      k := k + DecodeRune(s[k..]).width;
    }
    EmptyEncodesToNothing(s[k..]);
    assert n == a.Length;
    TranscribesText(s);
  }

  lemma NothingDecodesToNothing(u: seq<uint16>)
    requires u == []
    ensures Decode16(u) == []
  {
  }

  /**
   * The first loop sizes the builder, the second fills it: `grown`, the argument of `b.Grow`, is
   * exactly the length of the string built.
   */
  method DecodeUTF16ToString(s: seq<uint16>) returns (grown: nat, b: seq<byte>)
    ensures b == Decode16(s) && Transcribes8(Runes16(s), b)
    ensures (forall i | 0 <= i < |s| :: !Unpaired(s, i)) ==> Transcribes16(Runes16(s), s)
    ensures grown == |b|
  {
    hide EncodeRune;
    hide Decode16;
    var n, i := 0, 0;
    while i < |s|
      invariant 0 <= i <= |s|
      invariant n + |Decode16(s[i..])| == |Decode16(s)|
    {
      Decode16Step(s, i);
      var r := s[i];
      if r < 0xD800 || 0xE000 <= r {
        n := n + RuneLen(r);
      } else if 0xD800 <= r < 0xDC00 && i + 1 < |s| && 0xDC00 <= s[i + 1] < 0xE000 {
        n := n + RuneLen((r as int - 0xD800) * 0x400 + (s[i + 1] - 0xDC00) + 0x1_0000);
        i := i + 1;
      } else {
        n := n + RuneLen(REPLACEMENT);
      }
      i := i + 1;
    }
    NothingDecodesToNothing(s[i..]);
    grown, b, i := n, [], 0;
    assert s[0..] == s;
    while i < |s|
      invariant 0 <= i <= |s|
      invariant Decode16(s) == b + Decode16(s[i..])
    {
      Decode16Step(s, i);
      var r := s[i];
      if r < 0xD800 || 0xE000 <= r {
        b := b + EncodeRune(r);
      } else if 0xD800 <= r < 0xDC00 && i + 1 < |s| && 0xDC00 <= s[i + 1] < 0xE000 {
        b := b + EncodeRune((r as int - 0xD800) * 0x400 + (s[i + 1] - 0xDC00) + 0x1_0000);
        i := i + 1;
      } else {
        b := b + EncodeRune(REPLACEMENT);
      }
      i := i + 1;
    }
    NothingDecodesToNothing(s[i..]);
    TranscribesUnits(s);
  }

  // ---------------------------------------------------------------- the byte-to-unit index

  ghost predicate EntryFits(s: seq<byte>, a: seq<int>, p: nat)
    requires p < |a| == |s| + 1
  {
    a[p] == if p == 0 || Boundary(s, p) then |Encode16(s[..p])| else a[p - 1]
  }

  ghost predicate IndexesBelow(s: seq<byte>, a: seq<int>, k: nat)
    requires k <= |a| == |s| + 1
  {
    forall p | 0 <= p < k :: EntryFits(s, a, p)
  }

  /**
   * `a` maps the byte offsets of `s` to UTF-16 offsets: at a rune boundary, the number of units of
   * the text before it; inside a rune, whatever the byte before has.
   */
  ghost predicate IsUnitIndex(s: seq<byte>, a: seq<int>) {
    |a| == |s| + 1 && IndexesBelow(s, a, |s| + 1)
  }

  lemma IndexGrows(s: seq<byte>, a: seq<int>, b: seq<int>, k: nat, w: nat, n: int)
    requires 1 <= w && k + w <= |a| == |b| == |s| + 1
    requires IndexesBelow(s, a, k) && n == |Encode16(s[..k])|
    requires forall p | 0 <= p < k :: b[p] == a[p]
    requires forall p | k <= p < k + w :: b[p] == n && (p == k <==> p == 0 || Boundary(s, p))
    ensures IndexesBelow(s, b, k + w)
  {
    hide Encode16;
    forall p | 0 <= p < k + w
      ensures EntryFits(s, b, p)
    {
      if p < k {
        assert EntryFits(s, a, p);
      } else if p > k {
        assert b[p] == n == b[p - 1];
      }
    }
  }

  lemma ExtendRunes(s: seq<byte>, k: nat, w: nat, rs: seq<Scalar>, r: Scalar)
    requires k + w <= |s| && rs == Runes(s[..k]) && ValidUtf8(s[..k])
    requires s[k..][..w] == EncodeRune(r)
    ensures ValidUtf8(s[..k + w]) && Runes(s[..k + w]) == rs + [r]
    ensures |Encode16(s[..k + w])| == |Encode16(s[..k])| + UnitLen(r)
  {
    hide EncodeRune;
    Utf8OfRunes(s[..k]);
    assert Utf8([r]) == EncodeRune(r) by { assert [r][1..] == []; }
    Utf8Concat(rs, [r]);
    assert s[k..][..w] == s[k..k + w];
    assert s[..k + w] == s[..k] + s[k..k + w];
    RunesOfUtf8(rs + [r]);
    Utf16Concat(rs, [r]);
    assert Utf16([r]) == EncodeUnits(r) by { assert [r][1..] == []; }
  }

  /** Appending the next rune of a valid prefix. */
  lemma Encode16Prefix(s: seq<byte>, k: nat)
    requires k < |s| && ValidUtf8(s[..k]) && DecodeRune(s[k..]).wellFormed
    ensures var d := DecodeRune(s[k..]);
            && k + d.width <= |s|
            && ValidUtf8(s[..k + d.width])
            && |Encode16(s[..k + d.width])| == |Encode16(s[..k])| + UnitLen(d.rune)
            && RuneLen(d.rune) == d.width
            && !IsContinuation(s[k])
            && forall p | k < p < k + d.width :: IsContinuation(s[p])
  {
    var d := DecodeRune(s[k..]);
    var e := EncodeRune(d.rune);
    EncodeInvertsDecode(s[k..]);
    forall p | 0 <= p < d.width
      ensures s[k + p] == e[p]
    {
      assert s[k..][..d.width][p] == s[k + p];
    }
    assert forall p | k < p < k + d.width :: s[p] == e[p - k];
    var rs := Runes(s[..k]);
    ExtendRunes(s, k, d.width, rs, d.rune);
  }

  lemma NothingIsValid(s: seq<byte>)
    requires s == []
    ensures ValidUtf8(s) && Encode16(s) == []
  {
  }

  lemma ValidStep(s: seq<byte>, k: nat)
    requires k < |s|
    ensures var d := DecodeRune(s[k..]);
            && k + d.width <= |s|
            && (ValidUtf8(s[k..]) <==> d.wellFormed && ValidUtf8(s[k + d.width..]))
            && (!d.wellFormed ==> d.width == 1 && RuneLen(d.rune) == 3)
            && (d.wellFormed ==> RuneLen(d.rune) == d.width)
  {
    var d := DecodeRune(s[k..]);
    if d.wellFormed { EncodeInvertsDecode(s[k..]); }
    assert s[k..][d.width..] == s[k + d.width..];
  }

  /**
   * The index needs no precondition: it comes back exactly for valid UTF-8.  An invalid byte is one
   * byte wide but has the rune length of U+FFFD, three, so the write position overtakes the input
   * and leaves the array.
   */
  method EncodeStringToUTF16Index(s: seq<byte>) returns (r: Outcome<array<int>>)
    ensures r.Returns? <==> ValidUtf8(s)
    ensures r.Returns? ==> fresh(r.value) && r.value.Length == |s| + 1 && IsUnitIndex(s, r.value[..])
  {
    hide DecodeRune;
    hide Encode16;
    hide ValidUtf8;
    var a := new int[|s| + 1];
    var n, i, k := 0, 0, 0;
    NothingIsValid(s[..0]);
    assert s[0..] == s;
    while k < |s|
      invariant 0 <= k <= |s| && k <= i <= a.Length
      invariant ValidUtf8(s) <==> i == k && ValidUtf8(s[k..])
      invariant i == k ==> ValidUtf8(s[..k]) && n == |Encode16(s[..k])|
      invariant i == k ==> IndexesBelow(s, a[..], k)
    {
      var d := DecodeRune(s[k..]);
      ValidStep(s, k);
      if d.wellFormed && i == k { Encode16Prefix(s, k); }
      var rLen := RuneLen(d.rune);
      ghost var before, i0 := a[..], i;
      var i2 := 0;
      while i2 < rLen
        invariant 0 <= i2 <= rLen && i == i0 + i2
        invariant d.wellFormed && i0 == k ==> i2 <= d.width
        invariant i <= a.Length
        invariant forall p | 0 <= p < i0 :: a[p] == before[p]
        invariant forall p | i0 <= p < i :: a[p] == n
      {
        if i >= a.Length { return Panics; }
        a[i] := n;
        i := i + 1;
        i2 := i2 + 1;
      }
      if d.wellFormed && i0 == k { IndexGrows(s, before, a[..], k, d.width, n); }
      if 0 <= d.rune < 0xD800 || 0xE000 <= d.rune < 0x1_0000 {
        n := n + 1;
      } else {
        n := n + 2;
      }
      k := k + d.width;
    }
    NothingIsValid(s[k..]);
    if i >= a.Length { return Panics; }
    ghost var filled := a[..];
    a[i] := n;
    assert s[..k] == s;
    IndexGrows(s, filled, a[..], k, 1, n);
    return Returns(a);
  }

  /** A single byte that starts no rune is enough for it to panic. */
  method IndexOfLoneByte() returns (r: Outcome<array<int>>)
    ensures r.Panics?
  {
    assert DecodeRune([0xFF]) == Step(REPLACEMENT, 1, false);
    r := EncodeStringToUTF16Index([0xFF]);
  }

  /** The rune boundary at or before an offset. */
  function Floor(s: seq<byte>, p: nat): (f: nat)
    requires p <= |s|
    ensures f <= p && (f == 0 || Boundary(s, f))
    ensures forall j | f < j <= p :: !Boundary(s, j)
  {
    if p == 0 || Boundary(s, p) then p else Floor(s, p - 1)
  }

  lemma {:induction false} IndexAt(s: seq<byte>, a: seq<int>, p: nat)
    requires IsUnitIndex(s, a) && p <= |s|
    ensures a[p] == |Encode16(s[..Floor(s, p)])|
  {
    hide Encode16;
    assert EntryFits(s, a, p);
    if p == 0 || Boundary(s, p) {
    } else {
      IndexAt(s, a, p - 1);
    }
  }

  lemma ValidStart(s: seq<byte>)
    requires ValidUtf8(s)
    ensures Boundary(s, 0)
  {
    if s != [] {
      EncodeInvertsDecode(s);
      assert s[0] == EncodeRune(DecodeRune(s).rune)[0];
    }
  }

  lemma {:induction false} Encode16Cut(s: seq<byte>, p: nat)
    requires ValidUtf8(s) && p <= |s| && Boundary(s, p)
    ensures ValidUtf8(s[..p]) && ValidUtf8(s[p..])
    ensures Encode16(s) == Encode16(s[..p]) + Encode16(s[p..])
  {
    CutAtBoundary(s, p);
    Utf16Concat(Runes(s[..p]), Runes(s[p..]));
  }

  /** The part of a valid string between two boundaries, as the middle of three encodings. */
  lemma Encode16Middle(s: seq<byte>, p: nat, q: nat)
    requires ValidUtf8(s) && p <= q <= |s| && Boundary(s, p) && Boundary(s, q)
    ensures ValidUtf8(s[p..q])
    ensures Encode16(s[..q]) == Encode16(s[..p]) + Encode16(s[p..q])
    ensures Encode16(s) == Encode16(s[..p]) + Encode16(s[p..q]) + Encode16(s[q..])
  {
    hide Encode16;
    Encode16Cut(s, q);
    assert s[..q][..p] == s[..p] && s[..q][p..] == s[p..q];
    Encode16Cut(s[..q], p);
  }

  /**
   * Cutting the encoded text between the units of any two byte offsets gives the encoding of the bytes
   * between the rune boundaries at or before them, and decoding that gives those bytes back.
   */
  lemma UnitsBetween(s: seq<byte>, a: seq<int>, p: nat, q: nat)
    requires ValidUtf8(s) && IsUnitIndex(s, a) && p <= q <= |s|
    ensures Floor(s, p) <= Floor(s, q)
    ensures 0 <= a[p] <= a[q] <= |Encode16(s)|
    ensures var text := s[Floor(s, p)..Floor(s, q)];
            && Encode16(s)[a[p]..a[q]] == Encode16(text)
            && Decode16(Encode16(s)[a[p]..a[q]]) == text
  {
    hide Encode16;
    hide Decode16;
    var p', q' := Floor(s, p), Floor(s, q);
    ValidStart(s);
    assert p' <= q';
    IndexAt(s, a, p);
    IndexAt(s, a, q);
    Encode16Middle(s, p', q');
    DecodeEncode16(s[p'..q']);
  }

  /** At rune boundaries, the offsets Telegram entities use, that is the substring itself. */
  lemma EntityUnits(s: seq<byte>, a: seq<int>, p: nat, q: nat)
    requires ValidUtf8(s) && IsUnitIndex(s, a)
    requires p <= q <= |s| && Boundary(s, p) && Boundary(s, q)
    ensures 0 <= a[p] <= a[q] <= |Encode16(s)|
    ensures Encode16(s)[a[p]..a[q]] == Encode16(s[p..q])
    ensures Decode16(Encode16(s)[a[p]..a[q]]) == s[p..q]
  {
    UnitsBetween(s, a, p, q);
  }

  /** The runes of a valid string lie between consecutive boundaries. */
  lemma RuneFillsToBoundary(s: seq<byte>, p: nat)
    requires ValidUtf8(s) && p < |s| && Boundary(s, p + 1)
    ensures var f := Floor(s, p);
            && ValidUtf8(s[..f])
            && |Encode16(s[..f])| < |Encode16(s[..p + 1])| <= |Encode16(s[..f])| + 2
  {
    hide Encode16;
    hide DecodeRune;
    hide ValidUtf8;
    hide RuneLen;
    var f := Floor(s, p);
    ValidStart(s);
    Encode16Cut(s, f);
    ValidStep(s, f);
    Encode16Prefix(s, f);
    var e := f + DecodeRune(s[f..]).width;
    assert s[f..][e - f..] == s[e..];
    ValidStart(s[e..]);
    assert Boundary(s, e);
    assert e == p + 1;
  }

  /** The index starts at 0, ends at the length of the encoding, and each byte moves it by 0, 1 or 2. */
  lemma IndexSteps(s: seq<byte>, a: seq<int>, p: nat)
    requires ValidUtf8(s) && IsUnitIndex(s, a) && p < |s|
    ensures a[0] == 0 && a[|s|] == |Encode16(s)|
    ensures a[p + 1] == a[p] <==> !Boundary(s, p + 1)
    ensures a[p] <= a[p + 1] <= a[p] + 2
  {
    hide Encode16;
    hide IsUnitIndex;
    IndexAt(s, a, 0);
    NothingIsValid(s[..0]);
    IndexAt(s, a, |s|);
    assert s[..|s|] == s;
    IndexAt(s, a, p);
    IndexAt(s, a, p + 1);
    if Boundary(s, p + 1) { RuneFillsToBoundary(s, p); }
  }
}
