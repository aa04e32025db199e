/**
 * What the encodings are, number by number: the table of RFC 3629, section 3, and the equations of
 * RFC 2781, sections 2.1 and 2.2.  The encoders and decoders of Utf are compared with these.
 */
module UtfTables {
  import opened Go
  import opened Utf

  // ---------------------------------------------------------------- UTF-8

  /** The bytes `s` are the one UTF-8 sequence of the character number `r`. */
  predicate Spells8(s: seq<byte>, r: int) {
    match |s|
    case 1 => s[0] < 0x80 && r == s[0]
    case 2 =>
      && 0xC0 <= s[0] < 0xE0 && 0x80 <= s[1] < 0xC0
      && r == (s[0] as int - 0xC0) * 0x40 + (s[1] - 0x80)
      && 0x80 <= r
    case 3 =>
      && 0xE0 <= s[0] < 0xF0 && 0x80 <= s[1] < 0xC0 && 0x80 <= s[2] < 0xC0
      && r == (s[0] as int - 0xE0) * 0x1000 + (s[1] as int - 0x80) * 0x40 + (s[2] - 0x80)
      && 0x800 <= r && !(0xD800 <= r < 0xE000)
    case 4 =>
      && 0xF0 <= s[0] < 0xF8 && 0x80 <= s[1] < 0xC0 && 0x80 <= s[2] < 0xC0 && 0x80 <= s[3] < 0xC0
      && r == (s[0] as int - 0xF0) * 0x4_0000 + (s[1] as int - 0x80) * 0x1000 + (s[2] as int - 0x80) * 0x40
              + (s[3] - 0x80)
      && 0x1_0000 <= r <= 0x10_FFFF
    case _ => false
  }

  lemma EncodeRuneSpells(r: Scalar)
    ensures Spells8(EncodeRune(r), r)
  {
    var r1 := r / 0x40;
    var r2 := r1 / 0x40;
    assert r2 / 0x40 * 0x4_0000 + r2 % 0x40 * 0x1000 + r1 % 0x40 * 0x40 + r % 0x40 == r;
  }

  lemma SpellsShort(s: seq<byte>, r: Scalar)
    requires Spells8(s, r) && |s| <= 3
    ensures s == EncodeRune(r)
  {
    if |s| == 2 {
      JoinSplits(s[0] - 0xC0, s[1]);
    } else if |s| == 3 {
      var h1 := Join(s[0] - 0xE0, s[1]);
      assert r == Join(h1, s[2]);
      JoinSplits(h1, s[2]);
      JoinSplits(s[0] - 0xE0, s[1]);
    }
  }

  lemma SpellsLong(s: seq<byte>, r: Scalar)
    requires Spells8(s, r) && |s| == 4
    ensures s == EncodeRune(r)
  {
    var h1 := Join(s[0] - 0xF0, s[1]);
    var h2 := Join(h1, s[2]);
    assert r == Join(h2, s[3]);
    JoinSplits(h2, s[3]);
    JoinSplits(h1, s[2]);
    JoinSplits(s[0] - 0xF0, s[1]);
    hide Join;
    hide Tail;
    assert r / 0x40 == h2 && h2 / 0x40 == h1 && h1 / 0x40 == s[0] - 0xF0;
    assert EncodeRune(r) == [s[0], s[1], s[2], s[3]];
  }

  /** A character has one sequence. */
  lemma SpellsOnce(s: seq<byte>, r: Scalar)
    requires Spells8(s, r)
    ensures s == EncodeRune(r)
  {
    if |s| <= 3 { SpellsShort(s, r); } else { SpellsLong(s, r); }
  }

  /**
   * Ranging over a string: the character whose sequence the string starts with, and U+FFFD, one byte
   * wide, if it starts with none.
   */
  lemma DecodeRuneExactly(s: seq<byte>)
    requires s != []
    ensures var d := DecodeRune(s);
            if d.wellFormed then Spells8(s[..d.width], d.rune) else d.rune == 0xFFFD && d.width == 1
    ensures forall n, r: Scalar | 1 <= n <= |s| && Spells8(s[..n], r) :: DecodeRune(s) == Step(r, n, true)
  {
    var d := DecodeRune(s);
    if d.wellFormed {
      EncodeInvertsDecode(s);
      EncodeRuneSpells(d.rune);
    }
    forall n, r: Scalar | 1 <= n <= |s| && Spells8(s[..n], r)
      ensures DecodeRune(s) == Step(r, n, true)
    {
      SpellsOnce(s[..n], r);
      DecodeInvertsEncode(r, s[n..]);
      assert EncodeRune(r) + s[n..] == s;
    }
  }

  /** The first difference decides. */
  predicate Before(s: seq<int>, t: seq<int>) {
    exists i | 0 <= i < |s| && i < |t| :: s[..i] == t[..i] && s[i] < t[i]
  }

  /** Greater characters have greater sequences. */
  lemma EncodeRuneKeepsOrder(r: Scalar, r': Scalar)
    requires r < r'
    ensures Before(EncodeRune(r), EncodeRune(r'))
  {
    var s, t := EncodeRune(r), EncodeRune(r');
    if s[0] < t[0] {
      assert s[..0] == t[..0];
    } else if s[1] < t[1] {
      assert s[..1] == t[..1];
    } else if s[2] < t[2] {
      assert s[..2] == t[..2];
    } else {
      assert s[..3] == t[..3];
    }
  }

  // ---------------------------------------------------------------- UTF-16

  /** The units `u` are those of the character number `r`. */
  predicate Spells16(u: seq<uint16>, r: int) {
    match |u|
    case 1 => r == u[0] && !(0xD800 <= u[0] < 0xE000)
    case 2 =>
      && 0xD800 <= u[0] < 0xDC00 && 0xDC00 <= u[1] < 0xE000
      && r == 0x1_0000 + (u[0] as int - 0xD800) * 0x400 + (u[1] - 0xDC00)
    case _ => false
  }

  lemma EncodeUnitsSpells(r: Scalar)
    ensures Spells16(EncodeUnits(r), r)
  {
  }

  /** One unit, or a high and a low one, decode to what they spell, and any other unit to U+FFFD. */
  lemma DecodeUnitsExactly(u: seq<uint16>)
    requires u != []
    ensures var d := DecodeUnits(u);
            if d.wellFormed then Spells16(u[..d.width], d.rune) else d.rune == 0xFFFD && d.width == 1
    ensures forall n, r: Scalar | 1 <= n <= |u| && Spells16(u[..n], r) :: DecodeUnits(u) == Step(r, n, true)
  {
    forall n, r: Scalar | 1 <= n <= |u| && Spells16(u[..n], r)
      ensures DecodeUnits(u) == Step(r, n, true)
    {
      assert u[..n][0] == u[0];
      if n == 2 { assert u[..n][1] == u[1]; }
    }
  }

  lemma EncodeUnitsKeepsOrder(r: Scalar, r': Scalar)
    requires 0x1_0000 <= r < r'
    ensures Before(EncodeUnits(r), EncodeUnits(r'))
  {
    var u, v := EncodeUnits(r), EncodeUnits(r');
    if u[0] < v[0] { assert u[..0] == v[..0]; } else { assert u[..1] == v[..1] && u[1] < v[1]; }
  }

  // ---------------------------------------------------------------- whole strings

  /** `s` consists of the sequences of the characters `rs`, in order and with nothing between them. */
  predicate Transcribes8(rs: seq<Scalar>, s: seq<byte>) {
    if rs == [] then s == []
    else
      var n := if rs[0] < 0x80 then 1 else if rs[0] < 0x800 then 2 else if rs[0] < 0x1_0000 then 3 else 4;
      n <= |s| && Spells8(s[..n], rs[0]) && Transcribes8(rs[1..], s[n..])
  }

  /** `u` consists of the units of the characters `rs`. */
  predicate Transcribes16(rs: seq<Scalar>, u: seq<uint16>) {
    if rs == [] then u == []
    else
      var n := if rs[0] < 0x1_0000 then 1 else 2;
      n <= |u| && Spells16(u[..n], rs[0]) && Transcribes16(rs[1..], u[n..])
  }

  lemma {:induction false} Utf8Transcribes(rs: seq<Scalar>)
    ensures Transcribes8(rs, Utf8(rs))
  {
    if rs == [] {
    } else {
      EncodeRuneSpells(rs[0]);
      Utf8Transcribes(rs[1..]);
      var s, n := EncodeRune(rs[0]), |EncodeRune(rs[0])|;
      hide EncodeRune;
      hide Spells8;
      assert Utf8(rs)[..n] == s && Utf8(rs)[n..] == Utf8(rs[1..]);
    }
  }

  lemma {:induction false} Utf16Transcribes(rs: seq<Scalar>)
    ensures Transcribes16(rs, Utf16(rs))
  {
    if rs == [] {
    } else {
      EncodeUnitsSpells(rs[0]);
      Utf16Transcribes(rs[1..]);
      var u, n := EncodeUnits(rs[0]), |EncodeUnits(rs[0])|;
      hide EncodeUnits;
      hide Spells16;
      assert Utf16(rs)[..n] == u && Utf16(rs)[n..] == Utf16(rs[1..]);
    }
  }

  /** A valid string consists of the characters that ranging over it gives. */
  lemma ValidTranscribes(s: seq<byte>)
    requires ValidUtf8(s)
    ensures Transcribes8(Runes(s), s)
  {
    Utf8OfRunes(s);
    Utf8Transcribes(Runes(s));
  }

  /** So do units without an unpaired surrogate. */
  lemma WellFormedTranscribes(u: seq<uint16>)
    requires forall i | 0 <= i < |u| :: !Unpaired(u, i)
    ensures Transcribes16(Runes16(u), u)
  {
    EncodeDecode16Laws(u);
    RunesOfUtf8(Runes16(u));
    Utf16Transcribes(Runes16(u));
  }
}
