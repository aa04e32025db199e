/**
 * What GetTags promises about valid UTF-8 text and an ordinary prefix (an ASCII character that is not
 * itself a terminator), in terms of the text alone; and what a message entity made from a tag denotes.
 */
module MentionLaws {
  import opened Go
  import opened Utf
  import opened Utf16Util
  import opened Marks
  import opened Mention

  predicate OrdinaryPrefix(sc: Scanner) {
    0 <= sc.prefix < 0x80 && !sc.IsTerm(sc.prefix)
  }

  /** A terminator starts at byte `i`. */
  predicate TermAt(sc: Scanner, s: seq<byte>, i: nat)
    requires i < |s|
  {
    Boundary(s, i) && sc.IsTerm(DecodeRune(s[i..]).rune)
  }

  /** A prefix that starts the text or follows a one-byte terminator. */
  predicate TagStart(sc: Scanner, s: seq<byte>, p: nat)
    requires p < |s|
  {
    s[p] == sc.prefix && (p == 0 || (s[p - 1] < 0x80 && sc.IsTerm(s[p - 1])))
  }

  /** No terminator starts in `s[p..e]`, and `e` is where the next one does, or the end. */
  predicate MaximalRun(sc: Scanner, s: seq<byte>, p: nat, e: nat) {
    && p < e <= |s|
    && (forall i | p <= i < e :: !TermAt(sc, s, i))
    && (e < |s| ==> TermAt(sc, s, e))
  }

  /** `t` is `s` without the prefix characters in front. */
  predicate Trimmed(sc: Scanner, s: seq<byte>, t: seq<byte>) {
    && |t| <= |s| && t == s[|s| - |t|..]
    && (forall i | 0 <= i < |s| - |t| :: s[i] == sc.prefix)
    && (t != [] ==> t[0] != sc.prefix)
  }

  /** A rune below 0x80 is one byte, the byte itself; and such a byte is its own rune. */
  lemma DecodedAscii(s: seq<byte>)
    requires s != []
    ensures DecodeRune(s).rune < 0x80 || s[0] < 0x80 ==> DecodeRune(s) == Step(s[0], 1, true)
  {
    if PrefixLen(s) > 0 { EncodeInvertsDecode(s); }
  }

  lemma {:induction false} TrimTrims(sc: Scanner, s: seq<byte>)
    requires OrdinaryPrefix(sc)
    ensures Trimmed(sc, s, sc.Trim(s))
  {
    if s == [] {
    } else {
      var d := DecodeRune(s);
      if d.rune == sc.PrefixRune() {
        DecodedAscii(s);
        TrimTrims(sc, s[1..]);
        var t := sc.Trim(s[1..]);
        assert s[1..][|s| - 1 - |t|..] == s[|s| - |t|..];
        forall i | 0 <= i < |s| - |t|
          ensures s[i] == sc.prefix
        {
          if i > 0 { assert s[1..][i - 1] == s[i]; }
        }
      } else {
        DecodedAscii(s);
        assert s[0..] == s;
      }
    }
  }

  lemma {:induction false} TermMarksMean(sc: Scanner, s: seq<byte>, i: nat)
    requires ValidUtf8(s) && i < |s|
    ensures sc.TermMarks(s)[i] == TermAt(sc, s, i)
  {
    hide DecodeRune;
    hide Scanner.IsTerm;
    var w := DecodeRune(s).width;
    ValidStart(s);
    assert s[0..] == s;
    if i >= w {
      TermMarksMean(sc, s[w..], i - w);
      assert s[w..][i - w..] == s[i..];
    } else if i > 0 {
      EncodeInvertsDecode(s);
      assert s[i] == EncodeRune(DecodeRune(s).rune)[i];
    }
  }

  /** What lies right before an ASCII byte and starts a rune is one byte long. */
  lemma RuneBeforeAscii(s: seq<byte>, p: nat)
    requires 0 < p < |s| && s[p] < 0x80 && ValidUtf8(s[p - 1..])
    ensures s[p - 1] < 0x80
  {
    var d := DecodeRune(s[p - 1..]);
    EncodeInvertsDecode(s[p - 1..]);
  }

  /** A terminator right before an ASCII byte is one byte long. */
  lemma TermBefore(sc: Scanner, s: seq<byte>, p: nat)
    requires ValidUtf8(s) && 0 < p < |s| && s[p] < 0x80
    ensures TermAt(sc, s, p - 1) <==> s[p - 1] < 0x80 && sc.IsTerm(s[p - 1])
  {
    hide Scanner.IsTerm;
    DecodedAscii(s[p - 1..]);
    if Boundary(s, p - 1) {
      CutAtBoundary(s, p - 1);
      RuneBeforeAscii(s, p);
    }
  }

  lemma OpenMeans(sc: Scanner, s: seq<byte>, p: nat)
    requires ValidUtf8(s) && OrdinaryPrefix(sc) && p < |s|
    ensures sc.Open(s)[p] == TagStart(sc, s, p)
    ensures sc.Open(s)[p] ==> !sc.TermMarks(s)[p]
  {
    hide Scanner.TermMarks;
    hide Scanner.IsTerm;
    hide DecodeRune;
    hide ValidUtf8;
    TermMarksMean(sc, s, p);
    DecodedAscii(s[p..]);
    if p > 0 && s[p] == sc.prefix {
      TermMarksMean(sc, s, p - 1);
      TermBefore(sc, s, p);
    }
  }

  lemma RunMeans(sc: Scanner, s: seq<byte>, p: nat)
    requires ValidUtf8(s) && p < |s| && !sc.TermMarks(s)[p]
    ensures MaximalRun(sc, s, p, NextTerm(sc.TermMarks(s), p))
  {
    hide Scanner.TermMarks;
    hide TermAt;
    forall i | 0 <= i < |s|
      ensures sc.TermMarks(s)[i] == TermAt(sc, s, i)
    {
      TermMarksMean(sc, s, i);
    }
  }

  /** No opening prefix can be a terminator, so GetTags returns. */
  lemma OrdinaryPrefixNeverPanics(sc: Scanner, s: seq<byte>)
    requires ValidUtf8(s) && OrdinaryPrefix(sc)
    ensures !sc.Clashes(sc.Open(s), sc.TermMarks(s))
  {
    forall p | 0 <= p < |s|
      ensures !(sc.Open(s)[p] && sc.TermMarks(s)[p])
    {
      OpenMeans(sc, s, p);
    }
  }

  /** `t` is the tag of the run that starts at `p`. */
  ghost predicate IsTagOfRun(sc: Scanner, s: seq<byte>, p: nat, e: nat, t: Tag) {
    && p < |s| && TagStart(sc, s, p) && MaximalRun(sc, s, p, e)
    && t == Tag(sc.prefix, t.tag, [], p)
    && t.tag != [] && Trimmed(sc, s[p + 1..e], t.tag)
  }

  lemma TagAtMeans(sc: Scanner, s: seq<byte>, p: nat)
    requires ValidUtf8(s) && OrdinaryPrefix(sc) && p < |s|
    ensures sc.TagAt(s, p) != [] ==>
              |sc.TagAt(s, p)| == 1 && IsTagOfRun(sc, s, p, NextTerm(sc.TermMarks(s), p), sc.TagAt(s, p)[0])
    ensures sc.TagAt(s, p) == [] && TagStart(sc, s, p) ==>
              forall i | p <= i < NextTerm(sc.TermMarks(s), p) :: s[i] == sc.prefix
  {
    hide Scanner.TermMarks;
    hide Scanner.Trim;
    hide OrdinaryPrefix;
    OpenMeans(sc, s, p);
    if TagStart(sc, s, p) {
      RunMeans(sc, s, p);
      var e := NextTerm(sc.TermMarks(s), p);
      TrimTrims(sc, s[p + 1..e]);
      if sc.TagAt(s, p) == [] {
        assert forall i | p < i < e :: s[i] == s[p + 1..e][i - p - 1];
      }
    }
  }

  /** Everything GetTags returns is the tag of a run ... */
  lemma TagsSound(sc: Scanner, s: seq<byte>, t: Tag) returns (e: nat)
    requires ValidUtf8(s) && OrdinaryPrefix(sc) && t in sc.Tags(s)
    ensures IsTagOfRun(sc, s, t.index, e, t)
  {
    FlatContains(sc.Cells(s), |s|, t);
    var p :| 0 <= p < |s| && t in sc.Cells(s)[p];
    TagAtMeans(sc, s, p);
    e := NextTerm(sc.TermMarks(s), p);
  }

  /** ... every run that is not all prefixes has its tag in the result ... */
  lemma TagsComplete(sc: Scanner, s: seq<byte>, p: nat, e: nat)
    requires ValidUtf8(s) && OrdinaryPrefix(sc)
    requires p < |s| && TagStart(sc, s, p) && MaximalRun(sc, s, p, e)
    requires exists i :: p <= i < e && s[i] != sc.prefix
    ensures exists t :: t in sc.Tags(s) && IsTagOfRun(sc, s, p, e, t)
  {
    OpenMeans(sc, s, p);
    RunMeans(sc, s, p);
    var e' := NextTerm(sc.TermMarks(s), p);
    assert e == e';
    TagAtMeans(sc, s, p);
    var t := sc.TagAt(s, p)[0];
    assert t in sc.Cells(s)[p];
    FlatContains(sc.Cells(s), |s|, t);
  }

  /** ... a later tag starts behind the end of an earlier run ... */
  lemma RunsDisjoint(sc: Scanner, s: seq<byte>, p: nat, e: nat, q: nat)
    requires MaximalRun(sc, s, p, e) && p < q < |s| && TagStart(sc, s, q)
    ensures e < q
  {
    DecodedAscii(s[q - 1..]);
    assert TermAt(sc, s, q - 1);
  }

  lemma TagsBelow(sc: Scanner, s: seq<byte>, n: nat, t: Tag)
    requires ValidUtf8(s) && OrdinaryPrefix(sc) && n <= |s| && t in Flat(sc.Cells(s), n)
    ensures t.index < n && TagStart(sc, s, t.index) && sc.TagAt(s, t.index) == [t]
  {
    hide Scanner.TagAt;
    hide Scanner.TermMarks;
    hide ValidUtf8;
    hide MaximalRun;
    hide Trimmed;
    hide TagStart;
    hide NextTerm;
    FlatContains(sc.Cells(s), n, t);
    var p :| 0 <= p < n && t in sc.Cells(s)[p];
    TagAtMeans(sc, s, p);
  }

  lemma LastCell(sc: Scanner, s: seq<byte>, n: nat)
    requires ValidUtf8(s) && OrdinaryPrefix(sc) && 0 < n <= |s|
    ensures |sc.TagAt(s, n - 1)| <= 1
    ensures forall t | t in sc.TagAt(s, n - 1) :: t.index == n - 1
  {
    hide Scanner.TagAt;
    hide Scanner.TermMarks;
    hide NextTerm;
    hide ValidUtf8;
    hide OrdinaryPrefix;
    hide TagStart;
    hide MaximalRun;
    hide Trimmed;
    TagAtMeans(sc, s, n - 1);
  }

  /** ... and the tags come in order. */
  lemma {:induction false} TagsOrdered(sc: Scanner, s: seq<byte>, n: nat, i: nat, j: nat)
    requires ValidUtf8(s) && OrdinaryPrefix(sc) && n <= |s|
    requires i < j < |Flat(sc.Cells(s), n)|
    ensures Flat(sc.Cells(s), n)[i].index < Flat(sc.Cells(s), n)[j].index
  {
    hide Scanner.TagAt;
    hide TagStart;
    hide ValidUtf8;
    hide OrdinaryPrefix;
    hide IsTagOfRun;
    hide NextTerm;
    if n == 0 {
    } else {
      var before := Flat(sc.Cells(s), n - 1);
      LastCell(sc, s, n);
      assert Flat(sc.Cells(s), n) == before + sc.TagAt(s, n - 1);
      if j < |before| {
        TagsOrdered(sc, s, n - 1, i, j);
      } else {
        TagsBelow(sc, s, n - 1, before[i]);
      }
    }
  }

  // ------------------------------------------------------------- message entities made from tags

  /** A message entity: an offset and a length in UTF-16 units. */
  datatype Entity = Entity(offset: int32, length: int32)

  /** The text an entity picks out of a message, decoded from its UTF-16 units. */
  function Denoted(s: seq<byte>, offset: int, length: int): Option<seq<byte>> {
    var u := Encode16(s);
    if 0 <= offset <= offset + length <= |u| then Some(Decode16(u[offset..offset + length])) else None
  }

  lemma {:induction false} EncodingIsShorter(rs: seq<Scalar>)
    ensures |Utf16(rs)| <= |Utf8(rs)|
  {
    if rs == [] {
    } else {
      EncodingIsShorter(rs[1..]);
    }
  }

  lemma TagFits(sc: Scanner, s: seq<byte>, t: Tag)
    requires t in sc.Tags(s)
    ensures t.index + |t.tag| + 1 <= |s|
  {
    FlatContains(sc.Cells(s), |s|, t);
  }

  /** Another prefix character follows the one that opens the tag. */
  predicate Doubled(sc: Scanner, s: seq<byte>, t: Tag) {
    t.index + 1 < |s| && s[t.index + 1] == sc.prefix
  }

  lemma TagWithinRun(sc: Scanner, s: seq<byte>, p: nat, e: nat, t: Tag)
    requires IsTagOfRun(sc, s, p, e, t)
    ensures p + |t.tag| + 1 <= e <= |s|
  {
  }

  lemma DoubledDiffers(sc: Scanner, s: seq<byte>, p: nat, e: nat, t: Tag, text: seq<byte>)
    requires IsTagOfRun(sc, s, p, e, t) && Doubled(sc, s, t)
    requires text <= s[p..]
    ensures text != [sc.prefix % 0x100] + t.tag
  {
    hide TagStart;
    hide MaximalRun;
    assert |text| > 1 ==> text[1] == s[p + 1];
    assert ([sc.prefix % 0x100] + t.tag)[1] == t.tag[0];
  }

  /** With no prefix to trim, the tag is all of its run. */
  lemma WholeRun(sc: Scanner, s: seq<byte>, p: nat, e: nat, t: Tag)
    requires IsTagOfRun(sc, s, p, e, t) && !Doubled(sc, s, t)
    ensures t.tag == s[p + 1..e]
  {
    hide TagStart;
    var run := s[p + 1..e];
    assert run[0] == s[p + 1];
    assert run[0..] == run;
  }

  /** The bytes the entity of a tag covers are the prefix and the tag unless the prefix is doubled. */
  lemma CoveredBytes(sc: Scanner, s: seq<byte>, p: nat, e: nat, t: Tag)
    requires ValidUtf8(s) && OrdinaryPrefix(sc) && IsTagOfRun(sc, s, p, e, t)
    ensures p + |t.tag| + 1 <= |s|
    ensures Floor(s, p) == p
    ensures p <= Floor(s, p + |t.tag| + 1)
    ensures s[p..Floor(s, p + |t.tag| + 1)] == [sc.prefix] + t.tag <==> !Doubled(sc, s, t)
  {
    hide DecodeRune;
    hide ValidUtf8;
    hide Scanner.IsTerm;
    hide Trimmed;
    hide Doubled;
    TagWithinRun(sc, s, p, e, t);
    var q := p + |t.tag| + 1;
    assert Boundary(s, p);
    var text := s[p..Floor(s, q)];
    if !Doubled(sc, s, t) {
      WholeRun(sc, s, p, e, t);
      assert Floor(s, e) == e;
      assert text == [sc.prefix] + t.tag;
    } else {
      DoubledDiffers(sc, s, p, e, t, text);
    }
  }

  lemma NotLonger(s: seq<byte>)
    requires ValidUtf8(s)
    ensures |Encode16(s)| <= |s|
  {
    EncodingIsShorter(Runes(s));
    Utf8OfRunes(s);
  }

  /**
   * The entity made from a tag runs from the index of its first byte to that of the byte
   * `index + len(tag) + 1`.  It denotes the prefix and the tag exactly when the prefix is not
   * doubled: leading prefixes are trimmed from the tag, but not counted back into its position.
   */
  lemma EntityDenotesTag(sc: Scanner, s: seq<byte>, a: seq<int>, t: Tag)
    requires ValidUtf8(s) && OrdinaryPrefix(sc) && IsUnitIndex(s, a) && t in sc.Tags(s)
    ensures t.index + |t.tag| + 1 <= |s|
    ensures 0 <= a[t.index] <= a[t.index + |t.tag| + 1] <= |Encode16(s)| <= |s|
    ensures Denoted(s, a[t.index], a[t.index + |t.tag| + 1] - a[t.index]) == Some([sc.prefix] + t.tag)
            <==> !Doubled(sc, s, t)
  {
    hide Decode16;
    hide Scanner.Tags;
    hide IsUnitIndex;
    hide IsTagOfRun;
    hide Doubled;
    hide ValidUtf8;
    hide Floor;
    hide Encode16;
    var e := TagsSound(sc, s, t);
    CoveredBytes(sc, s, t.index, e, t);
    UnitsBetween(s, a, t.index, t.index + |t.tag| + 1);
    NotLonger(s);
  }

  predicate Fits(s: seq<byte>, t: Tag) {
    t.index + |t.tag| + 1 <= |s|
  }

  /** From the units before the tag to those before the byte `index + len(tag) + 1`, or the start of its rune. */
  function EntityAt(s: seq<byte>, t: Tag): Entity
    requires Fits(s, t)
  {
    var start, end := |Encode16(s[..Floor(s, t.index)])|, |Encode16(s[..Floor(s, t.index + |t.tag| + 1)])|;
    Entity(ToInt32(start), ToInt32(end - start))
  }

  /** `e` starts where the tag does, and denotes the prefix and the tag unless the prefix is doubled. */
  ghost predicate IsEntityOf(sc: Scanner, s: seq<byte>, t: Tag, e: Entity) {
    && t.index <= |s| && e.offset == |Encode16(s[..t.index])|
    && (Denoted(s, e.offset, e.length) == Some([sc.prefix % 0x100] + t.tag) <==> !Doubled(sc, s, t))
  }

  lemma EntityOfTag(sc: Scanner, s: seq<byte>, a: seq<int>, t: Tag)
    requires ValidUtf8(s) && OrdinaryPrefix(sc) && IsUnitIndex(s, a) && t in sc.Tags(s)
    requires |s| < 0x8000_0000
    ensures t.index + |t.tag| + 1 < |a|
    ensures var offset, length := a[t.index], a[t.index + |t.tag| + 1] - a[t.index];
            IsEntityOf(sc, s, t, Entity(ToInt32(offset), ToInt32(length)))
  {
    hide Denoted;
    hide Doubled;
    hide ValidUtf8;
    hide Scanner.Tags;
    hide Encode16;
    hide IsTagOfRun;
    EntityDenotesTag(sc, s, a, t);
    var e := TagsSound(sc, s, t);
    CoveredBytes(sc, s, t.index, e, t);
    IndexAt(s, a, t.index);
    assert sc.prefix % 0x100 == sc.prefix;
  }

  lemma EntityFromIndex(s: seq<byte>, a: seq<int>, t: Tag)
    requires IsUnitIndex(s, a) && Fits(s, t)
    ensures |a| == |s| + 1
    ensures var offset, length := a[t.index], a[t.index + |t.tag| + 1] - a[t.index];
            EntityAt(s, t) == Entity(ToInt32(offset), ToInt32(length))
  {
    IndexAt(s, a, t.index);
    IndexAt(s, a, t.index + |t.tag| + 1);
  }

  /**
   * The mention, hashtag and bot-command loops of RemakeMessage: one entity for each tag.  The index
   * is built only when there is a tag.
   */
  method TagEntities(sc: Scanner, message: seq<byte>) returns (r: Outcome<seq<Entity>>)
    ensures r.Panics? <==> sc.Clashes(sc.Open(message), sc.TermMarks(message))
                           || (sc.Tags(message) != [] && !ValidUtf8(message))
    ensures r.Returns? ==> |r.value| == |sc.Tags(message)|
    ensures r.Returns? ==> forall i | 0 <= i < |r.value| ::
              Fits(message, sc.Tags(message)[i]) && r.value[i] == EntityAt(message, sc.Tags(message)[i])
    ensures r.Returns? && OrdinaryPrefix(sc) && |message| < 0x8000_0000 ==>
              forall i | 0 <= i < |r.value| :: IsEntityOf(sc, message, sc.Tags(message)[i], r.value[i])
  {
    hide Scanner.Tags;
    hide Scanner.Clashes;
    hide ValidUtf8;
    hide IsUnitIndex;
    hide OrdinaryPrefix;
    hide IsEntityOf;
    hide EntityAt;
    hide ToInt32;
    var tags := GetTags(sc, message);
    if tags.Panics? { return Panics; }
    if tags.value == [] { return Returns([]); }
    var idx := EncodeStringToUTF16Index(message);
    if idx.Panics? { return Panics; }
    var a := idx.value;
    ghost var index := a[..];
    var entities: seq<Entity> := [];
    for i := 0 to |tags.value|
      invariant |entities| == i && a[..] == index
      invariant forall j | 0 <= j < i ::
                  Fits(message, tags.value[j]) && entities[j] == EntityAt(message, tags.value[j])
      invariant OrdinaryPrefix(sc) && |message| < 0x8000_0000 ==>
                  forall j | 0 <= j < i :: IsEntityOf(sc, message, tags.value[j], entities[j])
    {
      var tag := tags.value[i];
      TagFits(sc, message, tag);
      EntityFromIndex(message, index, tag);
      var offset, length := a[tag.index], a[tag.index + |tag.tag| + 1] - a[tag.index];
      if OrdinaryPrefix(sc) && |message| < 0x8000_0000 {
        EntityOfTag(sc, message, index, tag);
      }
      entities := entities + [Entity(ToInt32(offset), ToInt32(length))];
    }
    return Returns(entities);
  }
}
