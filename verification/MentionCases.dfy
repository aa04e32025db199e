/**
 * Where GetTags departs from its own documentation, and the texts that show it.
 */
module MentionCases {
  import opened Go
  import opened Utf
  import opened Utf16Util
  import opened Marks
  import opened Mention
  import opened MentionLaws

  // ------------------------------------------------------- the documented end of a tag

  /** Behind the prefixes in front, a tag is said to go on to a terminator or another prefix. */
  predicate DocumentedEnd(sc: Scanner, s: seq<byte>, q: nat, d: nat) {
    && q <= d <= |s|
    && (forall i | q <= i < d :: !TermAt(sc, s, i) && s[i] != sc.prefix)
    && (d < |s| ==> TermAt(sc, s, d) || s[d] == sc.prefix)
  }

  /** The text of the tag starts behind the prefixes that open it. */
  predicate TextStartsAt(sc: Scanner, s: seq<byte>, t: Tag, q: nat) {
    && t.index < q < |s|
    && (forall i | t.index <= i < q :: s[i] == sc.prefix)
    && s[q] != sc.prefix
  }

  lemma EndOfText(sc: Scanner, s: seq<byte>, q: nat, e: nat)
    requires q < e <= |s| && (forall i | q <= i < e :: !TermAt(sc, s, i)) && (e < |s| ==> TermAt(sc, s, e))
    ensures (exists d: nat :: DocumentedEnd(sc, s, q, d) && s[q..e] == s[q..d])
            <==> forall i | q <= i < e :: s[i] != sc.prefix
  {
    hide TermAt;
    if forall i | q <= i < e :: s[i] != sc.prefix {
      assert DocumentedEnd(sc, s, q, e);
    }
    if d: nat :| DocumentedEnd(sc, s, q, d) && s[q..e] == s[q..d] {
      assert |s[q..e]| == |s[q..d]|;
    }
  }

  lemma TextStart(sc: Scanner, s: seq<byte>, t: Tag, e: nat) returns (q: nat)
    requires IsTagOfRun(sc, s, t.index, e, t)
    ensures TextStartsAt(sc, s, t, q)
    ensures t.index < q < e <= |s| && t.tag == s[q..e] && MaximalRun(sc, s, t.index, e)
    ensures (forall i | q <= i < e :: !TermAt(sc, s, i)) && (e < |s| ==> TermAt(sc, s, e))
  {
    hide TermAt;
    hide Scanner.IsTerm;
    var run := s[t.index + 1..e];
    q := e - |t.tag|;
    assert t.tag == run[|run| - |t.tag|..] == s[q..e];
    assert t.tag[0] == s[q];
    forall i | t.index < i < q
      ensures s[i] == sc.prefix
    {
      assert s[i] == run[i - t.index - 1];
    }
  }

  /**
   * A tag ends where it is said to if and only if, behind the prefixes in front, no prefix character
   * occurs in the text before the next terminator.
   */
  lemma EndsAsDocumented(sc: Scanner, s: seq<byte>, t: Tag) returns (q: nat, e: nat)
    requires ValidUtf8(s) && OrdinaryPrefix(sc) && t in sc.Tags(s)
    ensures TextStartsAt(sc, s, t, q) && MaximalRun(sc, s, t.index, e) && q < e
    ensures (exists d: nat :: DocumentedEnd(sc, s, q, d) && t.tag == s[q..d])
            <==> forall i | q <= i < e :: s[i] != sc.prefix
  {
    e := TagsSound(sc, s, t);
    q := TextStart(sc, s, t, e);
    hide *;
    EndOfText(sc, s, q, e);
  }

  // ------------------------------------------------------- two texts

  /** ASCII without terminators. */
  predicate Unbroken(sc: Scanner, s: seq<byte>) {
    forall i | 0 <= i < |s| :: s[i] < 0x80 && !sc.IsTerm(s[i])
  }

  lemma {:induction false} UnbrokenMarks(sc: Scanner, s: seq<byte>)
    requires Unbroken(sc, s)
    ensures ValidUtf8(s) && forall i | 0 <= i < |s| :: !sc.TermMarks(s)[i]
  {
    if s == [] {
    } else {
      DecodedAscii(s);
      UnbrokenMarks(sc, s[1..]);
    }
  }

  /** A text that starts with the prefix and has no terminator is one run. */
  lemma OneRun(sc: Scanner, s: seq<byte>)
    requires OrdinaryPrefix(sc) && Unbroken(sc, s) && s != [] && s[0] == sc.prefix
    ensures ValidUtf8(s)
    ensures var text := sc.Trim(s[1..]);
            sc.Tags(s) == if text == [] then [] else [Tag(sc.prefix, text, [], 0)]
  {
    UnbrokenMarks(sc, s);
    NextTermUnique(sc.TermMarks(s), 0, |s|);
    hide Scanner.TermMarks;
    hide Scanner.Trim;
    var cells := sc.Cells(s);
    forall p | 0 < p < |s|
      ensures cells[p] == []
    {
    }
    FlatSkip(cells, 1, |s|);
    assert Flat(cells, 1) == Flat(cells, 0) + cells[0];
    assert s[1..|s|] == s[1..];
  }

  /** The scanner looks for `@`, and neither that nor a letter is a terminator. */
  predicate LooksForAt(sc: Scanner) {
    sc.prefix == '@' as int && OrdinaryPrefix(sc) && !sc.IsTerm('a' as int) && !sc.IsTerm('b' as int)
  }

  const AT: byte := '@' as int
  const A: byte := 'a' as int
  const B: byte := 'b' as int

  /** "@a@b" is one tag, which does not end as documented. */
  lemma TagGoesOn(sc: Scanner)
    requires LooksForAt(sc)
    ensures ValidUtf8([AT, A, AT, B])
    ensures sc.Tags([AT, A, AT, B]) == [Tag(AT, [A, AT, B], [], 0)]
    ensures DocumentedEnd(sc, [AT, A, AT, B], 1, 2)
  {
    var s := [AT, A, AT, B];
    OneRun(sc, s);
    assert s[1..] == [A, AT, B];
    DecodedAscii(s[1..]);
    UnbrokenMarks(sc, s);
    TermMarksMean(sc, s, 1);
  }

  /** "@@ab" has the tag "ab" at position 0; the prefix is doubled, so its entity denotes "@@a". */
  lemma DoubledIsMisplaced(sc: Scanner, a: seq<int>)
    requires LooksForAt(sc) && IsUnitIndex([AT, AT, A, B], a)
    ensures ValidUtf8([AT, AT, A, B])
    ensures var t := Tag(AT, [A, B], [], 0);
            && sc.Tags([AT, AT, A, B]) == [t] && Doubled(sc, [AT, AT, A, B], t)
            && Denoted([AT, AT, A, B], a[0], a[3] - a[0]) == Some([AT, AT, A])
  {
    var s := [AT, AT, A, B];
    OneRun(sc, s);
    assert s[1..] == [AT, A, B] && s[1..][1..] == [A, B];
    DecodedAscii(s[1..]);
    DecodedAscii(s[1..][1..]);
    EntityUnits(s, a, 0, 3);
    assert s[0..3] == [AT, AT, A];
  }
}
