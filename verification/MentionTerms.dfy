/**
 * What ends a tag, in terms of what the caller passed: the terminators, or a space if there are none, and
 * whatever Unicode calls a space or not printable.
 */
module MentionTerms {
  import opened Go
  import opened Utf
  import opened Marks
  import opened Mention
  import opened MentionLaws
  import opened MentionCases

  /** The character ends tags. */
  predicate EndsTags(sc: Scanner, r: int) {
    || (if sc.terminators == [] then r == 0x20 else r in sc.terminators)
    || sc.table.isSpace(r)
    || !sc.table.isPrint(r)
  }

  lemma IsTermMeans(sc: Scanner, r: int)
    ensures sc.IsTerm(r) <==> EndsTags(sc, r)
  {
  }

  // ------------------------------------------------------- the default terminator

  /** The same call with a space as the only terminator. */
  function WithSpace(sc: Scanner): Scanner { sc.(terminators := [0x20]) }

  lemma SameTerms(sc: Scanner)
    requires sc.terminators == []
    ensures forall r :: WithSpace(sc).IsTerm(r) <==> sc.IsTerm(r)
  {
    assert ' ' as int == 0x20;
  }

  lemma {:induction false} SameMarks(sc: Scanner, s: seq<byte>)
    requires sc.terminators == []
    ensures WithSpace(sc).TermMarks(s) == sc.TermMarks(s)
  {
    SameTerms(sc);
    if s == [] {
    } else {
      SameMarks(sc, s[DecodeRune(s).width..]);
    }
  }

  lemma {:induction false} SameTrim(sc: Scanner, s: seq<byte>)
    ensures WithSpace(sc).Trim(s) == sc.Trim(s)
  {
    if s == [] {
    } else {
      SameTrim(sc, s[DecodeRune(s).width..]);
    }
  }

  lemma SameTagAt(sc: Scanner, s: seq<byte>, p: nat)
    requires sc.terminators == [] && p < |s|
    ensures WithSpace(sc).TagAt(s, p) == sc.TagAt(s, p)
  {
    SameMarks(sc, s);
    assert WithSpace(sc).PrefixMarks(s) == sc.PrefixMarks(s);
    hide Scanner.TermMarks;
    hide Scanner.PrefixMarks;
    hide Scanner.Trim;
    hide Openings;
    var e := NextTerm(sc.TermMarks(s), p);
    if p < e { SameTrim(sc, s[p + 1..e]); }
  }

  lemma SameTagAt16(sc: Scanner, u: seq<uint16>, p: nat)
    requires sc.terminators == [] && p < |u|
    ensures WithSpace(sc).TagAt16(u, p) == sc.TagAt16(u, p)
  {
    SameTerms(sc);
    hide Scanner.IsTerm;
    assert WithSpace(sc).TermMarks16(u) == sc.TermMarks16(u);
    assert WithSpace(sc).PrefixMarks16(u) == sc.PrefixMarks16(u);
    hide Scanner.TermMarks16;
    hide Scanner.PrefixMarks16;
    hide Openings;
  }

  /** A call without terminators finds what the call with a space finds. */
  lemma DefaultIsSpace(sc: Scanner, s: seq<byte>, u: seq<uint16>)
    requires sc.terminators == []
    ensures WithSpace(sc).Tags(s) == sc.Tags(s)
    ensures WithSpace(sc).Tags16(u) == sc.Tags16(u)
  {
    hide Scanner.TagAt;
    hide Scanner.TagAt16;
    forall p | 0 <= p < |s|
      ensures WithSpace(sc).TagAt(s, p) == sc.TagAt(s, p)
    {
      SameTagAt(sc, s, p);
    }
    forall p | 0 <= p < |u|
      ensures WithSpace(sc).TagAt16(u, p) == sc.TagAt16(u, p)
    {
      SameTagAt16(sc, u, p);
    }
    assert WithSpace(sc).Cells(s) == sc.Cells(s);
    assert WithSpace(sc).Cells16(u) == sc.Cells16(u);
  }

  // ------------------------------------------------------- where tags end

  /** No character that ends tags starts in `s[p..e]`, and one starts at `e`, or the text ends there. */
  predicate EndsAt(sc: Scanner, s: seq<byte>, p: nat, e: nat) {
    && p < e <= |s|
    && (forall i | p <= i < e :: Boundary(s, i) ==> !EndsTags(sc, DecodeRune(s[i..]).rune))
    && (e < |s| ==> Boundary(s, e) && EndsTags(sc, DecodeRune(s[e..]).rune))
  }

  lemma RunEndsAt(sc: Scanner, s: seq<byte>, p: nat, e: nat)
    requires MaximalRun(sc, s, p, e)
    ensures EndsAt(sc, s, p, e)
  {
    hide DecodeRune;
    hide Boundary;
    forall i | 0 <= i < |s|
      ensures TermAt(sc, s, i) <==> Boundary(s, i) && EndsTags(sc, DecodeRune(s[i..]).rune)
    {
      IsTermMeans(sc, DecodeRune(s[i..]).rune);
    }
    hide TermAt;
    hide EndsTags;
  }

  lemma StartMeans(sc: Scanner, s: seq<byte>, p: nat)
    requires p < |s| && TagStart(sc, s, p)
    ensures s[p] == sc.prefix && (p == 0 || EndsTags(sc, s[p - 1]))
  {
    if p > 0 { IsTermMeans(sc, s[p - 1]); }
  }

  lemma FactsOfRun(sc: Scanner, s: seq<byte>, e: nat, t: Tag)
    requires IsTagOfRun(sc, s, t.index, e, t)
    ensures t.index + 1 < e <= |s|
    ensures TagStart(sc, s, t.index) && MaximalRun(sc, s, t.index, e)
    ensures t.mark == sc.prefix && t.tagUtf16 == []
    ensures Trimmed(sc, s[t.index + 1..e], t.tag) && t.tag != []
  {
    hide TagStart;
    hide TermAt;
  }

  /** A tag of GetTags, by what the caller passed. */
  lemma TagEndsAt(sc: Scanner, s: seq<byte>, t: Tag) returns (e: nat)
    requires ValidUtf8(s) && OrdinaryPrefix(sc) && t in sc.Tags(s)
    ensures EndsAt(sc, s, t.index, e) && t.index + 1 < e
    ensures s[t.index] == sc.prefix && (t.index == 0 || EndsTags(sc, s[t.index - 1]))
    ensures t.mark == sc.prefix && t.tagUtf16 == []
    ensures Trimmed(sc, s[t.index + 1..e], t.tag) && t.tag != []
  {
    hide *;
    e := TagsSound(sc, s, t);
    FactsOfRun(sc, s, e, t);
    StartMeans(sc, s, t.index);
    RunEndsAt(sc, s, t.index, e);
  }

  lemma PrefixByte(x: byte, prefix: int32)
    ensures x == prefix % 0x100 <==> (x - prefix) % 0x100 == 0
  {
  }

  // ------------------------------------------------------- all texts and all prefixes

  /** Ranging over `s` comes to byte `i`, or ends there. */
  predicate Starts(s: seq<byte>, i: nat)
    decreases |s|
  {
    i == 0 || (s != [] && i >= DecodeRune(s).width && Starts(s[DecodeRune(s).width..], i - DecodeRune(s).width))
  }

  /** A rune that ends tags is met at byte `i`. */
  predicate EndsHere(sc: Scanner, s: seq<byte>, i: nat)
    requires i < |s|
  {
    Starts(s, i) && EndsTags(sc, DecodeRune(s[i..]).rune)
  }

  lemma {:induction false} TermMarksAre(sc: Scanner, s: seq<byte>, i: nat)
    requires i < |s|
    ensures sc.TermMarks(s)[i] <==> EndsHere(sc, s, i)
  {
    hide DecodeRune;
    hide EndsTags;
    var w := DecodeRune(s).width;
    assert s[0..] == s;
    IsTermMeans(sc, DecodeRune(s).rune);
    if i >= w {
      TermMarksAre(sc, s[w..], i - w);
      assert s[w..][i - w..] == s[i..];
    }
  }

  /** The rune that Go converts a prefix to: itself, or U+FFFD for what is no scalar value. */
  function RuneOf(prefix: int32): Scalar {
    if 0 <= prefix < 0xD800 || 0xE000 <= prefix <= 0x10FFFF then prefix else 0xFFFD
  }

  /** The first `m` bytes are all the runes `r` that the text has in front. */
  predicate LeadsWith(s: seq<byte>, r: Scalar, m: nat) {
    && m <= |s| && Starts(s, m)
    && (forall i | 0 <= i < m :: Starts(s, i) ==> DecodeRune(s[i..]).rune == r)
    && (m < |s| ==> DecodeRune(s[m..]).rune != r)
  }

  lemma StartsBehind(s: seq<byte>, i: nat)
    requires s != [] && 0 < i <= |s|
    ensures var w := DecodeRune(s).width;
            Starts(s, i) <==> i >= w && Starts(s[w..], i - w) && s[w..][i - w..] == s[i..]
  {
    hide DecodeRune;
    var w := DecodeRune(s).width;
    if i >= w { assert s[w..][i - w..] == s[i..]; }
  }

  lemma OneMoreLeads(s: seq<byte>, r: Scalar, m: nat)
    requires s != [] && DecodeRune(s).rune == r && LeadsWith(s[DecodeRune(s).width..], r, m)
    ensures LeadsWith(s, r, DecodeRune(s).width + m)
  {
    hide DecodeRune;
    hide Starts;
    var n := DecodeRune(s).width + m;
    StartsBehind(s, n);
    forall i | 0 <= i < n && Starts(s, i)
      ensures DecodeRune(s[i..]).rune == r
    {
      if i == 0 { assert s[0..] == s; } else { StartsBehind(s, i); }
    }
    if n < |s| { assert s[n..] == s[DecodeRune(s).width..][m..]; }
  }

  lemma NoneLead(s: seq<byte>, r: Scalar)
    requires s == [] || DecodeRune(s).rune != r
    ensures LeadsWith(s, r, 0)
  {
    hide DecodeRune;
    assert s[0..] == s;
  }

  lemma {:induction false} TrimLeads(sc: Scanner, s: seq<byte>)
    ensures var m := |s| - |sc.Trim(s)|; sc.Trim(s) == s[m..] && LeadsWith(s, RuneOf(sc.prefix), m)
  {
    assert RuneOf(sc.prefix) == sc.PrefixRune();
    hide RuneOf;
    hide Scanner.PrefixRune;
    hide DecodeRune;
    hide LeadsWith;
    if s == [] || DecodeRune(s).rune != sc.PrefixRune() {
      NoneLead(s, sc.PrefixRune());
    } else {
      var w := DecodeRune(s).width;
      var rest := s[w..];
      var text := sc.Trim(rest);
      assert sc.Trim(s) == text;
      hide Scanner.Trim;
      TrimLeads(sc, rest);
      OneMoreLeads(s, sc.PrefixRune(), |rest| - |text|);
      assert rest[|rest| - |text|..] == s[|s| - |text|..];
    }
  }

  lemma LeadsWithOnce(s: seq<byte>, r: Scalar, m: nat, m': nat)
    requires LeadsWith(s, r, m) && LeadsWith(s, r, m')
    ensures m == m'
  {
    hide DecodeRune;
    hide Starts;
  }

  /** The text behind the prefixes, which is not empty. */
  predicate IsTextOf(run: seq<byte>, prefix: int32, text: seq<byte>) {
    0 < |text| <= |run| && text == run[|run| - |text|..] && LeadsWith(run, RuneOf(prefix), |run| - |text|)
  }

  /** A tag of GetTags: for every scanner and all bytes. */
  predicate IsTag8(sc: Scanner, s: seq<byte>, e: nat, t: Tag) {
    && t.index < e <= |s|
    && (s[t.index] - sc.prefix) % 0x100 == 0
    && (t.index == 0 || EndsHere(sc, s, t.index - 1))
    && (forall i | t.index <= i < e :: !EndsHere(sc, s, i))
    && (e < |s| ==> EndsHere(sc, s, e))
    && IsTextOf(s[t.index + 1..e], sc.prefix, t.tag)
    && t == Tag(sc.prefix, t.tag, [], t.index)
  }

  lemma TrimExactly(sc: Scanner, run: seq<byte>, text: seq<byte>)
    ensures text == sc.Trim(run) && text != [] <==> IsTextOf(run, sc.prefix, text)
  {
    TrimLeads(sc, run);
    hide LeadsWith;
    hide Scanner.Trim;
    if IsTextOf(run, sc.prefix, text) {
      LeadsWithOnce(run, RuneOf(sc.prefix), |run| - |text|, |run| - |sc.Trim(run)|);
    }
  }

  lemma TagAtIs(sc: Scanner, s: seq<byte>, p: nat, t: Tag)
    requires p < |s|
    ensures var e := NextTerm(sc.TermMarks(s), p);
            t in sc.TagAt(s, p) <==>
              && sc.Open(s)[p] && e > p && IsTextOf(s[p + 1..e], sc.prefix, t.tag)
              && t == Tag(sc.prefix, t.tag, [], p)
  {
    hide Scanner.TermMarks;
    hide Scanner.Open;
    hide Scanner.Trim;
    hide IsTextOf;
    var e := NextTerm(sc.TermMarks(s), p);
    if e > p { TrimExactly(sc, s[p + 1..e], t.tag); }
  }

  lemma OpenIs(sc: Scanner, s: seq<byte>, p: nat)
    requires p < |s|
    ensures sc.Open(s)[p] <==> (s[p] - sc.prefix) % 0x100 == 0 && (p == 0 || EndsHere(sc, s, p - 1))
  {
    hide Scanner.TermMarks;
    hide EndsHere;
    PrefixByte(s[p], sc.prefix);
    if p > 0 { TermMarksAre(sc, s, p - 1); }
  }

  lemma NextEndsHere(sc: Scanner, s: seq<byte>, p: nat, e: nat)
    requires p <= e <= |s|
    ensures e == NextTerm(sc.TermMarks(s), p) <==>
              (forall i | p <= i < e :: !EndsHere(sc, s, i)) && (e < |s| ==> EndsHere(sc, s, e))
  {
    var term := sc.TermMarks(s);
    forall i | 0 <= i < |s|
      ensures term[i] <==> EndsHere(sc, s, i)
    {
      TermMarksAre(sc, s, i);
    }
    hide Scanner.TermMarks;
    hide EndsHere;
    if (forall i | p <= i < e :: !EndsHere(sc, s, i)) && (e < |s| ==> EndsHere(sc, s, e)) {
      NextTermUnique(term, p, e);
    }
  }

  lemma TagAtMeans(sc: Scanner, s: seq<byte>, p: nat, t: Tag)
    requires p < |s|
    ensures t in sc.TagAt(s, p) <==> t.index == p && exists e: nat :: IsTag8(sc, s, e, t)
  {
    hide Scanner.TagAt;
    hide Scanner.Open;
    hide Scanner.TermMarks;
    hide NextTerm;
    hide EndsHere;
    hide IsTextOf;
    var e := NextTerm(sc.TermMarks(s), p);
    TagAtIs(sc, s, p, t);
    OpenIs(sc, s, p);
    NextEndsHere(sc, s, p, e);
    if t in sc.TagAt(s, p) { assert IsTag8(sc, s, e, t); }
    if x: nat :| t.index == p && IsTag8(sc, s, x, t) {
      NextEndsHere(sc, s, p, x);
    }
  }

  /** The tags of GetTags are exactly these. */
  lemma TagsExactly(sc: Scanner, s: seq<byte>, t: Tag)
    ensures t in sc.Tags(s) <==> exists e: nat :: IsTag8(sc, s, e, t)
  {
    FlatContains(sc.Cells(s), |s|, t);
    hide Scanner.TagAt;
    forall p: nat | p < |s|
      ensures t in sc.TagAt(s, p) <==> t.index == p && exists e: nat :: IsTag8(sc, s, e, t)
    {
      TagAtMeans(sc, s, p, t);
    }
    if e: nat :| IsTag8(sc, s, e, t) { assert t in sc.Cells(s)[t.index]; }
  }

  /** A prefix opens a tag here, and is itself what ends tags. */
  predicate ClashesHere(sc: Scanner, s: seq<byte>, p: nat)
    requires p < |s|
  {
    (s[p] - sc.prefix) % 0x100 == 0 && (p == 0 || EndsHere(sc, s, p - 1)) && EndsHere(sc, s, p)
  }

  lemma ClashIs(sc: Scanner, s: seq<byte>, p: nat)
    requires p < |s|
    ensures sc.Open(s)[p] && sc.TermMarks(s)[p] <==> ClashesHere(sc, s, p)
  {
    hide Scanner.TermMarks;
    hide Scanner.Open;
    hide EndsHere;
    OpenIs(sc, s, p);
    TermMarksAre(sc, s, p);
  }

  /** GetTags panics exactly then. */
  lemma ClashesExactly(sc: Scanner, s: seq<byte>)
    ensures sc.Clashes(sc.Open(s), sc.TermMarks(s)) <==> exists p: nat :: p < |s| && ClashesHere(sc, s, p)
  {
    hide Scanner.TermMarks;
    hide Scanner.Open;
    hide ClashesHere;
    forall p | 0 <= p < |s|
      ensures sc.Open(s)[p] && sc.TermMarks(s)[p] <==> ClashesHere(sc, s, p)
    {
      ClashIs(sc, s, p);
    }
  }

  /** A tag of GetUTF16Tags: for every scanner and every sequence of units. */
  predicate IsTag16(sc: Scanner, u: seq<uint16>, e: nat, t: Tag) {
    && t.index + 1 < e <= |u|
    && (u[t.index] - sc.prefix) % 0x1_0000 == 0
    && (t.index == 0 || EndsTags(sc, u[t.index - 1]))
    && (forall i | t.index <= i < e :: !EndsTags(sc, u[i]))
    && (e < |u| ==> EndsTags(sc, u[e]))
    && t == Tag(sc.prefix, [], u[t.index + 1..e], t.index)
  }

  lemma PrefixUnit(x: uint16, prefix: int32)
    ensures x == prefix % 0x1_0000 <==> (x - prefix) % 0x1_0000 == 0
  {
  }

  lemma TagAt16Means(sc: Scanner, u: seq<uint16>, p: nat, t: Tag)
    requires p < |u|
    ensures t in sc.TagAt16(u, p) <==> t.index == p && exists e: nat :: IsTag16(sc, u, e, t)
  {
    var term := sc.TermMarks16(u);
    var e := NextTerm(term, p);
    PrefixUnit(u[p], sc.prefix);
    forall i | 0 <= i < |u|
      ensures term[i] <==> EndsTags(sc, u[i])
    {
      IsTermMeans(sc, u[i]);
    }
    hide Scanner.IsTerm;
    hide Scanner.TermMarks16;
    hide EndsTags;
    if t in sc.TagAt16(u, p) { assert IsTag16(sc, u, e, t); }
    if x: nat :| t.index == p && IsTag16(sc, u, x, t) {
      NextTermUnique(term, p, x);
    }
  }

  /** The tags of GetUTF16Tags are exactly these. */
  lemma Tags16Exactly(sc: Scanner, u: seq<uint16>, t: Tag)
    ensures t in sc.Tags16(u) <==> exists e: nat :: IsTag16(sc, u, e, t)
  {
    FlatContains(sc.Cells16(u), |u|, t);
    hide Scanner.TagAt16;
    forall p: nat | p < |u|
      ensures t in sc.TagAt16(u, p) <==> t.index == p && exists e: nat :: IsTag16(sc, u, e, t)
    {
      TagAt16Means(sc, u, p, t);
    }
    if e: nat :| IsTag16(sc, u, e, t) { assert t in sc.Cells16(u)[t.index]; }
  }

  const HASHTAG: seq<byte> :=
    ['#' as int, 'g' as int, 'o' as int, '-' as int, 'l' as int, 'a' as int, 'n' as int, 'g' as int]

  predicate ClashesHere16(sc: Scanner, u: seq<uint16>, p: nat)
    requires p < |u|
  {
    (u[p] - sc.prefix) % 0x1_0000 == 0 && (p == 0 || EndsTags(sc, u[p - 1])) && EndsTags(sc, u[p])
  }

  lemma ClashIs16(sc: Scanner, u: seq<uint16>, p: nat)
    requires p < |u|
    ensures sc.Open16(u)[p] && sc.TermMarks16(u)[p] <==> ClashesHere16(sc, u, p)
  {
    PrefixUnit(u[p], sc.prefix);
    IsTermMeans(sc, u[p]);
    if p > 0 { IsTermMeans(sc, u[p - 1]); }
    hide Scanner.IsTerm;
    hide EndsTags;
  }

  /** GetUTF16Tags panics exactly then. */
  lemma ClashesExactly16(sc: Scanner, u: seq<uint16>)
    ensures sc.Clashes(sc.Open16(u), sc.TermMarks16(u)) <==> exists p: nat :: p < |u| && ClashesHere16(sc, u, p)
  {
    hide Scanner.TermMarks16;
    hide Scanner.Open16;
    hide ClashesHere16;
    forall p | 0 <= p < |u|
      ensures sc.Open16(u)[p] && sc.TermMarks16(u)[p] <==> ClashesHere16(sc, u, p)
    {
      ClashIs16(sc, u, p);
    }
  }

  /** A hyphen does not end a hashtag: "#go-lang", scanned without terminators, is one tag. */
  lemma HyphenStays(sc: Scanner)
    requires sc.prefix == '#' as int && sc.terminators == []
    requires forall b | b in HASHTAG :: sc.table.isPrint(b) && !sc.table.isSpace(b)
    ensures sc.Tags(HASHTAG) == [Tag('#' as int, HASHTAG[1..], [], 0)]
  {
    assert forall i | 0 <= i < |HASHTAG| :: HASHTAG[i] in HASHTAG;
    assert HASHTAG[0] in HASHTAG;
    OneRun(sc, HASHTAG);
    DecodedAscii(HASHTAG[1..]);
  }
}
