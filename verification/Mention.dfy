/**
 * pkg/mention/mention.go: finding `@tags` in a string, and in its UTF-16 form.
 * What `unicode.IsSpace` and `unicode.IsPrint` say of a rune is a parameter.
 */
module Mention {
  import opened Go
  import opened Utf
  import opened Marks

  datatype CharTable = CharTable(isSpace: int -> bool, isPrint: int -> bool)

  datatype Tag = Tag(mark: int32, tag: seq<byte>, tagUtf16: seq<uint16>, index: nat)

  /** What a caller chooses: the prefix, the extra terminators, and the Unicode tables in force. */
  datatype Scanner = Scanner(prefix: int32, terminators: seq<int32>, table: CharTable) {

    predicate IsTerm(r: int) {
      r in Effective() || table.isSpace(r) || !table.isPrint(r)
    }

    /** With no terminators given, a space is one. */
    function Effective(): seq<int32> {
      if terminators == [] then [' ' as int] else terminators
    }

    /** The rune of `string(prefix)`. */
    function PrefixRune(): Scalar {
      if 0 <= prefix < 0xD800 || 0xE000 <= prefix <= 0x10FFFF then prefix else REPLACEMENT
    }

    // ---------------------------------------------------------------- the two rows of marks

    /** Where ranging over `s` meets a terminator. */
    function TermMarks(s: seq<byte>): (m: seq<bool>)
      ensures |m| == |s|
    {
      if s == [] then []
      else
        var d := DecodeRune(s);
        [IsTerm(d.rune)] + seq(d.width - 1, _ => false) + TermMarks(s[d.width..])
    }

    /** The comparison `str[t+1] == byte(prefix)`. */
    function PrefixMarks(s: seq<byte>): (m: seq<bool>)
      ensures |m| == |s|
    {
      seq(|s|, p requires 0 <= p < |s| => s[p] == prefix % 0x100)
    }

    function TermMarks16(u: seq<uint16>): (m: seq<bool>)
      ensures |m| == |u|
    {
      seq(|u|, p requires 0 <= p < |u| => IsTerm(u[p]))
    }

    /** The comparison `str[t+1] == uint16(prefix)`. */
    function PrefixMarks16(u: seq<uint16>): (m: seq<bool>)
      ensures |m| == |u|
    {
      seq(|u|, p requires 0 <= p < |u| => u[p] == prefix % 0x1_0000)
    }

    function Open(s: seq<byte>): (m: seq<bool>)
      ensures |m| == |s|
    {
      Openings(PrefixMarks(s), TermMarks(s))
    }

    function Open16(u: seq<uint16>): (m: seq<bool>)
      ensures |m| == |u|
    {
      Openings(PrefixMarks16(u), TermMarks16(u))
    }

    /** `strings.TrimLeft(s, string(prefix))`. */
    function Trim(s: seq<byte>): (t: seq<byte>)
      ensures |t| <= |s|
    {
      if s != [] && DecodeRune(s).rune == PrefixRune() then Trim(s[DecodeRune(s).width..]) else s
    }

    /** The tag opening at `p`, if one does and more than prefixes follows before the next terminator. */
    function TagAt(s: seq<byte>, p: nat): seq<Tag>
      requires p < |s|
    {
      var e := NextTerm(TermMarks(s), p);
      if !Open(s)[p] || e == p then []
      else
        var text := Trim(s[p + 1..e]);
        if text == [] then [] else [Tag(prefix, text, [], p)]
    }

    function TagAt16(u: seq<uint16>, p: nat): seq<Tag>
      requires p < |u|
    {
      var e := NextTerm(TermMarks16(u), p);
      if !Open16(u)[p] || e == p then []
      else
        var text := u[p + 1..e];
        if text == [] then [] else [Tag(prefix, [], text, p)]
    }

    function Cells(s: seq<byte>): (c: seq<seq<Tag>>)
      ensures |c| == |s|
    {
      seq(|s|, p requires 0 <= p < |s| => TagAt(s, p))
    }

    function Cells16(u: seq<uint16>): (c: seq<seq<Tag>>)
      ensures |c| == |u|
    {
      seq(|u|, p requires 0 <= p < |u| => TagAt16(u, p))
    }

    /** The slice `str[t+2:...]` is out of order when an opening prefix is itself a terminator. */
    ghost predicate Clashes(open: seq<bool>, term: seq<bool>)
      requires |open| == |term|
    {
      exists p | 0 <= p < |open| :: open[p] && term[p]
    }

    /** What GetTags finds. */
    function Tags(s: seq<byte>): seq<Tag> { Flat(Cells(s), |s|) }

    /** What GetUTF16Tags finds. */
    function Tags16(u: seq<uint16>): seq<Tag> { Flat(Cells16(u), |u|) }
  }

  method IsTerminator(sc: Scanner, r: int, terminator: seq<int32>) returns (b: bool)
    ensures b == (r in terminator || sc.table.isSpace(r) || !sc.table.isPrint(r))
  {
    for i := 0 to |terminator|
      invariant r !in terminator[..i]
    {
      if r == terminator[i] { return true; }
    }
    return sc.table.isSpace(r) || !sc.table.isPrint(r);
  }

  lemma TermMarksStep(sc: Scanner, s: seq<byte>, k: nat)
    requires k < |s| && sc.TermMarks(s)[k..] == sc.TermMarks(s[k..])
    ensures var d := DecodeRune(s[k..]);
            && k + d.width <= |s|
            && sc.TermMarks(s)[k] == sc.IsTerm(d.rune)
            && (forall j | k < j < k + d.width :: !sc.TermMarks(s)[j])
            && sc.TermMarks(s)[k + d.width..] == sc.TermMarks(s[k + d.width..])
  {
    var d := DecodeRune(s[k..]);
    var m, t := sc.TermMarks(s), sc.TermMarks(s[k..]);
    assert forall j | k <= j < |s| :: m[j] == m[k..][j - k];
    assert s[k..][d.width..] == s[k + d.width..];
    assert t[d.width..] == sc.TermMarks(s[k + d.width..]);
    assert m[k + d.width..] == m[k..][d.width..];
  }

  /** How far a scanner has come when it stands at terminator `t` of a text of `n` units. */
  function Reach(t: int, n: nat): nat
    requires -1 <= t
  {
    if t + 1 <= n then t + 1 else n
  }

  /** The tags that open below `n` are `tags`, and none of those openings clashed. */
  ghost predicate Scanned(open: seq<bool>, term: seq<bool>, cells: seq<seq<Tag>>, tags: seq<Tag>, n: nat)
    requires n <= |open| == |term| == |cells|
  {
    && (forall p | 0 <= p < n :: !(open[p] && term[p]))
    && tags == Flat(cells, n)
  }

  /** Between two neighbouring terminators, only the position behind the first can hold a tag. */
  lemma ScanGap(open: seq<bool>, term: seq<bool>, cells: seq<seq<Tag>>, tags: seq<Tag>, t: int, e: int)
    requires |open| == |term| == |cells| && Gap(term, t, e) && t < |open| - 1
    requires forall p | 0 < p < |open| && open[p] :: term[p - 1]
    requires forall p | 0 <= p < |open| && !open[p] :: cells[p] == []
    requires Scanned(open, term, cells, tags, t + 1) && !(open[t + 1] && term[t + 1])
    ensures Scanned(open, term, cells, tags + cells[t + 1], Reach(e, |open|))
  {
    FlatSkip(cells, t + 2, Reach(e, |open|));
  }

  /** What one turn of the second loop of GetTags appends, between the terminators `t` and `e`. */
  function TurnTag(sc: Scanner, s: seq<byte>, t: int, e: int): seq<Tag>
    requires -1 <= t < e <= |s|
  {
    if t + 2 > e || s[t + 1] != sc.prefix % 0x100 then []
    else
      var text := sc.Trim(s[t + 2..e]);
      if text == [] then [] else [Tag(sc.prefix, text, [], t + 1)]
  }

  function TurnTag16(sc: Scanner, u: seq<uint16>, t: int, e: int): seq<Tag>
    requires -1 <= t < e <= |u|
  {
    if t + 2 > e || u[t + 1] != sc.prefix % 0x1_0000 then []
    else
      var text := u[t + 2..e];
      if text == [] then [] else [Tag(sc.prefix, [], text, t + 1)]
  }

  lemma TurnTagIsTagAt(sc: Scanner, s: seq<byte>, t: int, e: int)
    requires Gap(sc.TermMarks(s), t, e) && t < |s| - 1 && (e < |s| ==> sc.TermMarks(s)[e])
    ensures sc.TagAt(s, t + 1) == TurnTag(sc, s, t, e)
  {
    hide Scanner.TermMarks;
    NextTermUnique(sc.TermMarks(s), t + 1, e);
  }

  lemma TurnTagIsTagAt16(sc: Scanner, u: seq<uint16>, t: int, e: int)
    requires Gap(sc.TermMarks16(u), t, e) && t < |u| - 1 && (e < |u| ==> sc.TermMarks16(u)[e])
    ensures sc.TagAt16(u, t + 1) == TurnTag16(sc, u, t, e)
  {
    hide Scanner.TermMarks16;
    NextTermUnique(sc.TermMarks16(u), t + 1, e);
  }

  lemma OpeningCells(sc: Scanner, s: seq<byte>)
    ensures |sc.Open(s)| == |sc.TermMarks(s)| == |sc.Cells(s)| == |s|
    ensures forall p | 0 <= p < |s| ::
              sc.Open(s)[p] == (s[p] == sc.prefix % 0x100 && (p == 0 || sc.TermMarks(s)[p - 1]))
    ensures forall p | 0 <= p < |s| :: sc.Cells(s)[p] == sc.TagAt(s, p)
    ensures forall p | 0 <= p < |s| && !sc.Open(s)[p] :: sc.Cells(s)[p] == []
  {
    hide Scanner.TermMarks;
    hide Scanner.Trim;
  }

  lemma ScanStep(sc: Scanner, s: seq<byte>, tags: seq<Tag>, t: int, e: int)
    requires Gap(sc.TermMarks(s), t, e) && t < |s| - 1 && (e < |s| ==> sc.TermMarks(s)[e])
    requires Scanned(sc.Open(s), sc.TermMarks(s), sc.Cells(s), tags, t + 1)
    ensures if s[t + 1] == sc.prefix % 0x100 && e == t + 1 then sc.Clashes(sc.Open(s), sc.TermMarks(s))
            else Scanned(sc.Open(s), sc.TermMarks(s), sc.Cells(s), tags + TurnTag(sc, s, t, e), Reach(e, |s|))
  {
    hide TurnTag;
    hide Scanner.TermMarks;
    OpeningCells(sc, s);
    hide Scanner.Open;
    hide Scanner.Cells;
    hide Scanner.TagAt;
    var term, open := sc.TermMarks(s), sc.Open(s);
    TurnTagIsTagAt(sc, s, t, e);
    if open[t + 1] && term[t + 1] {
      assert sc.Clashes(open, term);
    } else {
      ScanGap(open, term, sc.Cells(s), tags, t, e);
    }
  }

  lemma OpeningCells16(sc: Scanner, u: seq<uint16>)
    ensures |sc.Open16(u)| == |sc.TermMarks16(u)| == |sc.Cells16(u)| == |u|
    ensures forall p | 0 <= p < |u| ::
              sc.Open16(u)[p] == (u[p] == sc.prefix % 0x1_0000 && (p == 0 || sc.TermMarks16(u)[p - 1]))
    ensures forall p | 0 <= p < |u| :: sc.Cells16(u)[p] == sc.TagAt16(u, p)
    ensures forall p | 0 <= p < |u| && !sc.Open16(u)[p] :: sc.Cells16(u)[p] == []
  {
    hide Scanner.TermMarks16;
  }

  lemma ScanStep16(sc: Scanner, u: seq<uint16>, tags: seq<Tag>, t: int, e: int)
    requires Gap(sc.TermMarks16(u), t, e) && t < |u| - 1 && (e < |u| ==> sc.TermMarks16(u)[e])
    requires Scanned(sc.Open16(u), sc.TermMarks16(u), sc.Cells16(u), tags, t + 1)
    ensures if u[t + 1] == sc.prefix % 0x1_0000 && e == t + 1 then sc.Clashes(sc.Open16(u), sc.TermMarks16(u))
            else Scanned(sc.Open16(u), sc.TermMarks16(u), sc.Cells16(u), tags + TurnTag16(sc, u, t, e), Reach(e, |u|))
  {
    hide TurnTag16;
    hide Scanner.TermMarks16;
    OpeningCells16(sc, u);
    hide Scanner.Open16;
    hide Scanner.Cells16;
    hide Scanner.TagAt16;
    var term, open := sc.TermMarks16(u), sc.Open16(u);
    TurnTagIsTagAt16(sc, u, t, e);
    if open[t + 1] && term[t + 1] {
      assert sc.Clashes(open, term);
    } else {
      ScanGap(open, term, sc.Cells16(u), tags, t, e);
    }
  }

  /** Standing at the last terminator, or at the last unit, the whole text is scanned. */
  lemma ScanEnds(sc: Scanner, open: seq<bool>, term: seq<bool>, cells: seq<seq<Tag>>, tags: seq<Tag>, t: int)
    requires |open| == |term| == |cells| && |open| - 1 <= t <= |open|
    requires Scanned(open, term, cells, tags, Reach(t, |open|))
    ensures !sc.Clashes(open, term) && tags == Flat(cells, |open|)
  {
  }

  lemma ScanStarts(open: seq<bool>, term: seq<bool>, cells: seq<seq<Tag>>)
    requires |open| == |term| == |cells|
    ensures Scanned(open, term, cells, [], Reach(-1, |open|))
  {
  }

  /**
   * GetTags panics exactly when some opening prefix is a terminator, and otherwise returns the
   * trimmed, non-empty runs in order.
   */
  method GetTags(sc: Scanner, str: seq<byte>) returns (r: Outcome<seq<Tag>>)
    ensures r == if sc.Clashes(sc.Open(str), sc.TermMarks(str)) then Panics else Returns(sc.Tags(str))
  {
    hide DecodeRune;
    hide Scanner.Trim;
    hide Scanner.TermMarks;
    hide Scanner.TagAt;
    hide Scanner.Open;
    hide Scanner.Cells;
    hide NextTerm;
    hide Scanned;
    hide Flat;
    hide Scanner.Clashes;
    var terminator := if sc.terminators == [] then [' ' as int] else sc.terminators;
    ghost var term := sc.TermMarks(str);
    var termIndexes: seq<int>, k := [-1], 0;
    assert str[0..] == str && term[0..] == term;
    while k < |str|
      invariant 0 <= k <= |str|
      invariant term[k..] == sc.TermMarks(str[k..])
      invariant termIndexes == TermList(term, k)
    {
      TermMarksStep(sc, str, k);
      var d := DecodeRune(str[k..]);
      var isTerm := IsTerminator(sc, d.rune, terminator);
      if isTerm { termIndexes := termIndexes + [k]; }
      TermListSkip(term, k + 1, k + d.width);
      k := k + d.width;
    }
    TermListLists(term, |str|);
    termIndexes := termIndexes + [|str|];
    var tags: seq<Tag>, i := [], 0;
    ScanStarts(sc.Open(str), term, sc.Cells(str));
    while i < |termIndexes|
      invariant 0 <= i < |termIndexes| && -1 <= termIndexes[i] <= |str|
      invariant Scanned(sc.Open(str), term, sc.Cells(str), tags, Reach(termIndexes[i], |str|))
      decreases |termIndexes| - i
    {
      var t := termIndexes[i];
      if t >= |str| - 1 {
        ScanEnds(sc, sc.Open(str), term, sc.Cells(str), tags, t);
        break;
      }
      assert Gap(term, t, termIndexes[i + 1]);
      assert i + 2 == |termIndexes| || Gap(term, termIndexes[i + 1], termIndexes[i + 2]);
      ScanStep(sc, str, tags, t, termIndexes[i + 1]);
      assert tags + [] == tags;
      if str[t + 1] == sc.prefix % 0x100 {
        if t + 2 > termIndexes[i + 1] { return Panics; }
        var tagText := sc.Trim(str[t + 2..termIndexes[i + 1]]);
        if tagText == [] {
          i := i + 1;
          continue;
        }
        tags := tags + [Tag(sc.prefix, tagText, [], t + 1)];
      }
      i := i + 1;
    }
    return Returns(tags);
  }

  /** The same scan on UTF-16 units: no trimming, and every surrogate is tested on its own. */
  method GetUTF16Tags(sc: Scanner, str: seq<uint16>) returns (r: Outcome<seq<Tag>>)
    ensures r == if sc.Clashes(sc.Open16(str), sc.TermMarks16(str)) then Panics else Returns(sc.Tags16(str))
  {
    hide Scanner.TagAt16;
    hide Scanner.Open16;
    hide Scanner.Cells16;
    hide NextTerm;
    hide Scanned;
    hide Flat;
    hide Scanner.Clashes;
    var terminator := if sc.terminators == [] then [' ' as int] else sc.terminators;
    ghost var term := sc.TermMarks16(str);
    var termIndexes: seq<int> := [-1];
    for k := 0 to |str|
      invariant termIndexes == TermList(term, k)
    {
      var isTerm := IsTerminator(sc, str[k], terminator);
      if isTerm { termIndexes := termIndexes + [k]; }
    }
    TermListLists(term, |str|);
    termIndexes := termIndexes + [|str|];
    var tags: seq<Tag>, i := [], 0;
    ScanStarts(sc.Open16(str), term, sc.Cells16(str));
    while i < |termIndexes|
      invariant 0 <= i < |termIndexes| && -1 <= termIndexes[i] <= |str|
      invariant Scanned(sc.Open16(str), term, sc.Cells16(str), tags, Reach(termIndexes[i], |str|))
      decreases |termIndexes| - i
    {
      var t := termIndexes[i];
      if t >= |str| - 1 {
        ScanEnds(sc, sc.Open16(str), term, sc.Cells16(str), tags, t);
        break;
      }
      assert Gap(term, t, termIndexes[i + 1]);
      assert i + 2 == |termIndexes| || Gap(term, termIndexes[i + 1], termIndexes[i + 2]);
      ScanStep16(sc, str, tags, t, termIndexes[i + 1]);
      assert tags + [] == tags;
      if str[t + 1] == sc.prefix % 0x1_0000 {
        if t + 2 > termIndexes[i + 1] { return Panics; }
        var tagText := str[t + 2..termIndexes[i + 1]];
        if |tagText| == 0 {
          i := i + 1;
          continue;
        }
        tags := tags + [Tag(sc.prefix, [], tagText, t + 1)];
      }
      i := i + 1;
    }
    return Returns(tags);
  }
}
