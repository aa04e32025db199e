/**
 * When GetTags and GetUTF16Tags find the same tags in the same text.  Both are compared with a scan
 * of the runes; the 16-bit result is carried back to bytes by searching the byte-to-unit index.
 */
module MentionAgreement {
  import opened Go
  import opened Utf
  import opened Utf16Util
  import opened Marks
  import opened Mention
  import opened MentionLaws

  /** As in Unicode, no surrogate is printable. */
  ghost predicate SurrogatesTerminate(sc: Scanner) {
    forall x: uint16 | IsHigh(x) || IsLow(x) :: sc.IsTerm(x)
  }

  // ------------------------------------------------------- carrying 16-bit tags back to bytes

  /** `sort.SearchInts(a, x)`: the first place holding at least `x`. */
  function SearchInts(a: seq<int>, x: int): (p: nat)
    ensures p <= |a|
  {
    if a == [] || a[0] >= x then 0 else 1 + SearchInts(a[1..], x)
  }

  /** The byte form of a 16-bit tag: decoded, trimmed and placed by the index; dropped if nothing is left. */
  function CarryTag(sc: Scanner, a: seq<int>, t: Tag): seq<Tag> {
    var text := sc.Trim(Decode16(t.tagUtf16));
    if text == [] then [] else [Tag(t.mark, text, [], SearchInts(a, t.index))]
  }

  function Carry(sc: Scanner, a: seq<int>, tags: seq<Tag>): seq<Tag> {
    if tags == [] then []
    else Carry(sc, a, tags[..|tags| - 1]) + CarryTag(sc, a, tags[|tags| - 1])
  }

  // ------------------------------------------------------- the scan on runes

  /** The rows of marks of a scan of `rs`. */
  datatype Rows = Rows(open: seq<bool>, term: seq<bool>)

  predicate Supplementary(r: Scalar) { r >= 0x1_0000 }

  /** How GetTags sees runes: only a one-byte terminator can be followed by a tag. */
  function Rows8(sc: Scanner, rs: seq<Scalar>): (r: Rows)
    ensures |r.open| == |r.term| == |rs|
  {
    Rows(seq(|rs|, k requires 0 <= k < |rs| =>
               rs[k] == sc.prefix && (k == 0 || (rs[k - 1] < 0x80 && sc.IsTerm(rs[k - 1])))),
         seq(|rs|, k requires 0 <= k < |rs| => sc.IsTerm(rs[k])))
  }

  /** How GetUTF16Tags sees runes: a supplementary rune is a pair of terminators. */
  function Rows16(sc: Scanner, rs: seq<Scalar>): (r: Rows)
    ensures |r.open| == |r.term| == |rs|
  {
    Rows(seq(|rs|, k requires 0 <= k < |rs| =>
               rs[k] == sc.prefix && (k == 0 || Supplementary(rs[k - 1]) || sc.IsTerm(rs[k - 1]))),
         seq(|rs|, k requires 0 <= k < |rs| => Supplementary(rs[k]) || sc.IsTerm(rs[k])))
  }

  function TrimRunes(sc: Scanner, rs: seq<Scalar>): (t: seq<Scalar>)
    ensures |t| <= |rs|
  {
    if rs != [] && rs[0] == sc.prefix then TrimRunes(sc, rs[1..]) else rs
  }

  function Offset8(rs: seq<Scalar>, k: nat): nat
    requires k <= |rs|
  {
    |Utf8(rs[..k])|
  }

  function Offset16(rs: seq<Scalar>, k: nat): nat
    requires k <= |rs|
  {
    |Utf16(rs[..k])|
  }

  function Offsets8(rs: seq<Scalar>): (off: seq<nat>)
    ensures |off| == |rs| + 1
  {
    seq(|rs| + 1, k requires 0 <= k <= |rs| => Offset8(rs, k))
  }

  function Offsets16(rs: seq<Scalar>): (off: seq<nat>)
    ensures |off| == |rs| + 1
  {
    seq(|rs| + 1, k requires 0 <= k <= |rs| => Offset16(rs, k))
  }

  /** The tag found at rune `k`, in its byte form. */
  function RuneTag(sc: Scanner, rs: seq<Scalar>, rows: Rows, k: nat): seq<Tag>
    requires |rows.open| == |rows.term| == |rs| && k < |rs|
  {
    var e := NextTerm(rows.term, k);
    if !rows.open[k] || e == k then []
    else
      var text := TrimRunes(sc, rs[k + 1..e]);
      if text == [] then [] else [Tag(sc.prefix, Utf8(text), [], Offset8(rs, k))]
  }

  function RuneTags(sc: Scanner, rs: seq<Scalar>, rows: Rows): (c: seq<seq<Tag>>)
    requires |rows.open| == |rows.term| == |rs|
    ensures |c| == |rs|
  {
    seq(|rs|, k requires 0 <= k < |rs| => RuneTag(sc, rs, rows, k))
  }

  // ------------------------------------------------------- cutting encodings at runes

  lemma Cut8(rs: seq<Scalar>, i: nat, k: nat)
    requires i <= k <= |rs|
    ensures Offset8(rs, i) <= Offset8(rs, k) <= |Utf8(rs)|
    ensures Utf8(rs)[Offset8(rs, i)..Offset8(rs, k)] == Utf8(rs[i..k])
    ensures Utf8(rs)[Offset8(rs, k)..] == Utf8(rs[k..])
  {
    assert rs == rs[..k] + rs[k..] && rs[..k] == rs[..i] + rs[i..k];
    Utf8Concat(rs[..k], rs[k..]);
    Utf8Concat(rs[..i], rs[i..k]);
  }

  lemma Cut16(rs: seq<Scalar>, i: nat, k: nat)
    requires i <= k <= |rs|
    ensures Offset16(rs, i) <= Offset16(rs, k) <= |Utf16(rs)|
    ensures Utf16(rs)[Offset16(rs, i)..Offset16(rs, k)] == Utf16(rs[i..k])
    ensures Utf16(rs)[Offset16(rs, k)..] == Utf16(rs[k..])
  {
    assert rs == rs[..k] + rs[k..] && rs[..k] == rs[..i] + rs[i..k];
    Utf16Concat(rs[..k], rs[k..]);
    Utf16Concat(rs[..i], rs[i..k]);
  }

  lemma Utf8From(rs: seq<Scalar>, k: nat)
    requires k < |rs|
    ensures Utf8(rs[k..]) == EncodeRune(rs[k]) + Utf8(rs[k + 1..])
    ensures Utf8(rs[k..k + 1]) == EncodeRune(rs[k])
  {
    hide EncodeRune;
    assert rs[k..][1..] == rs[k + 1..];
    assert rs[k..k + 1][1..] == [];
  }

  lemma RuneAt8(rs: seq<Scalar>, k: nat)
    requires k < |rs|
    ensures Offset8(rs, k + 1) == Offset8(rs, k) + RuneLen(rs[k]) <= |Utf8(rs)|
    ensures Utf8(rs)[Offset8(rs, k)..Offset8(rs, k + 1)] == EncodeRune(rs[k])
    ensures Utf8(rs)[Offset8(rs, k)..] == EncodeRune(rs[k]) + Utf8(rs[k + 1..])
  {
    hide EncodeRune;
    hide Utf8;
    Cut8(rs, k, k + 1);
    Utf8From(rs, k);
  }

  lemma RuneDecodesAt8(rs: seq<Scalar>, k: nat)
    requires k < |rs|
    ensures Offset8(rs, k) < |Utf8(rs)|
    ensures DecodeRune(Utf8(rs)[Offset8(rs, k)..]) == Step(rs[k], RuneLen(rs[k]), true)
  {
    hide DecodeRune;
    hide EncodeRune;
    hide Utf8;
    RuneAt8(rs, k);
    DecodeInvertsEncode(rs[k], Utf8(rs[k + 1..]));
  }

  lemma RuneAt16(rs: seq<Scalar>, k: nat)
    requires k < |rs|
    ensures Offset16(rs, k + 1) == Offset16(rs, k) + UnitLen(rs[k])
    ensures Offset16(rs, k + 1) <= |Utf16(rs)|
    ensures Utf16(rs)[Offset16(rs, k)..Offset16(rs, k + 1)] == EncodeUnits(rs[k])
  {
    Cut16(rs, k, k + 1);
    assert Utf16(rs[k..k + 1]) == EncodeUnits(rs[k]) by { assert rs[k..k + 1][1..] == []; }
    assert rs[..k + 1] == rs[..k] + rs[k..k + 1];
    Utf16Concat(rs[..k], rs[k..k + 1]);
  }

  // ------------------------------------------------------- GetTags scans runes

  lemma EncodedBytes(r: Scalar)
    ensures var e := EncodeRune(r);
            && |e| >= 1
            && (e[|e| - 1] < 0x80 <==> r < 0x80)
            && (e[0] < 0x80 <==> r < 0x80)
            && (r < 0x80 ==> e == [r])
  {
  }

  lemma RuneBytes(rs: seq<Scalar>, k: nat)
    requires k < |rs|
    ensures var p, q := Offset8(rs, k), Offset8(rs, k + 1);
            && p < q <= |Utf8(rs)|
            && Boundary(Utf8(rs), p)
            && (forall j | p < j < q :: IsContinuation(Utf8(rs)[j]))
            && (Utf8(rs)[q - 1] < 0x80 <==> rs[k] < 0x80)
            && (rs[k] < 0x80 ==> q == p + 1 && Utf8(rs)[p] == rs[k])
            && (Utf8(rs)[p] < 0x80 ==> rs[k] < 0x80)
  {
    hide EncodeRune;
    hide Utf8;
    hide Offset8;
    RuneAt8(rs, k);
    EncodedBytes(rs[k]);
    var p, q := Offset8(rs, k), Offset8(rs, k + 1);
    var e := EncodeRune(rs[k]);
    forall j | p <= j < q
      ensures Utf8(rs)[j] == e[j - p]
    {
      assert Utf8(rs)[p..q][j - p] == e[j - p];
    }
  }

  lemma NothingBefore(rs: seq<Scalar>)
    ensures Offset8(rs, 0) == 0 == Offset16(rs, 0)
    ensures Offset8(rs, |rs|) == |Utf8(rs)| && Offset16(rs, |rs|) == |Utf16(rs)|
  {
    assert rs[..0] == [] && rs[..|rs|] == rs;
  }

  /** Inside a rune nothing opens and nothing ends. */
  lemma InsideIsPlain(sc: Scanner, s: seq<byte>, j: nat)
    requires ValidUtf8(s) && OrdinaryPrefix(sc) && j < |s| && IsContinuation(s[j])
    ensures !sc.Open(s)[j] && !sc.TermMarks(s)[j]
  {
    hide DecodeRune;
    hide Scanner.TermMarks;
    hide Scanner.Open;
    hide Scanner.IsTerm;
    hide ValidUtf8;
    TermMarksMean(sc, s, j);
    OpenMeans(sc, s, j);
  }

  /** A rune ends what its first byte ends. */
  lemma FirstByteEnds(sc: Scanner, s: seq<byte>, rs: seq<Scalar>, k: nat)
    requires ValidUtf8(s) && s == Utf8(rs) && k < |rs|
    ensures Offset8(rs, k) < |s|
    ensures sc.TermMarks(s)[Offset8(rs, k)] == sc.IsTerm(rs[k])
  {
    hide DecodeRune;
    hide Scanner.TermMarks;
    hide Scanner.IsTerm;
    hide ValidUtf8;
    hide Utf8;
    hide Offset8;
    RuneBytes(rs, k);
    RuneDecodesAt8(rs, k);
    TermMarksMean(sc, s, Offset8(rs, k));
  }

  /** A rune starts what its first byte starts. */
  lemma FirstByteStarts(sc: Scanner, rs: seq<Scalar>, k: nat)
    requires OrdinaryPrefix(sc) && k < |rs|
    ensures Offset8(rs, k) < |Utf8(rs)|
    ensures TagStart(sc, Utf8(rs), Offset8(rs, k)) == Rows8(sc, rs).open[k]
  {
    hide IsContinuation;
    hide Boundary;
    hide Scanner.IsTerm;
    hide Utf8;
    hide Offset8;
    RuneBytes(rs, k);
    if k > 0 {
      RuneBytes(rs, k - 1);
    } else {
      NothingBefore(rs);
    }
  }

  lemma Entry8(sc: Scanner, s: seq<byte>, rs: seq<Scalar>, k: nat)
    requires ValidUtf8(s) && rs == Runes(s) && s == Utf8(rs) && OrdinaryPrefix(sc) && k < |rs|
    ensures EntryRefines(Rows8(sc, rs).open[k], Rows8(sc, rs).term[k], sc.Open(s), sc.TermMarks(s),
                         Offset8(rs, k), Offset8(rs, k + 1))
  {
    hide Scanner.TermMarks;
    hide Scanner.Open;
    hide IsContinuation;
    hide ValidUtf8;
    hide Utf8;
    hide Runes;
    hide Offset8;
    hide Scanner.IsTerm;
    var p, q := Offset8(rs, k), Offset8(rs, k + 1);
    RuneBytes(rs, k);
    FirstByteEnds(sc, s, rs, k);
    FirstByteStarts(sc, rs, k);
    OpenMeans(sc, s, p);
    hide TagStart;
    forall j | p < j < q
      ensures !sc.Open(s)[j] && !sc.TermMarks(s)[j]
    {
      InsideIsPlain(sc, s, j);
    }
  }

  lemma {:induction false} TrimOfUtf8(sc: Scanner, rs: seq<Scalar>)
    requires OrdinaryPrefix(sc)
    ensures sc.Trim(Utf8(rs)) == Utf8(TrimRunes(sc, rs))
  {
    if rs == [] {
    } else {
      var s := Utf8(rs);
      DecodeInvertsEncode(rs[0], Utf8(rs[1..]));
      assert s[RuneLen(rs[0])..] == Utf8(rs[1..]);
      TrimOfUtf8(sc, rs[1..]);
    }
  }

  lemma {:induction false} Utf8OfNothing(rs: seq<Scalar>)
    ensures Utf8(rs) == [] <==> rs == []
  {
  }

  lemma Cell8(sc: Scanner, s: seq<byte>, rs: seq<Scalar>, k: nat)
    requires ValidUtf8(s) && rs == Runes(s) && s == Utf8(rs) && OrdinaryPrefix(sc) && k < |rs|
    requires Refines(Rows8(sc, rs).open, Rows8(sc, rs).term, sc.Open(s), sc.TermMarks(s), Offsets8(rs))
    ensures Offset8(rs, k) < |s|
    ensures sc.TagAt(s, Offset8(rs, k)) == RuneTag(sc, rs, Rows8(sc, rs), k)
  {
    hide DecodeRune;
    hide Scanner.TermMarks;
    hide Scanner.Open;
    hide Scanner.IsTerm;
    hide Scanner.Trim;
    hide TrimRunes;
    hide ValidUtf8;
    hide Utf8;
    hide Runes;
    var rows, p := Rows8(sc, rs), Offset8(rs, k);
    RuneAt8(rs, k);
    Entry8(sc, s, rs, k);
    NextTermRefines(rows.open, rows.term, sc.Open(s), sc.TermMarks(s), Offsets8(rs), k);
    var e := NextTerm(rows.term, k);
    if rows.open[k] && e > k {
      Cut8(rs, k + 1, e);
      assert s[p + 1..Offset8(rs, e)] == Utf8(rs[k + 1..e]);
      TrimOfUtf8(sc, rs[k + 1..e]);
      Utf8OfNothing(TrimRunes(sc, rs[k + 1..e]));
    }
  }

  lemma NotOpenNoTag(sc: Scanner, s: seq<byte>, j: nat)
    requires j < |s| && !sc.Open(s)[j]
    ensures sc.TagAt(s, j) == []
  {
  }

  /** GetTags is the scan of the runes by the rows of Rows8. */
  lemma TagsAreRuneTags(sc: Scanner, s: seq<byte>)
    requires ValidUtf8(s) && OrdinaryPrefix(sc)
    ensures var rs := Runes(s); sc.Tags(s) == Flat(RuneTags(sc, rs, Rows8(sc, rs)), |rs|)
  {
    hide DecodeRune;
    hide Scanner.TermMarks;
    hide Scanner.Open;
    hide Scanner.TagAt;
    hide RuneTag;
    hide ValidUtf8;
    hide Utf8;
    hide Runes;
    var rs := Runes(s);
    Utf8OfRunes(s);
    NothingBefore(rs);
    var rows := Rows8(sc, rs);
    var off := Offsets8(rs);
    forall k | 0 <= k < |rs|
      ensures EntryRefines(rows.open[k], rows.term[k], sc.Open(s), sc.TermMarks(s), off[k], off[k + 1])
    {
      Entry8(sc, s, rs, k);
    }
    var cells := RuneTags(sc, rs, rows);
    forall k | 0 <= k < |rs|
      ensures CellRefines(cells[k], sc.Cells(s), off[k], off[k + 1])
    {
      Cell8(sc, s, rs, k);
      assert EntryRefines(rows.open[k], rows.term[k], sc.Open(s), sc.TermMarks(s), off[k], off[k + 1]);
      forall j | off[k] < j < off[k + 1]
        ensures sc.Cells(s)[j] == []
      {
        NotOpenNoTag(sc, s, j);
      }
    }
    FlatRefines(cells, sc.Cells(s), off, |rs|);
  }

  // ------------------------------------------------------- GetUTF16Tags, carried back, scans runes

  lemma RuneUnits(sc: Scanner, rs: seq<Scalar>, k: nat)
    requires OrdinaryPrefix(sc) && SurrogatesTerminate(sc) && k < |rs|
    ensures var u, p, q := Utf16(rs), Offset16(rs, k), Offset16(rs, k + 1);
            && p < q <= |u|
            && (u[p] == sc.prefix <==> rs[k] == sc.prefix)
            && (rs[k] == sc.prefix ==> q == p + 1)
            && (sc.IsTerm(u[p]) <==> Supplementary(rs[k]) || sc.IsTerm(rs[k]))
            && (sc.IsTerm(u[q - 1]) <==> Supplementary(rs[k]) || sc.IsTerm(rs[k]))
            && forall j | p < j < q :: u[j] != sc.prefix && Supplementary(rs[k])
  {
    RuneAt16(rs, k);
    var u, p, q := Utf16(rs), Offset16(rs, k), Offset16(rs, k + 1);
    var e := EncodeUnits(rs[k]);
    forall j | p <= j < q
      ensures u[j] == e[j - p]
    {
      assert u[p..q][j - p] == e[j - p];
    }
    hide Scanner.IsTerm;
    if Supplementary(rs[k]) {
      assert IsHigh(e[0]) && IsLow(e[1]);
    }
  }

  lemma Marks16Mean(sc: Scanner, u: seq<uint16>, j: nat)
    requires OrdinaryPrefix(sc) && j < |u|
    ensures sc.TermMarks16(u)[j] == sc.IsTerm(u[j])
    ensures sc.Open16(u)[j] == (u[j] == sc.prefix && (j == 0 || sc.IsTerm(u[j - 1])))
  {
    assert sc.prefix % 0x1_0000 == sc.prefix;
  }

  lemma Entry16(sc: Scanner, rs: seq<Scalar>, k: nat)
    requires OrdinaryPrefix(sc) && SurrogatesTerminate(sc) && k < |rs|
    ensures EntryRefines(Rows16(sc, rs).open[k], Rows16(sc, rs).term[k], sc.Open16(Utf16(rs)),
                         sc.TermMarks16(Utf16(rs)), Offset16(rs, k), Offset16(rs, k + 1))
  {
    hide Scanner.IsTerm;
    hide Scanner.Open16;
    hide Scanner.TermMarks16;
    hide Utf16;
    var u, p, q := Utf16(rs), Offset16(rs, k), Offset16(rs, k + 1);
    RuneUnits(sc, rs, k);
    Marks16Mean(sc, u, p);
    if k > 0 {
      RuneUnits(sc, rs, k - 1);
    } else {
      NothingBefore(rs);
    }
    forall j | p < j < q
      ensures !sc.Open16(u)[j]
    {
      Marks16Mean(sc, u, j);
    }
  }

  lemma {:induction false} SearchFinds(a: seq<int>, p: nat)
    requires p < |a|
    requires forall j | 0 <= j < p :: a[j] < a[p]
    ensures SearchInts(a, a[p]) == p
  {
    if p == 0 {
    } else {
      assert a[1..][p - 1] == a[p];
      assert forall j | 0 <= j < p - 1 :: a[1..][j] == a[j + 1];
      SearchFinds(a[1..], p - 1);
    }
  }

  lemma BoundaryIsNew(s: seq<byte>, a: seq<int>, j: nat, p: nat)
    requires ValidUtf8(s) && IsUnitIndex(s, a) && j < p <= |s| && Boundary(s, p)
    ensures a[j] < a[p]
  {
    hide ValidUtf8;
    hide IsUnitIndex;
    hide Floor;
    UnitsBetween(s, a, j, p - 1);
    IndexSteps(s, a, p - 1);
  }

  lemma UnitOfRune(s: seq<byte>, rs: seq<Scalar>, a: seq<int>, k: nat)
    requires ValidUtf8(s) && rs == Runes(s) && s == Utf8(rs) && IsUnitIndex(s, a) && k < |rs|
    ensures Offset8(rs, k) < |s| && a[Offset8(rs, k)] == Offset16(rs, k)
  {
    var p := Offset8(rs, k);
    RuneBytes(rs, k);
    IndexAt(s, a, p);
    assert Floor(s, p) == p;
    Cut8(rs, 0, k);
    assert rs[0..k] == rs[..k];
    NothingBefore(rs);
    assert s[..p] == Utf8(rs[..k]);
    RunesOfUtf8(rs[..k]);
  }

  /** The index takes rune boundaries of the string to rune boundaries of its encoding, and back. */
  lemma IndexOfRune(s: seq<byte>, rs: seq<Scalar>, a: seq<int>, k: nat)
    requires ValidUtf8(s) && rs == Runes(s) && s == Utf8(rs) && IsUnitIndex(s, a) && k < |rs|
    ensures Offset8(rs, k) < |s| && a[Offset8(rs, k)] == Offset16(rs, k)
    ensures SearchInts(a, Offset16(rs, k)) == Offset8(rs, k)
  {
    assert |a| == |s| + 1;
    hide DecodeRune;
    hide ValidUtf8;
    hide IsUnitIndex;
    hide EntryFits;
    hide SearchInts;
    hide Runes;
    hide Utf8;
    hide Encode16;
    hide Decode16;
    var p := Offset8(rs, k);
    RuneBytes(rs, k);
    UnitOfRune(s, rs, a, k);
    forall j | 0 <= j < p
      ensures a[j] < a[p]
    {
      BoundaryIsNew(s, a, j, p);
    }
    SearchFinds(a, p);
  }

  lemma CarriedText(sc: Scanner, rs: seq<Scalar>)
    requires OrdinaryPrefix(sc)
    ensures sc.Trim(Decode16(Utf16(rs))) == Utf8(TrimRunes(sc, rs))
    ensures Utf8(TrimRunes(sc, rs)) == [] <==> TrimRunes(sc, rs) == []
    ensures Utf16(rs) == [] ==> TrimRunes(sc, rs) == []
  {
    Runes16OfUtf16(rs);
    TrimOfUtf8(sc, rs);
    Utf8OfNothing(TrimRunes(sc, rs));
  }

  lemma CarryOne(sc: Scanner, a: seq<int>, t: Tag)
    ensures Carry(sc, a, [t]) == CarryTag(sc, a, t)
  {
    assert [t][..0] == [];
  }

  lemma Cell16(sc: Scanner, s: seq<byte>, rs: seq<Scalar>, a: seq<int>, k: nat)
    requires ValidUtf8(s) && rs == Runes(s) && s == Utf8(rs) && IsUnitIndex(s, a) && k < |rs|
    requires OrdinaryPrefix(sc) && SurrogatesTerminate(sc)
    requires Refines(Rows16(sc, rs).open, Rows16(sc, rs).term, sc.Open16(Utf16(rs)), sc.TermMarks16(Utf16(rs)),
                     Offsets16(rs))
    ensures Offset16(rs, k) < |Utf16(rs)|
    ensures Carry(sc, a, sc.TagAt16(Utf16(rs), Offset16(rs, k))) == RuneTag(sc, rs, Rows16(sc, rs), k)
  {
    hide Scanner.TermMarks16;
    hide Scanner.Open16;
    hide Scanner.IsTerm;
    hide Scanner.Trim;
    hide TrimRunes;
    hide ValidUtf8;
    hide Utf8;
    hide Utf16;
    hide Runes;
    hide IsUnitIndex;
    hide SearchInts;
    var u, rows, p := Utf16(rs), Rows16(sc, rs), Offset16(rs, k);
    RuneUnits(sc, rs, k);
    Entry16(sc, rs, k);
    IndexOfRune(s, rs, a, k);
    NextTermRefines(rows.open, rows.term, sc.Open16(u), sc.TermMarks16(u), Offsets16(rs), k);
    var e := NextTerm(rows.term, k);
    if rows.open[k] && e > k {
      Cut16(rs, k + 1, e);
      var text := u[p + 1..Offset16(rs, e)];
      assert text == Utf16(rs[k + 1..e]);
      CarriedText(sc, rs[k + 1..e]);
      CarryOne(sc, a, Tag(sc.prefix, [], text, p));
    }
  }

  lemma {:induction false} CarryConcat(sc: Scanner, a: seq<int>, x: seq<Tag>, y: seq<Tag>)
    ensures Carry(sc, a, x + y) == Carry(sc, a, x) + Carry(sc, a, y)
  {
    if y == [] {
      assert x + y == x;
    } else {
      assert (x + y)[..|x + y| - 1] == x + y[..|y| - 1];
      CarryConcat(sc, a, x, y[..|y| - 1]);
    }
  }

  function CarryCells(sc: Scanner, a: seq<int>, cells: seq<seq<Tag>>): (c: seq<seq<Tag>>)
    ensures |c| == |cells|
  {
    seq(|cells|, k requires 0 <= k < |cells| => Carry(sc, a, cells[k]))
  }

  lemma {:induction false} CarryFlat(sc: Scanner, a: seq<int>, cells: seq<seq<Tag>>, n: nat)
    requires n <= |cells|
    ensures Carry(sc, a, Flat(cells, n)) == Flat(CarryCells(sc, a, cells), n)
  {
    hide CarryTag;
    if n == 0 {
      assert Flat(cells, 0) == [] && Carry(sc, a, []) == [];
    } else {
      CarryFlat(sc, a, cells, n - 1);
      var before, cell, carried := Flat(cells, n - 1), cells[n - 1], CarryCells(sc, a, cells);
      assert Flat(cells, n) == before + cell;
      assert Flat(carried, n) == Flat(carried, n - 1) + Carry(sc, a, cell);
      hide *;
      CarryConcat(sc, a, before, cell);
    }
  }

  lemma NotOpenNoTag16(sc: Scanner, u: seq<uint16>, j: nat)
    requires j < |u| && !sc.Open16(u)[j]
    ensures sc.TagAt16(u, j) == []
  {
  }

  /** GetUTF16Tags, carried back, is the scan of the runes by the rows of Rows16. */
  lemma CarriedTagsAreRuneTags(sc: Scanner, s: seq<byte>, a: seq<int>)
    requires ValidUtf8(s) && OrdinaryPrefix(sc) && SurrogatesTerminate(sc) && IsUnitIndex(s, a)
    ensures var rs := Runes(s);
            Carry(sc, a, sc.Tags16(Encode16(s))) == Flat(RuneTags(sc, rs, Rows16(sc, rs)), |rs|)
  {
    hide Scanner.TermMarks16;
    hide Scanner.Open16;
    hide Scanner.TagAt16;
    hide RuneTag;
    hide ValidUtf8;
    hide Utf8;
    hide Utf16;
    hide Runes;
    hide IsUnitIndex;
    hide OrdinaryPrefix;
    hide SurrogatesTerminate;
    var rs := Runes(s);
    var u := Utf16(rs);
    Utf8OfRunes(s);
    NothingBefore(rs);
    var rows, off := Rows16(sc, rs), Offsets16(rs);
    forall k | 0 <= k < |rs|
      ensures EntryRefines(rows.open[k], rows.term[k], sc.Open16(u), sc.TermMarks16(u), off[k], off[k + 1])
    {
      Entry16(sc, rs, k);
    }
    var cells, fine := RuneTags(sc, rs, rows), CarryCells(sc, a, sc.Cells16(u));
    forall k | 0 <= k < |rs|
      ensures CellRefines(cells[k], fine, off[k], off[k + 1])
    {
      Cell16(sc, s, rs, a, k);
      assert EntryRefines(rows.open[k], rows.term[k], sc.Open16(u), sc.TermMarks16(u), off[k], off[k + 1]);
      forall j | off[k] < j < off[k + 1]
        ensures fine[j] == []
      {
        NotOpenNoTag16(sc, u, j);
      }
    }
    FlatRefines(cells, fine, off, |rs|);
    CarryFlat(sc, a, sc.Cells16(u), |u|);
  }

  // ------------------------------------------------------- when the two agree

  /**
   * Nothing at rune `k` tells the scanners apart.  Where both open a tag, the 16-bit run is not cut
   * short by a supplementary rune that does not terminate.  Where only the 16-bit scanner opens one,
   * behind a supplementary rune or a terminator wider than a byte, only prefixes follow.
   */
  predicate AgreesAt(sc: Scanner, rs: seq<Scalar>, k: nat)
    requires k < |rs|
  {
    var e := NextTerm(Rows16(sc, rs).term, k);
    if Rows8(sc, rs).open[k] then e == |rs| || sc.IsTerm(rs[e])
    else if Rows16(sc, rs).open[k] then forall j | k < j < e :: rs[j] == sc.prefix
    else true
  }

  lemma {:induction false} TrimAll(sc: Scanner, rs: seq<Scalar>)
    ensures TrimRunes(sc, rs) == [] <==> forall j | 0 <= j < |rs| :: rs[j] == sc.prefix
  {
    if rs == [] || rs[0] != sc.prefix {
    } else {
      TrimAll(sc, rs[1..]);
      assert forall j | 0 < j < |rs| :: rs[1..][j - 1] == rs[j];
    }
  }

  lemma {:induction false} TrimKeepsEnd(sc: Scanner, x: seq<Scalar>, y: seq<Scalar>)
    requires y != [] && y[0] != sc.prefix
    ensures TrimRunes(sc, x + y) == TrimRunes(sc, x) + y
  {
    if x == [] {
      assert x + y == y;
    } else if x[0] == sc.prefix {
      assert (x + y)[1..] == x[1..] + y;
      TrimKeepsEnd(sc, x[1..], y);
    }
  }

  lemma Utf8Longer(a: seq<Scalar>, b: seq<Scalar>)
    requires b != []
    ensures Utf8(a + b) != Utf8(a)
  {
    Utf8Concat(a, b);
    Utf8OfNothing(b);
  }

  /** Two rows of marks that open at `k` find the same tag there exactly when their runs end together. */
  lemma RunsMustMatch(sc: Scanner, rs: seq<Scalar>, k: nat)
    requires OrdinaryPrefix(sc) && k < |rs| && Rows8(sc, rs).open[k]
    ensures RuneTag(sc, rs, Rows8(sc, rs), k) == RuneTag(sc, rs, Rows16(sc, rs), k) <==> AgreesAt(sc, rs, k)
  {
    hide Scanner.IsTerm;
    hide TrimRunes;
    hide Utf8;
    var rows, rows16 := Rows8(sc, rs), Rows16(sc, rs);
    var e, e16 := NextTerm(rows.term, k), NextTerm(rows16.term, k);
    assert forall j | 0 <= j < |rs| && !rows16.term[j] :: !rows.term[j];
    if AgreesAt(sc, rs, k) {
      NextTermUnique(rows.term, k, e16);
    } else {
      assert !rows.term[e16];
      assert e16 < e;
      var x, y := rs[k + 1..e16], rs[e16..e];
      assert x + y == rs[k + 1..e];
      TrimKeepsEnd(sc, x, y);
      Utf8Longer(TrimRunes(sc, x), y);
    }
  }

  lemma OnlySixteenOpens(sc: Scanner, rs: seq<Scalar>, k: nat)
    requires OrdinaryPrefix(sc) && k < |rs| && !Rows8(sc, rs).open[k]
    ensures RuneTag(sc, rs, Rows8(sc, rs), k) == RuneTag(sc, rs, Rows16(sc, rs), k) <==> AgreesAt(sc, rs, k)
  {
    hide Scanner.IsTerm;
    hide TrimRunes;
    hide Utf8;
    var e := NextTerm(Rows16(sc, rs).term, k);
    if Rows16(sc, rs).open[k] {
      var text := rs[k + 1..e];
      TrimAll(sc, text);
      assert forall j | k < j < e :: text[j - k - 1] == rs[j];
    }
  }

  /** The tags of `cells` sit at most one to a cell, at the offset of that cell. */
  ghost predicate Placed(rs: seq<Scalar>, cells: seq<seq<Tag>>) {
    && |cells| == |rs|
    && forall k | 0 <= k < |rs| :: |cells[k]| <= 1 && forall t | t in cells[k] :: t.index == Offset8(rs, k)
  }

  lemma OffsetsStrict(rs: seq<Scalar>, i: nat, k: nat)
    requires i < k <= |rs|
    ensures Offset8(rs, i) < Offset8(rs, k)
  {
    assert rs[..k] == rs[..i] + rs[i..k];
    Utf8Concat(rs[..i], rs[i..k]);
    Utf8OfNothing(rs[i..k]);
  }

  lemma {:induction false} FlatBefore(rs: seq<Scalar>, cells: seq<seq<Tag>>, n: nat, t: Tag)
    requires Placed(rs, cells) && n <= |rs| && t in Flat(cells, n)
    ensures t.index < Offset8(rs, n)
  {
    FlatContains(cells, n, t);
    var j :| 0 <= j < n && t in cells[j];
    OffsetsStrict(rs, j, n);
  }

  lemma SameLengthEnds(a: seq<Tag>, x: seq<Tag>, b: seq<Tag>, y: seq<Tag>)
    requires |x| == |y|
    ensures a + x == b + y <==> a == b && x == y
  {
    if a + x == b + y {
      assert a == (a + x)[..|a|] && b == (b + y)[..|b|];
      assert x == (a + x)[|a|..] && y == (b + y)[|b|..];
    }
  }

  lemma LastDiffers(rs: seq<Scalar>, y: seq<seq<Tag>>, n: nat, before: seq<Tag>, last: Tag)
    requires Placed(rs, y) && 0 < n <= |rs| && last.index == Offset8(rs, n - 1)
    ensures before + [last] != Flat(y, n - 1)
  {
    if before + [last] == Flat(y, n - 1) {
      assert last in before + [last];
      FlatBefore(rs, y, n - 1, last);
    }
  }

  /** Lists of placed tags are equal exactly when they are cell by cell. */
  lemma {:induction false} FlatEqual(rs: seq<Scalar>, x: seq<seq<Tag>>, y: seq<seq<Tag>>, n: nat)
    requires Placed(rs, x) && Placed(rs, y) && n <= |rs|
    ensures Flat(x, n) == Flat(y, n) <==> forall k | 0 <= k < n :: x[k] == y[k]
  {
    if n == 0 {
    } else {
      FlatEqual(rs, x, y, n - 1);
      var fx, fy := Flat(x, n - 1), Flat(y, n - 1);
      assert Flat(x, n) == fx + x[n - 1] && Flat(y, n) == fy + y[n - 1];
      if x[n - 1] != [] && y[n - 1] == [] {
        LastDiffers(rs, y, n, fx, x[n - 1][0]);
        assert x[n - 1] == [x[n - 1][0]] && fy + [] == fy;
      } else if x[n - 1] == [] && y[n - 1] != [] {
        LastDiffers(rs, x, n, fy, y[n - 1][0]);
        assert y[n - 1] == [y[n - 1][0]] && fx + [] == fx;
      } else {
        SameLengthEnds(fx, x[n - 1], fy, y[n - 1]);
      }
    }
  }

  lemma RuneTagsPlaced(sc: Scanner, rs: seq<Scalar>, rows: Rows)
    requires |rows.open| == |rows.term| == |rs|
    ensures Placed(rs, RuneTags(sc, rs, rows))
  {
  }

  /**
   * On valid text, GetUTF16Tags carried back through the index is GetTags exactly when no rune tells
   * the two scanners apart.
   */
  lemma ScannersAgree(sc: Scanner, s: seq<byte>, a: seq<int>)
    requires ValidUtf8(s) && OrdinaryPrefix(sc) && SurrogatesTerminate(sc) && IsUnitIndex(s, a)
    ensures sc.Tags(s) == Carry(sc, a, sc.Tags16(Encode16(s)))
            <==> forall k | 0 <= k < |Runes(s)| :: AgreesAt(sc, Runes(s), k)
  {
    hide Scanner.Tags;
    hide Scanner.Tags16;
    hide ValidUtf8;
    hide IsUnitIndex;
    hide SurrogatesTerminate;
    hide OrdinaryPrefix;
    hide Runes;
    hide AgreesAt;
    hide Carry;
    TagsAreRuneTags(sc, s);
    CarriedTagsAreRuneTags(sc, s, a);
    var rs := Runes(s);
    var x, y := RuneTags(sc, rs, Rows8(sc, rs)), RuneTags(sc, rs, Rows16(sc, rs));
    RuneTagsPlaced(sc, rs, Rows8(sc, rs));
    RuneTagsPlaced(sc, rs, Rows16(sc, rs));
    hide RuneTag;
    hide Placed;
    FlatEqual(rs, x, y, |rs|);
    forall k | 0 <= k < |rs|
      ensures x[k] == y[k] <==> AgreesAt(sc, rs, k)
    {
      if Rows8(sc, rs).open[k] { RunsMustMatch(sc, rs, k); } else { OnlySixteenOpens(sc, rs, k); }
    }
  }

  /** They agree whenever the text stays in the Basic Multilingual Plane and its terminators are one byte. */
  lemma AgreeOnPlainText(sc: Scanner, s: seq<byte>, a: seq<int>)
    requires ValidUtf8(s) && OrdinaryPrefix(sc) && SurrogatesTerminate(sc) && IsUnitIndex(s, a)
    requires forall r | r in Runes(s) :: !Supplementary(r) && (sc.IsTerm(r) ==> r < 0x80)
    ensures sc.Tags(s) == Carry(sc, a, sc.Tags16(Encode16(s)))
  {
    hide Scanner.Tags;
    hide Scanner.Tags16;
    hide Runes;
    hide Carry;
    hide Scanner.IsTerm;
    ScannersAgree(sc, s, a);
    var rs := Runes(s);
    forall k | 0 <= k < |rs|
      ensures AgreesAt(sc, rs, k)
    {
      var e := NextTerm(Rows16(sc, rs).term, k);
      assert e < |rs| ==> rs[e] in rs;
      assert k > 0 ==> rs[k - 1] in rs;
    }
  }

  /** The two scans of a prefix with an emoji behind it. */
  lemma PrefixAndEmoji(sc: Scanner, rs: seq<Scalar>, emoji: Scalar)
    requires OrdinaryPrefix(sc) && Supplementary(emoji) && !sc.IsTerm(emoji)
    requires |rs| == 2 && rs[0] == sc.prefix && rs[1] == emoji
    ensures Flat(RuneTags(sc, rs, Rows8(sc, rs)), 2) == [Tag(sc.prefix, EncodeRune(emoji), [], 0)]
    ensures Flat(RuneTags(sc, rs, Rows16(sc, rs)), 2) == []
  {
    hide EncodeRune;
    NextTermUnique(Rows8(sc, rs).term, 0, 2);
    NextTermUnique(Rows16(sc, rs).term, 0, 1);
    assert rs[1..2] == [emoji] && rs[1..1] == [] && rs[..0] == [];
    assert Utf8([emoji]) == EncodeRune(emoji) by { assert Utf8([emoji][1..]) == []; }
    var x, y := RuneTags(sc, rs, Rows8(sc, rs)), RuneTags(sc, rs, Rows16(sc, rs));
    assert x[0] == [Tag(sc.prefix, EncodeRune(emoji), [], 0)] && x[1] == [];
    assert y[0] == [] && y[1] == [];
    FlatSkip(x, 1, 2);
    FlatSkip(y, 0, 2);
    assert Flat(x, 1) == Flat(x, 0) + x[0];
  }

  /** A printable emoji right behind the prefix is a tag for GetTags only. */
  lemma EmojiTagIsLost(sc: Scanner, s: seq<byte>, a: seq<int>, emoji: Scalar)
    requires OrdinaryPrefix(sc) && SurrogatesTerminate(sc) && Supplementary(emoji) && !sc.IsTerm(emoji)
    requires s == Utf8([sc.prefix, emoji]) && IsUnitIndex(s, a)
    ensures sc.Tags(s) == [Tag(sc.prefix, EncodeRune(emoji), [], 0)]
    ensures Carry(sc, a, sc.Tags16(Encode16(s))) == []
  {
    hide Scanner.Tags;
    hide Scanner.Tags16;
    hide Runes;
    hide Utf8;
    hide Carry;
    hide EncodeRune;
    hide RuneTags;
    hide Rows8;
    hide Rows16;
    var rs := [sc.prefix as Scalar, emoji];
    RunesOfUtf8(rs);
    TagsAreRuneTags(sc, s);
    CarriedTagsAreRuneTags(sc, s, a);
    PrefixAndEmoji(sc, rs, emoji);
  }
}
