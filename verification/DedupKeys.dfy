/**
 * The keys of pkg/deduplication/redis_duplicate_messag.go: a prefix and two 64-bit integers in decimal,
 * joined by underscores.
 */
module DedupKeys {
  import opened Go

  const DUPLICATE_MESSAGE_ID := "duplicate_message_id"
  const DUPLICATE_MESSAGE_DATA := "duplicate_message_data"

  function Digit(d: int): char
    requires 0 <= d < 10
  {
    ('0' as int + d) as char
  }

  function Digits(n: nat): (s: string)
    ensures s != [] && forall c | c in s :: '0' <= c <= '9'
  {
    if n < 10 then [Digit(n)] else Digits(n / 10) + [Digit(n % 10)]
  }

  /** The verb `%d`. */
  function Decimal(x: int64): (s: string)
    ensures '_' !in s
  {
    if x < 0 then "-" + Digits(-(x as int)) else Digits(x)
  }

  /** makeDuplicateMessageKey. */
  function Key(prefix: string, senderUserId: int64, clientRandomId: int64): string {
    prefix + "_" + Decimal(senderUserId) + "_" + Decimal(clientRandomId)
  }

  lemma {:induction false} DigitsInjective(a: nat, b: nat)
    requires Digits(a) == Digits(b)
    ensures a == b
  {
    var s, t := Digits(a), Digits(b);
    assert s[|s| - 1] == Digit(a % 10) && t[|t| - 1] == Digit(b % 10);
    if a < 10 || b < 10 {
    } else {
      assert s[..|s| - 1] == Digits(a / 10) && t[..|t| - 1] == Digits(b / 10);
      DigitsInjective(a / 10, b / 10);
    }
  }

  lemma SignShows(x: int64)
    ensures Decimal(x) != [] && (Decimal(x)[0] == '-' <==> x < 0)
    ensures x < 0 ==> Decimal(x)[1..] == Digits(-(x as int))
  {
    hide Digits;
    if x >= 0 { assert Decimal(x)[0] in Digits(x); }
  }

  lemma DecimalInjective(a: int64, b: int64)
    requires Decimal(a) == Decimal(b)
    ensures a == b
  {
    SignShows(a);
    SignShows(b);
    hide Digits;
    if a < 0 {
      DigitsInjective(-(a as int), -(b as int));
    } else {
      DigitsInjective(a, b);
    }
  }

  /** Two texts without the separator that agree when joined by it agree piece by piece. */
  lemma SeparatorSplits(a: string, b: string, c: string, d: string)
    requires '_' !in a && '_' !in c
    requires a + "_" + b == c + "_" + d
    ensures a == c && b == d
  {
    var s, t := a + "_" + b, c + "_" + d;
    assert s[|a|] == '_' && t[|c|] == '_';
    assert forall i | 0 <= i < |a| :: s[i] == a[i] && a[i] in a;
    assert forall i | 0 <= i < |c| :: t[i] == c[i] && c[i] in c;
    assert s[..|a|] == a && t[..|c|] == c;
    assert s[|a| + 1..] == b && t[|c| + 1..] == d;
  }

  lemma KeyTail(prefix: string, s: int64, i: int64)
    ensures |Key(prefix, s, i)| > |prefix|
    ensures Key(prefix, s, i)[|prefix| + 1..] == Decimal(s) + "_" + Decimal(i)
  {
    hide Decimal;
    assert Key(prefix, s, i) == prefix + "_" + (Decimal(s) + "_" + Decimal(i));
  }

  /** Distinct pairs of integers have distinct keys. */
  lemma KeyInjective(prefix: string, s: int64, i: int64, s': int64, i': int64)
    requires Key(prefix, s, i) == Key(prefix, s', i')
    ensures s == s' && i == i'
  {
    hide Key;
    hide Decimal;
    KeyTail(prefix, s, i);
    KeyTail(prefix, s', i');
    SeparatorSplits(Decimal(s), Decimal(i), Decimal(s'), Decimal(i'));
    DecimalInjective(s, s');
    DecimalInjective(i, i');
  }

  /** A counter key is never a data key. */
  lemma PrefixesDisjoint(s: int64, i: int64, s': int64, i': int64)
    ensures Key(DUPLICATE_MESSAGE_ID, s, i) != Key(DUPLICATE_MESSAGE_DATA, s', i')
  {
    assert Key(DUPLICATE_MESSAGE_ID, s, i)[18] == 'i';
    assert Key(DUPLICATE_MESSAGE_DATA, s', i')[18] == 'd';
  }

  /** Reading digits in base ten. */
  function Number(s: string): int {
    if s == "" then 0 else Number(s[..|s| - 1]) * 10 + (s[|s| - 1] as int - '0' as int)
  }

  lemma {:induction false} DigitsAreDecimal(n: nat)
    ensures Number(Digits(n)) == n
  {
    var s := Digits(n);
    if n < 10 {
      assert s[..0] == "" && Number(s[..0]) == 0;
    } else {
      DigitsAreDecimal(n / 10);
      assert s[..|s| - 1] == Digits(n / 10);
    }
  }

  /** A minus sign for negative numbers, then the absolute value in base ten. */
  lemma DecimalReads(x: int64)
    ensures if x < 0 then Decimal(x) != "" && Decimal(x)[0] == '-' && Number(Decimal(x)[1..]) == -(x as int)
            else Number(Decimal(x)) == x
  {
    DigitsAreDecimal(if x < 0 then -(x as int) else x);
    SignShows(x);
  }

  /** Two keys as they stand in the store. */
  lemma KeysSpelledOut()
    ensures Key(DUPLICATE_MESSAGE_ID, 7, -5) == "duplicate_message_id_7_-5"
    ensures Key(DUPLICATE_MESSAGE_DATA, 7, -5) == "duplicate_message_data_7_-5"
  {
    assert Decimal(7) == "7" && Decimal(-5) == "-5";
  }
}
