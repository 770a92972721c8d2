/**
 * The names under which the log is published: the container named after
 * the host (`get_subject_container_name`) and the blob named after the UTC
 * date (`"messages-{}".format(dt.utcnow().strftime('%Y%m%d'))`). The host
 * name and the date are inputs.
 */
module Naming {
  import opened Wrappers
  import opened Text

  /** `s.lower()` on ASCII letters. */
  function Lower(s: string): (r: string)
    ensures |r| == |s|
    ensures forall i :: 0 <= i < |s| ==> r[i] == LowerChar(s[i])
  {
    seq(|s|, i requires 0 <= i < |s| => LowerChar(s[i]))
  }

  /** `s.replace(from, to)` for one-character strings. */
  function ReplaceChar(s: string, from: char, to: char): (r: string)
    ensures |r| == |s|
    ensures forall i :: 0 <= i < |s| ==> r[i] == if s[i] == from then to else s[i]
  {
    seq(|s|, i requires 0 <= i < |s| => if s[i] == from then to else s[i])
  }

  /** `s.replace(c, '')`: every `c` removed, the other characters kept in order. */
  function RemoveChar(s: string, c: char): (r: string)
    ensures |r| == |s| - Count(s, c)
    ensures c !in r
    ensures forall x :: x in r ==> x in s
  {
    if s == [] then []
    else
      var rest := RemoveChar(s[1..], c);
      assert forall x :: x in rest ==> x in s by {
        forall x | x in rest ensures x in s {
          var i :| 0 <= i < |s[1..]| && s[1..][i] == x;
          assert s[i + 1] == x;
        }
      }
      if s[0] == c then rest else [s[0]] + rest
  }

  /** Removing `c` from one character drops it if it is `c` and keeps it otherwise. */
  lemma RemoveCharSingle(x: char, c: char)
    ensures RemoveChar([x], c) == if x == c then [] else [x]
  {
    assert [x][1..] == [];
  }

  /**
   * Removal distributes over concatenation, so the kept characters stay in
   * their order; with RemoveCharSingle this determines the result entirely.
   */
  lemma {:induction false} RemoveCharAppend(a: string, b: string, c: char)
    ensures RemoveChar(a + b, c) == RemoveChar(a, c) + RemoveChar(b, c)
    decreases |a|
  {
    if a == [] {
      assert a + b == b;
    } else {
      assert (a + b)[0] == a[0] && (a + b)[1..] == a[1..] + b;
      RemoveCharAppend(a[1..], b, c);
    }
  }

  /** Two strings with `c` at the same positions hold equally many `c`. */
  lemma {:induction false} CountSamePositions(s: string, t: string, c: char)
    requires |s| == |t|
    requires forall i :: 0 <= i < |s| ==> (s[i] == c <==> t[i] == c)
    ensures Count(s, c) == Count(t, c)
    decreases |s|
  {
    if s != [] {
      CountSamePositions(s[1..], t[1..], c);
    }
  }

  const ContainerSuffix: string := "-files"

  /**
   * `get_subject_container_name()` for host name `hostname`: lower-cased,
   * `_` replaced by `-`, every `.` removed, then `-files` appended.
   */
  function ContainerName(hostname: string): (r: string)
    ensures |r| == |hostname| - Count(hostname, '.') + |ContainerSuffix|
    ensures |r| >= |ContainerSuffix| && r[|r| - |ContainerSuffix|..] == ContainerSuffix
    ensures forall i :: 0 <= i < |r| ==> r[i] != '_' && r[i] != '.' && !IsUpper(r[i])
  {
    var replaced := ReplaceChar(Lower(hostname), '_', '-');
    CountSamePositions(hostname, replaced, '.');
    var stem := RemoveChar(replaced, '.');
    assert forall x :: x in stem ==> x != '_' && !IsUpper(x) by {
      forall x | x in stem ensures x != '_' && !IsUpper(x) {
        assert x in replaced;
      }
    }
    var r := stem + ContainerSuffix;
    assert forall i :: 0 <= i < |r| ==> r[i] in stem || r[i] in ContainerSuffix;
    r
  }

  /**
   * The same normalisation done one character at a time, as an independent
   * reference: `.` disappears, `_` becomes `-`, letters are lower-cased.
   */
  function NormalizeHost(hostname: string): string
  {
    if hostname == [] then []
    else
      var c := hostname[0];
      (if c == '.' then [] else if c == '_' then ['-'] else [LowerChar(c)])
        + NormalizeHost(hostname[1..])
  }

  lemma {:induction false} StemIsNormalized(hostname: string)
    ensures RemoveChar(ReplaceChar(Lower(hostname), '_', '-'), '.') == NormalizeHost(hostname)
    decreases |hostname|
  {
    if hostname != [] {
      var t := ReplaceChar(Lower(hostname), '_', '-');
      assert t[1..] == ReplaceChar(Lower(hostname[1..]), '_', '-');
      StemIsNormalized(hostname[1..]);
      assert LowerChar('.') == '.' && LowerChar('_') == '_';
    }
  }

  /** The container name is the one-pass normalisation of the host name followed by `-files`. */
  lemma ContainerNameNormalizes(hostname: string)
    ensures ContainerName(hostname) == NormalizeHost(hostname) + ContainerSuffix
  {
    StemIsNormalized(hostname);
  }

  /** A UTC calendar date, as `dt.utcnow()` supplies it. */
  datatype Date = Date(year: int, month: int, day: int)

  /** A date `strftime('%Y%m%d')` prints as eight digits. */
  predicate ValidDate(d: Date)
  {
    1000 <= d.year <= 9999 && 1 <= d.month <= 12 && 1 <= d.day <= 31
  }

  function Pow10(n: nat): (p: nat)
    ensures p >= 1
  {
    if n == 0 then 1 else 10 * Pow10(n - 1)
  }

  /** `n` in decimal, zero-padded to `width` digits. */
  function Digits(n: nat, width: nat): (r: string)
    requires n < Pow10(width)
    ensures |r| == width
    ensures forall i :: 0 <= i < |r| ==> IsDigit(r[i])
  {
    if width == 0 then []
    else Digits(n / 10, width - 1) + [DigitChar(n % 10)]
  }

  /** The number a string of decimal digits denotes. */
  function DigitsValue(s: string): nat
    requires forall i :: 0 <= i < |s| ==> IsDigit(s[i])
  {
    if s == [] then 0 else 10 * DigitsValue(s[..|s| - 1]) + DigitValue(s[|s| - 1])
  }

  lemma {:induction false} DigitsRoundTrip(n: nat, width: nat)
    requires n < Pow10(width)
    ensures DigitsValue(Digits(n, width)) == n
    decreases width
  {
    if width > 0 {
      DigitsRoundTrip(n / 10, width - 1);
      var r := Digits(n, width);
      assert r[..|r| - 1] == Digits(n / 10, width - 1);
    }
  }

  const BlobPrefix: string := "messages-"

  /** The blob name for `date`: `messages-YYYYMMDD`. */
  function BlobName(date: Date): (r: string)
    requires ValidDate(date)
    ensures |r| == |BlobPrefix| + 8
    ensures r[..|BlobPrefix|] == BlobPrefix
    ensures forall i :: |BlobPrefix| <= i < |r| ==> IsDigit(r[i])
  {
    assert Pow10(4) == 10000 && Pow10(2) == 100;
    BlobPrefix + Digits(date.year, 4) + Digits(date.month, 2) + Digits(date.day, 2)
  }

  /** Reads a date back out of a blob name; `None` for any other name. */
  function ParseBlobName(name: string): Option<Date>
  {
    if |name| == |BlobPrefix| + 8 && name[..|BlobPrefix|] == BlobPrefix
       && forall i :: |BlobPrefix| <= i < |name| ==> IsDigit(name[i])
    then
      Some(Date(DigitsValue(name[9..13]), DigitsValue(name[13..15]), DigitsValue(name[15..17])))
    else
      None
  }

  /** The blob name records the date exactly: parsing it gives the date back. */
  lemma BlobNameRoundTrip(date: Date)
    requires ValidDate(date)
    ensures ParseBlobName(BlobName(date)) == Some(date)
  {
    assert Pow10(4) == 10000 && Pow10(2) == 100;
    var y, m, d := Digits(date.year, 4), Digits(date.month, 2), Digits(date.day, 2);
    var r := BlobName(date);
    assert r == BlobPrefix + y + m + d;
    assert r[9..13] == y && r[13..15] == m && r[15..17] == d;
    DigitsRoundTrip(date.year, 4);
    DigitsRoundTrip(date.month, 2);
    DigitsRoundTrip(date.day, 2);
  }

  /** Different days give different blob names: at most one upload per day. */
  lemma BlobNameInjective(d1: Date, d2: Date)
    requires ValidDate(d1) && ValidDate(d2)
    requires BlobName(d1) == BlobName(d2)
    ensures d1 == d2
  {
    BlobNameRoundTrip(d1);
    BlobNameRoundTrip(d2);
  }
}
