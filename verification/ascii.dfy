/** ASCII case folding of `src/lib.rs`: `ascii_upcase` on one byte and
    `ascii_upcase_compare` on two byte strings. The same comparison serves
    as the model of `ascii_eq_ignore_case` in both parser snapshots. */
module Ascii {
  import opened Bytes

  predicate IsLower(b: byte) {
    0x61 <= b <= 0x7A
  }

  predicate IsUpper(b: byte) {
    0x41 <= b <= 0x5A
  }

  /** The fixed distance between a lower-case letter and its capital. */
  const CaseOffset: byte := 0x20

  /** `ascii_upcase`: capitalises `a`..`z` and leaves every other byte alone. */
  function Upcase(b: byte): (r: byte)
    ensures !IsLower(r)
    ensures IsLower(b) ==> IsUpper(r) && r + CaseOffset == b
    ensures !IsLower(b) ==> r == b
  {
    if 0x61 <= b && b <= 0x7A then b - 0x61 + 0x41 else b
  }

  /** Folding twice is folding once. */
  lemma UpcaseIdempotent(b: byte)
    ensures Upcase(Upcase(b)) == Upcase(b)
  {
  }

  /** Two bytes fold to the same value exactly when they are equal or are
      the two cases of one letter. */
  lemma UpcaseEqualIff(a: byte, b: byte)
    ensures Upcase(a) == Upcase(b) <==>
              a == b
              || (IsUpper(a) && b == a + CaseOffset)
              || (IsUpper(b) && a == b + CaseOffset)
  {
  }

  /** The `all` over the zipped pair of equal-length strings, stopping at
      the first pair whose folds differ. */
  function AllFoldEqual(a: seq<byte>, b: seq<byte>): (r: bool)
    requires |a| == |b|
    ensures r <==> forall i | 0 <= i < |a| :: Upcase(a[i]) == Upcase(b[i])
    decreases |a|
  {
    |a| == 0 || (Upcase(a[0]) == Upcase(b[0]) && AllFoldEqual(a[1..], b[1..]))
  }

  /** `ascii_upcase_compare`: equal lengths, and equal byte by byte after
      folding. */
  function UpcaseCompare(a: seq<byte>, b: seq<byte>): (r: bool)
    ensures r <==> |a| == |b| && forall i | 0 <= i < |a| :: Upcase(a[i]) == Upcase(b[i])
  {
    |a| == |b| && AllFoldEqual(a, b)
  }

  /** The comparison is an equivalence relation. */
  lemma UpcaseCompareEquivalence(a: seq<byte>, b: seq<byte>, c: seq<byte>)
    ensures UpcaseCompare(a, a)
    ensures UpcaseCompare(a, b) <==> UpcaseCompare(b, a)
    ensures UpcaseCompare(a, b) && UpcaseCompare(b, c) ==> UpcaseCompare(a, c)
  {
  }

  predicate IsUpperWord(t: seq<byte>) {
    forall i | 0 <= i < |t| :: !IsLower(t[i])
  }

  /** Against a keyword written without lower-case letters (`MAIL`, `FROM:`,
      ` FROM:<`), a string matches exactly when each of its bytes is the
      keyword's byte or, for a letter, that letter in lower case. */
  lemma UpcaseCompareKeyword(a: seq<byte>, t: seq<byte>)
    requires IsUpperWord(t)
    ensures UpcaseCompare(a, t) <==>
              |a| == |t|
              && forall i | 0 <= i < |a| ::
                   a[i] == t[i] || (IsUpper(t[i]) && a[i] == t[i] + CaseOffset)
  {
    if |a| == |t| {
      forall i | 0 <= i < |a|
        ensures Upcase(a[i]) == Upcase(t[i]) <==>
                  a[i] == t[i] || (IsUpper(t[i]) && a[i] == t[i] + CaseOffset)
      {
        UpcaseEqualIff(a[i], t[i]);
      }
    }
  }

  /** Folding a whole string. */
  function UpcaseAll(s: seq<byte>): (r: seq<byte>)
    ensures |r| == |s|
    ensures forall i | 0 <= i < |s| :: r[i] == Upcase(s[i])
  {
    seq(|s|, i requires 0 <= i < |s| => Upcase(s[i]))
  }

  /** Reference reading: two strings compare equal exactly when their
      upper-case forms are the same string. */
  lemma UpcaseCompareIsFoldedEquality(a: seq<byte>, b: seq<byte>)
    ensures UpcaseCompare(a, b) <==> UpcaseAll(a) == UpcaseAll(b)
  {
    if UpcaseAll(a) == UpcaseAll(b) {
      assert |a| == |b|;
      forall i | 0 <= i < |a| ensures Upcase(a[i]) == Upcase(b[i]) {
        assert UpcaseAll(a)[i] == UpcaseAll(b)[i];
      }
    }
  }

  /** The examples of the source's own test of `ascii_upcase_compare`. */
  lemma UpcaseCompareExamples()
    ensures UpcaseCompare(Lit("ehlo"), Lit("EHLO"))
    ensures UpcaseCompare(Lit("EHLO"), Lit("EHLO"))
    ensures !UpcaseCompare(Lit("bHLO"), Lit("EHLO"))
    ensures !UpcaseCompare(Lit("EHLO "), Lit("EHLO"))
  {
    assert Upcase(Lit("bHLO")[0]) != Upcase(Lit("EHLO")[0]);
  }
}
