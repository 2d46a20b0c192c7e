/** Quality checks and clean-up of raw DNA sequences over the IUPAC
    nucleotide alphabet (src/utils.py: validate_sequence, clean_sequence).
    Case mapping covers ASCII letters only. */
module SequenceUtils {
  import opened Tally

  /** The ambiguity codes NRYSWKMBDHV: every IUPAC nucleotide code except
      the four bases. */
  predicate IsAmbiguous(c: char) {
    c == 'N' || c == 'R' || c == 'Y' || c == 'S' || c == 'W' || c == 'K'
    || c == 'M' || c == 'B' || c == 'D' || c == 'H' || c == 'V'
  }

  /** The accepted nucleotide codes ATGCNRYSWKMBDHV. */
  predicate IsIupac(c: char) {
    c == 'A' || c == 'T' || c == 'G' || c == 'C' || IsAmbiguous(c)
  }

  const DefaultMinLength: int := 400
  const DefaultMaxLength: int := 800

  function ToUpper(c: char): char {
    if 'a' <= c <= 'z' then (c as int - 32) as char else c
  }

  /** `str.upper`, character by character. */
  function Upper(s: string): (u: string)
    ensures |u| == |s|
    ensures forall i :: 0 <= i < |s| ==> u[i] == ToUpper(s[i])
  {
    if s == [] then [] else Upper(s[..|s| - 1]) + [ToUpper(s[|s| - 1])]
  }

  /** The characters `str.split()` separates words on (those `str.isspace`
      accepts). */
  predicate IsWhitespace(c: char) {
    '\t' <= c <= '\r' || '\U{1c}' <= c <= ' ' || c == '\U{85}' || c == '\U{a0}'
    || c == '\U{1680}' || '\U{2000}' <= c <= '\U{200a}' || c == '\U{2028}' || c == '\U{2029}'
    || c == '\U{202f}' || c == '\U{205f}' || c == '\U{3000}'
  }

  /** `''.join(s.split())`: the sequence with all whitespace removed. */
  function RemoveWhitespace(s: string): string {
    if s == [] then []
    else RemoveWhitespace(s[..|s| - 1]) + (if IsWhitespace(s[|s| - 1]) then [] else [s[|s| - 1]])
  }

  /** `''.join(c for c in s if c in valid_chars)`. */
  function KeepIupac(s: string): string {
    if s == [] then []
    else KeepIupac(s[..|s| - 1]) + (if IsIupac(s[|s| - 1]) then [s[|s| - 1]] else [])
  }

  /** `sum(1 for char in s if char in 'NRYSWKMBDHV')`. */
  function AmbiguousCount(s: string): (n: nat)
    ensures n <= |s|
  {
    if s == [] then 0
    else AmbiguousCount(s[..|s| - 1]) + (if IsAmbiguous(s[|s| - 1]) then 1 else 0)
  }

  /** True when `a` can be obtained from `b` by deleting characters. */
  predicate IsSubsequence(a: string, b: string)
    decreases |b|
  {
    if a == [] then true
    else if b == [] then false
    else if a[|a| - 1] == b[|b| - 1] then IsSubsequence(a[..|a| - 1], b[..|b| - 1])
    else IsSubsequence(a, b[..|b| - 1])
  }

  /** A sequence passes when it is non-empty, its length lies within the
      inclusive bounds, every character, uppercased, is an IUPAC code, and at
      most a tenth of them are ambiguity codes. */
  function ValidateSequence(sequence: string, minLength: int := DefaultMinLength, maxLength: int := DefaultMaxLength): (ok: bool)
    ensures ok <==>
      && sequence != []
      && minLength <= |sequence| <= maxLength
      && (forall i :: 0 <= i < |sequence| ==> IsIupac(ToUpper(sequence[i])))
      && 10 * AmbiguousCount(Upper(sequence)) <= |sequence|
  {
    if sequence == [] then false
    else if |sequence| < minLength || |sequence| > maxLength then false
    else
      var sequenceChars := set c | c in Upper(sequence);
      if !(forall c :: c in sequenceChars ==> IsIupac(c)) then
        assert exists i :: 0 <= i < |sequence| && !IsIupac(ToUpper(sequence[i])) by {
          var c :| c in sequenceChars && !IsIupac(c);
          var i :| 0 <= i < |sequence| && Upper(sequence)[i] == c;
        }
        false
      else
        assert forall i :: 0 <= i < |sequence| ==> IsIupac(ToUpper(sequence[i])) by {
          forall i | 0 <= i < |sequence| ensures IsIupac(ToUpper(sequence[i])) {
            assert Upper(sequence)[i] in sequenceChars;
          }
        }
        var ambiguousCount := AmbiguousCount(Upper(sequence));
        var ambiguousPercentage := ambiguousCount as real / |sequence| as real;
        TenPercentRule(ambiguousCount, |sequence|);
        !(ambiguousPercentage > 0.1)
  }

  /** The share test in exact arithmetic: a/n > 0.1 exactly when 10·a > n. */
  lemma TenPercentRule(a: nat, n: nat)
    requires n > 0
    ensures a as real / n as real > 0.1 <==> 10 * a > n
  {
    var p := a as real / n as real;
    var m := n as real;
    assert p * m == a as real;
    if p > 0.1 {
      ProductPositive(p - 0.1, m);
      assert (p - 0.1) * m == a as real - 0.1 * m;
    } else {
      ProductNonNegative(0.1 - p, m);
      assert (0.1 - p) * m == 0.1 * m - a as real;
    }
  }

  lemma ProductPositive(x: real, y: real)
    requires x > 0.0 && y > 0.0
    ensures x * y > 0.0
  {
  }

  lemma ProductNonNegative(x: real, y: real)
    requires x >= 0.0 && y >= 0.0
    ensures x * y >= 0.0
  {
  }

  /** The cleaned sequence: whitespace removed, uppercased and restricted to
      the IUPAC codes; the empty input gives the empty output. */
  function CleanSequence(sequence: string): (cleaned: string)
    ensures forall i :: 0 <= i < |cleaned| ==> IsIupac(cleaned[i])
    ensures IsSubsequence(cleaned, Upper(sequence))
    ensures |cleaned| <= |sequence|
    ensures forall c :: IsIupac(c) ==> Count(cleaned, c) == Count(Upper(sequence), c)
  {
    if sequence == [] then ""
    else
      var cleaned := Upper(RemoveWhitespace(sequence));
      CleanAsOneFilter(sequence);
      KeepIupacProperties(Upper(sequence));
      KeepIupac(cleaned)
  }

  // ---------------------------------------------------------------------------
  // Lemmas about cleaning

  lemma UpperSnoc(s: string, c: char)
    ensures Upper(s + [c]) == Upper(s) + [ToUpper(c)]
  {
    assert (s + [c])[..|s|] == s;
  }

  lemma WhitespaceIsNotIupac(c: char)
    requires IsWhitespace(c)
    ensures ToUpper(c) == c && !IsIupac(c)
  {
  }

  /** Removing whitespace before filtering changes nothing, because no
      whitespace character is an IUPAC code. */
  lemma {:induction false} CleanAsOneFilter(s: string)
    ensures KeepIupac(Upper(RemoveWhitespace(s))) == KeepIupac(Upper(s))
  {
    if s != [] {
      var p := s[..|s| - 1];
      var c := s[|s| - 1];
      assert s == p + [c];
      CleanAsOneFilter(p);
      UpperSnoc(p, c);
      assert KeepIupac(Upper(s)) == KeepIupac(Upper(p)) + (if IsIupac(ToUpper(c)) then [ToUpper(c)] else []) by {
        assert (Upper(p) + [ToUpper(c)])[..|Upper(p)|] == Upper(p);
      }
      if IsWhitespace(c) {
        WhitespaceIsNotIupac(c);
        assert RemoveWhitespace(s) == RemoveWhitespace(p);
      } else {
        var r := RemoveWhitespace(p);
        assert RemoveWhitespace(s) == r + [c];
        UpperSnoc(r, c);
        assert (Upper(r) + [ToUpper(c)])[..|Upper(r)|] == Upper(r);
      }
    }
  }

  /** Filtering keeps exactly the IUPAC characters, in order. */
  lemma KeepIupacProperties(s: string)
    ensures forall i :: 0 <= i < |KeepIupac(s)| ==> IsIupac(KeepIupac(s)[i])
    ensures IsSubsequence(KeepIupac(s), s)
    ensures |KeepIupac(s)| <= |s|
    ensures forall c :: IsIupac(c) ==> Count(KeepIupac(s), c) == Count(s, c)
  {
    KeepIupacCodes(s);
    KeepIupacSubsequence(s);
    KeepIupacCounts(s);
  }

  lemma {:induction false} KeepIupacCodes(s: string)
    ensures forall i :: 0 <= i < |KeepIupac(s)| ==> IsIupac(KeepIupac(s)[i])
    ensures |KeepIupac(s)| <= |s|
  {
    if s != [] {
      var p := s[..|s| - 1];
      var k := KeepIupac(p);
      KeepIupacCodes(p);
      if IsIupac(s[|s| - 1]) {
        assert KeepIupac(s) == k + [s[|s| - 1]];
      }
    }
  }

  lemma {:induction false} KeepIupacSubsequence(s: string)
    ensures IsSubsequence(KeepIupac(s), s)
  {
    if s != [] {
      var p := s[..|s| - 1];
      var c := s[|s| - 1];
      var k := KeepIupac(p);
      KeepIupacSubsequence(p);
      assert s == p + [c];
      if IsIupac(c) {
        assert KeepIupac(s) == k + [c];
        assert (k + [c])[..|k|] == k;
      } else {
        assert KeepIupac(s) == k;
        SubsequenceExtend(k, p, c);
      }
    }
  }

  lemma {:induction false} KeepIupacCounts(s: string)
    ensures forall c :: IsIupac(c) ==> Count(KeepIupac(s), c) == Count(s, c)
  {
    if s != [] {
      var p := s[..|s| - 1];
      var c := s[|s| - 1];
      var k := KeepIupac(p);
      KeepIupacCounts(p);
      assert s == p + [c];
      forall d | IsIupac(d) ensures Count(KeepIupac(s), d) == Count(s, d) {
        CountSnoc(p, c, d);
        if IsIupac(c) {
          assert KeepIupac(s) == k + [c];
          CountSnoc(k, c, d);
        } else {
          assert KeepIupac(s) == k;
        }
      }
    }
  }

  /** A subsequence of `b` stays one when a character is appended to `b`. */
  lemma {:induction false} SubsequenceExtend(a: string, b: string, c: char)
    requires IsSubsequence(a, b)
    ensures IsSubsequence(a, b + [c])
    decreases |b|, 1
  {
    assert (b + [c])[..|b|] == b;
    if a != [] && a[|a| - 1] == c {
      SubsequenceDropLast(a, b);
    }
  }

  /** Dropping the last character of a subsequence leaves a subsequence. */
  lemma {:induction false} SubsequenceDropLast(a: string, b: string)
    requires a != [] && IsSubsequence(a, b)
    ensures IsSubsequence(a[..|a| - 1], b)
    decreases |b|, 0
  {
    var b' := b[..|b| - 1];
    assert b == b' + [b[|b| - 1]];
    if a[|a| - 1] == b[|b| - 1] {
      SubsequenceExtend(a[..|a| - 1], b', b[|b| - 1]);
    } else {
      SubsequenceDropLast(a, b');
      SubsequenceExtend(a[..|a| - 1], b', b[|b| - 1]);
    }
  }

  /** The IUPAC codes are upper-case letters, so `Upper` leaves a sequence
      of them unchanged. */
  lemma UpperOfIupac(s: string)
    requires forall i :: 0 <= i < |s| ==> IsIupac(s[i])
    ensures Upper(s) == s
  {
    forall i | 0 <= i < |s| ensures Upper(s)[i] == s[i] {
      ToUpperOfIupac(s[i]);
    }
  }

  lemma ToUpperOfIupac(c: char)
    requires IsIupac(c)
    ensures ToUpper(c) == c
  {
  }

  lemma {:induction false} KeepIupacOfIupac(s: string)
    requires forall i :: 0 <= i < |s| ==> IsIupac(s[i])
    ensures KeepIupac(s) == s
  {
    if s != [] {
      KeepIupacOfIupac(s[..|s| - 1]);
    }
  }

  /** A sequence made only of IUPAC codes is its own cleaned form. */
  lemma CleanFixesIupacSequences(s: string)
    requires forall i :: 0 <= i < |s| ==> IsIupac(s[i])
    ensures CleanSequence(s) == s
  {
    if s != [] {
      CleanAsOneFilter(s);
      UpperOfIupac(s);
      KeepIupacOfIupac(s);
      assert KeepIupac(Upper(s)) == s;
    }
  }

  /** Cleaning twice is cleaning once. */
  lemma CleanIdempotent(s: string)
    ensures CleanSequence(CleanSequence(s)) == CleanSequence(s)
  {
    CleanFixesIupacSequences(CleanSequence(s));
  }

  lemma CleanOfEmpty()
    ensures CleanSequence("") == ""
  {
  }

  // ---------------------------------------------------------------------------
  // Repeated sequences and the documented examples

  /** `u * k` in Python. */
  function Repeat(u: string, k: nat): (r: string)
    ensures |r| == k * |u|
  {
    if k == 0 then [] else Repeat(u, k - 1) + u
  }

  lemma {:induction false} RepeatOfIupac(u: string, k: nat)
    requires forall i :: 0 <= i < |u| ==> IsIupac(u[i])
    ensures forall i :: 0 <= i < |Repeat(u, k)| ==> IsIupac(Repeat(u, k)[i])
  {
    if k > 0 {
      var r := Repeat(u, k - 1);
      RepeatOfIupac(u, k - 1);
      assert Repeat(u, k) == r + u;
      forall i | 0 <= i < |r + u| ensures IsIupac((r + u)[i]) {
        if i < |r| {
          assert (r + u)[i] == r[i];
        } else {
          assert (r + u)[i] == u[i - |r|];
        }
      }
    }
  }

  lemma {:induction false} RepeatAmbiguousCount(u: string, k: nat)
    ensures AmbiguousCount(Repeat(u, k)) == k * AmbiguousCount(u)
  {
    if k > 0 {
      var a := AmbiguousCount(u);
      RepeatAmbiguousCount(u, k - 1);
      AmbiguousCountAppend(Repeat(u, k - 1), u);
      MultiplyStep(k, a);
    }
  }

  lemma MultiplyStep(k: nat, a: nat)
    requires k > 0
    ensures (k - 1) * a + a == k * a
  {
  }

  lemma {:induction false} AmbiguousCountAppend(a: string, b: string)
    ensures AmbiguousCount(a + b) == AmbiguousCount(a) + AmbiguousCount(b)
  {
    if b == [] {
      assert a + b == a;
    } else {
      var b' := b[..|b| - 1];
      assert a + b == (a + b') + [b[|b| - 1]];
      AmbiguousCountAppend(a, b');
    }
  }

  lemma ScaleComparison(k: nat, a: nat, n: nat)
    requires k > 0
    ensures 10 * (k * a) <= k * n <==> 10 * a <= n
  {
    if 10 * a <= n {
      assert k * (10 * a) <= k * n;
    } else {
      assert k * (n + 1) <= k * (10 * a);
    }
  }

  /** A sequence made of `k` copies of a block of uppercase IUPAC codes is
      valid exactly when its length is within bounds and the block itself
      keeps to the ten-percent rule. */
  lemma ValidateRepeated(u: string, k: nat, minLength: int, maxLength: int)
    requires u != [] && k > 0
    requires forall i :: 0 <= i < |u| ==> IsIupac(u[i])
    ensures ValidateSequence(Repeat(u, k), minLength, maxLength)
        <==> minLength <= k * |u| <= maxLength && 10 * AmbiguousCount(u) <= |u|
  {
    var r := Repeat(u, k);
    RepeatOfIupac(u, k);
    UpperOfIupac(r);
    RepeatAmbiguousCount(u, k);
    assert k * |u| > 0;
    assert forall i :: 0 <= i < |r| ==> IsIupac(ToUpper(r[i])) by {
      forall i | 0 <= i < |r| ensures IsIupac(ToUpper(r[i])) {
        assert ToUpper(r[i]) == Upper(r)[i];
      }
    }
    ScaleComparison(k, AmbiguousCount(u), |u|);
  }

  /** A sequence with a character that is not an IUPAC code after
      uppercasing is invalid. */
  lemma InvalidCharacterRejects(s: string, i: nat, minLength: int, maxLength: int)
    requires i < |s| && !IsIupac(ToUpper(s[i]))
    ensures !ValidateSequence(s, minLength, maxLength)
  {
  }

  /** Three of the four sequences of the module's self-test: a 425-base
      sequence passes, 40 bases are too short and 500 N's break the
      ten-percent rule. */
  lemma ValidateExamples()
    ensures ValidateSequence(Repeat("ATGCGATCGATCGATCG", 25))
    ensures !ValidateSequence(Repeat("ATGC", 10))
    ensures !ValidateSequence(Repeat("NNNNNNNNNN", 50))
  {
    var a := "ATGCGATCGATCGATCG";
    assert |a| == 17;
    assert AmbiguousCount(a) == 0 by {
      forall i | 0 <= i < |a| ensures !IsAmbiguous(a[i]) { }
      NoAmbiguousCodes(a);
    }
    ValidateRepeated(a, 25, DefaultMinLength, DefaultMaxLength);
    var n := "NNNNNNNNNN";
    assert AmbiguousCount(n) == 10 by {
      AllAmbiguousCodes(n);
    }
    ValidateRepeated(n, 50, DefaultMinLength, DefaultMaxLength);
  }

  /** The fourth self-test sequence, `"ATGCXYZ" * 50`: it is rejected, and
      already on its length of 350 (X and Z would reject it too). */
  lemma ValidateExampleWithNonCodes()
    ensures |Repeat("ATGCXYZ", 50)| == 350
    ensures !ValidateSequence(Repeat("ATGCXYZ", 50))
  {
  }

  lemma {:induction false} NoAmbiguousCodes(s: string)
    requires forall i :: 0 <= i < |s| ==> !IsAmbiguous(s[i])
    ensures AmbiguousCount(s) == 0
  {
    if s != [] {
      NoAmbiguousCodes(s[..|s| - 1]);
    }
  }

  lemma {:induction false} AllAmbiguousCodes(s: string)
    requires forall i :: 0 <= i < |s| ==> IsAmbiguous(s[i])
    ensures AmbiguousCount(s) == |s|
  {
    if s != [] {
      AllAmbiguousCodes(s[..|s| - 1]);
    }
  }

  lemma UpperAppend(a: string, b: string)
    ensures Upper(a + b) == Upper(a) + Upper(b)
  {
    forall i | 0 <= i < |a + b| ensures Upper(a + b)[i] == (Upper(a) + Upper(b))[i] {
      if i < |a| {
        assert (a + b)[i] == a[i];
      } else {
        assert (a + b)[i] == b[i - |a|];
      }
    }
  }

  lemma {:induction false} KeepIupacAppend(a: string, b: string)
    ensures KeepIupac(a + b) == KeepIupac(a) + KeepIupac(b)
  {
    if b == [] {
      assert a + b == a;
    } else {
      var b' := b[..|b| - 1];
      assert a + b == (a + b') + [b[|b| - 1]];
      KeepIupacAppend(a, b');
    }
  }

  lemma {:induction false} KeepIupacOfNonCodes(s: string)
    requires forall i :: 0 <= i < |s| ==> !IsIupac(s[i])
    ensures KeepIupac(s) == []
  {
    if s != [] {
      KeepIupacOfNonCodes(s[..|s| - 1]);
    }
  }

  /** The module's self-test of cleaning: lowercase is raised, whitespace and
      the non-codes X and Z are dropped, and Y survives as an ambiguity code. */
  lemma CleanExample()
    ensures CleanSequence("  atgc gatc  NNNN xyz  ") == "ATGCGATCNNNNY"
  {
    var s := "  atgc gatc  NNNN xyz  ";
    var u := "  ATGC GATC  NNNN XYZ  ";
    assert |s| == 23;
    assert CleanSequence(s) == KeepIupac(Upper(RemoveWhitespace(s)));
    CleanAsOneFilter(s);
    CleanExampleUpper();
    assert CleanSequence(s) == KeepIupac(u);
    CleanExampleKeep();
  }

  /** Filtering codes framed by non-codes leaves exactly the codes. */
  lemma KeepIupacFramed(pre: string, codes: string, post: string)
    requires forall i :: 0 <= i < |pre| ==> !IsIupac(pre[i])
    requires forall i :: 0 <= i < |codes| ==> IsIupac(codes[i])
    requires forall i :: 0 <= i < |post| ==> !IsIupac(post[i])
    ensures KeepIupac(pre + codes + post) == codes
  {
    KeepIupacOfNonCodes(pre);
    KeepIupacOfIupac(codes);
    KeepIupacOfNonCodes(post);
    KeepIupacAppend(pre, codes);
    KeepIupacAppend(pre + codes, post);
  }

  lemma CleanExampleUpper()
    ensures Upper("  atgc gatc  NNNN xyz  ") == "  ATGC GATC  NNNN XYZ  "
  {
  }

  lemma CleanExampleKeep()
    ensures KeepIupac("  ATGC GATC  NNNN XYZ  ") == "ATGCGATCNNNNY"
  {
    KeepIupacAppend("  ATGC GATC", "  NNNN XYZ  ");
    assert "  ATGC GATC" + "  NNNN XYZ  " == "  ATGC GATC  NNNN XYZ  ";
    CleanExampleFirstHalf();
    CleanExampleSecondHalf();
  }

  lemma CleanExampleFirstHalf()
    ensures KeepIupac("  ATGC GATC") == "ATGCGATC"
  {
    KeepIupacFramed("  ", "ATGC", "");
    assert "  " + "ATGC" + "" == "  ATGC";
    KeepIupacFramed(" ", "GATC", "");
    assert " " + "GATC" + "" == " GATC";
    KeepIupacAppend("  ATGC", " GATC");
    assert "  ATGC" + " GATC" == "  ATGC GATC";
  }

  lemma CleanExampleSecondHalf()
    ensures KeepIupac("  NNNN XYZ  ") == "NNNNY"
  {
    KeepIupacFramed("  ", "NNNN", "");
    assert "  " + "NNNN" + "" == "  NNNN";
    CleanExampleTail();
    KeepIupacAppend("  NNNN", " XYZ  ");
    assert "  NNNN" + " XYZ  " == "  NNNN XYZ  ";
  }

  lemma CleanExampleTail()
    ensures KeepIupac(" XYZ  ") == "Y"
  {
    KeepIupacFramed(" X", "Y", "Z  ");
    assert " X" + "Y" + "Z  " == " XYZ  ";
  }
}
