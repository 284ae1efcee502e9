/**
 * The similarity ratio behind `Matcher.calculate_similarity`: Ratcliff/Obershelp
 * "gestalt" pattern matching, as computed by a sequence matcher without a junk
 * predicate. The longest common contiguous block of the two strings is found
 * (longest first, then earliest in the first string, then earliest in the
 * second), the same search is repeated on the pieces to its left and to its
 * right, and the ratio is 2 * M / T, where M is the total size of the blocks
 * and T the combined length of both strings (1.0 when both are empty).
 * Case-insensitivity is obtained by lower-casing both strings first.
 */
module Gestalt {

  /** A candidate block: a[i..i+size] against b[j..j+size]. */
  datatype Block = Block(i: nat, j: nat, size: nat)

  /**
   * blk lies inside a[alo..ahi] x b[blo..bhi], and it is either empty or the
   * whole common run starting at its position.
   */
  predicate IsBlock(a: string, b: string, alo: nat, ahi: nat, blo: nat, bhi: nat, blk: Block)
    requires alo <= ahi <= |a| && blo <= bhi <= |b|
  {
    alo <= blk.i && blk.i + blk.size <= ahi &&
    blo <= blk.j && blk.j + blk.size <= bhi &&
    (blk.size == 0 || blk.size == RunLength(a, b, blk.i, blk.j, ahi, bhi))
  }

  /** The characters t places after i in a and after j in b are equal. */
  ghost predicate SameAt(a: string, b: string, i: nat, j: nat, t: nat)
    requires i + t < |a| && j + t < |b|
  {
    a[i + t] == b[j + t]
  }

  /** The n characters of a from i on equal, one by one, the n characters of b from j on. */
  ghost predicate Agree(a: string, b: string, i: nat, j: nat, n: nat)
    requires i + n <= |a| && j + n <= |b|
  {
    forall t: nat :: t < n ==> SameAt(a, b, i, j, t)
  }

  /** Position (i, j) comes strictly before (i', j') in row-major order. */
  predicate Before(i: nat, j: nat, i': nat, j': nat)
  {
    i < i' || (i == i' && j < j')
  }

  /** Length of the longest common run of a starting at i and b starting at j, within ahi and bhi. */
  function RunLength(a: string, b: string, i: nat, j: nat, ahi: nat, bhi: nat): (k: nat)
    requires i <= ahi <= |a| && j <= bhi <= |b|
    ensures i + k <= ahi && j + k <= bhi
    decreases ahi - i
  {
    if i < ahi && j < bhi && a[i] == b[j] then 1 + RunLength(a, b, i + 1, j + 1, ahi, bhi) else 0
  }

  /** The run is common to both strings, and cannot be extended. */
  lemma {:induction false} RunLengthAgrees(a: string, b: string, i: nat, j: nat, ahi: nat, bhi: nat)
    requires i <= ahi <= |a| && j <= bhi <= |b|
    ensures var k := RunLength(a, b, i, j, ahi, bhi);
            Agree(a, b, i, j, k) && (i + k < ahi && j + k < bhi ==> a[i + k] != b[j + k])
    decreases ahi - i
  {
    if i < ahi && j < bhi && a[i] == b[j] {
      RunLengthAgrees(a, b, i + 1, j + 1, ahi, bhi);
      var k := RunLength(a, b, i, j, ahi, bhi);
      forall t: nat | t < k ensures SameAt(a, b, i, j, t) {
        if t > 0 {
          assert SameAt(a, b, i + 1, j + 1, t - 1);
        }
      }
    }
  }

  /** Every start position of the ranges before (i, j) in row-major order has a run of at most s. */
  ghost predicate NoLongerBefore(a: string, b: string, alo: nat, ahi: nat, blo: nat, bhi: nat, i: nat, j: nat, s: nat)
    requires alo <= ahi <= |a| && blo <= bhi <= |b|
  {
    forall i', j' :: alo <= i' < ahi && blo <= j' < bhi && Before(i', j', i, j) ==>
      RunLength(a, b, i', j', ahi, bhi) <= s
  }

  /** Every start position of the ranges before (i, j) in row-major order has a run shorter than s. */
  ghost predicate ShorterBefore(a: string, b: string, alo: nat, ahi: nat, blo: nat, bhi: nat, i: nat, j: nat, s: nat)
    requires alo <= ahi <= |a| && blo <= bhi <= |b|
  {
    forall i', j' :: alo <= i' < ahi && blo <= j' < bhi && Before(i', j', i, j) ==>
      RunLength(a, b, i', j', ahi, bhi) < s
  }

  /**
   * Scans the positions of a[alo..ahi] x b[blo..bhi] from (i, j) on in row-major
   * order and keeps the first position whose run is strictly longer than the
   * best block found so far. If no position scanned so far has a run longer than
   * best, and every position before best has a shorter one, the same holds of
   * the result over all positions, which are the positions before (ahi, blo).
   */
  function Scan(a: string, b: string, alo: nat, ahi: nat, blo: nat, bhi: nat, i: nat, j: nat, best: Block): (r: Block)
    requires alo <= ahi <= |a| && blo <= bhi <= |b|
    requires alo <= i <= ahi && blo <= j <= bhi
    requires IsBlock(a, b, alo, ahi, blo, bhi, best)
    requires NoLongerBefore(a, b, alo, ahi, blo, bhi, i, j, best.size)
    requires ShorterBefore(a, b, alo, ahi, blo, bhi, best.i, best.j, best.size)
    ensures IsBlock(a, b, alo, ahi, blo, bhi, r)
    ensures NoLongerBefore(a, b, alo, ahi, blo, bhi, ahi, blo, r.size)
    ensures ShorterBefore(a, b, alo, ahi, blo, bhi, r.i, r.j, r.size)
    decreases ahi - i, bhi - j
  {
    if i == ahi then best
    else if j == bhi then Scan(a, b, alo, ahi, blo, bhi, i + 1, blo, best)
    else
      var k := RunLength(a, b, i, j, ahi, bhi);
      Scan(a, b, alo, ahi, blo, bhi, i, j + 1, if k > best.size then Block(i, j, k) else best)
  }

  /**
   * The longest common block of a[alo..ahi] and b[blo..bhi]; among the longest,
   * the one starting earliest in a, and among those the one starting earliest
   * in b. Size 0, at (alo, blo), when the ranges share no character.
   */
  function Longest(a: string, b: string, alo: nat, ahi: nat, blo: nat, bhi: nat): (r: Block)
    requires alo <= ahi <= |a| && blo <= bhi <= |b|
    ensures IsBlock(a, b, alo, ahi, blo, bhi, r)
  {
    Scan(a, b, alo, ahi, blo, bhi, alo, blo, Block(alo, blo, 0))
  }

  /**
   * No start position has a longer run than the longest block, and every
   * position before it in row-major order has a strictly shorter run.
   */
  lemma LongestIsLongest(a: string, b: string, alo: nat, ahi: nat, blo: nat, bhi: nat)
    requires alo <= ahi <= |a| && blo <= bhi <= |b|
    ensures var r := Longest(a, b, alo, ahi, blo, bhi);
            (forall i', j' :: alo <= i' < ahi && blo <= j' < bhi ==> RunLength(a, b, i', j', ahi, bhi) <= r.size) &&
            (forall i', j' :: alo <= i' < ahi && blo <= j' < bhi && Before(i', j', r.i, r.j) ==>
               RunLength(a, b, i', j', ahi, bhi) < r.size)
  {
  }

  /** The longest block lies inside both ranges and is common to them. */
  lemma LongestAgrees(a: string, b: string, alo: nat, ahi: nat, blo: nat, bhi: nat)
    requires alo <= ahi <= |a| && blo <= bhi <= |b|
    ensures var r := Longest(a, b, alo, ahi, blo, bhi);
            alo <= r.i && r.i + r.size <= ahi && blo <= r.j && r.j + r.size <= bhi &&
            Agree(a, b, r.i, r.j, r.size)
  {
    var r := Longest(a, b, alo, ahi, blo, bhi);
    if r.size != 0 {
      RunLengthAgrees(a, b, r.i, r.j, ahi, bhi);
    }
  }

  /**
   * Total size of the matching blocks of a[alo..ahi] and b[blo..bhi]: the
   * longest block, plus the blocks found recursively to its left and right.
   */
  function Matches(a: string, b: string, alo: nat, ahi: nat, blo: nat, bhi: nat): (m: nat)
    requires alo <= ahi <= |a| && blo <= bhi <= |b|
    ensures m <= ahi - alo && m <= bhi - blo
    decreases ahi - alo
  {
    var blk := Longest(a, b, alo, ahi, blo, bhi);
    if blk.size == 0 then 0
    else
      blk.size
      + Matches(a, b, alo, blk.i, blo, blk.j)
      + Matches(a, b, blk.i + blk.size, ahi, blk.j + blk.size, bhi)
  }

  /** The similarity ratio 2 * M / T, in [0, 1]. */
  function Ratio(a: string, b: string): (r: real)
    ensures 0.0 <= r <= 1.0
  {
    if |a| + |b| == 0 then 1.0
    else
      var m := Matches(a, b, 0, |a|, 0, |b|);
      Fraction(2 * m, |a| + |b|);
      (2 * m) as real / (|a| + |b|) as real
  }

  /** Facts about p / q for 0 <= p <= q. */
  lemma Fraction(p: nat, q: nat)
    requires 0 < q && p <= q
    ensures 0.0 <= p as real / q as real <= 1.0
    ensures p as real / q as real == 1.0 <==> p == q
    ensures p as real / q as real == 0.0 <==> p == 0
  {
  }

  /**
   * ASCII lower-casing of one character: an upper-case letter becomes the
   * lower-case letter at the same place in the alphabet, and every other
   * character is kept.
   */
  function LowerChar(c: char): (r: char)
    ensures !('A' <= r <= 'Z')
    ensures 'A' <= c <= 'Z' ==> 'a' <= r <= 'z' && r as int - 'a' as int == c as int - 'A' as int
    ensures !('A' <= c <= 'Z') ==> r == c
  {
    if 'A' <= c <= 'Z' then (c as int - 'A' as int + 'a' as int) as char else c
  }

  /** Lower-cases every character of s. */
  function Lower(s: string): (r: string)
    ensures |r| == |s|
    ensures forall k :: 0 <= k < |s| ==> r[k] == LowerChar(s[k])
    ensures forall k :: 0 <= k < |r| ==> !('A' <= r[k] <= 'Z')
  {
    seq(|s|, k requires 0 <= k < |s| => LowerChar(s[k]))
  }

  /** Strings whose characters agree pairwise after lower-casing have the same lower-cased form. */
  lemma SameUpToCase(x: string, y: string)
    requires |x| == |y|
    requires forall k :: 0 <= k < |x| ==> LowerChar(x[k]) == LowerChar(y[k])
    ensures Lower(x) == Lower(y)
  {
  }

  /** Strings of different lengths differ after lower-casing. */
  lemma LengthsDifferUpToCase(x: string, y: string)
    requires |x| != |y|
    ensures Lower(x) != Lower(y)
  {
  }

  /** Case-insensitive similarity of two strings, as `calculate_similarity` computes it. */
  function Similarity(x: string, y: string): (r: real)
    ensures 0.0 <= r <= 1.0
  {
    Ratio(Lower(x), Lower(y))
  }

  /** Similarity is 1 exactly when the strings are equal up to case. */
  lemma SimilarityOneIffSameLower(x: string, y: string)
    ensures Similarity(x, y) == 1.0 <==> Lower(x) == Lower(y)
  {
    RatioOneIffEqual(Lower(x), Lower(y));
  }

  /** Similarity is 0 exactly when the strings are not both empty and share no character up to case. */
  lemma SimilarityZeroIffDisjoint(x: string, y: string)
    ensures Similarity(x, y) == 0.0 <==> |x| + |y| > 0 && forall c :: c in Lower(x) ==> c !in Lower(y)
  {
    assert |Lower(x)| + |Lower(y)| == |x| + |y|;
    RatioZeroIffDisjoint(Lower(x), Lower(y));
  }

  /** A run that starts on two agreeing ranges of equal length covers both. */
  lemma {:induction false} RunOfAgreement(a: string, b: string, i: nat, j: nat, ahi: nat, bhi: nat)
    requires i <= ahi <= |a| && j <= bhi <= |b|
    requires ahi - i == bhi - j && Agree(a, b, i, j, ahi - i)
    ensures RunLength(a, b, i, j, ahi, bhi) == ahi - i
    decreases ahi - i
  {
    if i < ahi {
      assert SameAt(a, b, i, j, 0);
      var i', j' := i + 1, j + 1;
      forall t: nat | t < ahi - i' ensures SameAt(a, b, i', j', t) {
        assert SameAt(a, b, i, j, t + 1);
      }
      RunOfAgreement(a, b, i', j', ahi, bhi);
    }
  }

  /** Agreeing ranges of equal length match completely. */
  lemma MatchesOfAgreement(a: string, b: string, alo: nat, ahi: nat, blo: nat, bhi: nat)
    requires alo <= ahi <= |a| && blo <= bhi <= |b|
    requires ahi - alo == bhi - blo && Agree(a, b, alo, blo, ahi - alo)
    ensures Matches(a, b, alo, ahi, blo, bhi) == ahi - alo
  {
    if alo < ahi {
      RunOfAgreement(a, b, alo, blo, ahi, bhi);
      LongestIsLongest(a, b, alo, ahi, blo, bhi);
      var blk := Longest(a, b, alo, ahi, blo, bhi);
      assert RunLength(a, b, alo, blo, ahi, bhi) <= blk.size;
    }
  }

  /** Ranges that match completely agree. */
  lemma {:induction false} AgreementOfFullMatch(a: string, b: string, alo: nat, ahi: nat, blo: nat, bhi: nat)
    requires alo <= ahi <= |a| && blo <= bhi <= |b|
    requires Matches(a, b, alo, ahi, blo, bhi) == ahi - alo == bhi - blo
    ensures Agree(a, b, alo, blo, ahi - alo)
    decreases ahi - alo
  {
    var i, e, j, f := FullMatchParts(a, b, alo, ahi, blo, bhi);
    if alo < ahi {
      AgreementOfFullMatch(a, b, alo, i, blo, j);
      AgreementOfFullMatch(a, b, e, ahi, f, bhi);
      JoinAgreement(a, b, alo, i, e, ahi, blo, j, f, bhi);
    }
  }

  /**
   * When two non-empty ranges match completely, their longest block a[i..e],
   * b[j..f] is non-empty and common to both, and the pieces to its left and to
   * its right match completely too.
   */
  lemma FullMatchParts(a: string, b: string, alo: nat, ahi: nat, blo: nat, bhi: nat) returns (i: nat, e: nat, j: nat, f: nat)
    requires alo <= ahi <= |a| && blo <= bhi <= |b|
    requires Matches(a, b, alo, ahi, blo, bhi) == ahi - alo == bhi - blo
    ensures alo <= i <= e <= ahi && blo <= j <= f <= bhi && e - i == f - j
    ensures alo < ahi ==> i < e
    ensures Agree(a, b, i, j, e - i)
    ensures alo < ahi ==>
              Matches(a, b, alo, i, blo, j) == i - alo == j - blo &&
              Matches(a, b, e, ahi, f, bhi) == ahi - e == bhi - f
  {
    var blk := Longest(a, b, alo, ahi, blo, bhi);
    LongestAgrees(a, b, alo, ahi, blo, bhi);
    i, e, j, f := blk.i, blk.i + blk.size, blk.j, blk.j + blk.size;
    if blk.size != 0 {
      var left := Matches(a, b, alo, i, blo, j);
      var right := Matches(a, b, e, ahi, f, bhi);
      assert blk.size + left + right == ahi - alo;
    }
  }

  /**
   * Ranges cut at i and e in a, and at j and f in b, into three pairs of
   * agreeing pieces of equal lengths agree as a whole.
   */
  lemma JoinAgreement(a: string, b: string, alo: nat, i: nat, e: nat, ahi: nat, blo: nat, j: nat, f: nat, bhi: nat)
    requires alo <= i <= e <= ahi <= |a| && blo <= j <= f <= bhi <= |b|
    requires i - alo == j - blo && e - i == f - j && ahi - e == bhi - f
    requires Agree(a, b, alo, blo, i - alo)
    requires Agree(a, b, i, j, e - i)
    requires Agree(a, b, e, f, ahi - e)
    ensures Agree(a, b, alo, blo, ahi - alo)
  {
    forall t: nat | t < ahi - alo ensures SameAt(a, b, alo, blo, t) {
      if t < i - alo {
        assert SameAt(a, b, alo, blo, t);
      } else if t < e - alo {
        assert SameAt(a, b, i, j, t - (i - alo));
      } else {
        assert SameAt(a, b, e, f, t - (e - alo));
      }
    }
  }

  /** No match at all exactly when the ranges share no character. */
  lemma NoMatchesIffDisjoint(a: string, b: string, alo: nat, ahi: nat, blo: nat, bhi: nat)
    requires alo <= ahi <= |a| && blo <= bhi <= |b|
    ensures Matches(a, b, alo, ahi, blo, bhi) == 0 <==>
            forall i, j :: alo <= i < ahi && blo <= j < bhi ==> a[i] != b[j]
  {
    var blk := Longest(a, b, alo, ahi, blo, bhi);
    if blk.size > 0 {
      LongestAgrees(a, b, alo, ahi, blo, bhi);
      assert SameAt(a, b, blk.i, blk.j, 0);
      assert Matches(a, b, alo, ahi, blo, bhi) >= blk.size;
    } else {
      assert Matches(a, b, alo, ahi, blo, bhi) == 0;
      LongestIsLongest(a, b, alo, ahi, blo, bhi);
      forall i, j | alo <= i < ahi && blo <= j < bhi ensures a[i] != b[j] {
        assert RunLength(a, b, i, j, ahi, bhi) <= 0;
      }
    }
  }

  /** The ratio is 1 exactly when the strings are equal. */
  lemma RatioOneIffEqual(a: string, b: string)
    ensures Ratio(a, b) == 1.0 <==> a == b
  {
    if |a| + |b| > 0 {
      var m := Matches(a, b, 0, |a|, 0, |b|);
      Fraction(2 * m, |a| + |b|);
      if Ratio(a, b) == 1.0 {
        AgreementOfFullMatch(a, b, 0, |a|, 0, |b|);
        forall t | 0 <= t < |a| ensures a[t] == b[t] {
          assert SameAt(a, b, 0, 0, t);
        }
      }
      if a == b {
        assert Agree(a, b, 0, 0, |a|);
        MatchesOfAgreement(a, b, 0, |a|, 0, |b|);
      }
    }
  }

  /** The ratio is 0 exactly when the strings are not both empty and share no character. */
  lemma RatioZeroIffDisjoint(a: string, b: string)
    ensures Ratio(a, b) == 0.0 <==> |a| + |b| > 0 && forall c :: c in a ==> c !in b
  {
    NoMatchesIffDisjoint(a, b, 0, |a|, 0, |b|);
    if |a| + |b| > 0 {
      var m := Matches(a, b, 0, |a|, 0, |b|);
      Fraction(2 * m, |a| + |b|);
      if Ratio(a, b) == 0.0 {
        forall c | c in a ensures c !in b {
          var i :| 0 <= i < |a| && a[i] == c;
        }
      } else if forall c :: c in a ==> c !in b {
        forall i, j | 0 <= i < |a| && 0 <= j < |b| ensures a[i] != b[j] {
          assert a[i] in a;
        }
      }
    }
  }
}
