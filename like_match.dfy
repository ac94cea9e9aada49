/**
  The matching done by SQLite's `LIKE` for the two patterns the manager builds,
  `'<p>%'` (keys starting with p) and `'%<s>%'` (keys containing s), when p and
  s hold no wildcard (`%`, `_`). SQLite's `LIKE` ignores case for the 26 ASCII
  letters only; every other character must match exactly.
 */
module LikeMatch {

  /** ASCII upper-case letters map to lower case; every other character is kept. */
  function FoldChar(c: char): char
  {
    if 'A' <= c <= 'Z' then (c as int - 'A' as int + 'a' as int) as char else c
  }

  function Fold(s: string): (r: string)
    ensures |r| == |s|
  {
    if s == [] then [] else [FoldChar(s[0])] + Fold(s[1..])
  }

  /** `k LIKE '<p>%'`. */
  predicate StartsWithIgnoringCase(p: string, k: string)
  {
    p == [] || (k != [] && FoldChar(p[0]) == FoldChar(k[0]) && StartsWithIgnoringCase(p[1..], k[1..]))
  }

  /** `k LIKE '%<s>%'`. */
  predicate ContainsIgnoringCase(s: string, k: string)
  {
    StartsWithIgnoringCase(s, k) || (k != [] && ContainsIgnoringCase(s, k[1..]))
  }

  /** `s` occurs in `k` at offset `i`, up to ASCII case. */
  ghost predicate OccursAt(s: string, k: string, i: int)
  {
    0 <= i && i + |s| <= |k| && Fold(s) == Fold(k)[i..i + |s|]
  }

  /** The prefix match is the sequence-prefix relation on case-folded text. */
  lemma {:induction false} StartsWithIsFoldedPrefix(p: string, k: string)
    ensures StartsWithIgnoringCase(p, k) <==> Fold(p) <= Fold(k)
  {
    if p != [] && k != [] {
      StartsWithIsFoldedPrefix(p[1..], k[1..]);
      assert Fold(p)[0] == FoldChar(p[0]) && Fold(p)[1..] == Fold(p[1..]);
      assert Fold(k)[0] == FoldChar(k[0]) && Fold(k)[1..] == Fold(k[1..]);
      if Fold(p) <= Fold(k) {
        assert Fold(p[1..]) <= Fold(k[1..]);
      }
    }
  }

  lemma FoldOfTail(k: string)
    requires k != []
    ensures Fold(k)[1..] == Fold(k[1..])
  {
  }

  lemma {:induction false} ContainedHasOccurrence(s: string, k: string)
    requires ContainsIgnoringCase(s, k)
    ensures exists i :: OccursAt(s, k, i)
  {
    if StartsWithIgnoringCase(s, k) {
      StartsWithIsFoldedPrefix(s, k);
      assert OccursAt(s, k, 0);
    } else {
      ContainedHasOccurrence(s, k[1..]);
      var i :| OccursAt(s, k[1..], i);
      FoldOfTail(k);
      assert Fold(k)[i + 1..i + 1 + |s|] == Fold(k[1..])[i..i + |s|];
      assert OccursAt(s, k, i + 1);
    }
  }

  lemma {:induction false} OccurrenceIsContained(s: string, k: string, i: int)
    requires OccursAt(s, k, i)
    ensures ContainsIgnoringCase(s, k)
    decreases i
  {
    if i == 0 {
      assert Fold(s) <= Fold(k);
      StartsWithIsFoldedPrefix(s, k);
    } else {
      FoldOfTail(k);
      assert Fold(k)[i..i + |s|] == Fold(k[1..])[i - 1..i - 1 + |s|];
      OccurrenceIsContained(s, k[1..], i - 1);
    }
  }

  /** The containment match holds exactly when the folded `s` occurs somewhere in the folded `k`. */
  lemma ContainsIsFoldedOccurrence(s: string, k: string)
    ensures ContainsIgnoringCase(s, k) <==> exists i :: OccursAt(s, k, i)
  {
    if ContainsIgnoringCase(s, k) {
      ContainedHasOccurrence(s, k);
    }
    if exists i :: OccursAt(s, k, i) {
      var i :| OccursAt(s, k, i);
      OccurrenceIsContained(s, k, i);
    }
  }

  /** Keys that agree up to ASCII case match the same prefixes. */
  lemma CaseOfKeyIsIgnored(p: string, k1: string, k2: string)
    requires Fold(k1) == Fold(k2)
    ensures StartsWithIgnoringCase(p, k1) <==> StartsWithIgnoringCase(p, k2)
  {
    StartsWithIsFoldedPrefix(p, k1);
    StartsWithIsFoldedPrefix(p, k2);
  }
}
