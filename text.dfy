/** The string operations the listing relies on: lowering, `Contains` and the
    comparison that orders names. */
module Text {

  /** Lower-casing of one character, ASCII letters only. */
  function LowerChar(c: char): char
  {
    if 'A' <= c <= 'Z' then (c as int + 32) as char else c
  }

  /** `ToLower`, character by character. */
  function Lower(s: string): (r: string)
    ensures |r| == |s|
    ensures forall i :: 0 <= i < |s| ==> r[i] == LowerChar(s[i])
  {
    if s == [] then [] else [LowerChar(s[0])] + Lower(s[1..])
  }

  predicate IsPrefix(p: string, s: string)
  {
    |p| <= |s| && s[..|p|] == p
  }

  /** `s.Contains(t)`: t occurs in s, found by trying each start position. */
  predicate Contains(s: string, t: string)
  {
    IsPrefix(t, s) || (s != [] && Contains(s[1..], t))
  }

  /** t occurs in s starting at index i. */
  predicate OccursAt(s: string, t: string, i: int)
  {
    0 <= i <= |s| - |t| && s[i..i + |t|] == t
  }

  /** `Contains` holds exactly when t occurs somewhere in s. */
  lemma {:induction false} ContainsIffOccurs(s: string, t: string)
    ensures Contains(s, t) <==> exists i :: OccursAt(s, t, i)
  {
    if IsPrefix(t, s) {
      assert OccursAt(s, t, 0);
    } else if s != [] {
      ContainsIffOccurs(s[1..], t);
      if Contains(s[1..], t) {
        var i :| OccursAt(s[1..], t, i);
        assert s[1..][i..i + |t|] == s[i + 1..i + 1 + |t|];
        assert OccursAt(s, t, i + 1);
      } else {
        forall i ensures !OccursAt(s, t, i) {
          if i == 0 && |t| <= |s| {
            assert s[..|t|] == s[i..i + |t|];
          } else if 0 < i <= |s| - |t| {
            assert s[1..][i - 1..i - 1 + |t|] == s[i..i + |t|];
            assert !OccursAt(s[1..], t, i - 1);
          }
        }
      }
    }
  }

  /** Every string contains the empty string. */
  lemma EveryStringContainsEmpty(s: string)
    ensures Contains(s, [])
  {
    assert s[..0] == [];
  }

  /** Ordinal lexicographic comparison: s sorts before or equal to t. */
  predicate LessOrEqual(s: string, t: string)
  {
    s == [] || (t != [] && (s[0] < t[0] || (s[0] == t[0] && LessOrEqual(s[1..], t[1..]))))
  }

  lemma {:induction false} LessOrEqualReflexive(s: string)
    ensures LessOrEqual(s, s)
  {
    if s != [] {
      LessOrEqualReflexive(s[1..]);
    }
  }

  /** Any two names are comparable. */
  lemma {:induction false} LessOrEqualTotal(s: string, t: string)
    ensures LessOrEqual(s, t) || LessOrEqual(t, s)
  {
    if s != [] && t != [] && s[0] == t[0] {
      LessOrEqualTotal(s[1..], t[1..]);
    }
  }

  lemma {:induction false} LessOrEqualTransitive(s: string, t: string, u: string)
    requires LessOrEqual(s, t) && LessOrEqual(t, u)
    ensures LessOrEqual(s, u)
  {
    if s != [] && t != [] && u != [] && s[0] == t[0] == u[0] {
      LessOrEqualTransitive(s[1..], t[1..], u[1..]);
    }
  }
}
