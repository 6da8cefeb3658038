/**
 * SQL `LIKE` as the H2 engine evaluates it on non-null strings: '%' matches
 * any run of characters, '_' exactly one, and the engine's default escape
 * character '\' makes the character after it literal. Matching is
 * case-sensitive. A NULL operand makes the predicate unknown, which a WHERE
 * clause treats as false; callers model that with `Option`.
 */
module SqlLike {
  const Escape: char := '\\'

  predicate IsWildcard(c: char) {
    c == '%' || c == '_' || c == Escape
  }

  /** A pattern with no character that `LIKE` treats specially. */
  predicate NoWildcards(p: string) {
    forall c :: c in p ==> !IsWildcard(c)
  }

  /** Whether `s LIKE p` holds. Without '%' every pattern element consumes
      exactly one character, so a match is never longer than the pattern, and
      as long as it when the pattern has no escape either. */
  function Like(s: string, p: string): (r: bool)
    ensures r && '%' !in p ==> |s| <= |p|
    ensures r && '%' !in p && Escape !in p ==> |s| == |p|
    decreases |s| + |p|
  {
    if p == [] then s == []
    else if p[0] == '%' then Like(s, p[1..]) || (s != [] && Like(s[1..], p))
    else if p[0] == '_' then s != [] && Like(s[1..], p[1..])
    else if p[0] == Escape && |p| >= 2 then s != [] && s[0] == p[1] && Like(s[1..], p[2..])
    else s != [] && s[0] == p[0] && Like(s[1..], p[1..])
  }

  /** A pattern without wildcards matches exactly the string equal to it. */
  lemma {:induction false} LikeLiteral(s: string, p: string)
    requires NoWildcards(p)
    ensures Like(s, p) <==> s == p
    decreases |p|
  {
    if p != [] {
      assert p[0] in p;
      if s != [] {
        LikeLiteral(s[1..], p[1..]);
        assert s == [s[0]] + s[1..] && p == [p[0]] + p[1..];
      }
    }
  }

  /** A lone '%' matches every string. */
  lemma {:induction false} LikeAnything(s: string)
    ensures Like(s, "%")
    decreases |s|
  {
    if s != [] {
      LikeAnything(s[1..]);
    } else {
      assert Like(s, "%"[1..]);
    }
  }

  /** A wildcard-free motif followed by '%' matches exactly the strings that
      start with the motif. */
  lemma {:induction false} LikePrefix(s: string, motif: string)
    requires NoWildcards(motif)
    ensures Like(s, motif + "%") <==> motif <= s
    decreases |motif|
  {
    if motif == [] {
      assert motif + "%" == "%";
      LikeAnything(s);
    } else {
      var p := motif + "%";
      assert motif[0] in motif;
      assert p[0] == motif[0] && p[1..] == motif[1..] + "%";
      if s != [] {
        LikePrefix(s[1..], motif[1..]);
        assert motif <= s <==> (s[0] == motif[0] && motif[1..] <= s[1..]);
      }
    }
  }
}
