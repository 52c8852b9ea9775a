/** Shell patterns: the general recursive meaning of `*`, `?` and the two
    bracket expressions the program uses. */
module Wildcard {
  datatype Pat =
    | Lit(c: char)
    | AnyChar
    | AnyString
    | NotDigit // [!0-9]
    | NotZero  // [!0]

  type Pattern = seq<Pat>

  predicate AcceptsChar(p: Pat, c: char) {
    match p
    case Lit(l) => l == c
    case AnyChar => true
    case AnyString => false
    case NotDigit => !('0' <= c <= '9')
    case NotZero => c != '0'
  }

  /** The whole of `s` matches the pattern. */
  predicate Matches(p: Pattern, s: string)
    decreases |p| + |s|
  {
    if p == [] then s == ""
    else if p[0].AnyString? then Matches(p[1..], s) || (s != "" && Matches(p, s[1..]))
    else s != "" && AcceptsChar(p[0], s[0]) && Matches(p[1..], s[1..])
  }

  /** Quoted text: every character stands for itself. */
  function Literal(s: string): (p: Pattern)
    ensures |p| == |s|
    ensures forall i :: 0 <= i < |p| ==> p[i] == Lit(s[i])
  {
    seq(|s|, i requires 0 <= i < |s| => Lit(s[i]))
  }

  /** A glob in which only `*` and `?` are special. */
  function FromGlob(key: string): (p: Pattern)
    ensures |p| == |key|
    ensures forall i :: 0 <= i < |p| ==> p[i] == GlobChar(key[i])
  {
    seq(|key|, i requires 0 <= i < |key| => GlobChar(key[i]))
  }

  function GlobChar(c: char): Pat {
    if c == '*' then AnyString else if c == '?' then AnyChar else Lit(c)
  }

  lemma {:induction false} MatchesJoined(p: Pattern, q: Pattern, a: string, b: string)
    requires Matches(p, a) && Matches(q, b)
    ensures Matches(p + q, a + b)
    decreases |p| + |a|
  {
    if p == [] {
      assert p + q == q && a + b == b;
    } else {
      assert (p + q)[1..] == p[1..] + q;
      if p[0].AnyString? {
        if Matches(p[1..], a) {
          MatchesJoined(p[1..], q, a, b);
        } else {
          MatchesJoined(p, q, a[1..], b);
          assert (a + b)[1..] == a[1..] + b;
        }
      } else {
        MatchesJoined(p[1..], q, a[1..], b);
        assert (a + b)[1..] == a[1..] + b;
      }
    }
  }

  lemma {:induction false} MatchesSplit(p: Pattern, q: Pattern, s: string) returns (i: nat)
    requires Matches(p + q, s)
    ensures i <= |s| && Matches(p, s[..i]) && Matches(q, s[i..])
    decreases |p| + |s|
  {
    if p == [] {
      i := 0;
      assert p + q == q;
    } else {
      assert (p + q)[1..] == p[1..] + q;
      if p[0].AnyString? {
        if Matches(p[1..] + q, s) {
          i := MatchesSplit(p[1..], q, s);
        } else {
          var j := MatchesSplit(p, q, s[1..]);
          i := j + 1;
          assert s[..i][1..] == s[1..][..j] && s[i..] == s[1..][j..];
        }
      } else {
        var j := MatchesSplit(p[1..], q, s[1..]);
        i := j + 1;
        assert s[..i][1..] == s[1..][..j] && s[i..] == s[1..][j..];
      }
    }
  }

  lemma {:induction false} AnyStringMatches(s: string)
    ensures Matches([AnyString], s)
    decreases |s|
  {
    if s == "" {
      assert Matches([AnyString][1..], s);
    } else {
      AnyStringMatches(s[1..]);
    }
  }

  /** A pattern without `*` matches character by character. */
  lemma {:induction false} FixedMatches(p: Pattern, s: string)
    requires AnyString !in p
    ensures Matches(p, s) <==> |p| == |s| && forall i :: 0 <= i < |p| ==> AcceptsChar(p[i], s[i])
  {
    if p != [] {
      assert p[0] in p;
      assert forall x :: x in p[1..] ==> x in p;
      if s != "" {
        FixedMatches(p[1..], s[1..]);
        if Matches(p, s) {
          forall i | 0 <= i < |p| ensures AcceptsChar(p[i], s[i]) {
            if i > 0 {
              assert p[i] == p[1..][i - 1] && s[i] == s[1..][i - 1];
            }
          }
        } else if |p| == |s| && AcceptsChar(p[0], s[0]) {
          var i :| 0 <= i < |p[1..]| && !AcceptsChar(p[1..][i], s[1..][i]);
          assert !AcceptsChar(p[i + 1], s[i + 1]);
        }
      }
    }
  }

  lemma FixedLength(p: Pattern, s: string)
    requires AnyString !in p && Matches(p, s)
    ensures |s| == |p|
  {
    FixedMatches(p, s);
  }

  /** One `*` between two fixed parts: the parts sit at the two ends. */
  lemma OneStarNeedsEnds(p: Pattern, star: Pattern, q: Pattern, s: string)
    requires AnyString !in p && AnyString !in q && star == [AnyString]
    requires Matches(p + (star + q), s)
    ensures |p| + |q| <= |s| && Matches(p, s[..|p|]) && Matches(q, s[|s| - |q|..])
  {
    hide Matches;
    var i := MatchesSplit(p, star + q, s);
    FixedLength(p, s[..i]);
    var j := MatchesSplit(star, q, s[i..]);
    FixedLength(q, s[i..][j..]);
    assert s[i..][j..] == s[|s| - |q|..];
  }

  lemma ThreeParts(s: string, i: nat, j: nat)
    requires i <= j <= |s|
    ensures s[..i] + (s[i..j] + s[j..]) == s
  {
  }

  lemma OneStarMatchesEnds(p: Pattern, star: Pattern, q: Pattern, s: string)
    requires star == [AnyString]
    requires |p| + |q| <= |s| && Matches(p, s[..|p|]) && Matches(q, s[|s| - |q|..])
    ensures Matches(p + (star + q), s)
  {
    hide Matches;
    var from := |s| - |q|;
    var head, middle, tail := s[..|p|], s[|p|..from], s[from..];
    ThreeParts(s, |p|, from);
    AnyStringMatches(middle);
    MatchesJoined(star, q, middle, tail);
    MatchesJoined(p, star + q, head, middle + tail);
  }

  lemma LiteralMatches(lit: string, s: string)
    ensures Matches(Literal(lit), s) <==> s == lit
  {
    FixedMatches(Literal(lit), s);
    if |lit| == |s| && (forall i :: 0 <= i < |lit| ==> AcceptsChar(Literal(lit)[i], s[i])) {
      forall i | 0 <= i < |lit| ensures lit[i] == s[i] {
        assert AcceptsChar(Literal(lit)[i], s[i]);
      }
    }
  }

  /** `p` then anything: some prefix matches `p`. */
  lemma MatchesThenAny(p: Pattern, s: string)
    ensures Matches(p + [AnyString], s) <==> exists i: nat :: i <= |s| && Matches(p, s[..i])
  {
    hide Matches;
    if Matches(p + [AnyString], s) {
      var i := MatchesSplit(p, [AnyString], s);
    }
    forall i: nat | i <= |s| && Matches(p, s[..i]) ensures Matches(p + [AnyString], s) {
      AnyStringMatches(s[i..]);
      MatchesJoined(p, [AnyString], s[..i], s[i..]);
      assert s[..i] + s[i..] == s;
    }
  }

  /** Anything then `p`: some suffix matches `p`. */
  lemma MatchesAnyThen(p: Pattern, s: string)
    ensures Matches([AnyString] + p, s) <==> exists i: nat :: i <= |s| && Matches(p, s[i..])
  {
    hide Matches;
    if Matches([AnyString] + p, s) {
      var i := MatchesSplit([AnyString], p, s);
    }
    forall i: nat | i <= |s| && Matches(p, s[i..]) ensures Matches([AnyString] + p, s) {
      AnyStringMatches(s[..i]);
      MatchesJoined([AnyString], p, s[..i], s[i..]);
      assert s[..i] + s[i..] == s;
    }
  }
}
