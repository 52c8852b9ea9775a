/** Edit distance, and the suggestion drawn from it. */
module Levenshtein {
  import opened Wrappers
  import opened Text

  /** One step of turning a source text into a target text. */
  datatype Edit<T> = Insert(y: T) | Delete(x: T) | Substitute(x: T, y: T)

  function Cost<T(==)>(e: Edit<T>): nat {
    if e.Substitute? && e.x == e.y then 0 else 1
  }

  function TotalCost<T(==)>(script: seq<Edit<T>>): nat {
    if script == [] then 0 else Cost(script[0]) + TotalCost(script[1..])
  }

  function Consumed<T>(e: Edit<T>): seq<T> {
    if e.Insert? then [] else [e.x]
  }

  function Produced<T>(e: Edit<T>): seq<T> {
    if e.Delete? then [] else [e.y]
  }

  /** The text a script reads. */
  function Source<T>(script: seq<Edit<T>>): seq<T> {
    if script == [] then [] else Consumed(script[0]) + Source(script[1..])
  }

  /** The text a script writes. */
  function Target<T>(script: seq<Edit<T>>): seq<T> {
    if script == [] then [] else Produced(script[0]) + Target(script[1..])
  }

  predicate Turns<T(==)>(script: seq<Edit<T>>, a: seq<T>, b: seq<T>) {
    Source(script) == a && Target(script) == b
  }

  /** The least cost of turning `a` into `b`. */
  function Distance<T(==)>(a: seq<T>, b: seq<T>): nat
    decreases |a| + |b|
  {
    if a == [] then |b|
    else if b == [] then |a|
    else Cheapest(Distance(a[1..], b), Distance(a, b[1..]), Distance(a[1..], b[1..]), a[0] == b[0])
  }

  /** The cheapest of deleting, inserting and substituting first. */
  function Cheapest(deleting: nat, inserting: nat, substituting: nat, same: bool): nat {
    Min(Min(deleting + 1, inserting + 1), substituting + if same then 0 else 1)
  }

  lemma DistanceStep<T>(a: seq<T>, b: seq<T>)
    requires a != [] && b != []
    ensures Distance(a, b)
         == Cheapest(Distance(a[1..], b), Distance(a, b[1..]), Distance(a[1..], b[1..]), a[0] == b[0])
  {
  }

  lemma DistanceFromEmpty<T>(a: seq<T>, b: seq<T>)
    ensures a == [] ==> Distance(a, b) == |b|
    ensures b == [] ==> Distance(a, b) == |a|
  {
  }

  // ----- the distance is the cost of the best script -----

  /** Whatever a script does first, the distance is at most one more than what
      is left. */
  lemma DistanceMoves<T>(a: seq<T>, b: seq<T>)
    ensures b != [] ==> Distance(a, b) <= Distance(a, b[1..]) + 1
    ensures a != [] ==> Distance(a, b) <= Distance(a[1..], b) + 1
    ensures a != [] && b != [] ==> Distance(a, b) <= Distance(a[1..], b[1..]) + if a[0] == b[0] then 0 else 1
  {
    if a == [] || b == [] {
      DistanceFromEmpty(a, b);
      if b != [] {
        DistanceFromEmpty(a, b[1..]);
      }
      if a != [] {
        DistanceFromEmpty(a[1..], b);
      }
    } else {
      hide Distance;
      DistanceStep(a, b);
    }
  }

  lemma {:induction false} NoScriptIsCheaper<T>(script: seq<Edit<T>>, a: seq<T>, b: seq<T>)
    requires Turns(script, a, b)
    ensures Distance(a, b) <= TotalCost(script)
  {
    hide Distance;
    if script == [] {
      DistanceFromEmpty(a, b);
    } else {
      var e, rest := script[0], script[1..];
      DistanceMoves(a, b);
      match e
      case Insert(y) =>
        assert b[1..] == Target(rest);
        NoScriptIsCheaper(rest, a, b[1..]);
      case Delete(x) =>
        assert a[1..] == Source(rest);
        NoScriptIsCheaper(rest, a[1..], b);
      case Substitute(x, y) =>
        assert a[1..] == Source(rest) && b[1..] == Target(rest);
        NoScriptIsCheaper(rest, a[1..], b[1..]);
    }
  }

  lemma TurnsCons<T>(e: Edit<T>, rest: seq<Edit<T>>)
    ensures Source([e] + rest) == Consumed(e) + Source(rest)
    ensures Target([e] + rest) == Produced(e) + Target(rest)
    ensures TotalCost([e] + rest) == Cost(e) + TotalCost(rest)
  {
    assert ([e] + rest)[1..] == rest;
  }

  lemma {:induction false} BestScript<T>(a: seq<T>, b: seq<T>) returns (script: seq<Edit<T>>)
    ensures Turns(script, a, b) && TotalCost(script) == Distance(a, b)
    decreases |a| + |b|
  {
    hide Distance, Source, Target, TotalCost;
    DistanceFromEmpty(a, b);
    if a == [] && b == [] {
      script := [];
      EmptyScript<T>();
    } else {
      var e: Edit<T>;
      var rest: seq<Edit<T>>;
      if a == [] {
        rest := BestScript(a, b[1..]);
        e := Insert(b[0]);
        DistanceFromEmpty(a, b[1..]);
      } else if b == [] {
        rest := BestScript(a[1..], b);
        e := Delete(a[0]);
        DistanceFromEmpty(a[1..], b);
      } else if Distance(a, b) == Distance(a[1..], b[1..]) + Cost(Substitute(a[0], b[0])) {
        rest := BestScript(a[1..], b[1..]);
        e := Substitute(a[0], b[0]);
      } else if Distance(a, b) == Distance(a[1..], b) + 1 {
        rest := BestScript(a[1..], b);
        e := Delete(a[0]);
      } else {
        DistanceStep(a, b);
        rest := BestScript(a, b[1..]);
        e := Insert(b[0]);
      }
      script := [e] + rest;
      TurnsCons(e, rest);
    }
  }

  lemma EmptyScript<T>()
    ensures Turns<T>([], [], []) && TotalCost<T>([]) == 0
  {
  }

  // ----- it is a metric -----

  lemma {:induction false} FreeScriptCopies<T>(script: seq<Edit<T>>)
    requires TotalCost(script) == 0
    ensures Source(script) == Target(script)
  {
    if script != [] {
      FreeScriptCopies(script[1..]);
    }
  }

  lemma {:induction false} CopyIsFree<T>(a: seq<T>)
    ensures Distance(a, a) == 0
  {
    if a != [] {
      CopyIsFree(a[1..]);
    }
  }

  lemma {:induction false} ZeroIffEqual<T>(a: seq<T>, b: seq<T>)
    ensures Distance(a, b) == 0 <==> a == b
  {
    CopyIsFree(a);
    var script := BestScript(a, b);
    if Distance(a, b) == 0 {
      FreeScriptCopies(script);
    }
  }

  lemma {:induction false} Symmetric<T>(a: seq<T>, b: seq<T>)
    ensures Distance(a, b) == Distance(b, a)
    decreases |a| + |b|
  {
    if a != [] && b != [] {
      Symmetric(a[1..], b);
      Symmetric(a, b[1..]);
      Symmetric(a[1..], b[1..]);
    }
  }

  /** Two scripts that meet in the middle make one that costs no more. */
  lemma {:induction false} Compose<T>(p: seq<Edit<T>>, q: seq<Edit<T>>) returns (r: seq<Edit<T>>)
    requires Target(p) == Source(q)
    ensures Turns(r, Source(p), Target(q)) && TotalCost(r) <= TotalCost(p) + TotalCost(q)
    decreases |p| + |q|
  {
    if p != [] && p[0].Delete? {
      r := ComposeLeft(p, q);
    } else if q != [] && q[0].Insert? {
      r := ComposeRight(p, q);
    } else if p != [] && q != [] {
      r := ComposeBoth(p, q);
    } else {
      r := [];
    }
  }

  /** The first script deletes: so does the composition. */
  lemma {:induction false} ComposeLeft<T>(p: seq<Edit<T>>, q: seq<Edit<T>>) returns (r: seq<Edit<T>>)
    requires Target(p) == Source(q) && p != [] && p[0].Delete?
    ensures Turns(r, Source(p), Target(q)) && TotalCost(r) <= TotalCost(p) + TotalCost(q)
    decreases |p| + |q|, 0
  {
    assert Target(p) == Target(p[1..]);
    var s := Compose(p[1..], q);
    r := [p[0]] + s;
    TurnsCons(p[0], s);
  }

  /** The second script inserts: so does the composition. */
  lemma {:induction false} ComposeRight<T>(p: seq<Edit<T>>, q: seq<Edit<T>>) returns (r: seq<Edit<T>>)
    requires Target(p) == Source(q) && q != [] && q[0].Insert?
    ensures Turns(r, Source(p), Target(q)) && TotalCost(r) <= TotalCost(p) + TotalCost(q)
    decreases |p| + |q|, 0
  {
    assert Source(q) == Source(q[1..]);
    var s := Compose(p, q[1..]);
    r := [q[0]] + s;
    TurnsCons(q[0], s);
  }

  /** The first script produces the character the second one consumes. */
  lemma {:induction false} ComposeBoth<T>(p: seq<Edit<T>>, q: seq<Edit<T>>) returns (r: seq<Edit<T>>)
    requires Target(p) == Source(q) && p != [] && q != [] && !p[0].Delete? && !q[0].Insert?
    ensures Turns(r, Source(p), Target(q)) && TotalCost(r) <= TotalCost(p) + TotalCost(q)
    decreases |p| + |q|, 0
  {
    MiddleAgrees(p, q);
    var s := Compose(p[1..], q[1..]);
    r := MergeEdits(p[0], q[0]) + s;
    MergeExtends(p[0], q[0], s);
  }

  lemma MiddleAgrees<T>(p: seq<Edit<T>>, q: seq<Edit<T>>)
    requires Target(p) == Source(q) && p != [] && q != [] && !p[0].Delete? && !q[0].Insert?
    ensures p[0].y == q[0].x && Target(p[1..]) == Source(q[1..])
  {
    assert Target(p)[0] == p[0].y && Source(q)[0] == q[0].x;
    assert Target(p)[1..] == Target(p[1..]) && Source(q)[1..] == Source(q[1..]);
  }

  function MergeEdits<T>(e: Edit<T>, f: Edit<T>): seq<Edit<T>> {
    if e.Insert? && f.Delete? then []
    else if e.Insert? && f.Substitute? then [Insert(f.y)]
    else if e.Substitute? && f.Delete? then [Delete(e.x)]
    else if e.Substitute? && f.Substitute? then [Substitute(e.x, f.y)]
    else []
  }

  lemma MergeExtends<T>(e: Edit<T>, f: Edit<T>, s: seq<Edit<T>>)
    requires !e.Delete? && !f.Insert? && e.y == f.x
    ensures Source(MergeEdits(e, f) + s) == Consumed(e) + Source(s)
    ensures Target(MergeEdits(e, f) + s) == Produced(f) + Target(s)
    ensures TotalCost(MergeEdits(e, f) + s) <= Cost(e) + Cost(f) + TotalCost(s)
  {
    if e.Insert? && f.Delete? {
      assert [] + s == s;
    } else {
      TurnsCons(MergeEdits(e, f)[0], s);
    }
  }

  lemma {:induction false} Triangle<T>(a: seq<T>, b: seq<T>, c: seq<T>)
    ensures Distance(a, c) <= Distance(a, b) + Distance(b, c)
  {
    hide Distance, TotalCost, Source, Target;
    var p := BestScript(a, b);
    var q := BestScript(b, c);
    var r := Compose(p, q);
    NoScriptIsCheaper(r, a, c);
  }

  // ----- the two-row loop works from the ends of prefixes -----

  /** The same distance, cut at the last characters instead of the first. */
  lemma {:induction false} DistanceAtEnds<T>(a: seq<T>, b: seq<T>, x: T, y: T)
    ensures Distance(a + [x], b + [y])
         == Cheapest(Distance(a, b + [y]), Distance(a + [x], b), Distance(a, b), x == y)
  {
    hide Distance;
    ReverseDistance(a + [x], b + [y]);
    ReverseDistance(a, b + [y]);
    ReverseDistance(a + [x], b);
    ReverseDistance(a, b);
    ReverseSnoc(a, x);
    ReverseSnoc(b, y);
    DistanceAtHeads(Reverse(a), Reverse(b), x, y);
  }

  lemma DistanceAtHeads<T>(a: seq<T>, b: seq<T>, x: T, y: T)
    ensures Distance([x] + a, [y] + b)
         == Cheapest(Distance(a, [y] + b), Distance([x] + a, b), Distance(a, b), x == y)
  {
    hide Distance;
    assert ([x] + a)[1..] == a && ([y] + b)[1..] == b;
    DistanceStep([x] + a, [y] + b);
  }

  function Reverse<T>(s: seq<T>): seq<T> {
    if s == [] then [] else Reverse(s[1..]) + [s[0]]
  }

  lemma {:induction false} ReverseSnoc<T>(s: seq<T>, x: T)
    ensures Reverse(s + [x]) == [x] + Reverse(s)
  {
    if s == [] {
      assert (s + [x])[1..] == [];
    } else {
      assert (s + [x])[1..] == s[1..] + [x];
      ReverseSnoc(s[1..], x);
    }
  }

  lemma {:induction false} ReverseReverse<T>(s: seq<T>)
    ensures Reverse(Reverse(s)) == s
  {
    if s != [] {
      ReverseSnoc(Reverse(s[1..]), s[0]);
      ReverseReverse(s[1..]);
    }
  }

  lemma {:induction false} ReverseScript<T>(script: seq<Edit<T>>)
    ensures Source(Reverse(script)) == Reverse(Source(script))
    ensures Target(Reverse(script)) == Reverse(Target(script))
    ensures TotalCost(Reverse(script)) == TotalCost(script)
  {
    if script != [] {
      var e, rest := script[0], script[1..];
      ReverseScript(rest);
      ScriptSnoc(Reverse(rest), e);
      ReverseShort(Consumed(e), Source(rest));
      ReverseShort(Produced(e), Target(rest));
    }
  }

  lemma ReverseShort<T>(few: seq<T>, rest: seq<T>)
    requires |few| <= 1
    ensures Reverse(few + rest) == Reverse(rest) + few
  {
    if few == [] {
      assert few + rest == rest;
    } else {
      assert (few + rest)[1..] == rest;
    }
  }

  lemma {:induction false} ScriptSnoc<T>(script: seq<Edit<T>>, e: Edit<T>)
    ensures Source(script + [e]) == Source(script) + Consumed(e)
    ensures Target(script + [e]) == Target(script) + Produced(e)
    ensures TotalCost(script + [e]) == TotalCost(script) + Cost(e)
  {
    hide Source, Target, TotalCost, Consumed, Produced;
    EmptyScript<T>();
    if script == [] {
      assert script + [e] == [e] + [];
      TurnsCons(e, []);
      assert [] + Consumed(e) == Consumed(e) + [] && [] + Produced(e) == Produced(e) + [];
    } else {
      var first, rest := script[0], script[1..];
      assert script == [first] + rest;
      assert script + [e] == [first] + (rest + [e]);
      TurnsCons(first, rest);
      TurnsCons(first, rest + [e]);
      ScriptSnoc(rest, e);
    }
  }

  lemma ReverseNoDearer<T>(a: seq<T>, b: seq<T>)
    ensures Distance(Reverse(a), Reverse(b)) <= Distance(a, b)
  {
    hide Distance, TotalCost, Source, Target;
    var script := BestScript(a, b);
    ReverseScript(script);
    NoScriptIsCheaper(Reverse(script), Reverse(a), Reverse(b));
  }

  lemma ReverseDistance<T>(a: seq<T>, b: seq<T>)
    ensures Distance(a, b) == Distance(Reverse(a), Reverse(b))
  {
    ReverseNoDearer(a, b);
    ReverseNoDearer(Reverse(a), Reverse(b));
    ReverseReverse(a);
    ReverseReverse(b);
  }

  lemma EmptyPrefixDistance<T>(a: seq<T>, b: seq<T>, j: nat)
    requires j <= |b|
    ensures Distance(a[..0], b[..j]) == j
    ensures j <= |a| ==> Distance(a[..j], b[..0]) == j
  {
  }

  lemma PrefixStep<T>(a: seq<T>, b: seq<T>, i: nat, j: nat)
    requires 0 < i <= |a| && 0 < j <= |b|
    ensures Distance(a[..i], b[..j])
         == Cheapest(Distance(a[..i - 1], b[..j]), Distance(a[..i], b[..j - 1]),
                     Distance(a[..i - 1], b[..j - 1]), a[i - 1] == b[j - 1])
  {
    hide Distance;
    assert a[..i] == a[..i - 1] + [a[i - 1]] && b[..j] == b[..j - 1] + [b[j - 1]];
    DistanceAtEnds(a[..i - 1], b[..j - 1], a[i - 1], b[j - 1]);
  }

  /** Two rows, written in turn and swapped after each character of `a`. */
  method Levenshtein<T(==)>(a: seq<T>, b: seq<T>) returns (d: nat)
    ensures d == Distance(a, b)
  {
    hide Distance;
    var prev := new nat[|b| + 1](j => j);
    var curr := new nat[|b| + 1](_ => 0);
    forall j | 0 <= j <= |b| ensures prev[j] == Distance(a[..0], b[..j]) {
      EmptyPrefixDistance(a, b, j);
    }
    for i := 1 to |a| + 1
      invariant prev != curr && prev.Length == curr.Length == |b| + 1
      invariant fresh(prev) && fresh(curr)
      invariant forall j :: 0 <= j <= |b| ==> prev[j] == Distance(a[..i - 1], b[..j])
    {
      curr[0] := i;
      EmptyRowDistance(a, b, i);
      for j := 1 to |b| + 1
        invariant forall k :: 0 <= k <= |b| ==> prev[k] == Distance(a[..i - 1], b[..k])
        invariant forall k :: 0 <= k < j ==> curr[k] == Distance(a[..i], b[..k])
      {
        var cost := if a[i - 1] == b[j - 1] then 0 else 1;
        PrefixStep(a, b, i, j);
        curr[j] := Min(Min(prev[j] + 1, curr[j - 1] + 1), prev[j - 1] + cost);
      }
      prev, curr := curr, prev;
    }
    assert a[..|a|] == a && b[..|b|] == b;
    d := prev[|b|];
  }

  lemma EmptyRowDistance<T>(a: seq<T>, b: seq<T>, i: nat)
    requires i <= |a|
    ensures Distance(a[..i], b[..0]) == i
  {
  }

  // ----- the suggestion -----

  /** Close enough to suggest, and not the name itself. */
  predicate Similar<T(==)>(name: seq<T>, candidate: seq<T>) {
    0 < Distance(name, candidate) <= 2
  }

  /** The first of the candidates at the least distance, among those that are
      similar but different. */
  method SuggestSimilar<T(==)>(name: seq<T>, candidates: seq<seq<T>>) returns (best: Option<seq<T>>)
    ensures best.None? <==> forall i :: 0 <= i < |candidates| ==> !Similar(name, candidates[i])
    ensures forall i :: 0 <= i < |candidates| && 1 <= Distance(name, candidates[i]) <= 2 ==> best.Some?
    ensures best.Some? ==> 1 <= Distance(name, best.value) <= 2
    ensures best.Some? ==> best.value != name && exists i ::
      && 0 <= i < |candidates| && candidates[i] == best.value && Similar(name, candidates[i])
      && (forall k :: 0 <= k < i && Similar(name, candidates[k]) ==>
            Distance(name, candidates[i]) < Distance(name, candidates[k]))
      && (forall k :: i < k < |candidates| && Similar(name, candidates[k]) ==>
            Distance(name, candidates[i]) <= Distance(name, candidates[k]))
  {
    hide Distance;
    best := None;
    var least := 0;
    ghost var at := 0;
    for i := 0 to |candidates|
      invariant best.None? ==> forall k :: 0 <= k < i ==> !Similar(name, candidates[k])
      invariant best.Some? ==>
        && 0 <= at < i && candidates[at] == best.value && Similar(name, candidates[at])
        && least == Distance(name, candidates[at])
        && (forall k :: 0 <= k < at && Similar(name, candidates[k]) ==> least < Distance(name, candidates[k]))
        && (forall k :: at < k < i && Similar(name, candidates[k]) ==> least <= Distance(name, candidates[k]))
    {
      var d := Levenshtein(name, candidates[i]);
      if 0 < d <= 2 && (best.None? || d < least) {
        best, least, at := Some(candidates[i]), d, i;
      }
    }
    if best.Some? {
      ZeroIffEqual(name, best.value);
    }
  }
}
