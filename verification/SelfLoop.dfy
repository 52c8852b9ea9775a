/** Deciding without a token whether a rule rewrites every token to itself. */
module SelfLoop {
  import opened Wrappers
  import opened Text
  import opened Model
  import opened Matching
  import opened Render
  import opened Holes
  import opened Validation
  import opened ValidRules

  /** The key with its first `*` written as the capture placeholder. */
  function StarAsCapture(key: string): string {
    match SplitOnce(key, '*')
    case None => key
    case Some((head, tail)) => head + GLOB_CAPTURE_PLACEHOLDER + tail
  }

  predicate RewritesTokenToItself(rule: Abbr, template: string) {
    match rule.matchKind
    case None => template == rule.key
    case Some(Glob) =>
      '?' !in rule.key && ReplaceAll(template, CURSOR_PLACEHOLDER, "") == StarAsCapture(rule.key)
    case Some(Regex) => false
  }

  /** What the static answer is about: every token the glob key matches, if
      its rendering fits, is rendered to itself. */
  ghost predicate RewritesEveryToken(rule: Abbr, template: string) {
    forall token :: MatchGlobKey(rule.key, token).Some? ==> RewritesThisToken(rule, template, token)
  }

  predicate RewritesThisToken(rule: Abbr, template: string, token: string)
    requires MatchGlobKey(rule.key, token).Some?
  {
    var r := RenderWithCursor(rule, template, NO_BINDINGS.(glob := MatchGlobKey(rule.key, token)));
    r.Some? ==> r.value.0 == token
  }

  /** A cursor placeholder between `before` and `after` splits a capture
      placeholder in two. */
  predicate Straddles(before: string, after: string) {
    (EndsWith(before, "{") && "*}" <= after) || (EndsWith(before, "{*") && "}" <= after)
  }

  /** The first `{}` is the only one, and it does not stand inside a `{*}`. */
  predicate CursorLeavesCaptures(template: string) {
    match SplitAtCursor(template)
    case None => true
    case Some((before, after)) => !Contains(after, CURSOR_PLACEHOLDER) && !Straddles(before, after)
  }

  // ----- the parts of a rendering -----

  const STAR := GLOB_CAPTURE_PLACEHOLDER

  /** The template's parts, on either side of the first cursor placeholder. */
  function RenderParts(template: string): seq<Part> {
    match SplitAtCursor(template)
    case None => HoleParts(template, STAR)
    case Some((before, after)) => HoleParts(before, STAR) + HoleParts(after, STAR)
  }

  lemma FullTextFillsParts(template: string, capture: string)
    ensures FullText(template, NO_BINDINGS.(glob := Some(capture))) == FillHoles(RenderParts(template), capture)
  {
    hide HoleParts, FillHoles, Filled, ReplaceAll, Find;
    match SplitAtCursor(template)
    case None =>
      GlobFillIsReplace(template, capture);
      ReplaceIsFill(template, STAR, capture);
    case Some((before, after)) =>
      GlobFillIsReplace(before, capture);
      GlobFillIsReplace(after, capture);
      ReplaceIsFill(before, STAR, capture);
      ReplaceIsFill(after, STAR, capture);
      FillHolesAppend(HoleParts(before, STAR), HoleParts(after, STAR), capture);
  }

  lemma GlobRendering(rule: Abbr, template: string, capture: string)
    ensures var text := FillHoles(RenderParts(template), capture);
      var r := RenderWithCursor(rule, template, NO_BINDINGS.(glob := Some(capture)));
      if ByteLen(text) > MAX_RENDERED_EXPAND_BYTES then r.None? else r.Some? && r.value.0 == text
  {
    hide FillHoles, RenderParts, FullText, CursorOffset, SubstituteCaptures;
    FullTextFillsParts(template, capture);
    RenderIsFullTextWithinCap(rule, template, NO_BINDINGS.(glob := Some(capture)));
  }

  function Plain(s: string): (parts: seq<Part>)
    ensures |parts| == |s|
    ensures forall i :: 0 <= i < |s| ==> parts[i] == Char(s[i])
  {
    seq(|s|, i requires 0 <= i < |s| => Char(s[i]))
  }

  /** The parts that spell out the key itself. */
  function KeyParts(head: string, tail: string): seq<Part> {
    Plain(head) + [Hole(STAR)] + Plain(tail)
  }

  lemma {:induction false} FillPlain(s: string, v: string)
    ensures FillHoles(Plain(s), v) == s
  {
    if s != "" {
      assert Plain(s) == [Char(s[0])] + Plain(s[1..]);
      FillHolesCons(Char(s[0]), Plain(s[1..]), v);
      FillPlain(s[1..], v);
      assert s == [s[0]] + s[1..];
    }
  }

  lemma FillKeyParts(head: string, tail: string, v: string)
    ensures FillHoles(KeyParts(head, tail), v) == head + v + tail
  {
    hide FillHoles;
    FillHolesAppend(Plain(head) + [Hole(STAR)], Plain(tail), v);
    FillHolesAppend(Plain(head), [Hole(STAR)], v);
    FillPlain(head, v);
    FillPlain(tail, v);
    FillOne(Hole(STAR), v);
  }

  lemma FillOne(part: Part, v: string)
    ensures FillHoles([part], v) == PartText(part, v)
  {
    FillHolesCons(part, [], v);
    assert [part] + [] == [part];
  }

  // ----- a fresh character tells parts apart -----

  lemma {:induction false} FillWithCharIndex(parts: seq<Part>, x: char)
    ensures |FillHoles(parts, [x])| == |parts|
    ensures forall i :: 0 <= i < |parts| ==> FillHoles(parts, [x])[i] == (if parts[i].Hole? then x else parts[i].c)
  {
    if parts != [] {
      FillWithCharIndex(parts[1..], x);
      var rest := FillHoles(parts[1..], [x]);
      forall i | 0 <= i < |parts|
        ensures FillHoles(parts, [x])[i] == (if parts[i].Hole? then x else parts[i].c)
      {
        if i > 0 {
          assert FillHoles(parts, [x])[i] == rest[i - 1] && parts[i] == parts[1..][i - 1];
        }
      }
    }
  }

  predicate FreshFor(x: char, parts: seq<Part>) {
    forall i :: 0 <= i < |parts| && parts[i].Char? ==> parts[i].c != x
  }

  predicate OneHole(parts: seq<Part>) {
    forall i :: 0 <= i < |parts| && parts[i].Hole? ==> parts[i].name == STAR
  }

  lemma FreshFillIsInjective(p: seq<Part>, q: seq<Part>, x: char)
    requires FreshFor(x, p) && FreshFor(x, q) && OneHole(p) && OneHole(q)
    requires FillHoles(p, [x]) == FillHoles(q, [x])
    ensures p == q
  {
    FillWithCharIndex(p, x);
    FillWithCharIndex(q, x);
    var text := FillHoles(p, [x]);
    forall i | 0 <= i < |p| ensures p[i] == q[i] {
      assert text[i] == (if p[i].Hole? then x else p[i].c);
      assert text[i] == (if q[i].Hole? then x else q[i].c);
    }
  }

  lemma {:induction false} HolePartsOneHole(template: string)
    ensures OneHole(HoleParts(template, STAR))
    ensures forall i :: 0 <= i < |HoleParts(template, STAR)| && HoleParts(template, STAR)[i].Char? ==>
      HoleParts(template, STAR)[i].c in template
    decreases |template|
  {
    if template != "" {
      HolePartsOneHole(if STAR <= template then template[|STAR|..] else template[1..]);
    }
  }

  lemma {:induction false} FilledNoLonger(parts: seq<Part>, v: string)
    requires ByteLen(v) <= ByteLen(STAR)
    ensures ByteLen(FillHoles(parts, v)) <= ByteLen(FillHoles(parts, STAR))
  {
    hide ByteLen;
    if parts != [] {
      FilledNoLonger(parts[1..], v);
      ByteLenConcat(PartText(parts[0], v), FillHoles(parts[1..], v));
      ByteLenConcat(PartText(parts[0], STAR), FillHoles(parts[1..], STAR));
    }
  }

  /** A capture no longer than its placeholder always fits. */
  lemma ShortCaptureFits(template: string, v: string)
    requires ByteLen(v) <= 3 && ByteLen(template) <= MAX_RENDERED_EXPAND_BYTES
    ensures ByteLen(FillHoles(RenderParts(template), v)) <= MAX_RENDERED_EXPAND_BYTES
  {
    hide FillHoles, HoleParts, Find, RenderParts;
    assert ByteLen(STAR) == 3;
    FilledNoLonger(RenderParts(template), v);
    RenderPartsPrintBack(template);
    var stripped := FillHoles(RenderParts(template), STAR);
    match SplitAtCursor(template)
    case None =>
    case Some((before, after)) =>
      ByteLenConcat(before, after);
      ByteLenConcat(before, CURSOR_PLACEHOLDER);
      ByteLenConcat(before + CURSOR_PLACEHOLDER, after);
  }

  lemma RenderPartsPrintBack(template: string)
    ensures FillHoles(RenderParts(template), STAR) ==
      match SplitAtCursor(template) case None => template case Some(around) => around.0 + around.1
  {
    hide FillHoles, HoleParts, Find;
    match SplitAtCursor(template)
    case None => PartsPrintBack(template, STAR);
    case Some((before, after)) =>
      PartsPrintBack(before, STAR);
      PartsPrintBack(after, STAR);
      FillHolesAppend(HoleParts(before, STAR), HoleParts(after, STAR), STAR);
  }

  function CharOf(code: nat): char
    requires code < 0xD800
  {
    code as char
  }

  /** A text that contains the first `n` characters has length at least `n`. */
  lemma {:induction false} Pigeonhole(s: string, n: nat)
    requires n <= 0xD800
    requires forall k: nat :: k < n ==> CharOf(k) in s
    ensures n <= |s|
  {
    if n > 0 {
      var p :| 0 <= p < |s| && s[p] == CharOf(n - 1);
      var rest := s[..p] + s[p + 1..];
      forall k: nat | k < n - 1 ensures CharOf(k) in rest {
        var q :| 0 <= q < |s| && s[q] == CharOf(k);
        assert q != p;
        assert rest[if q < p then q else q - 1] == s[q];
      }
      Pigeonhole(rest, n - 1);
    }
  }

  lemma FreshCharacter(s: string) returns (x: char)
    requires |s| < 0xD000
    ensures x !in s && Utf8Len(x) <= 3
  {
    if forall k: nat :: k < |s| + 1 ==> CharOf(k) in s {
      Pigeonhole(s, |s| + 1);
    }
    var k: nat :| k < |s| + 1 && CharOf(k) !in s;
    x := CharOf(k);
  }

  // ----- the tokens of a glob key -----

  /** A text the fixed part matches: each `?` written as `q`. */
  function Instance(part: string, q: char): (r: string)
    ensures |r| == |part|
    ensures forall i :: 0 <= i < |part| ==> r[i] == (if part[i] == '?' then q else part[i])
  {
    seq(|part|, i requires 0 <= i < |part| => if part[i] == '?' then q else part[i])
  }

  lemma InstanceMatches(head: string, tail: string, c: string, q: char)
    requires '*' !in head
    ensures MatchGlobKey(head + ['*'] + tail, Instance(head, q) + c + Instance(tail, q)) == Some(c)
  {
    var key := head + ['*'] + tail;
    assert key[..|head|] == head && key[|head| + 1..] == tail;
    IndexOfIs(key, '*', |head|);
    var token := Instance(head, q) + c + Instance(tail, q);
    assert token[..|head|] == Instance(head, q);
    assert token[|token| - |tail|..] == Instance(tail, q);
    assert token[|head|..|token| - |tail|] == c;
  }

  lemma SameInstancesNoQuestionMark(part: string)
    requires Instance(part, 'a') == Instance(part, 'b')
    ensures '?' !in part
  {
    forall i | 0 <= i < |part| ensures part[i] != '?' {
      assert Instance(part, 'a')[i] == Instance(part, 'b')[i];
    }
  }

  // ----- exactness -----

  /** Rendering every token to itself forces the parts to spell out the key. */
  lemma {:induction false} RewritesForcesParts(rule: Abbr, template: string, head: string, tail: string)
    requires rule.key == head + ['*'] + tail && '*' !in head
    requires ByteLen(rule.key) <= MAX_KEY_BYTES && ByteLen(template) <= MAX_EXPAND_BYTES
    requires RewritesEveryToken(rule, template)
    ensures '?' !in rule.key && RenderParts(template) == KeyParts(head, tail)
  {
    hide RewritesThisToken, FillHoles, RenderParts, MatchGlobKey;
    ByteLenAtLeastLength(rule.key);
    ByteLenAtLeastLength(template);
    var x := FreshCharacter(rule.key + template);
    var parts := RenderParts(template);
    RenderedInstance(rule, template, head, tail, x, 'a');
    RenderedInstance(rule, template, head, tail, x, 'b');
    var text := FillHoles(parts, [x]);
    assert Instance(head, 'a') == text[..|head|] == Instance(head, 'b');
    assert Instance(tail, 'a') == text[|head| + 1..] == Instance(tail, 'b');
    SameInstancesNoQuestionMark(head);
    SameInstancesNoQuestionMark(tail);
    assert Instance(head, 'a') == head && Instance(tail, 'a') == tail;
    FillKeyParts(head, tail, [x]);
    RenderPartsFresh(template, x);
    KeyPartsFresh(head, tail, x);
    FreshFillIsInjective(parts, KeyParts(head, tail), x);
  }

  lemma RenderPartsFresh(template: string, x: char)
    requires x !in template
    ensures FreshFor(x, RenderParts(template)) && OneHole(RenderParts(template))
  {
    hide HoleParts, Find;
    match SplitAtCursor(template)
    case None => HolePartsOneHole(template);
    case Some((before, after)) =>
      HolePartsOneHole(before);
      HolePartsOneHole(after);
      assert forall c <- before :: c in template;
      assert forall c <- after :: c in template;
  }

  lemma KeyPartsFresh(head: string, tail: string, x: char)
    requires x !in head + ['*'] + tail
    ensures FreshFor(x, KeyParts(head, tail)) && OneHole(KeyParts(head, tail))
  {
    var parts := KeyParts(head, tail);
    var key := head + ['*'] + tail;
    forall i | 0 <= i < |parts| && parts[i].Char? ensures parts[i].c != x {
      assert parts[i] == Char(key[i]) && key[i] in key;
    }
  }

  lemma RenderedInstance(rule: Abbr, template: string, head: string, tail: string, x: char, q: char)
    requires rule.key == head + ['*'] + tail && '*' !in head
    requires Utf8Len(x) <= 3 && ByteLen(template) <= MAX_EXPAND_BYTES
    requires RewritesEveryToken(rule, template)
    ensures FillHoles(RenderParts(template), [x]) == Instance(head, q) + [x] + Instance(tail, q)
  {
    hide FillHoles, RenderParts, MatchGlobKey;
    var token := Instance(head, q) + [x] + Instance(tail, q);
    InstanceMatches(head, tail, [x], q);
    assert RewritesThisToken(rule, template, token);
    GlobRendering(rule, template, [x]);
    ShortCaptureFits(template, [x]);
  }

  lemma PartsOfKeyRewrite(rule: Abbr, template: string, head: string, tail: string)
    requires SplitOnce(rule.key, '*') == Some((head, tail)) && '?' !in rule.key
    requires RenderParts(template) == KeyParts(head, tail)
    ensures RewritesEveryToken(rule, template)
  {
    hide FillHoles, RenderParts, KeyParts;
    forall token | MatchGlobKey(rule.key, token).Some? ensures RewritesThisToken(rule, template, token) {
      var c := MatchGlobKey(rule.key, token).value;
      GlobRendering(rule, template, c);
      FillKeyParts(head, tail, c);
      NoQuestionMarkIsLiteral(rule.key, head, tail, token);
    }
  }

  lemma NoQuestionMarkIsLiteral(key: string, head: string, tail: string, token: string)
    requires SplitOnce(key, '*') == Some((head, tail)) && '?' !in key
    requires MatchGlobKey(key, token).Some?
    ensures token == head + MatchGlobKey(key, token).value + tail
  {
    assert forall c <- head :: c in key;
    assert forall c <- tail :: c in key;
    assert token[..|head|] == head;
    assert token[|token| - |tail|..] == tail;
  }

  // ----- from parts to the static comparison -----

  function FirstWidth(s: string): (k: nat)
    requires s != ""
    ensures 0 < k <= |s|
  {
    if STAR <= s then |STAR| else 1
  }

  function FirstHole(s: string): Part
    requires s != ""
  {
    if STAR <= s then Hole(STAR) else Char(s[0])
  }

  lemma NoParts()
    ensures HoleParts("", STAR) == []
  {
  }

  lemma HolePartsStep(s: string)
    requires s != ""
    ensures HoleParts(s, STAR) == [FirstHole(s)] + HoleParts(s[FirstWidth(s)..], STAR)
  {
  }

  lemma StepAcross(a: string, b: string)
    requires a != "" && !Straddles(a, b)
    ensures FirstHole(a + b) == FirstHole(a) && FirstWidth(a + b) == FirstWidth(a)
    ensures (a + b)[FirstWidth(a)..] == a[FirstWidth(a)..] + b
  {
    hide Straddles;
    PrefixAcross(a, b);
  }

  lemma {:induction false} HolePartsAppend(a: string, b: string)
    requires !Straddles(a, b)
    ensures HoleParts(a + b, STAR) == HoleParts(a, STAR) + HoleParts(b, STAR)
    decreases |a|
  {
    hide Straddles, HoleParts, FirstHole, FirstWidth;
    if a == "" {
      NoParts();
      assert a + b == b;
      assert [] + HoleParts(b, STAR) == HoleParts(b, STAR);
    } else {
      StepAcross(a, b);
      var rest := a[FirstWidth(a)..];
      StraddlesSuffix(a, b, FirstWidth(a));
      HolePartsAppend(rest, b);
      HolePartsStep(a);
      HolePartsStep(a + b);
      assert [FirstHole(a)] + (HoleParts(rest, STAR) + HoleParts(b, STAR))
          == ([FirstHole(a)] + HoleParts(rest, STAR)) + HoleParts(b, STAR);
    }
  }

  lemma StraddleFrom(a: string, b: string)
    requires 0 < |a| < 3 && STAR <= a + b
    ensures Straddles(a, b)
  {
    var whole := a + b;
    assert whole[0] == '{' && whole[1] == '*' && whole[2] == '}';
    if |a| == 1 {
      assert b[0] == whole[1] && b[1] == whole[2];
      assert a[0..] == "{" && b[..2] == "*}";
    } else {
      assert b[0] == whole[2];
      assert a[0..] == "{*" && b[..1] == "}";
    }
  }

  lemma PrefixAcross(a: string, b: string)
    requires a != "" && !Straddles(a, b)
    ensures STAR <= a + b <==> STAR <= a
  {
    hide Straddles;
    if |a| >= 3 {
      assert (a + b)[..3] == a[..3];
    } else if STAR <= a + b {
      StraddleFrom(a, b);
    }
  }

  lemma EndsWithSuffix(a: string, k: nat, end: string)
    requires k <= |a| && EndsWith(a[k..], end)
    ensures EndsWith(a, end)
  {
    assert a[k..][|a| - k - |end|..] == a[|a| - |end|..];
  }

  lemma StraddlesSuffix(a: string, b: string, k: nat)
    requires k <= |a| && !Straddles(a, b)
    ensures !Straddles(a[k..], b)
  {
    hide EndsWith;
    if EndsWith(a[k..], "{") {
      EndsWithSuffix(a, k, "{");
    }
    if EndsWith(a[k..], "{*") {
      EndsWithSuffix(a, k, "{*");
    }
  }

  lemma {:induction false} HolePartsPlain(s: string)
    requires '{' !in s
    ensures HoleParts(s, STAR) == Plain(s)
  {
    if s != "" {
      assert s[0] in s && STAR[0] == '{';
      HolePartsPlain(s[1..]);
      assert Plain(s) == [Char(s[0])] + Plain(s[1..]);
    }
  }

  predicate BraceFree(s: string) {
    '{' !in s && '}' !in s
  }

  lemma StarFirst(head: string, tail: string)
    requires BraceFree(head)
    ensures HoleParts(STAR + tail, STAR) == [Hole(STAR)] + HoleParts(tail, STAR)
    ensures !Straddles(head, STAR + tail)
  {
    var rest := STAR + tail;
    assert rest[..3] == STAR && rest[3..] == tail && rest[0] == '{';
  }

  lemma KeyTextParts(head: string, tail: string)
    requires BraceFree(head) && BraceFree(tail)
    ensures HoleParts(head + STAR + tail, STAR) == KeyParts(head, tail)
  {
    hide HoleParts, Straddles;
    StarFirst(head, tail);
    HolePartsPlain(head);
    HolePartsPlain(tail);
    HolePartsAppend(head, STAR + tail);
    assert head + (STAR + tail) == head + STAR + tail;
  }

  /** No `{}` in the key's own text. */
  lemma KeyTextHasNoCursor(head: string, tail: string, i: nat)
    requires BraceFree(head) && BraceFree(tail)
    ensures !OccursAt(head + STAR + tail, CURSOR_PLACEHOLDER, i)
  {
    var text := head + STAR + tail;
    if i + 2 <= |text| {
      if i == |head| {
        assert text[i + 1] == '*';
      } else {
        assert text[i] != '{';
      }
      assert text[i..i + 2][0] == text[i] && text[i..i + 2][1] == text[i + 1];
    }
  }

  lemma {:induction false} ReplaceAroundCursor(template: string)
    ensures match SplitAtCursor(template)
      case None => ReplaceAll(template, CURSOR_PLACEHOLDER, "") == template
      case Some(around) =>
        ReplaceAll(template, CURSOR_PLACEHOLDER, "") == around.0 + ReplaceAll(around.1, CURSOR_PLACEHOLDER, "")
  {
    hide ReplaceAll, Find;
    CountedMeansFound(template, CURSOR_PLACEHOLDER);
    match SplitAtCursor(template)
    case None => NothingToReplace(template, CURSOR_PLACEHOLDER, "");
    case Some((before, after)) =>
      ReplaceAtFirst(template, CURSOR_PLACEHOLDER, "", |before|);
      assert "" + ReplaceAll(after, CURSOR_PLACEHOLDER, "") == ReplaceAll(after, CURSOR_PLACEHOLDER, "");
  }

  lemma NoCursorNoReplacement(s: string)
    requires !Contains(s, CURSOR_PLACEHOLDER)
    ensures ReplaceAll(s, CURSOR_PLACEHOLDER, "") == s
  {
    CountedMeansFound(s, CURSOR_PLACEHOLDER);
    NothingToReplace(s, CURSOR_PLACEHOLDER, "");
  }

  /** The static comparison and the cursor condition give the key's parts. */
  lemma ClaimGivesParts(template: string, head: string, tail: string)
    requires BraceFree(head) && BraceFree(tail)
    requires ReplaceAll(template, CURSOR_PLACEHOLDER, "") == head + STAR + tail && CursorLeavesCaptures(template)
    ensures RenderParts(template) == KeyParts(head, tail)
  {
    hide ReplaceAll, HoleParts, KeyParts, Find, Straddles;
    ReplaceAroundCursor(template);
    KeyTextParts(head, tail);
    match SplitAtCursor(template)
    case None =>
    case Some((before, after)) =>
      NoCursorNoReplacement(after);
      HolePartsAppend(before, after);
  }

  lemma PartsGiveClaim(template: string, head: string, tail: string)
    requires BraceFree(head) && BraceFree(tail)
    requires RenderParts(template) == KeyParts(head, tail)
    ensures ReplaceAll(template, CURSOR_PLACEHOLDER, "") == head + STAR + tail && CursorLeavesCaptures(template)
  {
    hide ReplaceAll, HoleParts, KeyParts, RenderParts, FillHoles, Straddles;
    ReplaceAroundCursor(template);
    RenderPartsPrintBack(template);
    FillKeyParts(head, tail, STAR);
    match SplitAtCursor(template)
    case None =>
    case Some((before, after)) =>
      assert before + after == head + STAR + tail;
      forall i: nat ensures !OccursAt(before + after, CURSOR_PLACEHOLDER, i) {
        KeyTextHasNoCursor(head, tail, i);
      }
      NoOccurrenceInSuffix(before, after, CURSOR_PLACEHOLDER);
      NoCursorNoReplacement(after);
      KeyPartsHaveNoBrace(head, tail);
      BraceFreePartsDoNotStraddle(template);
  }

  lemma NoOccurrenceInSuffix(before: string, after: string, pat: string)
    requires forall i: nat :: !OccursAt(before + after, pat, i)
    ensures !Contains(after, pat)
  {
    if Contains(after, pat) {
      OccursAfter(before, after, pat, Find(after, pat).value);
    }
  }

  lemma OccursAfter(before: string, after: string, pat: string, i: nat)
    requires OccursAt(after, pat, i)
    ensures OccursAt(before + after, pat, |before| + i)
  {
    assert (before + after)[|before| + i..|before| + i + |pat|] == after[i..i + |pat|];
  }

  lemma BraceFreePartsDoNotStraddle(template: string)
    requires Char('{') !in RenderParts(template)
    ensures match SplitAtCursor(template) case None => true case Some(around) => !Straddles(around.0, around.1)
  {
    hide Straddles, HoleParts, Find;
    match SplitAtCursor(template)
    case None =>
    case Some((before, after)) =>
      if Straddles(before, after) {
        StraddleLeavesBrace(before, after);
      }
  }

  lemma KeyPartsHaveNoBrace(head: string, tail: string)
    requires BraceFree(head) && BraceFree(tail)
    ensures Char('{') !in KeyParts(head, tail)
  {
  }

  /** Cut in two, a capture placeholder leaves a bare brace behind. */
  lemma {:induction false} StraddleLeavesBrace(before: string, after: string)
    requires Straddles(before, after)
    ensures Char('{') in HoleParts(before, STAR) + HoleParts(after, STAR)
  {
    hide HoleParts;
    OpenBraceParts();
    if EndsWith(before, "{") {
      EndKeepsItsParts(before, "{");
    } else {
      EndKeepsItsParts(before, "{*");
    }
  }

  lemma {:induction false} EndKeepsItsParts(s: string, end: string)
    requires EndsWith(s, end) && end != "" && end[0] == '{' && Char('{') in HoleParts(end, STAR)
    ensures Char('{') in HoleParts(s, STAR)
  {
    hide HoleParts, Straddles;
    var a := s[..|s| - |end|];
    assert s == a + end;
    NoStraddle(a, end);
    HolePartsAppend(a, end);
  }

  lemma NoStraddle(a: string, b: string)
    requires b != "" && b[0] == '{'
    ensures !Straddles(a, b)
  {
    assert "*}"[0] == '*' && "}"[0] == '}';
  }

  lemma OpenBraceParts()
    ensures HoleParts("{", STAR) == [Char('{')]
    ensures HoleParts("{*", STAR) == [Char('{'), Char('*')]
  {
    assert "{"[1..] == "" && "{*"[1..] == "*" && "*"[1..] == "";
    assert HoleParts("*", STAR) == [Char('*')] + HoleParts("", STAR);
  }

  lemma ValidGlobHasNoBraces(key: string)
    requires ValidGlobKey(key)
    ensures BraceFree(key)
  {
    assert GLOB_KEY_FORBIDDEN_CHARS[2] == '{' && GLOB_KEY_FORBIDDEN_CHARS[3] == '}';
  }

  /** Every token a valid glob rule matches is rendered to itself exactly when
      the static comparison says so and the template's only `{}`, if any, does
      not stand inside a `{*}`. */
  lemma {:induction false} RewritesIsExactUpToCursor(re: RegexEngine, rule: Abbr, template: string)
    requires ValidRule(re, rule) && rule.matchKind == Some(Glob)
    requires ByteLen(template) <= MAX_EXPAND_BYTES
    ensures RewritesEveryToken(rule, template) <==>
      RewritesTokenToItself(rule, template) && CursorLeavesCaptures(template)
  {
    hide RewritesEveryToken, CursorLeavesCaptures, RenderParts, KeyParts, ReplaceAll, AtMostOneStar, ValidNumberUse;
    var key := rule.key;
    ValidGlobHasNoBraces(key);
    SplitOnceAtFirst(key, '*');
    match SplitOnce(key, '*')
    case None => StarlessNeverRewrites(rule, template);
    case Some((head, tail)) =>
      assert forall c <- head :: c in key;
      assert forall c <- tail :: c in key;
      if RewritesEveryToken(rule, template) {
        RewritesForcesParts(rule, template, head, tail);
        PartsGiveClaim(template, head, tail);
      }
      if RewritesTokenToItself(rule, template) && CursorLeavesCaptures(template) {
        ClaimGivesParts(template, head, tail);
        PartsOfKeyRewrite(rule, template, head, tail);
      }
  }

  /** A key without `*` has a `?`, so two tokens share one rendering. */
  lemma StarlessNeverRewrites(rule: Abbr, template: string)
    requires '*' !in rule.key && '?' in rule.key && ByteLen(template) <= MAX_EXPAND_BYTES
    ensures !RewritesEveryToken(rule, template)
  {
    hide FillHoles, RenderParts;
    SplitOnceAtFirst(rule.key, '*');
    var a, b := Instance(rule.key, 'a'), Instance(rule.key, 'b');
    GlobRendering(rule, template, "");
    ShortCaptureFits(template, "");
    assert MatchGlobKey(rule.key, a) == Some("") && MatchGlobKey(rule.key, b) == Some("");
    var i :| 0 <= i < |rule.key| && rule.key[i] == '?';
    assert a[i] == 'a' && b[i] == 'b';
    assert RewritesThisToken(rule, template, a) && RewritesThisToken(rule, template, b) ==> a == b;
  }

  const CUT_CAPTURE := "{{}*}"

  /** The comparison alone is not enough: it removes every `{}` before it
      compares, so for the key `*` it accepts a `{}` that cuts the capture
      placeholder in two, although the template then renders `{*}` literally. */
  lemma ComparisonAcceptsTooMuch(rule: Abbr)
    requires rule.key == "*" && rule.matchKind == Some(Glob)
    ensures RewritesTokenToItself(rule, CUT_CAPTURE) && !RewritesEveryToken(rule, CUT_CAPTURE)
  {
    hide RewritesEveryToken, RenderParts, KeyParts, ReplaceAll, CursorLeavesCaptures, ByteLen;
    StarKey();
    CutCapture();
    if RewritesEveryToken(rule, CUT_CAPTURE) {
      RewritesForcesParts(rule, CUT_CAPTURE, "", "");
      PartsGiveClaim(CUT_CAPTURE, "", "");
    }
  }

  lemma StarKey()
    ensures "*" == "" + ['*'] + "" && SplitOnce("*", '*') == Some(("", ""))
    ensures StarAsCapture("*") == STAR && "" + STAR + "" == STAR
    ensures ByteLen("*") <= MAX_KEY_BYTES && ByteLen(CUT_CAPTURE) <= MAX_EXPAND_BYTES
  {
    assert "*"[1..] == "";
    ByteLenAtMostFourTimes("*");
    ByteLenAtMostFourTimes(CUT_CAPTURE);
  }

  lemma CutCapture()
    ensures ReplaceAll(CUT_CAPTURE, CURSOR_PLACEHOLDER, "") == STAR && !CursorLeavesCaptures(CUT_CAPTURE)
  {
    var t := CUT_CAPTURE;
    assert t[1..3] == "{}" && OccursAt(t, CURSOR_PLACEHOLDER, 1);
    assert t[0..2] == "{{" && !OccursAt(t, CURSOR_PLACEHOLDER, 0);
    FindIs(t, CURSOR_PLACEHOLDER, 1);
    assert t[..1] == "{" && t[3..] == "*}";
    assert EndsWith("{", "{") && "*}" <= "*}";
    ReplaceAroundCursor(t);
    assert "*}"[1..] == "}" && "}"[1..] == "";
    assert !(CURSOR_PLACEHOLDER <= "*}") && !(CURSOR_PLACEHOLDER <= "}");
    assert ReplaceAll("}", CURSOR_PLACEHOLDER, "") == "}";
    assert ReplaceAll("*}", CURSOR_PLACEHOLDER, "") == "*}";
  }

  lemma StarRuleIsValid(re: RegexEngine, template: string)
    requires IsPrintable(template) && |template| <= MAX_NUMBER_UNIT_BYTES
    ensures ValidRule(re, Abbr("*", All(template), None, None, Some(Glob)))
  {
    assert IsPrintable("*");
    hide CheckAbbrKey, CheckExpandValue, CheckNumberUnit, IsPrintable, RefersToMissingGroup;
    PrintableIsValid("*");
    PrintableIsValid(template);
    var rule := Abbr("*", All(template), None, None, Some(Glob));
    assert Labelled(rule.expand) == [(None, template)];
    assert '*' !in GLOB_KEY_FORBIDDEN_CHARS;
  }

  /** The rule it gets wrong is a valid one. */
  lemma ValidRuleIsMisjudged(re: RegexEngine)
    ensures var rule := Abbr("*", All(CUT_CAPTURE), None, None, Some(Glob));
      ValidRule(re, rule) && RewritesTokenToItself(rule, CUT_CAPTURE) && !RewritesEveryToken(rule, CUT_CAPTURE)
  {
    hide ValidRule, RewritesTokenToItself, RewritesEveryToken;
    StarRuleIsValid(re, CUT_CAPTURE);
    ComparisonAcceptsTooMuch(Abbr("*", All(CUT_CAPTURE), None, None, Some(Glob)));
  }
}
