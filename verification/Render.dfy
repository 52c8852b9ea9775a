/** Rendering a template: `{number}` repetition, the cursor placeholder `{}`
    and the capture placeholders. */
module Render {
  import opened Wrappers
  import opened Text
  import opened Model
  import opened Matching

  // ----- captures -----

  /** The group number written as `{1}`..`{9}`. */
  function RegexGroupNumber(name: string): Option<nat> {
    if |name| == 1 && '1' <= name[0] <= '9' then Some(name[0] as int - '0' as int) else None
  }

  function FindGroup(groups: seq<RegexGroup>, name: string): Option<string> {
    if groups == [] then None
    else if groups[0].name == Some(name) then Some(groups[0].text)
    else FindGroup(groups[1..], name)
  }

  /** The text that the placeholder `{name}` stands for, if any. */
  function ResolveCapture(name: string, b: Bindings): Option<string> {
    if name == "*" then b.glob
    else
      var groups :- b.regex;
      match RegexGroupNumber(name)
      case Some(n) => if n <= |groups| then Some(groups[n - 1].text) else None
      case None => FindGroup(groups, name)
  }

  /** The placeholder whose opening brace stands just before `afterOpen`: where
      it closes, and the text it stands for. */
  function PlaceholderAt(afterOpen: string, b: Bindings): (r: Option<(nat, string)>)
    ensures r.Some? ==> r.value.0 < |afterOpen| && afterOpen[r.value.0] == '}'
                        && ResolveCapture(afterOpen[..r.value.0], b) == Some(r.value.1)
  {
    var close :- IndexOf(afterOpen, '}');
    var capture :- ResolveCapture(afterOpen[..close], b);
    Some((close, capture))
  }

  /** One turn of the scan at the opening brace `open`: what it emits, and
      what is left to scan. */
  function ScanStep(rest: string, open: nat, b: Bindings): (r: (seq<string>, string))
    requires open < |rest|
    ensures |r.1| < |rest|
  {
    var afterOpen := rest[open + 1..];
    match PlaceholderAt(afterOpen, b)
    case Some((close, capture)) => ([rest[..open], capture], afterOpen[close + 1..])
    case None => ([rest[..open + 1]], afterOpen)
  }

  /** The pieces of output, in the order the scan emits them. */
  function RenderedPieces(text: string, b: Bindings): seq<string>
    decreases |text|
  {
    match IndexOf(text, '{')
    case None => [text]
    case Some(open) => ScanStep(text, open, b).0 + RenderedPieces(ScanStep(text, open, b).1, b)
  }

  /** The scan as the program runs it, advancing `rest`. */
  method ForEachRenderedPiece(text: string, b: Bindings) returns (pieces: seq<string>)
    ensures pieces == RenderedPieces(text, b)
  {
    pieces := [];
    var rest := text;
    var open := IndexOf(rest, '{');
    while open.Some?
      invariant open == IndexOf(rest, '{')
      invariant RenderedPieces(text, b) == pieces + RenderedPieces(rest, b)
      decreases |rest|
    {
      var (emitted, left) := ScanStep(rest, open.value, b);
      assert pieces + (emitted + RenderedPieces(left, b)) == (pieces + emitted) + RenderedPieces(left, b);
      pieces, rest := pieces + emitted, left;
      open := IndexOf(rest, '{');
    }
    pieces := pieces + [rest];
  }

  function SubstituteCaptures(text: string, b: Bindings): (r: Option<string>)
    ensures r.Some? ==> ByteLen(r.value) <= MAX_RENDERED_EXPAND_BYTES
  {
    var rendered := Concat(RenderedPieces(text, b));
    if ByteLen(rendered) > MAX_RENDERED_EXPAND_BYTES then None else Some(rendered)
  }

  const USIZE_MAX: nat := 0xFFFF_FFFF_FFFF_FFFF

  function SaturatingAdd(a: nat, b: nat): nat {
    if a + b > USIZE_MAX then USIZE_MAX else a + b
  }

  /** First pass: the total length, saturating. */
  method MeasurePieces(pieces: seq<string>) returns (len: nat)
    ensures len == SaturatingAdd(ByteLen(Concat(pieces)), 0)
  {
    len := 0;
    for i := 0 to |pieces|
      invariant len == SaturatingAdd(ByteLen(Concat(pieces[..i])), 0)
    {
      ConcatSnoc(pieces, i);
      ByteLenConcat(Concat(pieces[..i]), pieces[i]);
      len := SaturatingAdd(len, ByteLen(pieces[i]));
    }
    assert pieces[..|pieces|] == pieces;
  }

  /** Second pass: the text itself. */
  method PushPieces(pieces: seq<string>) returns (text: string)
    ensures text == Concat(pieces)
  {
    text := "";
    for i := 0 to |pieces|
      invariant text == Concat(pieces[..i])
    {
      ConcatSnoc(pieces, i);
      text := text + pieces[i];
    }
    assert pieces[..|pieces|] == pieces;
  }

  /** Measure first, build second: the refusal is decided on the saturated sum
      of the piece lengths, and what is built has exactly the measured length. */
  method SubstituteCapturesTwoPass(text: string, b: Bindings) returns (r: Option<string>, finalLen: nat)
    ensures r == SubstituteCaptures(text, b)
    ensures r.Some? ==> ByteLen(r.value) == finalLen
  {
    var measured := ForEachRenderedPiece(text, b);
    finalLen := MeasurePieces(measured);
    if finalLen > MAX_RENDERED_EXPAND_BYTES {
      return None, finalLen;
    }
    var pieces := ForEachRenderedPiece(text, b);
    var rendered := PushPieces(pieces);
    r := Some(rendered);
  }

  // ----- an independent reading of a template -----

  /** A template is a sequence of plain characters and known placeholders. */
  datatype Part = Char(c: char) | Hole(name: string)

  /** The first part of a non-empty template, and the text after it. */
  function FirstPart(text: string, b: Bindings): (r: (Part, string))
    requires text != ""
    ensures |r.1| < |text|
  {
    if text[0] == '{' && PlaceholderAt(text[1..], b).Some? then
      var close := PlaceholderAt(text[1..], b).value.0;
      (Hole(text[1..close + 1]), text[close + 2..])
    else (Char(text[0]), text[1..])
  }

  function Parse(text: string, b: Bindings): seq<Part>
    decreases |text|
  {
    if text == "" then [] else [FirstPart(text, b).0] + Parse(FirstPart(text, b).1, b)
  }

  function PrintPart(part: Part): string {
    match part
    case Char(c) => [c]
    case Hole(name) => ['{'] + name + ['}']
  }

  function Print(parts: seq<Part>): string {
    if parts == [] then "" else PrintPart(parts[0]) + Print(parts[1..])
  }

  function FillPart(part: Part, b: Bindings): string {
    match part
    case Char(c) => [c]
    case Hole(name) => if ResolveCapture(name, b).Some? then ResolveCapture(name, b).value else ""
  }

  /** Each placeholder replaced by its capture, once. */
  function Fill(parts: seq<Part>, b: Bindings): string {
    if parts == [] then "" else FillPart(parts[0], b) + Fill(parts[1..], b)
  }

  /** The template with its placeholders filled in. */
  function Filled(text: string, b: Bindings): string {
    Fill(Parse(text, b), b)
  }

  lemma PrintCons(part: Part, rest: seq<Part>)
    ensures Print([part] + rest) == PrintPart(part) + Print(rest)
  {
    assert ([part] + rest)[1..] == rest;
  }

  lemma FillCons(part: Part, rest: seq<Part>, b: Bindings)
    ensures Fill([part] + rest, b) == FillPart(part, b) + Fill(rest, b)
  {
    assert ([part] + rest)[1..] == rest;
  }

  lemma CutAtBrace(text: string, close: nat)
    requires text != "" && text[0] == '{' && close < |text[1..]| && text[1..][close] == '}'
    ensures text == (['{'] + text[1..close + 1] + ['}']) + text[close + 2..]
  {
  }

  lemma FirstPartPrints(text: string, b: Bindings)
    requires text != ""
    ensures text == PrintPart(FirstPart(text, b).0) + FirstPart(text, b).1
    ensures FirstPart(text, b).0.Hole? ==> ResolveCapture(FirstPart(text, b).0.name, b).Some?
  {
    hide ResolveCapture, PlaceholderAt;
    if text[0] == '{' && PlaceholderAt(text[1..], b).Some? {
      var close := PlaceholderAt(text[1..], b).value.0;
      assert text[1..][..close] == text[1..close + 1];
      CutAtBrace(text, close);
    }
  }

  /** The parts print back to the template. */
  lemma {:induction false} ParsePrintsBack(text: string, b: Bindings)
    ensures Print(Parse(text, b)) == text
    decreases |text|
  {
    if text != "" {
      var (part, rest) := FirstPart(text, b);
      FirstPartPrints(text, b);
      ParsePrintsBack(rest, b);
      PrintCons(part, Parse(rest, b));
    }
  }

  lemma {:induction false} ParsedHolesResolve(text: string, b: Bindings, p: Part)
    requires p in Parse(text, b) && p.Hole?
    ensures ResolveCapture(p.name, b).Some?
    decreases |text|
  {
    FirstPartPrints(text, b);
    if p != FirstPart(text, b).0 {
      ParsedHolesResolve(FirstPart(text, b).1, b, p);
    }
  }

  lemma FilledStep(text: string, b: Bindings)
    requires text != ""
    ensures Filled(text, b) == FillPart(FirstPart(text, b).0, b) + Filled(FirstPart(text, b).1, b)
  {
    FillCons(FirstPart(text, b).0, Parse(FirstPart(text, b).1, b), b);
  }

  lemma FilledPlainChar(c: char, rest: string, b: Bindings)
    requires c != '{'
    ensures Filled([c] + rest, b) == [c] + Filled(rest, b)
  {
    var text := [c] + rest;
    assert text[1..] == rest;
    assert FirstPart(text, b) == (Char(c), rest);
    hide Filled, FirstPart;
    FilledStep(text, b);
  }

  lemma {:induction false} FilledPlainPrefix(plain: string, rest: string, b: Bindings)
    requires '{' !in plain
    ensures Filled(plain + rest, b) == plain + Filled(rest, b)
  {
    hide Filled;
    if plain == "" {
      assert plain + rest == rest && "" + Filled(rest, b) == Filled(rest, b);
    } else {
      var first, later := plain[0], plain[1..];
      assert first in plain && plain == [first] + later;
      assert plain + rest == [first] + (later + rest);
      FilledPlainChar(first, later + rest, b);
      FilledPlainPrefix(later, rest, b);
      assert [first] + (later + Filled(rest, b)) == plain + Filled(rest, b);
    }
  }

  lemma FilledBraced(braced: string, b: Bindings)
    requires braced != "" && braced[0] == '{'
    ensures match PlaceholderAt(braced[1..], b)
      case Some(at) => Filled(braced, b) == at.1 + Filled(braced[at.0 + 2..], b)
      case None => Filled(braced, b) == ['{'] + Filled(braced[1..], b)
  {
    FilledStep(braced, b);
    if PlaceholderAt(braced[1..], b).Some? {
      var close := PlaceholderAt(braced[1..], b).value.0;
      assert braced[1..][..close] == braced[1..close + 1];
    }
  }

  lemma ScanStepAt(plain: string, braced: string, b: Bindings)
    requires braced != "" && braced[0] == '{'
    ensures ScanStep(plain + braced, |plain|, b) ==
      match PlaceholderAt(braced[1..], b)
      case Some(at) => ([plain, at.1], braced[at.0 + 2..])
      case None => ([plain + ['{']], braced[1..])
  {
    var text := plain + braced;
    assert text[|plain| + 1..] == braced[1..];
    assert text[..|plain|] == plain && text[..|plain| + 1] == plain + ['{'];
  }

  /** One turn of the scan fills in the parts it passes over. */
  lemma ScanStepFillsParts(plain: string, braced: string, b: Bindings)
    requires '{' !in plain && braced != "" && braced[0] == '{'
    ensures var step := ScanStep(plain + braced, |plain|, b);
      Filled(plain + braced, b) == Concat(step.0) + Filled(step.1, b)
  {
    hide ScanStep, Filled, PlaceholderAt, Concat;
    FilledPlainPrefix(plain, braced, b);
    FilledBraced(braced, b);
    ScanStepAt(plain, braced, b);
    var at := PlaceholderAt(braced[1..], b);
    if at.Some? {
      ConcatTwo(plain, at.value.1);
    } else {
      ConcatOne(plain + ['{']);
    }
  }

  /** The scan emits the template's parts with each placeholder filled in
      exactly once: the text of a capture is never scanned again. */
  lemma {:induction false} ScanFillsTheParse(text: string, b: Bindings)
    ensures Concat(RenderedPieces(text, b)) == Filled(text, b)
    decreases |text|
  {
    match IndexOf(text, '{')
    case None =>
      IndexOfIsFirst(text, '{');
      FilledPlainPrefix(text, "", b);
      assert text + "" == text;
      ConcatOne(text);
    case Some(open) =>
      var step := ScanStep(text, open, b);
      IndexOfIsFirst(text, '{');
      assert text == text[..open] + text[open..];
      ScanStepFillsParts(text[..open], text[open..], b);
      ScanFillsTheParse(step.1, b);
      ConcatAppend(step.0, RenderedPieces(step.1, b));
  }

  lemma SubstituteIsFill(text: string, b: Bindings)
    ensures SubstituteCaptures(text, b) ==
      if ByteLen(Filled(text, b)) > MAX_RENDERED_EXPAND_BYTES then None else Some(Filled(text, b))
  {
    ScanFillsTheParse(text, b);
  }

  lemma NoPlaceholderStep(text: string, b: Bindings)
    requires text != "" && b.glob.None? && b.regex.None?
    ensures Filled(text, b) == [text[0]] + Filled(text[1..], b)
  {
    assert FirstPart(text, b) == (Char(text[0]), text[1..]);
    hide Filled, FirstPart;
    FilledStep(text, b);
  }

  /** With nothing to resolve, the scan copies its input. */
  lemma {:induction false} NothingToFill(text: string, b: Bindings)
    requires b.glob.None? && b.regex.None?
    ensures Filled(text, b) == text
    decreases |text|
  {
    if text != "" {
      hide Filled;
      NoPlaceholderStep(text, b);
      NothingToFill(text[1..], b);
      assert text == [text[0]] + text[1..];
    }
  }

  lemma StarPlaceholder(text: string, capture: string)
    requires text != "" && text[0] == '{'
    ensures PlaceholderAt(text[1..], NO_BINDINGS.(glob := Some(capture))).Some? <==> GLOB_CAPTURE_PLACEHOLDER <= text
    ensures GLOB_CAPTURE_PLACEHOLDER <= text ==>
      PlaceholderAt(text[1..], NO_BINDINGS.(glob := Some(capture))) == Some((1, capture))
  {
    if GLOB_CAPTURE_PLACEHOLDER <= text {
      assert text[1..][0] == '*' && text[1..][1] == '}';
      IndexOfIs(text[1..], '}', 1);
      assert text[1..][..1] == "*";
    }
    match IndexOf(text[1..], '}')
    case None =>
    case Some(close) =>
      if text[1..][..close] == "*" {
        assert text[1..][0] == text[1..][..close][0];
        assert text[..3] == GLOB_CAPTURE_PLACEHOLDER;
      }
  }

  /** For a glob rule the scan replaces every `{*}`. */
  lemma {:induction false} GlobFillIsReplace(text: string, capture: string)
    ensures Filled(text, NO_BINDINGS.(glob := Some(capture))) == ReplaceAll(text, GLOB_CAPTURE_PLACEHOLDER, capture)
    decreases |text|
  {
    var b := NO_BINDINGS.(glob := Some(capture));
    if text != "" {
      if text[0] == '{' {
        StarPlaceholder(text, capture);
        FilledBraced(text, b);
      } else {
        FilledStep(text, b);
      }
      GlobFillIsReplace(if GLOB_CAPTURE_PLACEHOLDER <= text then text[3..] else text[1..], capture);
    }
  }

  // ----- the shape of bindings -----

  /** Two matches of the same rule: the same placeholders resolve. */
  predicate SameShape(a: Bindings, b: Bindings) {
    && a.glob.Some? == b.glob.Some?
    && a.regex.Some? == b.regex.Some?
    && (a.regex.Some? ==>
          |a.regex.value| == |b.regex.value|
          && forall i :: 0 <= i < |a.regex.value| ==> a.regex.value[i].name == b.regex.value[i].name)
  }

  lemma {:induction false} FindGroupShape(a: seq<RegexGroup>, b: seq<RegexGroup>, name: string)
    requires |a| == |b| && forall i :: 0 <= i < |a| ==> a[i].name == b[i].name
    ensures FindGroup(a, name).Some? == FindGroup(b, name).Some?
  {
    if a != [] {
      FindGroupShape(a[1..], b[1..], name);
    }
  }

  lemma PlaceholderDependsOnShape(afterOpen: string, a: Bindings, b: Bindings)
    requires SameShape(a, b)
    ensures match PlaceholderAt(afterOpen, a)
      case None => PlaceholderAt(afterOpen, b).None?
      case Some(at) => PlaceholderAt(afterOpen, b).Some? && PlaceholderAt(afterOpen, b).value.0 == at.0
  {
    hide IndexOf, FindGroup;
    var close := IndexOf(afterOpen, '}');
    if close.Some? && a.regex.Some? {
      FindGroupShape(a.regex.value, b.regex.value, afterOpen[..close.value]);
    }
  }

  lemma FirstPartDependsOnShape(text: string, a: Bindings, b: Bindings)
    requires text != "" && SameShape(a, b)
    ensures FirstPart(text, a) == FirstPart(text, b)
  {
    hide PlaceholderAt, SameShape;
    PlaceholderDependsOnShape(text[1..], a, b);
  }

  lemma {:induction false} ParseDependsOnShape(text: string, a: Bindings, b: Bindings)
    requires SameShape(a, b)
    ensures Parse(text, a) == Parse(text, b)
    decreases |text|
  {
    if text != "" {
      FirstPartDependsOnShape(text, a, b);
      ParseDependsOnShape(FirstPart(text, a).1, a, b);
    }
  }

  // ----- number and cursor -----

  /** Apply the `{number}` repetition. The byte count of the repetition is
      below 2^64 for every unit that fits in memory, so its checked
      multiplication refuses only what the cap refuses too. */
  function RenderNumber(rule: Abbr, template: string, b: Bindings): (r: Option<string>)
    ensures b.number.None? ==> r == Some(template)
  {
    match b.number
    case None => Some(template)
    case Some(n) =>
      var unit :- rule.number;
      if ByteLen(unit) * n > MAX_RENDERED_EXPAND_BYTES then None
      else
        var rendered := ReplaceAll(template, NUMBER_PLACEHOLDER, Repeat(unit, n));
        if ByteLen(rendered) > MAX_RENDERED_EXPAND_BYTES then None else Some(rendered)
  }

  /** The text around the first `{}`. */
  function SplitAtCursor(base: string): (r: Option<(string, string)>)
    ensures r.Some? ==> base == r.value.0 + CURSOR_PLACEHOLDER + r.value.1
  {
    match Find(base, CURSOR_PLACEHOLDER)
    case None => None
    case Some(pos) => Some((base[..pos], base[pos + 2..]))
  }

  /** The text to insert and the byte offset of the cursor in it. The cursor
      placeholder is located before captures are substituted. */
  function RenderWithCursor(rule: Abbr, template: string, b: Bindings): (r: Option<(string, Option<nat>)>)
    ensures r.Some? ==> ByteLen(r.value.0) <= MAX_RENDERED_EXPAND_BYTES
    ensures r.Some? && r.value.1.Some? ==> IsBoundary(r.value.0, r.value.1.value)
  {
    var base :- RenderNumber(rule, template, b);
    match SplitAtCursor(base)
    case None =>
      var text :- SubstituteCaptures(base, b);
      Some((text, None))
    case Some((beforeCursor, afterCursor)) =>
      var left :- SubstituteCaptures(beforeCursor, b);
      var right :- SubstituteCaptures(afterCursor, b);
      BoundaryAfter(left, right);
      if ByteLen(left + right) <= MAX_RENDERED_EXPAND_BYTES then Some((left + right, Some(ByteLen(left)))) else None
  }

  /** The text a rule would insert before any cap: the base with its first
      `{}` removed and its captures filled in. */
  function FullText(base: string, b: Bindings): string {
    match SplitAtCursor(base)
    case None => Filled(base, b)
    case Some((beforeCursor, afterCursor)) =>
      Filled(beforeCursor, b) + Filled(afterCursor, b)
  }

  /** The byte offset in the full text at which the first `{}` stood. */
  function CursorOffset(base: string, b: Bindings): Option<nat> {
    match SplitAtCursor(base)
    case None => None
    case Some(around) => Some(ByteLen(Filled(around.0, b)))
  }

  /** A rendering is refused exactly when it would exceed the cap; otherwise it
      is the full text, with the cursor where the first `{}` stood. */
  lemma RenderIsFullTextWithinCap(rule: Abbr, template: string, b: Bindings)
    requires RenderNumber(rule, template, b).Some?
    ensures var base := RenderNumber(rule, template, b).value;
      RenderWithCursor(rule, template, b) ==
        if ByteLen(FullText(base, b)) > MAX_RENDERED_EXPAND_BYTES then None
        else Some((FullText(base, b), CursorOffset(base, b)))
  {
    var base := RenderNumber(rule, template, b).value;
    match SplitAtCursor(base)
    case None => SubstituteIsFill(base, b);
    case Some((beforeCursor, afterCursor)) =>
      SubstituteIsFill(beforeCursor, b);
      SubstituteIsFill(afterCursor, b);
      ByteLenConcat(Filled(beforeCursor, b), Filled(afterCursor, b));
  }
}
