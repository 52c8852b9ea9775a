/** A template as plain characters and occurrences of one placeholder. */
module Holes {
  import opened Text
  import opened Render

  /** The template cut at each occurrence of `pat` that a scan from the left meets. */
  function HoleParts(template: string, pat: string): seq<Part>
    requires pat != ""
    decreases |template|
  {
    if template == "" then []
    else if pat <= template then [Hole(pat)] + HoleParts(template[|pat|..], pat)
    else [Char(template[0])] + HoleParts(template[1..], pat)
  }

  function PartText(part: Part, v: string): string {
    match part
    case Char(c) => [c]
    case Hole(_) => v
  }

  /** Every placeholder replaced by `v`. */
  function FillHoles(parts: seq<Part>, v: string): string {
    if parts == [] then "" else PartText(parts[0], v) + FillHoles(parts[1..], v)
  }

  lemma FillHolesCons(part: Part, rest: seq<Part>, v: string)
    ensures FillHoles([part] + rest, v) == PartText(part, v) + FillHoles(rest, v)
  {
    assert ([part] + rest)[1..] == rest;
  }

  lemma {:induction false} FillHolesAppend(p: seq<Part>, q: seq<Part>, v: string)
    ensures FillHoles(p + q, v) == FillHoles(p, v) + FillHoles(q, v)
  {
    if p == [] {
      assert p + q == q;
    } else {
      assert (p + q)[1..] == p[1..] + q;
      FillHolesAppend(p[1..], q, v);
    }
  }

  lemma {:induction false} ReplaceIsFill(template: string, pat: string, v: string)
    requires pat != ""
    ensures ReplaceAll(template, pat, v) == FillHoles(HoleParts(template, pat), v)
    decreases |template|
  {
    if template != "" {
      var rest := if pat <= template then template[|pat|..] else template[1..];
      ReplaceIsFill(rest, pat, v);
      FillHolesCons(if pat <= template then Hole(pat) else Char(template[0]), HoleParts(rest, pat), v);
    }
  }

  lemma FirstPartText(template: string, pat: string)
    requires pat != "" && template != ""
    ensures pat <= template ==> template == PartText(Hole(pat), pat) + template[|pat|..]
    ensures template == PartText(Char(template[0]), pat) + template[1..]
  {
  }

  /** The parts print back to the template. */
  lemma {:induction false} PartsPrintBack(template: string, pat: string)
    requires pat != ""
    ensures FillHoles(HoleParts(template, pat), pat) == template
    decreases |template|
  {
    if template != "" {
      FirstPartText(template, pat);
      if pat <= template {
        PartsPrintBack(template[|pat|..], pat);
        FillHolesCons(Hole(pat), HoleParts(template[|pat|..], pat), pat);
      } else {
        PartsPrintBack(template[1..], pat);
        FillHolesCons(Char(template[0]), HoleParts(template[1..], pat), pat);
      }
    }
  }
}
