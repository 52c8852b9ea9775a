/** Exactly when a rule fires, from the entries written for the shell. */
module Firing {
  import opened Wrappers
  import opened Text
  import opened Model
  import opened Matching
  import opened Render
  import opened Expand
  import opened Validation

  // ----- the entry of a shell -----

  /** `v` is written under the label `own`, or under the fallback's if there is
      nothing under `own`, or without any label. */
  ghost predicate WrittenFor<T(!new)>(values: PerShell<T>, own: Label, v: T) {
    || values == All(v)
    || (Some(own), v) in Labelled(values)
    || ((forall w: T :: (Some(own), w) !in Labelled(values)) && (Some(Fallback), v) in Labelled(values))
  }

  lemma LabelHolds<T>(field: Option<T>, own: Label, tag: Option<Label>, v: T)
    ensures (tag, v) in WithLabel(field, own) <==> field == Some(v) && tag == Some(own)
  {
  }

  /** What is labelled in a table of entries. */
  lemma LabelledTable<T>(
    values: PerShell<T>, fallback: Option<T>, bash: Option<T>, zsh: Option<T>, pwsh: Option<T>, nu: Option<T>, v: T)
    requires values == ByShell(fallback, bash, zsh, pwsh, nu)
    ensures (Some(Fallback), v) in Labelled(values) <==> fallback == Some(v)
    ensures (Some(BashLabel), v) in Labelled(values) <==> bash == Some(v)
    ensures (Some(ZshLabel), v) in Labelled(values) <==> zsh == Some(v)
    ensures (Some(PwshLabel), v) in Labelled(values) <==> pwsh == Some(v)
    ensures (Some(NuLabel), v) in Labelled(values) <==> nu == Some(v)
  {
    forall tag ensures (tag, v) in Labelled(values) <==>
      || (fallback == Some(v) && tag == Some(Fallback)) || (bash == Some(v) && tag == Some(BashLabel))
      || (zsh == Some(v) && tag == Some(ZshLabel)) || (pwsh == Some(v) && tag == Some(PwshLabel))
      || (nu == Some(v) && tag == Some(NuLabel))
    {
      hide WithLabel;
      LabelHolds(fallback, Fallback, tag, v);
      LabelHolds(bash, BashLabel, tag, v);
      LabelHolds(zsh, ZshLabel, tag, v);
      LabelHolds(pwsh, PwshLabel, tag, v);
      LabelHolds(nu, NuLabel, tag, v);
    }
  }

  /** The entry of each shell is the one that validation labels with its name,
      or else the fallback; Clink has no name of its own. */
  lemma {:induction false} EntryByLabel<T(!new)>(values: PerShell<T>, v: T)
    ensures values.ForShell(Bash) == Some(v) <==> WrittenFor(values, BashLabel, v)
    ensures values.ForShell(Zsh) == Some(v) <==> WrittenFor(values, ZshLabel, v)
    ensures values.ForShell(Pwsh) == Some(v) <==> WrittenFor(values, PwshLabel, v)
    ensures values.ForShell(Nu) == Some(v) <==> WrittenFor(values, NuLabel, v)
    ensures values.ForShell(Clink) == Some(v) <==> values == All(v) || (Some(Fallback), v) in Labelled(values)
  {
    match values
    case All(w) =>
      assert forall tag :: (Some(tag), v) !in Labelled(values);
    case ByShell(fallback, bash, zsh, pwsh, nu) =>
      hide Labelled;
      forall w ensures
        && ((Some(Fallback), w) in Labelled(values) <==> fallback == Some(w))
        && ((Some(BashLabel), w) in Labelled(values) <==> bash == Some(w))
        && ((Some(ZshLabel), w) in Labelled(values) <==> zsh == Some(w))
        && ((Some(PwshLabel), w) in Labelled(values) <==> pwsh == Some(w))
        && ((Some(NuLabel), w) in Labelled(values) <==> nu == Some(w))
      {
        LabelledTable(values, fallback, bash, zsh, pwsh, nu, w);
      }
      NothingWritten(values, BashLabel, bash);
      NothingWritten(values, ZshLabel, zsh);
      NothingWritten(values, PwshLabel, pwsh);
      NothingWritten(values, NuLabel, nu);
  }

  lemma NothingWritten<T(!new)>(values: PerShell<T>, own: Label, field: Option<T>)
    requires forall w :: (Some(own), w) in Labelled(values) <==> field == Some(w)
    ensures (forall w: T :: (Some(own), w) !in Labelled(values)) <==> field.None?
  {
    if field.Some? {
      assert (Some(own), field.value) in Labelled(values);
    }
  }

  // ----- firing -----

  /** The rule's commands for the shell are all there; a rule without a table
      of commands asks for none, and one whose table leaves the shell out never
      fires. */
  predicate CommandsThere(rule: Abbr, shell: Shell, commandExists: string -> bool) {
    rule.whenCommandExists.Some? ==>
      && rule.whenCommandExists.value.ForShell(shell).Some?
      && forall c <- rule.whenCommandExists.value.ForShell(shell).value :: commandExists(c)
  }

  /** A rule fires with a text exactly when it matches the token, its entry for
      the shell renders to that text, which is not blank, its commands for the
      shell are all there, and it is no self-loop: neither an exact rule whose
      entry is its key, nor a glob or regex rule that renders the token. */
  lemma FiresExactly(q: Lookup, rule: Abbr, text: string, offset: Option<nat>)
    ensures q.Firing(rule) == Some(Expanded(text, offset)) <==>
      && MatchRule(q.re, rule, q.token).Some? && rule.expand.ForShell(q.shell).Some?
      && RenderWithCursor(rule, rule.expand.ForShell(q.shell).value, MatchRule(q.re, rule, q.token).value)
           == Some((text, offset))
      && CommandsThere(rule, q.shell, q.commandExists)
      && (exists c <- text :: !IsWhitespace(c))
      && !(rule.matchKind.None? && '{' !in rule.key && rule.expand.ForShell(q.shell).value == rule.key)
      && !(rule.matchKind.Some? && text == q.token)
  {
    hide MatchRule, RenderWithCursor, IsWhitespace;
  }

  // ----- the order of the phases -----

  /** Exact keys, then `{number}` keys, then globs, then regexes. */
  lemma PhaseOrder(a: Entry, b: Entry)
    ensures Precedes(a, b) <==>
      var ra := if a.rule.matchKind == Some(Regex) then 3 else if a.rule.matchKind == Some(Glob) then 2
                else if '{' in a.rule.key then 1 else 0;
      var rb := if b.rule.matchKind == Some(Regex) then 3 else if b.rule.matchKind == Some(Glob) then 2
                else if '{' in b.rule.key then 1 else 0;
      ra < rb || (ra == rb && a.index < b.index)
  {
  }
}
