/** The configuration and the rules in it. */
module Model {
  import opened Wrappers

  datatype Shell = Bash | Zsh | Pwsh | Clink | Nu

  /** A value given once for every shell, or per shell with a fallback. */
  datatype PerShell<T> =
    | All(value: T)
    | ByShell(fallback: Option<T>, bash: Option<T>, zsh: Option<T>, pwsh: Option<T>, nu: Option<T>)
  {
    /** The entry of `shell`: its own field first, then the fallback. Clink
        has no field of its own. */
    function ForShell(shell: Shell): Option<T> {
      match this
      case All(v) => Some(v)
      case ByShell(fallback, bash, zsh, pwsh, nu) =>
        var specific := match shell
          case Bash => bash
          case Zsh => zsh
          case Pwsh => pwsh
          case Nu => nu
          case Clink => None;
        if specific.Some? then specific else fallback
    }

    /** Every value present, in field order. */
    function AllValues(): seq<T> {
      match this
      case All(v) => [v]
      case ByShell(fallback, bash, zsh, pwsh, nu) =>
        Present(fallback) + Present(bash) + Present(zsh) + Present(pwsh) + Present(nu)
    }

    static function Present(value: Option<T>): seq<T> {
      if value.Some? then [value.value] else []
    }

    lemma ForShellIsAValue(shell: Shell)
      requires ForShell(shell).Some?
      ensures ForShell(shell).value in AllValues()
    {
    }
  }

  datatype MatchKind = Glob | Regex

  datatype Abbr = Abbr(
    key: string,
    expand: PerShell<string>,
    whenCommandExists: Option<PerShell<seq<string>>>,
    number: Option<string>,
    matchKind: Option<MatchKind>)

  /** The rules of a configuration, in file order. */
  type Config = seq<Abbr>

  /** `cursorOffset` is a byte position inside `text`. */
  datatype ExpandResult =
    | Expanded(text: string, cursorOffset: Option<nat>)
    | PassThrough(token: string)

  const CURSOR_PLACEHOLDER := "{}"
  const NUMBER_PLACEHOLDER := "{number}"
  const GLOB_CAPTURE_PLACEHOLDER := "{*}"

  const MAX_NUMERIC_REPEAT: nat := 128
  const MAX_RENDERED_EXPAND_BYTES: nat := 4096

  /** The regular-expression engine, as a caller sees it. `groupCount` is the
      result of compiling a key alone and wrapped as a whole-token pattern;
      `groupNames` the names of the groups of the wrapped pattern, from group
      1 on; `captures` the text of each group when the pattern matches the
      token. Counts and names depend on the key only. */
  datatype RegexEngine = RegexEngine(
    groupCount: string -> Result<nat, string>,
    groupNames: string -> Option<seq<Option<string>>>,
    captures: (string, string) -> Option<nat -> Option<string>>)
}
