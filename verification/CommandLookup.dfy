/** The memoised check whether a command exists. */
module CommandLookup {
  import opened Wrappers

  /** The environment of one run, which does not change while it lasts:
      `isFile` says whether the prepended directory holds a file of that name,
      `onPath` whether a live lookup finds the command. */
  datatype Environment = Environment(
    windows: bool,
    isFile: Option<string -> bool>,
    hint: Option<map<string, bool>>,
    onPath: string -> bool)
  {
    predicate HasSeparator(cmd: string) {
      '/' in cmd || '\\' in cmd || ':' in cmd
    }

    predicate Hinted(cmd: string) {
      hint.Some? && cmd in hint.value && hint.value[cmd]
    }

    predicate InPrepended(cmd: string) {
      isFile.Some? && (isFile.value(cmd) || (windows && isFile.value(cmd + ".exe")))
    }

    /** The answer without any memory. */
    predicate Answer(cmd: string) {
      !HasSeparator(cmd) && (Hinted(cmd) || InPrepended(cmd) || onPath(cmd))
    }
  }

  predicate NoRepeats(s: seq<string>) {
    forall i, j :: 0 <= i < j < |s| ==> s[i] != s[j]
  }

  /** One closure with the memo it captures. `liveCalls` records the live
      lookups it has made. */
  class CommandExists {
    const env: Environment
    var cache: map<string, bool>
    ghost var liveCalls: seq<string>

    /** The memo holds right answers, and a live lookup is made for a command
        only before its answer is in the memo. */
    ghost predicate Valid()
      reads this
    {
      && (forall c <- cache :: !env.HasSeparator(c) && cache[c] == env.Answer(c))
      && (forall c <- liveCalls :: c in cache)
      && NoRepeats(liveCalls)
    }

    constructor (env: Environment)
      ensures this.env == env && Valid() && cache == map[] && liveCalls == []
    {
      this.env := env;
      cache := map[];
      liveCalls := [];
    }

    /** Everything a call may do: answer as without memory, and look a command
        up live at most once, and only when nothing nearer answers. */
    twostate predicate AnsweredOnce(cmd: string, found: bool)
      reads this
    {
      && found == env.Answer(cmd)
      && (if !env.HasSeparator(cmd) && cmd !in old(cache) && !env.Hinted(cmd) && !env.InPrepended(cmd)
          then liveCalls == old(liveCalls) + [cmd]
          else liveCalls == old(liveCalls))
      && cache == (if env.HasSeparator(cmd) then old(cache) else old(cache)[cmd := env.Answer(cmd)])
    }

    method LiveCheck(cmd: string) returns (found: bool)
      modifies this`liveCalls
      ensures found == env.onPath(cmd) && liveCalls == old(liveCalls) + [cmd]
    {
      liveCalls := liveCalls + [cmd];
      found := env.onPath(cmd);
    }

    /** The borrowing factory's closure. */
    method Exists(cmd: string) returns (found: bool)
      requires Valid()
      modifies this
      ensures Valid() && AnsweredOnce(cmd, found)
      ensures '/' in cmd || '\\' in cmd || ':' in cmd ==> !found && liveCalls == old(liveCalls)
    {
      if env.HasSeparator(cmd) {
        return false;
      }
      if cmd in cache {
        return cache[cmd];
      }
      if env.hint.Some? && cmd in env.hint.value && env.hint.value[cmd] {
        cache := cache[cmd := true];
        return true;
      }
      if env.isFile.Some? {
        if env.isFile.value(cmd) {
          found := true;
        } else if env.windows {
          if env.isFile.value(cmd + ".exe") {
            found := true;
          } else {
            found := LiveCheck(cmd);
          }
        } else {
          found := LiveCheck(cmd);
        }
      } else {
        found := LiveCheck(cmd);
      }
      cache := cache[cmd := found];
    }

    /** The owning factory's closure. */
    method ExistsOwned(cmd: string) returns (found: bool)
      requires Valid()
      modifies this
      ensures Valid() && AnsweredOnce(cmd, found)
      ensures '/' in cmd || '\\' in cmd || ':' in cmd ==> !found && liveCalls == old(liveCalls)
    {
      if env.HasSeparator(cmd) {
        return false;
      }
      if cmd in cache {
        return cache[cmd];
      }
      if env.hint.Some? && cmd in env.hint.value && env.hint.value[cmd] {
        cache := cache[cmd := true];
        return true;
      }
      if env.isFile.Some? {
        var direct := if env.windows then env.isFile.value(cmd) || env.isFile.value(cmd + ".exe")
                      else env.isFile.value(cmd);
        if direct {
          found := true;
        } else {
          found := LiveCheck(cmd);
        }
      } else {
        found := LiveCheck(cmd);
      }
      cache := cache[cmd := found];
    }
  }

  /** The answer, character by character: a name with a slash, a backslash or a
      colon is refused; any other is there if the hint says so, if the prepended
      directory has a file of that name, on Windows also with `.exe`, or if a
      live lookup finds it. */
  lemma AnswerIs(env: Environment, cmd: string)
    ensures env.Answer(cmd) <==>
      && (forall c <- cmd :: c != '/' && c != '\\' && c != ':')
      && (|| (env.hint.Some? && (cmd, true) in env.hint.value.Items)
          || (env.isFile.Some? && exists name ::
                (name == cmd || (env.windows && name == cmd + ".exe")) && env.isFile.value(name))
          || env.onPath(cmd))
  {
    if env.hint.Some? && cmd in env.hint.value {
      assert (cmd, env.hint.value[cmd]) in env.hint.value.Items;
    }
    if env.InPrepended(cmd) {
      var name := if env.isFile.value(cmd) then cmd else cmd + ".exe";
      assert env.isFile.value(name);
    }
  }

  /** Any sequence of calls, each through either closure form: every answer is
      the one without memory, and no command is looked up live twice. */
  method RunCalls(env: Environment, calls: seq<(string, bool)>)
    returns (answers: seq<bool>, ghost liveCalls: seq<string>)
    ensures |answers| == |calls|
    ensures forall i :: 0 <= i < |calls| ==> answers[i] == env.Answer(calls[i].0)
    ensures forall i :: 0 <= i < |calls| && answers[i] ==>
      '/' !in calls[i].0 && '\\' !in calls[i].0 && ':' !in calls[i].0
    ensures NoRepeats(liveCalls)
    ensures forall c <- liveCalls ::
      !env.Hinted(c) && !env.InPrepended(c) && exists i :: 0 <= i < |calls| && calls[i].0 == c
  {
    var exists_ := new CommandExists(env);
    answers := [];
    for k := 0 to |calls|
      invariant fresh(exists_) && exists_.env == env && exists_.Valid()
      invariant |answers| == k && forall i :: 0 <= i < k ==> answers[i] == env.Answer(calls[i].0)
      invariant forall c <- exists_.liveCalls ::
        !env.Hinted(c) && !env.InPrepended(c) && exists i :: 0 <= i < k && calls[i].0 == c
    {
      var found: bool;
      if calls[k].1 {
        found := exists_.ExistsOwned(calls[k].0);
      } else {
        found := exists_.Exists(calls[k].0);
      }
      answers := answers + [found];
    }
    liveCalls := exists_.liveCalls;
  }
}
