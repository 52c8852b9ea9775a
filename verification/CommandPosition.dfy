/** Where the hook expands: command position and the token at the cursor, by
    the text around them. */
module CommandPosition {
  import opened Wrappers
  import opened Text
  import opened Model
  import opened Matching
  import opened Expand
  import opened Hook

  predicate AllSpaces(s: string) {
    forall c <- s :: c == ' '
  }

  predicate IsOperator(op: string) {
    op == "&&" || op == "||" || op == "|" || op == ";"
  }

  /** A list operator, then nothing but spaces. */
  ghost predicate EndsInOperator(s: string) {
    exists a, op, spaces :: s == a + op + spaces && IsOperator(op) && AllSpaces(spaces)
  }

  /** Nothing but spaces, or a list operator before them. */
  ghost predicate StartsCommand(s: string) {
    AllSpaces(s) || EndsInOperator(s)
  }

  // ----- trailing spaces -----

  lemma {:induction false} TrimmedOff(s: string) returns (spaces: string)
    ensures s == TrimTrailingSpaces(s) + spaces && AllSpaces(spaces)
    ensures var t := TrimTrailingSpaces(s); t == "" || t[|t| - 1] != ' '
  {
    if s != "" && s[|s| - 1] == ' ' {
      var init := s[..|s| - 1];
      var more := TrimmedOff(init);
      spaces := more + " ";
      assert s == init + " ";
    } else {
      spaces := "";
    }
  }

  /** The part before the trailing spaces is determined. */
  lemma {:induction false} TrimIs(a: string, spaces: string)
    requires AllSpaces(spaces) && (a == "" || a[|a| - 1] != ' ')
    ensures TrimTrailingSpaces(a + spaces) == a
  {
    if spaces == "" {
      assert a + spaces == a;
    } else {
      var n := |spaces| - 1;
      assert spaces[n] in spaces;
      assert (a + spaces)[..|a + spaces| - 1] == a + spaces[..n];
      assert forall c <- spaces[..n] :: c in spaces;
      TrimIs(a, spaces[..n]);
    }
  }

  lemma TrimmedNothing(s: string)
    ensures TrimTrailingSpaces(s) == "" <==> AllSpaces(s)
  {
    var spaces := TrimmedOff(s);
    if AllSpaces(s) {
      TrimIs("", s);
      assert "" + s == s;
    }
    if TrimTrailingSpaces(s) == "" {
      assert s == spaces;
    }
  }

  lemma EndsWithAfter(t: string, op: string)
    ensures EndsWith(t, op) <==> exists a :: t == a + op
  {
    if EndsWith(t, op) {
      assert t == t[..|t| - |op|] + op;
    }
    forall a | t == a + op ensures EndsWith(t, op) {
      assert t[|t| - |op|..] == op;
    }
  }

  /** A text that ends in an operator, in the program's terms. */
  lemma OperatorAtEnd(t: string)
    ensures EndsWithPipelineOperator(t) <==> exists op :: IsOperator(op) && exists a :: t == a + op
  {
    hide EndsWith;
    EndsWithAfter(t, "&&");
    EndsWithAfter(t, "||");
    EndsWithAfter(t, "|");
    EndsWithAfter(t, ";");
    if EndsWithPipelineOperator(t) {
      var op :=
        if EndsWith(t, "&&") then "&&" else if EndsWith(t, "||") then "||" else if EndsWith(t, "|") then "|" else ";";
      assert IsOperator(op) && exists a :: t == a + op;
    }
  }

  lemma OperatorBeforeSpaces(s: string)
    ensures EndsWithPipelineOperator(TrimTrailingSpaces(s)) <==> EndsInOperator(s)
  {
    hide TrimTrailingSpaces, EndsWithPipelineOperator;
    var t := TrimTrailingSpaces(s);
    var spaces := TrimmedOff(s);
    OperatorAtEnd(t);
    if EndsWithPipelineOperator(t) {
      var op :| IsOperator(op) && exists a :: t == a + op;
      var a :| t == a + op;
      assert s == a + op + spaces;
    }
    if EndsInOperator(s) {
      var a, op, rest :| s == a + op + rest && IsOperator(op) && AllSpaces(rest);
      assert (a + op)[|a + op| - 1] == op[|op| - 1] != ' ';
      TrimIs(a + op, rest);
      assert t == a + op;
    }
  }

  lemma StartsCommandIs(s: string)
    ensures StartsCommand(s) <==> TrimTrailingSpaces(s) == "" || EndsWithPipelineOperator(TrimTrailingSpaces(s))
  {
    hide TrimTrailingSpaces, EndsWithPipelineOperator, EndsInOperator;
    TrimmedNothing(s);
    OperatorBeforeSpaces(s);
  }

  // ----- the word `sudo` -----

  /** Empty, or ending in a space. */
  predicate EndsWord(s: string) {
    s == "" || s[|s| - 1] == ' '
  }

  lemma {:induction false} LastIndexOfIs(s: string, c: char, i: nat)
    requires i < |s| && s[i] == c && c !in s[i + 1..]
    ensures LastIndexOf(s, c) == Some(i)
  {
    if i + 1 < |s| {
      var init := s[..|s| - 1];
      assert s[|s| - 1] == s[i + 1..][|s| - i - 2];
      assert init[i + 1..] == s[i + 1..][..|s| - i - 2];
      LastIndexOfIs(init, c, i);
    }
  }

  /** The final word is `sudo` after some text. */
  lemma SudoStripped(t: string, before: string)
    ensures StripTrailingSudo(t) == Some(before) <==> t == before + "sudo" && EndsWord(before)
  {
    hide LastIndexOf;
    LastIndexOfIsLast(t, ' ');
    if t == before + "sudo" && EndsWord(before) {
      assert t[|before|..] == "sudo" && t[..|before|] == before;
      if before != "" {
        LastIndexOfIs(t, ' ', |before| - 1);
      } else {
        assert ' ' !in t;
        LastIndexAbsent(t);
      }
    }
    if StripTrailingSudo(t).Some? {
      var start := match LastIndexOf(t, ' ') case None => 0 case Some(i) => i + 1;
      assert t == t[..start] + t[start..];
    }
  }

  lemma LastIndexAbsent(t: string)
    requires ' ' !in t
    ensures LastIndexOf(t, ' ') == None
  {
    LastIndexInside(t, ' ');
  }

  lemma LastIndexInside(t: string, c: char)
    ensures LastIndexOf(t, c).Some? ==> c in t
  {
    if LastIndexOf(t, c).Some? {
      assert t[LastIndexOf(t, c).value] in t;
    }
  }

  /** A prefix is a command position exactly when, spaces at its end aside, it
      is empty, ends in `&&`, `||`, `|` or `;`, or ends in the word `sudo` after
      a text of one of these two kinds. */
  lemma CommandPositionExactly(prefix: string)
    ensures IsCommandPosition(prefix) <==>
      || StartsCommand(prefix)
      || exists before, spaces ::
           prefix == before + "sudo" + spaces && AllSpaces(spaces) && EndsWord(before) && StartsCommand(before)
  {
    hide TrimTrailingSpaces, EndsWithPipelineOperator, StripTrailingSudo, StartsCommand;
    StartsCommandIs(prefix);
    var t := TrimTrailingSpaces(prefix);
    var spaces := TrimmedOff(prefix);
    if StripTrailingSudo(t).Some? {
      var before := StripTrailingSudo(t).value;
      SudoStripped(t, before);
      StartsCommandIs(before);
      assert prefix == before + "sudo" + spaces;
    }
    forall before, rest |
      prefix == before + "sudo" + rest && AllSpaces(rest) && EndsWord(before) && StartsCommand(before)
      ensures IsCommandPosition(prefix)
    {
      TrimIs(before + "sudo", rest);
      SudoStripped(before + "sudo", before);
      StartsCommandIs(before);
    }
  }

  /** So an ordinary word is none: `echo ` before the token. */
  lemma WordIsNoCommandPosition()
    ensures !IsCommandPosition("echo ")
  {
    assert "echo " == "echo" + " ";
    TrimIs("echo", " ");
    var t := "echo";
    assert !EndsWithPipelineOperator(t) by {
      assert t[2..] == "ho" && t[3..] == "o";
    }
    LastIndexAbsent(t);
    assert t[0..] == "echo";
  }

  // ----- the whole decision -----

  /** The text between `start` and `i` is a token the hook may expand: a
      nonempty word that ends at the cursor, before a space or the end of the
      line, and stands in command position. */
  predicate TokenAt(line: string, start: nat, i: nat) {
    && start < i <= |line|
    && (i == |line| || line[i] == ' ')
    && (start == 0 || line[start - 1] == ' ')
    && ' ' !in line[start..i]
    && IsCommandPosition(line[..start])
  }

  lemma CandidateIsToken(line: string, i: nat, start: nat)
    requires i <= |line|
    ensures Candidate(line, i) == Some(start) <==> TokenAt(line, start, i)
  {
    hide IsCommandPosition, LastIndexOf;
    var left := line[..i];
    LastIndexOfIsLast(left, ' ');
    if Candidate(line, i) == Some(start) {
      assert left[start..] == line[start..i] && left[..start] == line[..start];
    }
    if TokenAt(line, start, i) {
      assert left[start..] == line[start..i] && left[..start] == line[..start];
      if start > 0 {
        LastIndexOfIs(left, ' ', start - 1);
      } else {
        assert left == line[0..i];
        LastIndexAbsent(left);
      }
    }
  }

  /** At a token the hook puts its expansion in place of it and types the
      trigger space, unless the expansion places the cursor; a token that does
      not expand gets one space after it. */
  lemma HookAtToken(
    re: RegexEngine, rules: Config, shell: Shell, line: string, start: nat, i: nat, commandExists: string -> bool)
    requires TokenAt(line, start, i)
    ensures HookAt(re, rules, shell, line, i, commandExists) ==
      match Lookup(re, rules, line[start..i], shell, commandExists).Expansion()
      case Expanded(text, Some(offset)) =>
        Replace(line[..start] + text + line[i..], ByteLen(line[..start]) + offset)
      case Expanded(text, None) =>
        Replace(line[..start] + text + " " + line[i..], ByteLen(line[..start]) + ByteLen(text) + 1)
      case PassThrough(_) =>
        InsertSpace(line[..i] + " " + line[i..], ByteLen(line[..i]) + 1)
  {
    hide TokenAt, Candidate, ByteLen, Lookup.Expansion;
    TokenWithin(line, start, i);
    CandidateIsToken(line, i, start);
  }

  /** Anywhere else it inserts one space at the cursor. */
  lemma HookWithoutToken(
    re: RegexEngine, rules: Config, shell: Shell, line: string, i: nat, commandExists: string -> bool)
    requires i <= |line| && forall start: nat :: !TokenAt(line, start, i)
    ensures HookAt(re, rules, shell, line, i, commandExists)
         == InsertSpace(line[..i] + " " + line[i..], ByteLen(line[..i]) + 1)
  {
    hide TokenAt, Candidate, ByteLen, Lookup.Expansion;
    if Candidate(line, i).Some? {
      CandidateIsToken(line, i, Candidate(line, i).value);
    }
  }

  /** So it replaces exactly when there is a token at the cursor that expands. */
  lemma HookReplacesExactly(
    re: RegexEngine, rules: Config, shell: Shell, line: string, i: nat, commandExists: string -> bool)
    requires i <= |line|
    ensures HookAt(re, rules, shell, line, i, commandExists).Replace? <==>
      exists start: nat :: TokenAt(line, start, i)
        && Lookup(re, rules, line[start..i], shell, commandExists).Expansion().Expanded?
  {
    hide HookAt, TokenAt, Lookup.Expansion, ByteLen;
    if exists start: nat :: TokenAt(line, start, i) {
      forall start: nat | TokenAt(line, start, i)
        ensures start < i && (HookAt(re, rules, shell, line, i, commandExists).Replace? <==>
          Lookup(re, rules, line[start..i], shell, commandExists).Expansion().Expanded?)
      {
        TokenWithin(line, start, i);
        HookAtToken(re, rules, shell, line, start, i, commandExists);
      }
    } else {
      HookWithoutToken(re, rules, shell, line, i, commandExists);
    }
  }

  lemma TokenWithin(line: string, start: nat, i: nat)
    requires TokenAt(line, start, i)
    ensures start < i <= |line|
  {
  }
}
