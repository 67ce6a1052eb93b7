/**
 * The template resolver of a command-line task runner: a command definition
 * declares positional argument names, its template refers to each of them as
 * `%name`, and resolving the command against the caller's values checks their
 * count and then substitutes the values, argument by argument, in declared order.
 */
module CommandTemplate {
  import opened StrReplace

  /** A script definition: its name (used in messages), its declared argument names, its template. */
  datatype Command = Command(name: string, args: seq<string>, cmd: string)

  /** What resolving a command yields: one of the two errors, or the resolved command string. */
  datatype Outcome =
    | TooFew(command: string, required: nat, given: nat)
    | SubstFailed(command: string, argName: string)
    | Ok(resolved: string)

  /** The token that stands for argument `name` in a template. */
  function Placeholder(name: string): string
  {
    "%" + name
  }

  /** More values than declared arguments: the resolver warns and carries on. */
  predicate Warns(c: Command, values: seq<string>)
  {
    |c.args| < |values|
  }

  /**
   * The substitution loop from argument `i` on, with `work` the string built so
   * far: replace every occurrence of argument i's placeholder by value i, stop
   * with an error if that changed nothing, otherwise go on with the next argument.
   */
  function SubstituteFrom(c: Command, values: seq<string>, i: nat, work: string): Outcome
    requires i <= |c.args| <= |values|
    decreases |c.args| - i
  {
    if i == |c.args| then Ok(work)
    else
      var next := ReplaceAll(work, Placeholder(c.args[i]), values[i]);
      if next == work then SubstFailed(c.name, c.args[i])
      else SubstituteFrom(c, values, i + 1, next)
  }

  /** Resolving `c` against `values`: the count check first, then the substitution loop from the template. */
  function Resolve(c: Command, values: seq<string>): Outcome
  {
    if |c.args| > |values| then TooFew(c.name, |c.args|, |values|)
    else SubstituteFrom(c, values, 0, c.cmd)
  }

  /**
   * The resolver itself: a working string that starts as the template and is
   * reassigned once per declared argument, with early returns on either error.
   * `warned` reports whether the extra-arguments warning is issued.
   */
  method InsertArgs(c: Command, values: seq<string>) returns (res: Outcome, warned: bool)
    ensures res == Resolve(c, values)
    ensures res.Ok? ==> res.resolved == Applied(c, values, |c.args|)
    ensures warned <==> Warns(c, values)
  {
    if |c.args| > |values| {
      return TooFew(c.name, |c.args|, |values|), false;
    }
    warned := |c.args| < |values|;
    var work := c.cmd;
    var i := 0;
    while i < |c.args|
      invariant i <= |c.args|
      invariant work == Applied(c, values, i)
      invariant SubstituteFrom(c, values, i, work) == Resolve(c, values)
    {
      var arg := c.args[i];
      var next := ReplaceAll(work, "%" + arg, values[i]);
      if next == work {
        return SubstFailed(c.name, arg), warned;
      }
      work := next;
      i := i + 1;
    }
    return Ok(work), warned;
  }

  // ---------------------------------------------------------------------------
  // A reference description of the result: the plain left fold of replacements
  // and the per-step "did it change" test, with no early exit.

  /** The working string after the first `n` declared arguments are replaced, in order. */
  function Applied(c: Command, values: seq<string>, n: nat): string
    requires n <= |c.args| <= |values|
  {
    if n == 0 then c.cmd
    else ReplaceAll(Applied(c, values, n - 1), Placeholder(c.args[n - 1]), values[n - 1])
  }

  /** Step `i` of the fold changes the working string. */
  predicate StepChanges(c: Command, values: seq<string>, i: nat)
    requires i < |c.args| <= |values|
  {
    ReplaceAll(Applied(c, values, i), Placeholder(c.args[i]), values[i]) != Applied(c, values, i)
  }

  /** Every step before `n` changes the working string. */
  predicate ChangesBefore(c: Command, values: seq<string>, n: nat)
    requires n <= |c.args| <= |values|
  {
    forall j :: 0 <= j < n ==> StepChanges(c, values, j)
  }

  /** Step `i` is the first one that leaves the working string unchanged. */
  predicate FirstFailure(c: Command, values: seq<string>, i: nat)
    requires |c.args| <= |values|
  {
    i < |c.args| && ChangesBefore(c, values, i) && !StepChanges(c, values, i)
  }

  /** The loop from a point reached by the fold succeeds or fails exactly as the fold says. */
  lemma {:induction false} SubstituteFromFold(c: Command, values: seq<string>, i: nat)
    requires i <= |c.args| <= |values|
    requires ChangesBefore(c, values, i)
    ensures var o := SubstituteFrom(c, values, i, Applied(c, values, i));
      && (o.Ok? <==> ChangesBefore(c, values, |c.args|))
      && (o.Ok? ==> o.resolved == Applied(c, values, |c.args|))
      && (o.SubstFailed? ==> exists k: nat :: i <= k && FirstFailure(c, values, k)
                                         && o == SubstFailed(c.name, c.args[k]))
      && !o.TooFew?
    decreases |c.args| - i
  {
    if i < |c.args| {
      if StepChanges(c, values, i) {
        assert ChangesBefore(c, values, i + 1);
        SubstituteFromFold(c, values, i + 1);
      } else {
        assert FirstFailure(c, values, i);
      }
    }
  }

  /** The first failing step of the fold is unique. */
  lemma FirstFailureUnique(c: Command, values: seq<string>, i: nat, k: nat)
    requires |c.args| <= |values|
    requires FirstFailure(c, values, i) && FirstFailure(c, values, k)
    ensures i == k
  {
  }

  /**
   * Success: the values suffice, every placeholder replacement changes the
   * working string, and the result is the left fold of the replacements over
   * the declared arguments, starting from the template.
   */
  lemma ResolveOkIff(c: Command, values: seq<string>, r: string)
    ensures Resolve(c, values) == Ok(r) <==>
      && |c.args| <= |values|
      && ChangesBefore(c, values, |c.args|)
      && r == Applied(c, values, |c.args|)
  {
    if |c.args| <= |values| {
      SubstituteFromFold(c, values, 0);
    }
  }

  /**
   * Substitution failure: the values suffice and the failing argument is the
   * one at the first step whose replacement leaves the working string unchanged.
   */
  lemma ResolveFailedIff(c: Command, values: seq<string>, name: string, a: string)
    ensures Resolve(c, values) == SubstFailed(name, a) <==>
      && |c.args| <= |values|
      && name == c.name
      && exists i: nat :: FirstFailure(c, values, i) && a == c.args[i]
  {
    if |c.args| <= |values| {
      SubstituteFromFold(c, values, 0);
      var o := Resolve(c, values);
      if exists i: nat :: FirstFailure(c, values, i) && a == c.args[i] {
        var i: nat :| FirstFailure(c, values, i) && a == c.args[i];
        assert !ChangesBefore(c, values, |c.args|);
        assert o.SubstFailed?;
        var k: nat :| FirstFailure(c, values, k) && o == SubstFailed(c.name, c.args[k]);
        FirstFailureUnique(c, values, i, k);
      }
    }
  }

  /**
   * Step `i` fails exactly when the placeholder no longer occurs in the working
   * string, or the value is the placeholder itself.
   */
  lemma StepFailsIff(c: Command, values: seq<string>, i: nat)
    requires i < |c.args| <= |values|
    ensures !StepChanges(c, values, i) <==>
      !Occurs(Applied(c, values, i), Placeholder(c.args[i])) || values[i] == Placeholder(c.args[i])
  {
    ReplaceUnchangedIff(Applied(c, values, i), Placeholder(c.args[i]), values[i]);
  }

  /**
   * A placeholder missing from the working string at step `i`, after every
   * earlier step changed it, makes the whole resolution fail naming `args[i]`.
   */
  lemma MissingPlaceholderFails(c: Command, values: seq<string>, i: nat)
    requires i < |c.args| <= |values|
    requires ChangesBefore(c, values, i)
    requires !Occurs(Applied(c, values, i), Placeholder(c.args[i]))
    ensures Resolve(c, values) == SubstFailed(c.name, c.args[i])
  {
    StepFailsIff(c, values, i);
    assert FirstFailure(c, values, i);
    ResolveFailedIff(c, values, c.name, c.args[i]);
  }

  /** Too few values: the count error, carrying both counts, whatever the template holds. */
  lemma TooFewIgnoresTemplate(c: Command, values: seq<string>, other: string)
    requires |c.args| > |values|
    ensures Resolve(c, values) == TooFew(c.name, |c.args|, |values|)
    ensures Resolve(c.(cmd := other), values) == Resolve(c, values)
  {
  }

  /** The working string depends only on the template and the first `n` names and values. */
  lemma {:induction false} AppliedPrefix(c: Command, values: seq<string>, d: Command, others: seq<string>, n: nat)
    requires n <= |c.args| <= |values| && n <= |d.args| <= |others|
    requires c.cmd == d.cmd && c.args[..n] == d.args[..n] && values[..n] == others[..n]
    ensures Applied(c, values, n) == Applied(d, others, n)
  {
    if n > 0 {
      assert c.args[..n - 1] == d.args[..n - 1] && values[..n - 1] == others[..n - 1];
      AppliedPrefix(c, values, d, others, n - 1);
      assert c.args[n - 1] == c.args[..n][n - 1] && d.args[n - 1] == d.args[..n][n - 1];
      assert values[n - 1] == values[..n][n - 1] && others[n - 1] == others[..n][n - 1];
    }
  }

  /** Values beyond the declared arguments are never consulted. */
  lemma {:induction false} SubstituteFromPrefix(c: Command, values: seq<string>, others: seq<string>, i: nat, work: string)
    requires i <= |c.args| <= |values| && |c.args| <= |others|
    requires values[..|c.args|] == others[..|c.args|]
    ensures SubstituteFrom(c, values, i, work) == SubstituteFrom(c, others, i, work)
    decreases |c.args| - i
  {
    if i < |c.args| {
      assert values[i] == values[..|c.args|][i] && others[i] == others[..|c.args|][i];
      SubstituteFromPrefix(c, values, others, i + 1, ReplaceAll(work, Placeholder(c.args[i]), values[i]));
    }
  }

  /** Two value lists that agree on the first |args| entries resolve alike. */
  lemma ResolvePrefixOnly(c: Command, values: seq<string>, others: seq<string>)
    requires |c.args| <= |values| && |c.args| <= |others|
    requires values[..|c.args|] == others[..|c.args|]
    ensures Resolve(c, values) == Resolve(c, others)
  {
    SubstituteFromPrefix(c, values, others, 0, c.cmd);
  }

  /** Extra values raise the warning but resolution goes on, exactly as with the surplus dropped. */
  lemma ExtraValuesIgnored(c: Command, values: seq<string>)
    requires Warns(c, values)
    ensures !Resolve(c, values).TooFew?
    ensures Resolve(c, values) == Resolve(c, values[..|c.args|])
  {
    SubstituteFromFold(c, values, 0);
    assert values[..|c.args|][..|c.args|] == values[..|c.args|];
    ResolvePrefixOnly(c, values, values[..|c.args|]);
  }

  /**
   * Once step `i` fails, nothing after it is processed: any command with the
   * same name, template and first i + 1 argument names, given values that agree
   * on the first i + 1 entries, fails the same way.
   */
  lemma FailureStopsLaterArgs(c: Command, values: seq<string>, i: nat, d: Command, others: seq<string>)
    requires |c.args| <= |values| && FirstFailure(c, values, i)
    requires i < |d.args| <= |others|
    requires d.name == c.name && d.cmd == c.cmd
    requires d.args[..i + 1] == c.args[..i + 1] && others[..i + 1] == values[..i + 1]
    ensures Resolve(d, others) == SubstFailed(c.name, c.args[i])
  {
    forall j | 0 <= j <= i
      ensures Applied(d, others, j) == Applied(c, values, j)
      ensures d.args[j] == c.args[j] && others[j] == values[j]
    {
      assert d.args[..j] == d.args[..i + 1][..j] && c.args[..j] == c.args[..i + 1][..j];
      assert others[..j] == others[..i + 1][..j] && values[..j] == values[..i + 1][..j];
      AppliedPrefix(c, values, d, others, j);
      assert d.args[j] == d.args[..i + 1][j] && c.args[j] == c.args[..i + 1][j];
      assert others[j] == others[..i + 1][j] && values[j] == values[..i + 1][j];
    }
    assert forall j :: 0 <= j <= i ==> (StepChanges(d, others, j) <==> StepChanges(c, values, j));
    assert FirstFailure(d, others, i);
    ResolveFailedIff(d, others, c.name, c.args[i]);
  }

  /** No declared arguments: the template comes back unchanged, whatever values are given. */
  lemma NoArgsKeepsTemplate(name: string, cmd: string, values: seq<string>)
    ensures Resolve(Command(name, [], cmd), values) == Ok(cmd)
    ensures Warns(Command(name, [], cmd), values) <==> |values| > 0
  {
  }

  // ---------------------------------------------------------------------------
  // Worked cases.

  /** The strings of the two-argument case, cut at the placeholders. */
  lemma TwoArgsParts()
    ensures "%a-%b" == "%a" + "-%b"
    ensures "x-%b" == "x" + "-%b" == "x-" + ("%b" + "")
    ensures "x-y" == "x-" + ("y" + "")
    ensures "%a"[1] == 'a' && |"-%b"| == 3 && "-%b"[0] == '-' && "-%b"[1] == '%' && "-%b"[2] == 'b'
  {
  }

  /** Both placeholders substituted, in declared order. */
  lemma ExampleTwoArgs()
    ensures Resolve(Command("t", ["a", "b"], "%a-%b"), ["x", "y"]) == Ok("x-y")
  {
    var c, v := Command("t", ["a", "b"], "%a-%b"), ["x", "y"];
    TwoArgsParts();
    AbsentCharNoOccurrence("-%b", "%a", 1);
    ReplaceUnchangedIff("-%b", "%a", "x");
    ReplaceAfterMatch("-%b", "%a", "x");
    var w := ReplaceAll(c.cmd, "%a", "x");
    assert w == "x-%b";
    ReplaceAfterPlain("x-", "%b" + "", "%b", "y");
    ReplaceAfterMatch("", "%b", "y");
    assert ReplaceAll(w, "%b", "y") == "x-y";
    assert Placeholder(c.args[0]) == "%a" && Placeholder(c.args[1]) == "%b";
    assert Resolve(c, v) == SubstituteFrom(c, v, 0, c.cmd);
    assert SubstituteFrom(c, v, 0, c.cmd) == SubstituteFrom(c, v, 1, w);
    assert SubstituteFrom(c, v, 1, w) == SubstituteFrom(c, v, 2, "x-y");
  }

  /** The template and the expected result of the repeated-placeholder case, cut at the placeholders. */
  lemma RepeatedPlaceholderParts()
    ensures "%a and %a again" == "%a" + (" and " + ("%a" + " again"))
    ensures "Z and Z again" == "Z" + (" and " + ("Z" + " again"))
  {
    assert "%a" + " again" == "%a again";
    assert " and " + "%a again" == " and %a again";
    assert "Z" + " again" == "Z again";
    assert " and " + "Z again" == " and Z again";
  }

  /** A placeholder used twice is substituted at both occurrences. */
  lemma ExampleRepeatedPlaceholder()
    ensures Resolve(Command("t", ["a"], "%a and %a again"), ["Z"]) == Ok("Z and Z again")
  {
    var c, v := Command("t", ["a"], "%a and %a again"), ["Z"];
    RepeatedPlaceholderParts();
    ReplaceTwoMatches("%a", "Z", " and ", " again");
    assert ReplaceAll(c.cmd, "%a", "Z") == "Z and Z again";
    assert Placeholder(c.args[0]) == "%a";
    assert Resolve(c, v) == SubstituteFrom(c, v, 0, c.cmd);
    assert SubstituteFrom(c, v, 0, c.cmd) == SubstituteFrom(c, v, 1, "Z and Z again");
  }

  /** One value too many: a warning, and the resolved string, not an error. */
  lemma ExampleTooMany()
    ensures Resolve(Command("t", ["a"], "%a"), ["x", "y"]) == Ok("x")
    ensures Warns(Command("t", ["a"], "%a"), ["x", "y"])
  {
    var c, v := Command("t", ["a"], "%a"), ["x", "y"];
    assert Placeholder(c.args[0]) == "%a";
    assert c.cmd == "%a" + "";
    ReplaceAfterMatch("", "%a", "x");
    assert ReplaceAll(c.cmd, "%a", "x") == "x";
    assert Resolve(c, v) == SubstituteFrom(c, v, 0, c.cmd);
    assert SubstituteFrom(c, v, 0, c.cmd) == SubstituteFrom(c, v, 1, "x");
  }

  /** A declared argument absent from the template. */
  lemma ExampleMissingPlaceholder()
    ensures Resolve(Command("t", ["c"], "ls %a"), ["v"]) == SubstFailed("t", "c")
  {
    var c, v := Command("t", ["c"], "ls %a"), ["v"];
    assert Placeholder(c.args[0]) == "%c";
    assert "%c"[1] == 'c';
    AbsentCharNoOccurrence(c.cmd, "%c", 1);
    ReplaceUnchangedIff(c.cmd, "%c", "v");
    assert Resolve(c, v) == SubstituteFrom(c, v, 0, c.cmd);
  }

  /**
   * Substitution is sequential: a value holding a later argument's placeholder
   * is itself substituted when that argument's turn comes.
   */
  lemma ExampleValueHoldsLaterPlaceholder()
    ensures Resolve(Command("t", ["a", "b"], "%a"), ["%b", "y"]) == Ok("y")
  {
    var c, v := Command("t", ["a", "b"], "%a"), ["%b", "y"];
    assert "%a" == "%a" + "" && "%b" == "%b" + "" && "y" == "y" + "";
    ReplaceAfterMatch("", "%a", "%b");
    ReplaceAfterMatch("", "%b", "y");
    assert Placeholder(c.args[0]) == "%a" && Placeholder(c.args[1]) == "%b";
    assert Resolve(c, v) == SubstituteFrom(c, v, 0, c.cmd);
    assert SubstituteFrom(c, v, 0, c.cmd) == SubstituteFrom(c, v, 1, "%b");
    assert SubstituteFrom(c, v, 1, "%b") == SubstituteFrom(c, v, 2, "y");
  }

  /** The count check comes first: a template without placeholders still yields the count error. */
  lemma ExampleTooFewBeforeSubstitution()
    ensures Resolve(Command("t", ["a"], "echo"), []) == TooFew("t", 1, 0)
  {
  }

  /** A value equal to its own placeholder leaves the string unchanged, so it reports a failed substitution. */
  lemma ExampleValueIsPlaceholder()
    ensures Resolve(Command("t", ["a"], "echo %a"), ["%a"]) == SubstFailed("t", "a")
  {
    var c := Command("t", ["a"], "echo %a");
    assert Placeholder(c.args[0]) == "%a";
    ReplaceWithItself(c.cmd, "%a");
    assert Resolve(c, ["%a"]) == SubstituteFrom(c, ["%a"], 0, c.cmd);
  }
}
