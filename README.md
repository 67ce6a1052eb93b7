# Command template resolver

This project models the template resolver of a small command-line task runner.
A script is defined by a name, an ordered list of declared argument names and a
shell-command template. In the template, each argument appears as `%name`. When
the script is invoked with positional values, the resolver works in two stages.

1. It checks the number of values. Too few is an error carrying the required and
   given counts. Too many prints a warning and the resolver carries on.
2. For each declared argument in order, it replaces every occurrence of `%name`
   in a working string, which starts as the template, with the matching value.
   If a replacement leaves the string unchanged, resolution fails and names
   that argument.

Two modules:

- `StrReplace` (`replace.dfy`) models Rust's `str::replace`. `ReplaceAll(s, pat, rep)`
  scans left to right and replaces non-overlapping matches. `Count` gives the
  number of matches that scan finds, left to right and without overlap. When a
  pattern overlaps itself, that can be fewer than the number of positions where
  it occurs. `Occurs` says whether the pattern appears at all. The lemmas
  give the length of the result, and the exact condition under which the string
  comes back unchanged.
- `CommandTemplate` (`command.dfy`) models `src/command.rs`:
  - the `Command` datatype, whose constructor plays the part of `Command::new`;
  - the `Outcome` datatype: `TooFew`, `SubstFailed` or `Ok`;
  - `Resolve`, the specification function, through `SubstituteFrom`;
  - `InsertArgs`, the imperative resolver, whose `while` loop keeps a working
    string just as the source's `for` loop does.

  The method is proved equal to `Resolve`. `Resolve` is then described a second
  time, without early exit, as a plain left fold: `Applied(c, values, n)` is the
  working string after `n` replacements, and `StepChanges` is the per-step
  "did it change" test. The lemmas connect the two descriptions.

Each error carries the command's name as well as its payload, because both of the
source's error messages name the command. The message wording is not modelled.

The source tests whether the replaced string equals the old one. It does not test
whether the placeholder occurs. The two tests differ when a value is exactly its
own placeholder, for example the value `%a` for argument `a`: the placeholder
occurs, yet the string does not change, so the source reports a failed
substitution. The model follows the source. `StepFailsIff` states the exact
condition, and `ExampleValueIsPlaceholder` shows this case.

Replacement is global. For a placeholder whose name contains no `%`, every
occurrence is replaced, wherever it stands (`EveryOccurrenceReplaced`). For a name
that does contain `%`, occurrences can overlap, and the leftmost one wins, as in
Rust: the pattern `%a%a` in `%a%a%a` gives `X%a` (`ExampleOverlappingPattern`).

Substitution is sequential and order-dependent. When a value contains the
placeholder of a later argument, that text is substituted again at the later
argument's turn. For example, template `%a` with declared `[a, b]` and values
`[%b, y]` resolves to `y` (`ExampleValueHoldsLaterPlaceholder`). The model
reproduces this behaviour and does not guard against it.

## Model

| member | source | states |
|---|---|---|
| `CommandTemplate.InsertArgs` | src/command.rs:40-84 | the resolver's outcome is `Resolve(c, values)`; on success its string is the fold `Applied` of all declared replacements; it warns exactly when more values than declared arguments were supplied |
| `CommandTemplate.ResolveOkIff` | src/command.rs:62-83 | success with `r` holds iff there are enough values, every replacement step changes the working string, and `r` is the left fold of the replacements of `%args[i]` by `values[i]`, taken in declared order from the template |
| `CommandTemplate.ResolveFailedIff` | src/command.rs:64-79 | a substitution failure naming `a` happens iff there are enough values and `a` is the argument at the first step whose replacement leaves the working string unchanged |
| `CommandTemplate.StepFailsIff` | src/command.rs:67-71 | a step leaves the working string unchanged iff its placeholder does not occur in it, or the value equals the placeholder |
| `CommandTemplate.MissingPlaceholderFails` | src/command.rs:67-79 | if every earlier step changed the string and the placeholder of argument `i` does not occur in it, resolution fails naming `args[i]` |
| `CommandTemplate.FailureStopsLaterArgs` | src/command.rs:71-79 | once step `i` fails, later argument names and values are never consulted: any command sharing the name, the template and the first `i + 1` names, given values that share the first `i + 1` entries, fails the same way |
| `CommandTemplate.TooFewIgnoresTemplate` | src/command.rs:44-53 | with fewer values than declared arguments, the outcome is the too-few error carrying both counts, whatever the template is |
| `CommandTemplate.ResolvePrefixOnly` | src/command.rs:64-65 | two value lists that agree on their first `|args|` entries, both long enough, give the same outcome |
| `CommandTemplate.ExtraValuesIgnored` | src/command.rs:54-61 | with surplus values, the warning branch does not stop resolution, and the outcome equals the one with the surplus dropped |
| `CommandTemplate.NoArgsKeepsTemplate` | src/command.rs:62-64 | a command with no declared arguments resolves to its template, and warns iff any values are given |
| `CommandTemplate.SubstituteFromFold` | src/command.rs:64-81 | the early-exit loop, run from a point the fold has reached, succeeds or fails exactly as the fold and its first unchanged step say, and never yields a count error |
| `CommandTemplate.ExampleTwoArgs` | src/command.rs:62-83 | declared `[a, b]`, template `%a-%b`, values `[x, y]` resolve to `x-y` |
| `CommandTemplate.ExampleRepeatedPlaceholder` | src/command.rs:68 | declared `[a]`, template `%a and %a again`, value `Z` resolve to `Z and Z again` |
| `CommandTemplate.ExampleTooMany` | src/command.rs:54-61 | declared `[a]`, template `%a`, values `[x, y]` resolve to `x` with a warning |
| `CommandTemplate.ExampleMissingPlaceholder` | src/command.rs:71-79 | a declared argument `c` absent from the template gives a substitution failure naming `c` |
| `CommandTemplate.ExampleValueHoldsLaterPlaceholder` | src/command.rs:64-81 | declared `[a, b]`, template `%a`, values `[%b, y]` resolve to `y`: the first value's `%b` is substituted at the second step |
| `CommandTemplate.ExampleTooFewBeforeSubstitution` | src/command.rs:44-53 | one declared argument, no values and a template with no placeholders give the too-few error, not a substitution failure |
| `CommandTemplate.ExampleValueIsPlaceholder` | src/command.rs:68-71 | the value `%a` for argument `a` leaves the template unchanged, so it is reported as a failed substitution |
| `StrReplace.ReplaceUnchangedIff` | src/command.rs:68 | a global replace returns its input unchanged iff the pattern does not occur, or the replacement is the pattern itself |
| `StrReplace.ReplaceAllLength` | src/command.rs:68 | the result's length is the input's length plus, for each match replaced, the replacement's length minus the pattern's |
| `StrReplace.CountPositiveIff` | src/command.rs:68 | the left-to-right scan replaces at least one match iff the pattern occurs somewhere in the string |
| `StrReplace.ReplaceWithItself` | src/command.rs:68 | replacing a pattern by itself returns the input |
| `StrReplace.ReplaceWithoutMatch` | src/command.rs:68 | when the scan finds no match, the replace returns its input |
| `StrReplace.EveryOccurrenceReplaced` | src/command.rs:68 | for a pattern that cannot overlap itself, an occurrence anywhere in `u + pat + w` is replaced by `rep`, with `u` and `w` each replaced on their own |
| `StrReplace.ReplaceConcat` | src/command.rs:68 | when `x` begins with a pattern that cannot overlap itself, replacing in `u + x` equals replacing in `u` and in `x` separately |
| `StrReplace.ExampleOverlappingPattern` | src/command.rs:68 | the self-overlapping pattern `%a%a` in `%a%a%a` is matched leftmost first, giving `X%a` |
| `StrReplace.ReplaceAfterPlain` | src/command.rs:68 | a prefix with no character that can begin the pattern is copied unchanged, and the rest is replaced on its own |

## Left out

- `Command::run` (src/command.rs:16-39) is left out. It spawns a shell process (`cmd /C` on Windows, `sh -c` elsewhere) and reports only whether the spawn succeeded. That is operating-system I/O with no logic beyond its error message.
- `src/help_page.rs` is left out. It is a static help text with no logic.
- The wording of the error and warning messages, and the printing of the warning, are left out. The model keeps each outcome's kind and its payload (command name, counts, argument name). It keeps the warning as the boolean `warned`.
- `StrReplace.ReplaceAll` requires a non-empty pattern. Rust's `str::replace` also accepts an empty pattern, but the resolver never passes one, because every placeholder starts with `%`.
- StrReplace.EveryOccurrenceReplaced: requires a pattern whose first character is not repeated later in it. Every placeholder of a name without `%` meets this. For other patterns, overlapping occurrences are not all replaced, as `ExampleOverlappingPattern` shows.
- Values are inserted verbatim, with no escaping or quoting, as in the source.
