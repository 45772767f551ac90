# Flag binder of `cli.go`, modelled in Dafny

This project models the flag-binding engine of a small Go command-line
package. It has two parts:

- **The registry builder `initFlagSet`.** It walks a configuration record's fields in declaration order:
  - an untagged field is skipped;
  - an empty-tagged struct field is flattened into the same registry;
  - a field the flag constructor ignores is dropped;
  - every other field becomes a flag. Its short and long names go into a name map, where a repeated name is an error;
  - a flag that already has a default records the default's string form under its first name.
- **The scanner `parse`.** It makes one left-to-right pass over the argument vector:
  - tokens without a leading `-` are skipped;
  - a dash token takes every non-dash token right after it as its values;
  - the token is split on `=`, and the parts after the first `=` come before the trailing values;
  - a known flag accepts at most one value;
  - an unknown `--name` is an error, while an unknown `-xyz` is read as a group of one-character short flags;
  - finally, every required flag that was never assigned is reported in one error, unless a help flag reads true.

Reflection is replaced by an explicit field tree (`Flags.Field`). The
package's helpers that live outside `cli.go` are capabilities passed in as
the `Flags.Coercer` datatype:
- `setter` is the flag's `set` method;
- `show` is the `%v` rendering of a value;
- `getBool` reads a flag as a boolean;
- `display` is `fl.name()`.

Every property below holds for every coercer.

The modules are:
- `Wrappers`: the `Option` and `Result` values that carry absence and failure;
- `Seqs`: a few slicing and concatenation facts the proofs share;
- `Strs`: the prefix tests, `strings.Split`/`Join` on one character, and their round trips;
- `Errors`: the error values, one constructor per `fmt.Errorf` site, and their texts without colour, which can be read back;
- `Flags`: tags, flags, the field tree and the registry with its invariants;
- `Builder`: `initFlagSet` and the theorem about what it builds;
- `Scanner`: `parse` as recursive functions;
- `ScanProps`: the scanner's tokenisation and matching theorems;
- `ScanLoop`: the scan written with the index loops of the Go code, proved equal to the recursive definition.

## Model

| member | source | states |
|---|---|---|
| Builder.BuildRegistry | cli.go:81-129 | The build from an empty registry succeeds exactly when no field in the flattened record is bad and no name is declared twice anywhere. On success the flags are the flattened record's flags in pre-order. Every name maps to the flag that declares it, and defaults are recorded under first names only. A reported repeat really occurs twice, and a reported tag error comes from a field of the record. |
| Builder.BuildFlattens | cli.go:87-111 | Building a record is the same as building its pre-order flattening: untagged and ignored fields contribute nothing, and a nested record is built in place into the same registry. |
| Builder.BuildConcat | cli.go:87-111 | Building two field lists one after the other is building the first and then continuing with the second from its result, so an error anywhere aborts everything after it. |
| Builder.BuildFlatOk | cli.go:103-126 | On a flat field list the build succeeds exactly when there is no bad tag and the declared names are distinct and not already taken. |
| Builder.BuildFlatAppends | cli.go:103-111 | A successful build of a flat field list appends exactly its flags to the registry, in declaration order. |
| Builder.BuildFlatFail | cli.go:103-123 | A failed flat build is a tag error for a bad field that is present, or a repeat of a name that is already taken or declared at least twice. |
| Builder.BuildSeeded | cli.go:112-126 | A successful build keeps the recorded values exactly the defaults: one entry per assigned flag that has a name, under its first name, holding `show` of its value. |
| Builder.Build | cli.go:87-128 | A successful build keeps the registry well formed and only appends flags. |
| Builder.AddFlag | cli.go:111-127 | Adding a flag succeeds exactly when its names are distinct and new. The flag is then appended, the index grows by exactly its names and stays well formed, and seeding is preserved. A failure reports the first of its names, in short-then-long order, that is already taken or repeats an earlier name of the tag. Every name before it is distinct and free. |
| Builder.Register | cli.go:117-126 | Registering a name list succeeds exactly when the names are distinct and none is already in the map. A failure reports the first name of the list that is already in the map or repeats an earlier name of the list; every name before it is distinct and free. |
| Builder.RegisterAdds | cli.go:117-126 | A successful registration adds exactly the given names, all pointing at the new flag, keeps every earlier entry, and touches the recorded values only to seed the first name of an assigned flag. |
| Flags.UniqueOwner | cli.go:117-123 | In a well-formed registry a name is declared by exactly one flag, the one the map points at. |
| Strs.SplitJoin | cli.go:152 | Splitting on `=` the join of pieces that contain no `=` gives the pieces back. |
| Strs.JoinSplit | cli.go:152 | Joining the pieces of a split gives the original token back. |
| Strs.SplitCount | cli.go:152-154 | A split has one piece more than the token has `=` characters, so it is never empty. |
| Scanner.ValueRunSpec | cli.go:143-150 | The values a dash token collects are exactly the non-dash tokens before the next dash token. |
| Scanner.Assign | cli.go:175-180 | Setting a flag fails exactly when its setter reports a fatal error, and then with that error. On success the flag becomes the setter's outcome. Its name then records `show` of the new value when there is no coercion error; with a coercion error the recorded values are unchanged. No other flag and no other name's recorded value changes, and the flag's names and the index are untouched. |
| Scanner.SetKnown | cli.go:185-202 | A known flag with more than one value fails with `too many(n)`, and only then. Otherwise its setter gets the one value, or the empty string. A fatal setter error is returned as is. A coercion error on a flag the setter marks assigned fails with `assigned argument`, naming the flag's display name and the cause. In every other case the flag becomes the setter's outcome, `show` of the new value is recorded when there is no coercion error, and no other flag changes. |
| Scanner.Group | cli.go:164-183 | A group of short flags never changes the registry's shape and records values only under known dash names. It fails only with a setter's fatal error or with `undefined flag -c`. In the latter case `c` is the first character of the group that is not a known short name, and every character before it is known. The first character's setter is called with the empty value, and a fatal error from it is returned. |
| Scanner.Step | cli.go:152-202 | Handling one flag token keeps the registry's shape and records values only under known dash names. |
| Scanner.Scan | cli.go:137-203 | The whole pass keeps the registry's shape and records values only under known dash names. |
| Scanner.MissingFrom | cli.go:205-213 | The reported positions are exactly the required flags that are not assigned, in increasing declaration order. |
| Scanner.AnyHelp | cli.go:214-219 | The help loop answers true exactly when some help flag reads true. |
| Scanner.Finish | cli.go:205-222 | The final check fails exactly when some required flag is unassigned and no help flag reads true. The error then lists the display names of all missing flags in declaration order. On success only the skip-validation mark changes, and it is set exactly when a help flag reads true. |
| Scanner.Parse | cli.go:131-222 | A build error or a fatal scan error is returned as is. Otherwise parsing succeeds exactly when no required flag is left unassigned or a help flag reads true. |
| Errors.Message | cli.go:103-221 | The required-argument text of cli.go:205-221 is empty exactly when no flag is missing. The texts of the flag constructor (cli.go:103-104) and of the setter (cli.go:175 and 188-190) are passed on unchanged. |
| Errors.MessageReadsBack | cli.go:120-211 | Each error text can be read back: the flag name sits after `flag `, `undefined flag ` or `assigned argument `; the cause of an invalid assignment ends the text; and the digits after `too many(` denote the count and are followed by `)`. |
| Errors.NatToString | cli.go:192 | The count is rendered as decimal digits with no leading zero, as `%d` prints it. |
| Errors.NatToStringValue | cli.go:192 | The rendered digits denote exactly the count. |
| Errors.RequiredMessageLines | cli.go:205-213 | The combined required-argument message has one `required argument N missing` line per missing flag, in order, when no name contains a newline. |
| ScanProps.ScanIsRun | cli.go:137-203 | The scan is tokenisation followed by handling each flag token with its values in order, stopping at the first fatal error. |
| ScanProps.TokenizeShape | cli.go:138-150 | Every token the scan handles starts with a dash, and none of its values does. |
| ScanProps.TokenizeCovers | cli.go:138-150 | Only the non-dash tokens in front of the first dash token are skipped. Every later argument belongs to exactly one flag token or its values, in order. |
| ScanProps.TokenizeRoundTrip | cli.go:138-150 | Tokenising the arguments that a well-shaped token list stands for gives that list back. |
| ScanProps.SkipLeadingValues | cli.go:139-142 | Non-dash tokens in front of the first dash token are never treated as flags and change nothing. |
| ScanProps.InlineValueIsFirstValue | cli.go:152-190 | For a flag name `--f` and a value `v` that hold no `=`, with `v` not starting with `-`, `--f=v` followed by anything is handled exactly as `--f v` followed by the same arguments. |
| ScanProps.TwoEqualsIsTwoValues | cli.go:152-193 | `--f=a=b` on a known flag, with no trailing values, carries two values and is rejected with `too many(2)`. |
| ScanProps.KnownFlagArity | cli.go:185-193 | A known flag is rejected with `too many(n)` exactly when its inline and trailing values number n > 1. Otherwise its setter gets the one value, or the empty string, and no other flag changes. |
| ScanProps.KnownFlagOutcome | cli.go:186-202 | After a known flag's setter: a fatal error aborts; no coercion error records the new string form under the name used; a coercion error aborts on an assigned flag and is otherwise kept while scanning goes on. |
| ScanProps.UnknownFlag | cli.go:158-166 | An unknown `--name` aborts with `undefined flag`. Any other unknown token is a group of its characters after the dash, with its values dropped. |
| ScanProps.LoneDashIsNoOp | cli.go:166-183 | A lone `-` that is not itself a name changes nothing. |
| ScanProps.GroupedShortFlags | cli.go:164-183 | `-abc` behaves as `-a -b -c` when it is not itself a name. The exception is a run where the separate flags would abort on an assigned flag's coercion error, which a group never reports. |
| ScanProps.ParseEmptyArgs | cli.go:131-222 | With no arguments, parsing succeeds exactly when the record builds and every required flag has a default or a help flag reads true. |
| ScanProps.HelpSuppressesRequired | cli.go:214-221 | A help flag that reads true after the scan makes parsing succeed with validation switched off, whatever required flags are missing. |
| ScanLoop.ScanArgs | cli.go:137-203 | The index loop, with its inner loop collecting values and its `i += len(values)` skip, computes exactly the recursive scan. |
| ScanLoop.StepToken | cli.go:152-202 | The straight-line handling of one token computes exactly the recursive step. |
| ScanLoop.SetGroup | cli.go:166-182 | The loop over a group's characters computes exactly the recursive group definition. |

## Left out

- `Run` (cli.go:13-23) reads the process arguments and prints. That is process wiring outside the binder.
- `usage` (cli.go:63-79) and colour are not modelled. Error texts (`Errors.Message`) are rendered without terminal colour.
- `parseArgv` (cli.go:43-61) checks that its argument refers to a struct and otherwise fails with `errNotAPointer` or `errNotPointToStruct`. That check and reflection are replaced by the explicit `Field` tree.
- `Root` and `Tree` (cli.go:25-37) are not modelled. They are plain constructors, and subcommand resolution is not part of this model.
- `parseTag`, `newFlag`, `set`, `getBool` and `name()` are defined in files that are not part of this model. They appear only as the field tree's cases and as the `Coercer` parameters, so their behaviour is not reconstructed.
- A field becomes `Nested` when it has an empty tag and a struct kind. That decision depends on reflection and is taken as given by the field tree.
- The `len(strs) == 0` branch at cli.go:153-154 is not modelled, because it cannot run. `Strs.SplitCount` shows that a split always has at least one piece.
- Go stores each recorded value as a one-element slice. The model stores the single string.
- Strings are sequences of characters, each standing for one byte of the Go string. The group loop of cli.go:166-167 iterates over bytes, so multi-byte characters are not modelled.
- In a successful parse, a coercion error on a flag that is not assigned stays on the flag and never surfaces in the result. The model keeps this as the code does.
- After a fatal scan error (the returns at cli.go:163, 172, 176, 195 and 201) the Go record and its recorded values keep every `set` made before the error, and `parseArgv` (cli.go:55-56) hands that state back. `Scanner.Scan` and `Scanner.Parse` return only the error, so that partial state is not modelled.
- A registry left half-built by a failed `initFlagSet` is not modelled: on failure the model returns only the error. The Go code returns at that point too, and never uses the partial registry.
- The combined required-argument text of `Errors.Message` is given as written. cli.go:221 passes it to `fmt.Errorf` as a format string, so a `%` inside a flag's display name would be reinterpreted there. That effect is not modelled.
