# template_rs_cli — command-line core, modelled in Dafny

`template_rs_cli` is a command-line front end for a text-template engine. It has
four subcommands: `New`, `Render`, `Execute` and `Assemble`. The template engine
itself (`Template`, `TemplateRef`, `TemplateAssembler`) belongs to the
`rust_templates` library and is not part of this model. This model covers the
decision procedures in `src/main.rs` that the command line runs itself:

- **`parse_key_values`** (`key_values.dfy`, module `KeyValues`) turns the
  `key=value` arguments into a map. Each argument is split at its first `=`.
  An argument with no `=` is dropped. Pairs are inserted in input order, so a
  later duplicate key overwrites an earlier one. The model is a left fold
  (`FoldPairs`) of one insertion step over the arguments, starting from the
  empty map. The Rust `filter_map` and `collect` stages are fused into that one
  step.
- **Content selection of `New`** (`content_source.dfy`, module
  `ContentSource`) decides where the new template's text comes from. Exactly
  one of the literal `--content` and the `--file` must be given. Giving neither,
  or giving both, produces a different `Parse` error for each case. The file
  read is a function parameter. `NewCommand` yields the file write that the
  command would perform.
- **`apply_template_values`** (`template_values.dfy`, module `TemplateValues`)
  is a loop that calls the template's `set` once per map entry and stops at the
  first failure. The loop is a method, `ApplyTemplateValues`, proved against
  the specification function `AfterCalls`. `AfterCalls` gives the template's
  state after the first `n` calls, or the first error among them. The engine's
  `set` is an abstract parameter `setValue`: a template state, a name and a
  value go in, and either a next state or an error comes out. The `HashMap`'s
  iteration order is unspecified, so the loop takes `order`, which is any
  sequence listing each key exactly once. The `Assemble` loop over
  `set_global` (`src/main.rs:159-161`) has the same shape, with `setValue`
  standing for `set_global` and the state for the assembler.
- **Parsing, then setting** (`commands.dfy`, module `Commands`) is the
  `Render` and `Execute` step that parses the arguments and then applies them.
  Every `set` call receives the key and value of the last argument that
  carries that key, and the template that the following `render()` uses is the
  one those calls produce.

`wrappers.dfy` holds the `Option`, `Result` and `Outcome` datatypes.

## Model

| member | source | states |
|---|---|---|
| KeyValues.FindSeparator | src/main.rs:82 | Returns the index of the first `=`, or None exactly when the string has no `=`; no `=` comes before the index returned |
| KeyValues.SplitPair | src/main.rs:82-86 | `splitn(2,'=')` with its match: Some exactly when the argument holds `=`; then argument == key + "=" + value and the key has no `=` |
| KeyValues.KeyOf | src/main.rs:82-85 | An argument contributes a key exactly when it holds `=`; that key is a proper prefix of the argument and has no `=` |
| KeyValues.Step | src/main.rs:81-88 | One argument's insert: no `=` leaves the map unchanged; otherwise its key is bound to its value (overwriting), the key set grows by that key only, and every other binding is kept |
| KeyValues.FoldPairs | src/main.rs:80-88 | The collected map keeps every key of the starting map; it gains at most one key per argument; every key it adds has no `=` |
| KeyValues.ParseKeyValues | src/main.rs:79-89 | The result has at most as many keys as there are arguments (so no arguments give the empty map), and no key holds `=` |
| KeyValues.SeparatorAfterKey | src/main.rs:82 | In key + "=" + value, where the key has no `=`, the first `=` is at position \|key\| |
| KeyValues.SplitJoin | src/main.rs:82-84 | Round trip: splitting key + "=" + value gives back (key, value) whenever the key has no `=`, even if the value holds further `=` |
| KeyValues.EmptyKeyKept | src/main.rs:82-84 | `"=v"` splits to the empty key and value `v` |
| KeyValues.EmptyValueKept | src/main.rs:82-84 | `"k="` splits to key `k` and the empty value |
| KeyValues.FoldAppend | src/main.rs:80-88 | Collecting a concatenation is the same as collecting the first part, then continuing with the second |
| KeyValues.ParseSnoc | src/main.rs:80-88 | Parsing one more argument applies exactly one more insertion step to the map parsed so far |
| KeyValues.ParseSnocBinds | src/main.rs:84-88 | Parsing one more argument that splits to (k, v) gives the earlier map with k bound to v |
| KeyValues.DropUnseparated | src/main.rs:82-85 | An argument without `=` contributes nothing: removing it from any position leaves the result unchanged |
| KeyValues.ParseKeys | src/main.rs:80-88 | A string is a key of the result if and only if it is the before-first-`=` prefix of some argument holding `=` |
| KeyValues.ParseLastWins | src/main.rs:88 | If an argument's key is not repeated by any later argument, the result maps that key to that argument's value (a later duplicate overwrites) |
| KeyValues.ParseValueFromLast | src/main.rs:80-88 | Every entry of the result comes from an argument that splits to exactly that key and value, and no later argument carries the key |
| KeyValues.ValueKeepsSeparators | src/main.rs:82 | `["a=b=c"]` parses to `{"a": "b=c"}`: only the first `=` separates |
| KeyValues.ParseOverwriteExample | src/main.rs:82-88 | `["x=1","flag","x=2"]` parses to `{"x":"2"}` |
| KeyValues.ParseExample | src/main.rs:79-89 | `["x=1","flag","x=2","=e","k="]` parses to `{"x":"2","":"e","k":""}` |
| ContentSource.SelectContent | src/main.rs:104-113 | Result is a Parse error if and only if content and file are both given or both missing, with the source's two messages; a literal is returned unchanged; a file's text or its read error is passed through |
| ContentSource.NewCommand | src/main.rs:103-116 | The output file is written only when selection succeeds, and then with exactly the selected text; otherwise the selection error is returned |
| ContentSource.SucceedsIffExactlyOne | src/main.rs:104-113 | When the file can be read, selection succeeds if and only if exactly one source is given |
| ContentSource.LiteralIgnoresReader | src/main.rs:105 | With only a literal given, the outcome does not depend on the file system |
| TemplateValues.AfterCalls | src/main.rs:93-96 | Reference meaning of the `for … set(…)?` loop after n entries: no call leaves the template as it was, and an error only comes from a call that was made |
| TemplateValues.IterationVisitsEachOnce | src/main.rs:93 | An iteration order of the map visits exactly as many entries as the map holds |
| TemplateValues.DistinctCardinality | src/main.rs:93 | A key sequence without repetitions has as many distinct keys as entries |
| TemplateValues.ApplyTemplateValues | src/main.rs:92-97 | Makes at most one call per entry. On Ok, every entry was set in order and the final state is the one all those calls produce. On error, the last call made is the first failing one, the error is that call's error, and no further call is made |
| TemplateValues.EveryCallSucceeded | src/main.rs:93-96 | Reaching a state after n calls means each earlier call succeeded |
| TemplateValues.FirstFailureIsFinal | src/main.rs:94 | After a `set` fails, the outcome stays that error whatever entries remain |
| TemplateValues.OkIffEveryCallOk | src/main.rs:92-97 | The loop's outcome is Ok if and only if every `set` call it makes returns Ok |
| TemplateValues.FirstFailure | src/main.rs:94 | A failed outcome has a first failing call: all calls before it succeeded, and its error is the outcome |
| Commands.SetParsedValues | src/main.rs:120-121 | Each of the calls made gets a key and value from the last argument carrying that key. On Ok, every parsed entry was set and the template is the one those calls produce. On error, the last call made is the first failing one, its error is returned, and the template is left as the earlier calls made it |

## Left out

- The `rust_templates` library is not part of this model. This covers `Template::from_file`, `set` and `render`; `TemplateRef::new`, `with_dependency` and `execute`; and `TemplateAssembler::new`, `add_template`, `set_global` and `render_all`. `set` and `set_global` appear only as the abstract `setValue` parameter.
- TemplateValues.ApplyTemplateValues: the in-place update through `&mut Template` is modelled as passing the template state in and returning the new state.
- TemplateValues.ApplyTemplateValues: a failed `set` is assumed to leave the template unchanged. What the library does to a template on failure is not visible here. The caller discards the template after an error in any case.
- TemplateValues.ApplyTemplateValues: the loop is proved for every iteration order of the `HashMap`, passed in as `order`. The model does not pick the order Rust's hasher would produce.
- ContentSource.SelectContent: the read error is carried as a message string in an `Io` variant. The exact conversion of `std::io::Error` into the library's error type is not visible.
- Command-line parsing with clap and its derive attributes (`src/main.rs:8-76, 100`) is generated plumbing.
- File reads and writes and printing to standard output (`fs::read_to_string`, `fs::write`, `println!`) are I/O. The read is a parameter of `SelectContent`. The write is returned as a `FileWrite` value and not performed.
- The dependency loop of `Execute` (`src/main.rs:135-137`) only chains the library's `with_dependency`, which this model leaves out.
- The async runtime, the rust-script execution behind `execute().await`, and the error reporting with `eprintln!` and `std::process::exit` (`src/main.rs:144, 172-178`) are process and concurrency plumbing.
