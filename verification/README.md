# shecrets: flattening a TOML document into shell exports

`shecrets` reads a TOML document and prints one POSIX shell line per
string, integer, float or boolean leaf:

    KEY=value; export KEY

`KEY` is the leaf's path of table keys joined with `_` and upper-cased.
`value` is the leaf's `Display` text, unquoted.

This Dafny project models the two parts of `src/main.rs` that do the work.

- `walk` flattens the parsed table tree using an explicit stack of
  `(prefix, table)` frames.
- `format_posix` and `format_vars` render the flattened variables as lines.

The model is organised in modules:

- `Wrappers`: the `Option` type.
- `Toml`: the parsed document as the `toml` crate hands it over.
  - A `Value` tree whose tables are association lists.
  - A size measure on the tree.
  - The `String` key order of a `BTreeMap`.
- `Display`: the four renderable scalar kinds as a closed variant, and
  their text. Integers render in decimal and parse back.
- `Flattener`: the `Var` record and the stack-based `Walk` method.
  - `Walk` is proved equal to a recursive specification
    (`FlattenEntries` / `DrainStack`).
  - It is also proved to produce exactly the scalar leaves of the tree
    (`LeafAt`), one variable per leaf (`CountEntries`).
- `Format`: the key join, ASCII upper-casing, the export line, and
  `format_vars`.
  - `ParseExport` reads a line back to the name and rendered value that
    `FormatPosix` put into it: it is proved to invert `ExportLine` for names
    with no lower-case letter. `FormatPosix` itself is not injective, since
    two keys can share a name (`Format.EnvNameCollision`).
  - `Split` is proved to invert the `_` join for a non-empty path in which
    no segment contains `_`.
- `Samples`: the two unit tests of `src/main.rs`, stated over concrete data.

Output order follows from two facts.

- A table's entries are visited in ascending key order.
- The stack is last-in first-out.

So a table's own scalars come first, in key order. Its sub-tables follow,
and the one with the greatest key is expanded first, depth-first.
`Flattener.LeavesAscending`, `Flattener.SubFramesAscending` and
`Flattener.LastPushedFirst` state this in general. `Samples.SampleOutput`
states it for the document of the `test` unit test.

The model follows the code of `src/main.rs`. Other versions of shecrets
have more features, and `src/main.rs` has none of them:

- joining arrays with a `:` separator;
- a per-key `_<key>_separator` override;
- skipping keys that start with `_`;
- sorting the output by key.

Here, as in `src/main.rs`, arrays are dropped with the other unsupported
kinds, `_` keys are emitted like any other key, and the output is in
traversal order.

## Model

| member | source | states |
|---|---|---|
| Flattener.Walk | src/main.rs:13-32 | The stack loop returns the recursive specification's output for the document. It returns exactly one variable per string/integer/float/boolean leaf. A (key, value) pair is in the result exactly when the key is a root-to-leaf path to that scalar. |
| Flattener.VisitEntries | src/main.rs:18-29 | Visiting a popped table in entry order appends one variable per scalar entry, in entry order. It pushes one frame per sub-table entry, in entry order, onto the rest of the stack. |
| Flattener.VisitEntry | src/main.rs:19-27 | One entry: a scalar appends a variable keyed by prefix + [key] with that value. A table pushes a frame under prefix + [key]. Any other kind changes nothing. |
| Flattener.WalkStep | src/main.rs:17-29 | One loop iteration keeps "produced so far + still owed by the stack = whole output". The stack's node count strictly drops, so the loop terminates. |
| Flattener.SubFrames | src/main.rs:26 | A table pushes at most one frame per entry. The pushed frames together are smaller than the table, which is the termination measure. |
| Flattener.LeavesMembership | src/main.rs:21-25 | A table's own variables are exactly its scalar entries, each keyed by prefix + [its key] and carrying its value. With `Display.AsScalar`, a table entry never yields a variable itself. |
| Flattener.SubFramesMembership | src/main.rs:26 | A table pushes a frame for exactly each sub-table entry, under prefix + [its key]. |
| Flattener.FlattenMembership | src/main.rs:17-26 | A variable comes out of a table at prefix p exactly when its key is p followed by a path to a scalar leaf of that table holding its value. |
| Flattener.FlattenSound | src/main.rs:17-26 | Every variable produced is a scalar leaf, reached through the enclosing table keys. |
| Flattener.FlattenComplete | src/main.rs:17-26 | Every scalar leaf, however deep, is produced. |
| Flattener.KeysNonEmpty | src/main.rs:16-20 | Every variable's key is non-empty, and its first segment is a key of the root table. |
| Flattener.FlattenCount | src/main.rs:21-26 | One variable per scalar leaf: the output of a table has as many variables as it has scalar leaves at any depth. |
| Flattener.DrainAppend | src/main.rs:17-26 | Stack discipline: frames pushed later are drained first. |
| Flattener.PopTop | src/main.rs:17 | Popping the top frame: its output comes before the rest of the stack's. The stack loses that frame's size. |
| Flattener.PushChildren | src/main.rs:26 | Replacing a popped table by its scalars and its pushed sub-tables owes exactly what the table owed. The stack gets smaller. |
| Flattener.SkipUnsupported | src/main.rs:27 | An array or other unsupported entry, wherever it stands, changes nothing: removing it leaves the output identical. |
| Flattener.LeavesAscending | src/main.rs:18-25 | In a table with ascending keys, the table's own variables come out in ascending order of their last key segment. |
| Flattener.SubFramesAscending | src/main.rs:18-26 | In a table with ascending keys, sub-table frames are pushed in ascending key order, so the greatest key is on top. |
| Flattener.LastPushedFirst | src/main.rs:17-26 | After a table's own scalars comes the whole expansion of the last-pushed sub-table, then the rest of the pushed sub-tables. |
| Display.AsScalar | src/main.rs:21-27 | Exactly string, integer, float and boolean values have a scalar form. |
| Display.RenderShape | src/main.rs:22-25 | Strings render verbatim and unquoted. Floats render as their carried text and booleans as `true`/`false`. Integers render as canonical decimal text that parses back to the integer. A non-negative one is all digits with no leading zero. A negative one is `-` followed by a non-zero digit. |
| Display.IntRoundTrip | src/main.rs:23 | Integer `Display` text is decimal with an optional minus sign; reading it back gives the integer. |
| Display.NatToDigits | src/main.rs:23 | Decimal digits: at least one, all digits, no leading zero, and a leading `0` only for zero itself. |
| Format.ToUpper | src/main.rs:36 | Upper-casing keeps the length and leaves no lower-case ASCII letter. Other characters are unchanged, and each lower-case letter moves to its capital. |
| Format.FormatPosixRoundTrip | src/main.rs:34-38 | The line for a variable reads back to the `_`-joined, upper-cased key and the rendered value. |
| Format.ExportLineParses | src/main.rs:35 | A line `NAME=value; export NAME` with an upper-case name reads back to that name and value, even when the value itself contains `; export `. |
| Format.ParsedLineShape | src/main.rs:35 | Every line that reads back has exactly the shape `NAME=value; export NAME`. |
| Format.FormatVars | src/main.rs:40-44 | One line per variable, in the same order: line i is `format_posix` of variable i. |
| Format.JoinAppend | src/main.rs:36 | Joining is associative along a path: for non-empty a and b, join(a + b) = join(a) + sep + join(b). |
| Format.EnvNameAppend | src/main.rs:36 | The name of a nested key is the names of its two parts joined by `_`, e.g. `A_B_C` for a leaf at `[a, b, c]`. |
| Format.SplitJoin | src/main.rs:36 | When the path is non-empty and no segment contains `_`, splitting the joined key at `_` gives the path back. |
| Format.EnvNameCollision | src/main.rs:36 | A segment holding `_` makes two paths share a name: `["a_b"]` and `["a", "b"]` both give `A_B`. |
| Toml.SortedKeysDistinct | src/main.rs:6 | The `Table` imported here is the `toml` crate's `BTreeMap`, whose keys are ascending. Such keys are pairwise distinct. |
| Toml.SortedFromAdjacent | src/main.rs:6 | For the key order of that `BTreeMap`-backed `Table`: keys ascending between neighbours are ascending throughout. |
| Samples.FormatPosixExample | src/main.rs:64-72 | Key `["pipenv", "venv_in_project"]` with value `1` formats to `PIPENV_VENV_IN_PROJECT=1; export PIPENV_VENV_IN_PROJECT`, character for character. |
| Samples.SampleWellFormed | src/main.rs:76-85 | The sample document, as the parser returns it, has ascending keys in every table. |
| Samples.SampleVarsInOrder | src/main.rs:75-96 | The sample document flattens to, in order: someboolval, somefloatvar, someintvar, section2.nestedvar, section.nestedvar, section.nested.doublynestedvar. |
| Samples.SampleOutput | src/main.rs:86-96 | Formatting the flattened sample document gives the six expected lines in the expected order. |
| Samples.WalkSample | src/main.rs:86-96 | Running `walk` and then `format_vars` on the sample document returns the six expected lines. |

## Left out

- `main` (src/main.rs:46-57): reading standard input, the error messages and `println!` are I/O and are not modelled.
- TOML parsing (src/main.rs:49) belongs to the `toml` crate. A document is given directly as a `Toml.Value` table. `Toml.WellFormed` states the parser's shape (ascending, distinct keys) in every table. The ordering lemmas `Flattener.LeavesAscending` and `Flattener.SubFramesAscending` assume `Toml.SortedKeys` of the one table they describe. No member requires `Toml.WellFormed`.
- Float `Display` (src/main.rs:24): floating-point formatting is not modelled. A float carries the text it renders to, e.g. `"1.2"`.
- `Box<Display>` (src/main.rs:10) is replaced by the closed variant `Display.Scalar` and the function `Display.Render`.
- Borrowed `&str` key segments and lifetimes (src/main.rs:8-9, src/main.rs:14): only ownership differs, so segments are owned strings.
- Format.ToUpper: models ASCII upper-casing only. Rust's `to_uppercase` also maps non-ASCII letters, and some of those change length (`ß` becomes `SS`).
- Toml.Int64: integers are bounded to the signed 64-bit range. Overflow cannot arise, as nothing is computed on them.
- Datetimes are folded into the single `Toml.Other` kind, since `walk` treats them like any other unsupported value.
- Samples.SampleOutput: the six expected lines are written as `Format.ExportLine(NAME, value)`, i.e. `NAME + "=" + value + "; export " + NAME`, and not as six string literals. Only the `test_format_posix` line is compared with its literal character by character.
