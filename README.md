# SimpleOpts option resolution, modelled in Dafny

`SimpleOpts.get` turns one or more hashes of `name => default` declarations
into a command-line surface and an option hash. It does this in five steps:

1. It merges the declaration hashes into one ordered table. A later hash
   overrides an earlier one by name.
2. It registers a flag for every option with `OptionParser`: `-<first char>`
   and `--<name with _ turned into ->=VAL`, then the class of the default
   (Fixnum mapped to Integer) and the default's text, which is meant as help.
   For a type marker (a class given as the default) it registers only that
   class.
3. The parser's blocks record command-line values.
4. If a config option is named, it finds the config file's path: the config
   option's command-line value, else its default. It drops the config option
   from the table unless `keep_config_file` is set. If the path's `to_s` is not
   empty, it loads the file and fills the `:conf` slot of every option that one
   of the file's keys names.
5. It resolves each option, in table order, to the first non-nil of its
   command-line value, its config value and its default. If that value is
   still a type marker, it prints `missing value for --<name>` and exits.
   An empty string becomes nil.

The model follows this pipeline, one module per step:

- `RubyValues`: the values (nil, booleans, integers, strings, class objects as
  type markers, other objects with their `to_s` text), `to_s`, and
  `values_at(...).compact.first`.
- `OptionTable`: the working hash as an insertion-ordered sequence of entries,
  with Ruby Hash store, lookup and delete.
- `Declarations`: the merge loop.
- `Switches`: `fixer` and the `op.on` argument lists.
- `CommandLine`: the parser's blocks.
- `ConfigOverlay`: the config path, the drop, and the `:conf` fill.
- `Resolution`: the resolution loop.
- `SimpleOpts`: the routine as a whole.

Each step that loops in the source is a method with a `while` loop, proved
equal to a recursive specification function. The properties are lemmas about
those functions.

The two foreign calls are parameters of `SimpleOpts.Get`:

- `parse` stands for `OptionParser#parse!`. It receives the registered
  argument lists and argv, and returns either the block invocations it made
  (option position and converted value, in order) or the exception it raised.
- `load` stands for `YAML.load_file`. It receives the path value and returns
  either the pairs that `each` visits or the exception it raised.

`puts` followed by `exit 1` becomes the result `Fail(MissingValue(name))`, and
`Resolution.Message` gives the printed line.

## Model

| member | source | states |
|---|---|---|
| `RubyValues.FirstNonNil` | simpleopts.rb:35-36 | `values_at(...).compact.first`: nil exactly when every slot is absent or nil, otherwise the value of the first slot that is set and not nil |
| `RubyValues.ClassOf` | simpleopts.rb:27 | `defval.class`: NilClass, TrueClass for true and FalseClass for false, Fixnum, String and Class each belong to exactly one kind of value, and any other object has its own class |
| `RubyValues.NatToString` | simpleopts.rb:28 | `Integer#to_s` of a non-negative integer: a non-empty string of decimal digits that denotes the integer, with no leading zero |
| `RubyValues.IntToString` | simpleopts.rb:28 | `Integer#to_s`: the decimal digits of a non-negative integer, or `-` followed by the digits of its magnitude; the text starts with `-` exactly for a negative integer and denotes the integer |
| `RubyValues.ToS` | simpleopts.rb:38 | `to_s` is empty exactly for nil, `""` and objects whose text is empty; an integer prints as `Integer#to_s` of its value |
| `OptionTable.IndexIn` | simpleopts.rb:40 | the position of a key in the hash: absent exactly when the key is missing, otherwise its first occurrence |
| `OptionTable.Find` | simpleopts.rb:35 | `opts[n]` is nil exactly when no key is `n`; otherwise it is the slots of an entry named `n` |
| `OptionTable.FindEntry` | simpleopts.rb:35 | in a hash with distinct keys, `opts[n]` is the slots of the entry named `n`, and nil exactly when no entry has that name |
| `OptionTable.Put` | simpleopts.rb:12 | `h[n] = s` keeps an existing key in place and appends a new key at the end; afterwards `h[n]` is `s` and every other key is unchanged |
| `OptionTable.PutKeepsDistinct` | simpleopts.rb:12 | storing a key keeps the hash's keys distinct |
| `OptionTable.Without` | simpleopts.rb:37 | removing a name drops every copy of it and keeps every other name; by its definition the kept names stay in their order |
| `OptionTable.Delete` | simpleopts.rb:37 | `h.delete(n)` leaves the other keys in order and keeps exactly the entries not named `n` |
| `OptionTable.DeleteKeepsDistinct` | simpleopts.rb:37 | deleting a key keeps the hash's keys distinct |
| `OptionTable.DeleteFind` | simpleopts.rb:37 | after `h.delete(n)`, `h[n]` is nil and every other key has its old slots |
| `OptionTable.SetSlots` | simpleopts.rb:31 | writing the slots of the entry at one position gives that entry exactly the new slots under its own name, and leaves every other entry, every key and every position unchanged |
| `Declarations.Declare` | simpleopts.rb:12 | `merge!` of one group keeps the existing keys in their places, and the keys afterwards are exactly the old keys and the group's names |
| `Declarations.MergeGroups` | simpleopts.rb:10-13 | the merge loop (each group, each pair stored with `{default: d}`) yields the merged table `Merge(groups)` |
| `Declarations.FirstOccurrencesSpec` | simpleopts.rb:10-13 | the first-occurrence sequence lists each name of the input once, and no other name |
| `Declarations.DeclareAppend` | simpleopts.rb:11-12 | merging two runs of pairs one after the other is merging their concatenation |
| `Declarations.MergeIsFlatDeclare` | simpleopts.rb:11-12 | merging group by group is the same as merging all pairs, in order, in one run |
| `Declarations.DeclareNames` | simpleopts.rb:12 | merging pairs into an empty hash gives each name once, at the place of its first occurrence |
| `Declarations.DeclareFind` | simpleopts.rb:12 | after merging pairs, a declared name holds `{default: d}` with `d` from its LAST pair; any other key is unchanged |
| `Declarations.MergeOrder` | simpleopts.rb:10-13 | the merged table has one entry per distinct declared name, in first-declaration order, and no other entry |
| `Declarations.MergeDefaults` | simpleopts.rb:10-13 | each merged option holds only the default of its last declaration across all groups; undeclared names are absent |
| `Declarations.MergeLaterGroupWins` | simpleopts.rb:11-12 | a name declared in a later group takes that group's default, whatever earlier groups said |
| `Switches.Fixer` | simpleopts.rb:14 | `fixer` maps Fixnum to Integer, is the identity on every other class, and never yields Fixnum |
| `Switches.ShortFlag` | simpleopts.rb:25 | the short flag is `-` followed by the name's first character (only `-` for an empty name) |
| `Switches.Hyphenate` | simpleopts.rb:26 | `gsub "_", "-"` keeps the length, turns each `_` into `-`, keeps every other character, and leaves no `_` |
| `Switches.LongFlag` | simpleopts.rb:26 | the long flag is `--`, then the hyphenated name, then `=VAL` |
| `Switches.OptArgs` | simpleopts.rb:24-30 | every `op.on` list is short flag, long flag, then a class that is never Fixnum; for a type marker the list ends with `fixer(marker)`; for a concrete default it is `fixer(default.class)` then `default.to_s`; an integer default registers Integer followed by `Integer#to_s` of the integer |
| `Switches.DefineSwitches` | simpleopts.rb:15-32 | one `op.on` argument list per option, in table order, each derived from that option's name and default |
| `CommandLine.Record` | simpleopts.rb:31 | one block invocation sets its option's `:cmdline` to the value, keeps the option's other slots, and leaves every other entry and every key unchanged |
| `CommandLine.RecordCommandLine` | simpleopts.rb:31-33 | running the parser's block invocations in order yields `RecordAll(opts, calls)` |
| `CommandLine.RecordAllEffect` | simpleopts.rb:31 | parsing keeps every option in place and changes only `:cmdline`: it holds the value of the last occurrence of the option's flag, and options whose flag never occurred are unchanged |
| `ConfigOverlay.ConfigPath` | simpleopts.rb:35-36 | the config path is the config option's command-line value if that is present and not nil, else its default; nil when the config option is not declared |
| `ConfigOverlay.Fill` | simpleopts.rb:40 | one config pair sets `:conf` of the option its key names and changes no other lookup; no key, position, command-line value or default changes; a key naming no option changes nothing |
| `ConfigOverlay.ApplyConfig` | simpleopts.rb:39-41 | the loop over the loaded pairs yields `FillAll(opts, pairs)` |
| `ConfigOverlay.Overlay` | simpleopts.rb:35-42 | a config path that prints as empty loads nothing and only drops the config option (unless kept); the overlay fails exactly when the loader fails on a non-empty path, with the loader's message |
| `ConfigOverlay.FillAllEffect` | simpleopts.rb:39-41 | loading keeps every option in place and changes only `:conf`: it holds the value of the last pair naming the option; keys naming no option change nothing |
| `ConfigOverlay.FillAllFind` | simpleopts.rb:40 | the same by lookup: an option's `:conf` holds the last config value for its name, and an undeclared key stays absent |
| `ConfigOverlay.OverlayNames` | simpleopts.rb:37-41 | after the overlay the keys are the table's own keys in order, less the config option unless it is kept; config keys never add one |
| `ConfigOverlay.OverlayFind` | simpleopts.rb:35-41 | after the overlay the config option is gone unless kept; every other option keeps its command-line value and default, and its `:conf` takes the last config value for its name |
| `ConfigOverlay.OverlayEmptyPath` | simpleopts.rb:38 | a path that prints as empty (nil, `""`) loads nothing: the result is the table with only the config option dropped (or nothing changed when it is kept) |
| `ConfigOverlay.OverlayUndeclared` | simpleopts.rb:35-38 | an undeclared config option loads no file |
| `Resolution.Pick` | simpleopts.rb:45 | the picked value is nil exactly when the command-line and config slots are absent or nil and the default is nil; otherwise it is one of the present slots or the default |
| `Resolution.Precedence` | simpleopts.rb:45 | a command-line value beats a config value, which beats the default; only nil is skipped, so `false` is picked |
| `Resolution.Finalize` | simpleopts.rb:50 | the result is nil exactly when the picked value is nil or `""`; every other value passes through unchanged |
| `Resolution.Message` | simpleopts.rb:47 | the printed line is the fixed prefix `missing value for --` followed by exactly the option's name; an exception's line is its message |
| `Resolution.Resolve` | simpleopts.rb:44-52 | resolution yields one setting per option, and its only failure is a missing value |
| `Resolution.ResolveStopsAtFailure` | simpleopts.rb:46-48 | once an option has exited with a missing value, later options are never looked at |
| `Resolution.ResolveAll` | simpleopts.rb:44-52 | the resolution loop, with its early exit, yields `Resolve(opts)` |
| `Resolution.ResolveOk` | simpleopts.rb:44-54 | resolution succeeds exactly when no option is left with a type marker; the result then lists every option, in table order, with its finalized picked value, and no value is a type marker or `""` |
| `Resolution.ResolveMissing` | simpleopts.rb:44-48 | resolution fails with the FIRST option left with a type marker, and the printed line is `missing value for --` followed by its raw name |
| `SimpleOpts.Get` | simpleopts.rb:9-55 | the routine, phase by phase on one working table, returns `Outcome(...)`, the composition of the specification functions above |
| `SimpleOpts.ParsedTable` | simpleopts.rb:10-33 | after parsing, the table holds the merged names with distinct keys; each option holds the default of its last declaration and the value of the last occurrence of its flag |
| `SimpleOpts.PreparedTable` | simpleopts.rb:10-43 | the table reaching resolution holds exactly the expected names, and each option holds its last command-line value, last config value and last-declared default |
| `SimpleOpts.GetNames` | simpleopts.rb:37-54 | `get` returns the merged declared names in first-declaration order, without the config option unless `keep_config_file` is set |
| `SimpleOpts.GetPrecedence` | simpleopts.rb:31-51 | for every returned option: the last command-line value wins if present, else the last config value, else the last-declared default, with `""` coming out as nil |
| `SimpleOpts.GetMissingValue` | simpleopts.rb:44-48 | an option left with a type marker (and none before it) makes `get` stop with `missing value for --<name>` |

## Left out

- `OptionParser` itself: tokenizing argv, matching flags, converting strings to
  the registered class, `-h`/`--help`, and what happens when two options share
  a short flag. The model keeps only the effect: the sequence of block
  invocations the parser reports. `parse!` also removes the parsed options
  from argv, and the caller can see that. The model does not capture it.
  `OptionParser#on` also sorts its string arguments by their form. The
  default's `to_s` is meant as help text, but a text starting with `-` (the
  default `-5`, say) is read as one more switch, and one starting with `=` as
  an argument style. The model hands the argument lists to the parser as
  they are, and leaves their reading to it.
- `YAML.load_file` and the file reading behind it. The loaded content is the
  loader's output: the `(k, v)` pairs that `each` visits. For a mapping these
  are its entries. For an array they are its elements as the block
  destructures them: in `[["port", 8080], "host"]` the first element gives the
  pair `port`/`8080` and the second gives `host`/nil. A loaded value without
  `each` (nil, false, a string, a number), or a key without `to_sym`, counts
  as the loader's failure. Every failure propagates, whether the path came
  from the command line or from the default. The routine has no
  "missing default file means no config" rule.
- `puts` and `exit 1`: they become the `MissingValue` result and its message.
- The `argv: $*` default: argv is an explicit argument.
- `[inopts].flatten` on nested arrays: the groups are passed already flattened.
  A single hash is a list of one group.
- `Declarations.MergeGroups`: each group is a Ruby Hash, so its names are
  distinct. The model stores the pairs one by one, which is what `merge!` of
  the group's `to_h` does for such a hash.
- Integers are modelled as class Fixnum, the class they have in the Ruby
  versions the routine was written for. Bignum and the later merge of Fixnum
  into Integer are not modelled.
- String equality in `v == ""` is checked only against the model's string
  variant. An object of another class counts as a non-string.
- Option names are Symbols, compared by their text. A declaration hash with
  String keys is not modelled. For such a key the flags of simpleopts.rb:25-26
  still work, but `opts[k.to_sym]` at simpleopts.rb:40 never finds it, so a
  config file cannot set it. The model would let the config file set it.
- Values other than nil, booleans, integers, strings and class objects are
  represented by a class name and a `to_s` text. That class name can never be
  one of NilClass, TrueClass, FalseClass, Fixnum, String or Class. So no such
  object can stand in for nil, `""` or a type marker.
