# Pandoc plugin core in Dafny

A model of the pure core of the Sublime Text Pandoc plugin (`Pandoc.py`).
This core turns a configured transformation, together with the editor's
scope scores, into a pandoc command line. The model has five parts:

- **`Args`** (`args.dfy`): the token-list editor. `Args.get` reads the value of
  the first occurrence of an option. `Args.remove` builds a fresh list without
  the option. Short options are `-k value` (two tokens). Long options are
  `--key=value` (one token).
- **`Ranking`** (`ranking.dfy`): the ranked list of transformations offered in
  the quick panel (`PromptPandocCommand.transformations`).
- **`Command`** (`command.dfy`): `PandocCommand.run` up to the start of the
  converter. It covers the `-f` input format, the PDF exception, the
  synthesized `-o` output path and the final command line.
- **`SettingsMerge`** (`settings.dfy`): `merge_user_settings`, which lays the
  user settings over the defaults.
- Support: `Options` (Option/Result), `Seqs` (subsequence, reverse) and
  `Config` (the typed transformation record).

The editor's `view.score_selector(0, scope)` is the uninterpreted parameter
`score: string -> nat`. Other things are parameters too:

- the result of the binary lookup (`pandoc: Option<string>`);
- the temporary file name;
- the extension-less path of the view's file;
- the `pandoc-format-file` set;
- the two loaded settings maps.

Regular-expression matches are modelled as string equality:

- A token is a short flag when it equals `-a` for a short alias `a`.
- A token is a long option when it starts with `--a=` for a long alias `a` and
  has a non-empty rest. Aliases are tried left to right, as the pattern's
  alternation does.
- An absent alias list (`None`) is the empty sequence. Under this matching it
  behaves exactly like `None`.

The source behaviours below are modelled as written:

- The token after a short flag is taken whatever it looks like.
- A `values` filter drops the flag but may keep its value.
- Long options are dropped whatever their value.
- Labels of equal rank are listed in the reverse of their first insertion,
  assuming the `ranked` dict iterates in insertion order (see `Ranking.RankingTies`
  under "## Left out").
- An unscored scope table raises an unbound-local error in the source. Here it
  is `Err(NoInputFormat)`.

## Model

| member | source | states |
|---|---|---|
| Args.LongValue | Pandoc.py:318-321 | a token has a long value exactly when some long alias `a` fits it as `--a=` with a non-empty rest, and the value is that rest for a fitting alias |
| Args.LongPrefixUnique | Pandoc.py:319 | with aliases free of `=`, at most one alias fits a token, so where the value starts is unambiguous |
| Args.LongValueOf | Pandoc.py:319-321 | for plain aliases, the token `--a=v` with non-empty `v` yields exactly `v` |
| Args.GetFirstMatch | Pandoc.py:307-322 | `get` is None when no token is an occurrence; otherwise it is the value of the leftmost occurrence: the next token after a short flag (None if the flag is last), or the text after `=` of a long option |
| Args.GetFrom | Pandoc.py:310-322 | no contract; the scan of `get`, its `pending` argument being the source's `value` flag. Args.GetFirstMatch and Args.GetAppend characterize it |
| Args.Get | Pandoc.py:307-322 | no contract; Args.GetFirstMatch characterizes it (value of the leftmost occurrence, None without one) |
| Args.GetAfterFlag | Pandoc.py:312-317 | the token after a leading short flag is returned even when it looks like a flag itself |
| Args.GetAppend | Pandoc.py:307-322 | once `get` finds a value, tokens appended later do not change it (first occurrence wins) |
| Args.GetSkipUnmatched | Pandoc.py:310-322 | a prefix of tokens that are not occurrences is transparent to `get` |
| Args.RemoveFrom | Pandoc.py:328-343 | each step of the removal scan yields an in-order subsequence no longer than its input; without a filter it holds no occurrence of the option |
| Args.Remove | Pandoc.py:324-344 | `remove` returns a fresh in-order subsequence of its input, no longer than it; without `values` no short flag or long option is left. Which flag values are dropped is stated by Args.RemoveKeepsExactly |
| Args.RemoveKeepsExactly | Pandoc.py:324-344 | `remove` keeps exactly two kinds of token. The first is a token that is neither an occurrence nor a flag's value. The second is a flag's value, kept only when a `values` filter is given and does not list it. Both are stated by position, independently of the scan |
| Args.RemoveThenGetNone | Pandoc.py:329-343 | after `remove` without a filter, `get` with the same aliases finds nothing |
| Args.RemoveFilteredThenGetNone | Pandoc.py:330-342 | with any `values` filter, a list in which no flag's value is itself an option loses every flag and long option, so `get` finds nothing |
| Args.RemoveUnmatched | Pandoc.py:339-343 | a list with no occurrence of the option is returned unchanged |
| Args.RemoveAppendedFlag | Pandoc.py:329-338 | removing a flag-and-value pair appended to a list without occurrences gives back the list. The value stays only under a filter that does not list it |
| Args.RemoveOutputPair | Pandoc.py:329-343 | for a list with no `-o` token, `remove(L + ['-o', x], short=['o'])` is `L` |
| Args.Examples | Pandoc.py:307-344 | worked cases. `['-f','markdown','-t','html']` gives `markdown` and `['--to=html']` gives `html`. `['-t','-o','x']` gives `-o` and a trailing flag gives None. `['-t','html']` filtered by `['pdf']` gives `['html']` |
| Ranking.Record | Pandoc.py:63-66 | no contract; one step of the scan (skip a zero score, add or raise the label). Ranking.RankedIsReference characterizes the scan it builds |
| Ranking.RankScopes | Pandoc.py:61-66 | no contract; the inner loop over one scope table. Ranking.RankedIsReference characterizes it |
| Ranking.Ranked | Pandoc.py:59-66 | no contract; the outer loop that fills `ranked`. Ranking.RankedIsReference shows it equals the independent reference list |
| Ranking.Best | Pandoc.py:61-66 | a scope table's best score bounds every selector's score and is attained by one of them (0 for none) |
| Ranking.RankedIsReference | Pandoc.py:59-66 | with unique labels, the scan keeps exactly the labels with a positive selector, in iteration order, each with its best score |
| Ranking.ReferenceSource | Pandoc.py:59-66 | every ranked entry is a transformation with its positive best score |
| Ranking.ReferenceCovers | Pandoc.py:59-66 | every transformation with a positive best score is ranked |
| Ranking.ReferenceDistinct | Pandoc.py:59-66 | no label is ranked twice |
| Ranking.Insert | Pandoc.py:75-76 | one step of the insertion sort: the result is the input plus the inserted element, as a multiset. Ranking.InsertAscending and Ranking.InsertStable give order and stability |
| Ranking.SortByScore | Pandoc.py:75-76 | `sorted(..., key=rank)` is an ascending permutation of its input |
| Ranking.InsertAscending | Pandoc.py:75-76 | inserting into an ascending list keeps it ascending |
| Ranking.SortStable | Pandoc.py:75-76 | the sort is stable: elements of equal rank keep their relative order |
| Ranking.WithScoreReverse | Pandoc.py:77 | reversing the list reverses the order among elements of equal rank |
| Ranking.Offered | Pandoc.py:74-77 | no contract; the ranked pairs sorted and reversed. Ranking.RankingContents, Ranking.RankingDescending and Ranking.RankingTies characterize it |
| Ranking.Transformations | Pandoc.py:54-79 | no contract; the offered labels, or None for the error message. Ranking.TransformationsNone, Ranking.TransformationsListed and Ranking.TransformationsUnique characterize it |
| Ranking.TransformationsNone | Pandoc.py:68-72 | no list is produced exactly when no selector of any transformation scores positive |
| Ranking.TransformationsListed | Pandoc.py:59-79 | a label is offered iff one of its selectors scores positive |
| Ranking.TransformationsUnique | Pandoc.py:75-79 | no label is offered twice |
| Ranking.RankIsBest | Pandoc.py:61-66 | each offered label's rank is positive, bounds all its selectors' scores and is attained by one of them |
| Ranking.RankingDescending | Pandoc.py:74-77 | the offered list is non-increasing by rank |
| Ranking.RankingTies | Pandoc.py:74-77 | labels of equal rank are offered in the reverse of their insertion order |
| Ranking.RankingContents | Pandoc.py:59-79 | the offered list is a permutation of the reference ranking |
| Command.PickFormat | Pandoc.py:109-115 | the input-format scan ends with the maximal score. Its format is None iff that score is 0, and otherwise comes from the earliest selector with that maximal positive score |
| Command.FirstMaxUnique | Pandoc.py:112 | at most one selector is the earliest with the greatest score (ties go to the first) |
| Command.InputFormat | Pandoc.py:108-116 | no contract; the `-f` value. Command.InputFormatIsFirstMax characterizes it |
| Command.InputFormatIsFirstMax | Pandoc.py:108-116 | the `-f` value is the format of the earliest selector with the greatest positive score; there is none iff no selector scores |
| Command.TargetArguments | Pandoc.py:128-135 | no contract; the PDF exception on the arguments. Command.PdfException characterizes it |
| Command.SynthesizedPath | Pandoc.py:157-168 | no contract; the synthesized output path. Command.AssembleOutputRule and Command.PdfException characterize it |
| Command.Assemble | Pandoc.py:103-171 | a missing binary stops the command. A successful command line starts with the binary and `-f`, and its third token is the input format. The output format is the first `-t`/`-w`/`--to`/`--write` value of the configured arguments. An output path is recorded only for a file-based output format. Command.AssembleFailures, Command.AssembleCommandLine and Command.AssembleOutputRule give the rest |
| Command.AssembleFailures | Pandoc.py:103-116 | the command stops iff the binary lookup failed (checked first) or no selector scores |
| Command.AssembleCommandLine | Pandoc.py:106-128 | a successful command line begins with the binary, `-f` and the chosen input format, and reading `-f` back yields that format; the output format is the first `-t`/`-w`/`--to`/`--write` value |
| Command.AssembleOutputRule | Pandoc.py:154-171 | the output rule has three cases. (1) An output path exists iff the output format is file-based. (2) If the arguments already name an output file, that file is used and the arguments are unchanged. (3) Otherwise `['-o', base + '.' + ext]` is appended, with the synthesized path |
| Command.PdfException | Pandoc.py:128-168 | when the output format is `pdf`, it stays `pdf` for the command, so a synthesized path without `out-ext` ends in `.pdf`. Well-formed arguments also lose every output-format option |
| Command.OutputPathReadBack | Pandoc.py:155-171 | when the arguments hold no output option, reading `-o` back from the final arguments yields the recorded output path that the plugin later opens |
| SettingsMerge.MergeTransformations | Pandoc.py:278-286 | the merged table has the union of names. A name in both gets the default entry updated key by key (user keys win, other default keys kept). A name in one table keeps its entry |
| SettingsMerge.Merge | Pandoc.py:269-292 | an empty user map returns the defaults unchanged. Otherwise the result has a transformation table, and the other top-level keys are the union with user values overriding. The `transformations` key never lands among the other keys |
| SettingsMerge.MergeKeepsDefaults | Pandoc.py:276-292 | default transformations and top-level keys that the user does not mention keep their default values |
| SettingsMerge.MergeIdempotent | Pandoc.py:276-292 | merging the same user settings twice gives the same result as once |
| Seqs.Reverse | Pandoc.py:77 | `list.reverse()` puts element `i` at position `n-1-i` |

## Left out

- Sublime host UI is not modelled. This covers the quick panel, `run`, the
  `transform` callback, views, regions, `Edit`, syntax files and error dialogs.
  A `None` result or an `Err` stands for the error message.
- `PandocThread` and `ThreadProgress` are not modelled: subprocess execution,
  stdin/stdout/stderr handling, the "any stderr is an error" rule, threading,
  and opening the produced file (`open`, `os.startfile`, `xdg-open`). They are
  I/O.
- `_find_binary` is not modelled: it probes the filesystem and environment.
  Its result is the `pandoc` parameter of `Command.Assemble`.
- `tempfile` naming, `os.path.splitext` and `os.path.dirname` are not
  modelled; the temporary name and the extension-less path are parameters.
  The working directory (`dirname`) goes only to the thread, so it is not
  modelled.
- UTF-8 encoding and decoding and the CRLF-to-LF replacement happen in the
  thread and are not modelled.
- `print` of the command line, `_c` and `_s` (a lookup in the merged settings)
  are not modelled.
- `re` corner cases are not modelled. Unlike the regex, where `.` does not
  match a newline and `$` also matches before a trailing newline, the model
  uses plain string equality. An empty alias list would make the source's
  pattern match `-` as a flag; the model's empty list matches nothing. The
  model assumes aliases are plain words and tokens hold no newline. No caller
  passes an empty list.
- `SettingsMerge.Merge`: the in-place mutation of the loaded dicts is not
  modelled. Neither is the iteration order of the merged transformation table
  (defaults first, then new user names). The ranking takes that order as its
  input sequence.
- `SettingsMerge.Merge`: the merged entries are maps with an opaque value type.
  A transformation entry that is not a dict, which would make `.update` raise,
  is not modelled.
- Ranking.TransformationsListed: this and the other ranking lemmas assume
  unique labels, because the source reads them from dict keys.
  `Ranking.Ranked` itself also handles repeated labels, with the dict's update
  semantics.
- Command.PdfException: the property that no output-format option is left is
  stated only for well-formed arguments (the `pdf` output format and the `.pdf`
  suffix hold for all arguments), where no flag's value is itself an
  option. On arguments such as `['-t','pdf','-w','-t','pdf']`, `remove` keeps
  the value `-t` and the following plain `pdf`, as the source does.
- Command.OutputPathReadBack: the read-back is stated only for arguments
  without an output option. If the arguments end in a dangling `-o`, the
  appended `-o path` becomes that flag's value, as in the source.
- Ranking.RankingTies: the order among labels of equal rank assumes that the
  source's plain `ranked` dict iterates in insertion order, as CPython 3.7 and
  later do. On an older host, such as the Python 3.3 of Sublime Text 3, a plain
  dict iterates in hash order, and the order among equal ranks follows string
  hashing. The model does not capture that order.
- SettingsMerge.Merge: a settings map is split into its `transformations`
  table and the other keys. The source pops that key from the user map before
  the update. The model states this as `Split` and shows that `Merge` keeps
  it.
