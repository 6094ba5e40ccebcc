# readitlater — a Dafny model of the command-line client's decision rules

`readitlater.py` is a small command-line client for the Read It Later
web API. It has six sub-commands: `add`, `list`, `read`, `search`, `limit`
and `settings`. Most of the script is HTTP, file and terminal plumbing. This
project models the parts that decide what is sent, what is kept and what
is printed. Each is a pure function over maps and sequences:

- **values.dfy** (`Values`): the Python values the client handles, and
  Python truthiness.
- **order.dfy** (`Order`): the order Python 2 uses for the raw JSON
  `time_added` values that articles are sorted by, when each is null, a
  bool, an integer or a string. `None` comes first, then numbers (a bool
  counts as 0 or 1), then strings in code-point order. The
  order is proved total and transitive, and its ties are characterised.
- **seqs.dfy** (`Seqs`): an order-preserving filter, which is a list
  comprehension with an `if`. It is specified by the subsequence relation
  and by exact multiplicities.
- **sorting.dfy** (`Sorting`): `sorted(xs, key=..., reverse=...)` as a stable
  insertion sort. It is proved to produce a sorted permutation. Filtering a
  sorted sequence keeps it sorted.
- **strings.dfy** (`Strings`): the Python `q in s` test, proved equivalent
  to "q occurs at some index". Also `s.split(c)` and `sep.join(parts)`:
  joining a split with a one-character separator is proved to replace
  every `c`.
- **api.dfy** (`Api`): `API.request` and the open-ended `__getattr__`
  dispatch. It covers the URL the request goes to, the dropping of falsy
  parameters and the stored settings laid over the caller's parameters.
  Responses are opaque values: an `ok` flag, header pairs and an optional
  decoded body.
- **output.dfy** (`Output`): what a run produces instead of printing. That
  is the requests sent, the records printed, the settings written, and the
  exceptions that escape (`Fault`).
- **settings.dfy** (`Settings`): `load_settings` with and without
  validation, and `settings_command`. The command is modelled twice: as the
  code is written and as corrected (see Findings).
- **commands.dfy** (`Commands`): the handlers `add_command`,
  `list_command`, `read_command`, `search_command` and `limit_command`.
  Each takes a `server` function that stands for the network.
- **dispatch.dfy** (`Dispatch`): the `__main__` block. `settings` runs
  without loading anything at that level. Every other command loads the
  settings with validation and runs only when the result is truthy. The
  block is modelled as written (`Run`) and with the corrected `settings`
  command (`RunCorrected`).

## Model

| member | source | states |
|---|---|---|
| Values.Truthy | readitlater.py:33 | a value is falsy exactly when it is `None`, `False`, `0` or the empty string |
| Order.Le | readitlater.py:100 | Python 2's `<=` on raw values: `None` comes before everything, only `None` comes before or ties with `None`, and a string never comes before a non-string |
| Order.LexLe | readitlater.py:100 | Python 2's `<=` on strings: a prefix comes first, a smaller first character decides the order either way, and only the empty string comes before or ties with the empty string |
| Order.LexLeTotal | readitlater.py:124 | any two strings compare one way or the other under Python 2 string ordering |
| Order.LexLeTransitive | readitlater.py:124 | string ordering is transitive |
| Order.LexLeAntisymmetric | readitlater.py:124 | two strings that compare both ways are equal |
| Order.LexLeFirstDifference | readitlater.py:124 | strings that agree up to an index and differ there compare as their characters at that index do |
| Order.LeTotal | readitlater.py:100 | any two raw `time_added` values are comparable (None < numbers < strings), so sorting is defined on every response |
| Order.LeTransitive | readitlater.py:100 | the mixed-type order on raw values is transitive |
| Order.LeTies | readitlater.py:100 | two raw values tie only when equal, or when one is a bool and the other an int with the same numeric value |
| Seqs.Filter | readitlater.py:124-125 | the comprehension keeps exactly the elements satisfying the test, in their original order (a subsequence), each as often as it occurred |
| Seqs.SubseqMembers | readitlater.py:124-125 | a subsequence holds only elements of the original |
| Sorting.InOrderTotal | readitlater.py:100 | for either direction, any two keys can be placed one before the other |
| Sorting.InOrderTransitive | readitlater.py:100 | for either direction, the placement order is transitive |
| Sorting.Insert | readitlater.py:100 | inserting into a sorted sequence keeps it sorted and adds exactly the new element |
| Sorting.Sort | readitlater.py:100 | `sorted` returns a permutation of its input, non-decreasing by key, or non-increasing when `reverse` is set |
| Sorting.SubseqSorted | readitlater.py:124-125 | items picked out of a sorted list without reordering stay sorted |
| Strings.Contains | readitlater.py:125 | `q in s`: the empty query and every prefix of `s` are in `s`, and a query longer than `s` is not |
| Strings.ContainsIffOccurs | readitlater.py:125 | `q in s` holds exactly when `q` occurs in `s` at some index |
| Strings.LacksFirstChar | readitlater.py:125 | a string without the query's first character does not contain the query |
| Strings.Split | readitlater.py:134 | `split` always returns at least one part, so `join` is always defined |
| Strings.Join | readitlater.py:125 | `sep.join(parts)` starts with the first part, and for two parts is the first, the separator and the second |
| Strings.Replace | readitlater.py:134 | reference definition: the string with every `from` replaced by `to`, character by character |
| Strings.JoinSplitIsReplace | readitlater.py:134 | `' '.join(s.split('-'))` is `s` with every `-` replaced by a space |
| Api.Params | readitlater.py:33-35 | every stored setting is present with its stored value and overrides the caller; a caller key not among the settings is present exactly when its value is truthy, and then keeps it; no other key appears |
| Api.Forwarded | readitlater.py:45-48 | a name with a leading underscore is never forwarded as an API method, while `add`, `get` and `api`, the methods the commands call, are |
| Api.Call | readitlater.py:31-37 | the request goes to exactly the base URL followed by the method name, with the parameters built as above, so every setting is sent |
| Api.Invoke | readitlater.py:45-48 | an attribute name becomes a request exactly when it has no leading underscore, is not `trait_names` and is not one of the object's own attributes; the request goes to base URL plus that name and carries every setting |
| Api.Header | readitlater.py:103 | a header lookup fails exactly when no header has that name, and otherwise returns the value of a header with that name |
| Commands.StatusReport | readitlater.py:102-103 | exactly one record: a status line exactly when some header pair is named `status`, holding the value of such a pair; otherwise the `KeyError` crash |
| Commands.ArticlesOf | readitlater.py:100 | `res.json.list` is available exactly when the body decoded to an article list, and then it is that list |
| Commands.AddCommand | readitlater.py:86-89 | one `add` request carrying the URL (dropped when empty, and sent with its value otherwise unless the settings hold a `url` key) and the credentials; a failure message exactly when the response is not ok |
| Commands.ListRequest | readitlater.py:94-98 | `count` is sent as 10 when the argument is falsy, otherwise as given; `since` is sent exactly when truthy; the credentials are sent; the target is `get` |
| Commands.ListOutput | readitlater.py:99-103 | on success the printed articles are a permutation of the returned ones, sorted by raw `time_added`, descending when `reverse` is set; otherwise the status line is printed |
| Commands.ListCommand | readitlater.py:92-103 | one `get` request to the base URL with the credentials, `count` defaulted to 10 and `since` sent exactly when truthy; on success with an article list, one record holding a permutation of the articles sorted by `time_added` (descending with `reverse`); on success without a list, the crash; otherwise the status report of the response; nothing is written |
| Commands.ReadCommand | readitlater.py:113-119 | one fetch of the page URL itself with no parameters at all, so no credentials; one record: the page exactly when the fetch is ok, and otherwise the status report of the response, which is the value of a `status` header pair when one exists and the `KeyError` crash when none does |
| Commands.Matches | readitlater.py:125 | an article matches exactly when the query is in its URL, a space and its title; the empty query matches every article |
| Commands.MatchesIffOccurs | readitlater.py:125 | an article matches exactly when the query occurs in its URL and title joined by a space |
| Commands.SearchResults | readitlater.py:124-125 | the printed articles are a subsequence of the ascending sort, are sorted, all match, and every matching article appears exactly as often as it was returned |
| Commands.SearchCommand | readitlater.py:122-127 | one `get` request carrying only the credentials; the response's status is not checked, and a body without an article list raises |
| Commands.IsLimitHeader | readitlater.py:133 | a selected header name is `x-limit` followed by the rest of the name |
| Commands.PrefixedIsLimitHeader | readitlater.py:133 | every name that starts with `x-limit` is selected |
| Commands.AfterPrefix | readitlater.py:134 | `k[8:]` has 8 characters fewer than the name (none when the name is shorter) and holds the name's characters from index 8 on |
| Commands.Label | readitlater.py:134 | the label is the name with its first 8 characters removed, each `-` turned into a space, and `:` appended; it contains no `-` |
| Commands.LimitHeaders | readitlater.py:132-133 | the selected headers are exactly those whose name starts with `x-limit`, in ascending name order, with their multiplicities |
| Commands.LimitReport | readitlater.py:133-134 | one line per selected header, in the same order, holding its label and its value; no label contains `-` |
| Commands.LimitCommand | readitlater.py:130-134 | one `api` request with the credentials; the report covers the selected headers of the response whatever its status |
| Commands.PrefixDropsEighthChar | readitlater.py:133-134 | the prefix test checks 7 characters but the slice drops 8: `x-limitq-a` is selected and labelled ` a:` |
| Commands.SearchExample | readitlater.py:125 | `foo` matches an article whose URL contains it and not one where it occurs nowhere |
| Commands.LabelExample | readitlater.py:134 | `x-limit-user-limit` is reported as `user limit:` |
| Commands.RemainingLabelExample | readitlater.py:134 | `x-limit-user-remaining` is reported as `user remaining:` |
| Settings.Missing | readitlater.py:78 | the missing list holds exactly the required keys absent from the settings, in the order username, password, apikey |
| Settings.Load | readitlater.py:67-82 | an absent file raises one error and a corrupt file another, and only those raise; a stored file comes back unchanged exactly when validation is off or no required key is missing; with validation and a required key missing, the result is the missing list, which is then non-empty |
| Settings.ValidationIff | readitlater.py:75-82 | validation succeeds exactly when every required key is present (presence only), and otherwise reports exactly the absent keys |
| Settings.Supplied | readitlater.py:147-151 | a key is supplied exactly when it is required and its option was given with a non-empty value, and it carries that value |
| Settings.Prior | readitlater.py:138-141 | corrected: the starting settings are the file's contents when it holds a map, even one lacking a required key, and otherwise exactly the required keys, each mapped to the empty string |
| Settings.Given | readitlater.py:149 | `getattr(args, opt)`: each required option reads its own argument; the loop at readitlater.py:148 asks for no other name, and the model returns `None` for one |
| Settings.Collect | readitlater.py:147-151 | the options collected are exactly those given with a non-empty value, with those values |
| Settings.Apply | readitlater.py:143-158 | `--show` prints the settings; with nothing supplied the usage text is printed and nothing written; otherwise the written map has the prior keys plus the supplied ones, supplied values replacing the old |
| Settings.SettingsCommand | readitlater.py:137-158 | corrected command: it never sends a request; `--show` prints the file's settings, or the scaffold of empty required keys when the file is absent or corrupt; with nothing supplied only usage is printed; otherwise exactly those starting settings with the supplied values laid over them are written |
| Settings.WithoutSettings | readitlater.py:143-154 | after `False` comes back the output is the missing-keys report followed by the usage text when nothing is supplied and `--show` is not given, and by the crash otherwise; nothing is sent or written |
| Settings.SettingsCommandAsWritten | readitlater.py:137-158 | as written: with an incomplete file the missing keys are reported, then the run crashes unless it only prints usage, and nothing is ever written |
| Settings.AsWrittenAgreesOtherwise | readitlater.py:137-141 | apart from an incomplete file, the command as written and the corrected one behave identically |
| Settings.SettingsWriteMerges | readitlater.py:147-156 | a write keeps every key not supplied, and a required key is still missing afterwards exactly when it was missing and not supplied |
| Settings.SettingsWriteReloads | readitlater.py:156-158 | when the old file validated or was unusable, the written settings validate on the next load and come back unchanged |
| Settings.LackingIsIncomplete | readitlater.py:75-79 | a stored file lacking some required key fails validation with its missing list |
| Settings.SuppliesAllKeys | readitlater.py:147-151 | giving every required option supplies every required key, so something is supplied |
| Settings.AsWrittenCrashes | readitlater.py:139-156 | as written: with a file lacking a required key and every option given, the run crashes and nothing is written |
| Settings.CorrectedRepairs | readitlater.py:147-158 | corrected: with every option given, the written settings validate on the next load |
| Settings.IncompleteFileCannotBeRepaired | readitlater.py:139-156 | with an incomplete file and every required option supplied, the command as written crashes and writes nothing; the corrected one writes settings that validate |
| Settings.MissingExample | readitlater.py:78-81 | a file holding only a username lacks `password` and `apikey`, in that order |
| Settings.SuppliedExample | readitlater.py:147-151 | `--apikey k --password pw` supplies exactly those two keys |
| Settings.IncompleteFileCrashExample | readitlater.py:139-156 | that file and those options, as written: the missing keys are reported, then the run crashes and nothing is written |
| Settings.IncompleteFileRepairExample | readitlater.py:147-158 | the same case corrected: username, password and apikey are written |
| Dispatch.Proceeds | readitlater.py:208 | `if settings:` passes only validated settings, and passes every validated map that holds a key |
| Dispatch.Execute | readitlater.py:209-210 | every command that gets the client sends exactly one request and writes nothing; all but `read` go to the API with the credentials, and `read` sends the bare page URL |
| Dispatch.Gated | readitlater.py:206-210 | a command other than `settings` sends at most one request, and sends one exactly when validated loading returned truthy settings; then the selected command runs with a client holding the loaded settings and the default base URL; otherwise it reports the load error or the missing keys; it writes nothing, and every API request carries the loaded settings |
| Dispatch.Run | readitlater.py:204-210 | as written: `settings` sends nothing; with an incomplete file it reports the missing keys, then prints usage when nothing is supplied and `--show` is not given and crashes with the `AttributeError` otherwise, and writes nothing; with any other file it behaves as the corrected command; any other command writes nothing and reaches the network exactly when the settings file exists, parses and validates; then it is the selected command run with a client holding those settings and the default base URL; otherwise the output is the load error's crash or the missing-keys report |
| Dispatch.RunCorrected | readitlater.py:204-210 | corrected: `settings` merges the supplied keys into the file as it stands, and every other command runs as written |
| Dispatch.CorrectionOnlyAffectsIncomplete | readitlater.py:139-141 | the program as written and as corrected differ only for `settings` with a file that exists, parses and lacks a required key |
| Dispatch.GateAdmitsValidated | readitlater.py:207-208 | the truthiness gate passes exactly the validated settings, which are exactly the files that exist, parse and hold every required key |
| Dispatch.CredentialsSent | readitlater.py:207-210 | every request from a command other than `read` carries username, password and apikey with the values from the settings file |

## Left out

- HTTP (`requests.get`) and JSON decoding are left out. A response is an opaque value with an `ok` flag, header pairs in server order, and an optional body that either holds an article list or does not. A body that fails to decode is a body without a list.
- The response header dictionary's case-insensitive lookup is left out. Names are compared exactly.
- File-system work is left out: `os.path.exists`, `make_dir` and its `EEXIST` handling, and reading and writing `settings.json`. The file is a parameter: absent, corrupt, or holding a map. A write is returned as the map that would be dumped.
- Settings values are modelled as strings. JSON allows other value types in the file; the code only passes them through.
- `format_date` and `datetime.fromtimestamp(float(...))` are left out. They depend on floating point, the local time zone and the locale. Articles are printed as records, not formatted lines.
- For `read`, the readability and html2text rendering is left out. Only the fetch and the status fallback are modelled (`PageText` stands for the rendered page).
- argparse, the stdout codec wrapper and `AttrDict` attribute access are left out; attributes are plain field and map lookups. The parser declares `--count` and `--since` as `store_true` flags, so the program can only pass `True` or `False` for them. `Commands.ListArgs` accepts any value, which covers that case and the numeric values the options' help text describes.
- All printing is left out. Output is a sequence of records, and exceptions that escape become a final `Crash` record.
- Sorting.Sort: stability (equal keys keep their input order) is built into the insertion but not stated. The input order is a Python 2 dictionary's iteration order, which the program does not control.
- Commands.LimitHeaders: the headers are sorted by name only. The source sorts (name, value) pairs, but header names in a dictionary are distinct, so the value never decides the order.
- Settings.Load: validation checks only that each key is present. A key mapped to an empty string passes, as the code does; nothing requires the stored values to be non-empty.
- Values.Value: a raw `time_added` is assumed to be null, a bool, an integer or a string. Floats, lists and dictionaries, which JSON also allows and Python 2 also orders, are not modelled, so `Order.Le` does not cover them.
- Commands.ListOutput: does not model the crash of `format_date` on each printed article. `float(item.time_added)` raises `TypeError` for `None` and `ValueError` for a string that is not a number, so with such a value the real program stops printing at that article. The model prints every article.
- Commands.SearchResults: does not model two crashes. `float(item.time_added)` before printing a match raises on `None` or a non-numeric string. `args.query in ...` raises `UnicodeDecodeError` when the query, a byte string, holds a non-ASCII byte and the title or URL is a unicode string. The model compares the characters directly.

## Findings

| source | as written | input that shows it | evidently intended | confidence | as-written member | corrected member |
|---|---|---|---|---|---|---|
| readitlater.py:139-156 | `settings_command` calls `load_settings()` with its default `validate=True`. For a file missing a required key, that reports the missing keys and returns `False`. `False.items()` (with `--show`) or `False.update(...)` (when options are given) then raises `AttributeError`, so the only way to complete an incomplete file is to edit it by hand. | a settings file holding only `{"username": "ann"}` and the command `settings --apikey k --password pw` | load without validation and merge the supplied keys into the partial file, writing username, password and apikey | high; not executed | Settings.SettingsCommandAsWritten, Settings.AsWrittenCrashes, Settings.IncompleteFileCrashExample, Dispatch.Run | Settings.SettingsCommand, Settings.CorrectedRepairs, Settings.IncompleteFileCannotBeRepaired, Settings.IncompleteFileRepairExample, Dispatch.RunCorrected |
