# TravisYmlStats in Dafny

A model of `Travis::TravisYmlStats`. For each build request, this class reads the request's parsed
`.travis.yml` and its event payload. From them it builds a nested analytics payload (`keen_payload`)
and hands the finished payload once to a publisher.

The model has five modules:

- `RubyValues` (ruby_values.dfy) covers the dynamically typed YAML/JSON values and their Ruby built-ins: truthiness, `to_s` and `inspect`.
- `StringSort` (string_sort.dfy) gives `Array#sort` on strings. It proves a sorted permutation is unique.
- `NestedHash` (nested_hash.dfy) is the payload: a hash from symbols to values or to nested hashes. It also gives `AssignIn`, the write that `set` performs, stated as a function, with its properties.
- `ConfigRules` (config_rules.dfy) covers the pure helpers:
  - `travis_yml_language`;
  - the version lists of `set_language_version`;
  - `commands`, with its whole-word `sudo`/`apt-get` scan;
  - `github_language`;
  - `normalize_string`.
- `Travis` (travis_yml_stats.dfy) holds the `TravisYmlStats` class.
  - Its `keenPayload` field is updated in place by `Set` and by the setters.
  - `StoreStats` runs the setters in order and calls the publisher.
  - `StatsPayload` describes the finished payload, and lemmas state its shape.

`set` walks the path with a loop, as the source does. Where Ruby keeps a reference `hsh` to the current
inner hash, the model keeps the path prefix already followed. The loop invariants tie every step to
`AssignIn`.

Ruby raises in two places where the model returns a result instead:
- `set` on an empty path, or through a truthy non-hash value. `Set` then returns `false` with the payload unchanged; no change has been made before Ruby would raise.
- `github_language` on a `repository` entry that is neither a Hash, a String nor a Symbol. The model returns an `Err` with the exception class, and `StoreStats` stops there.

## Model

| member | source | states |
|---|---|---|
| Travis.Publisher.constructor | lib/travis/travis_yml_stats.rb:30 | a new publisher has received nothing |
| Travis.TravisYmlStats.constructor | lib/travis/travis_yml_stats.rb:34-38 | a new object keeps the request and publisher and starts with an empty payload |
| Travis.StoreStats | lib/travis/travis_yml_stats.rb:30-32 | `store_stats(request, publisher)` publishes `StatsPayload(request, gh)` exactly once when the GitHub language can be read, and publishes nothing when reading it raises |
| Travis.TravisYmlStats.StoreStats | lib/travis/travis_yml_stats.rb:40-48 | starting from an empty payload, the finished payload is `StatsPayload` and the publisher's record grows by exactly that payload; when `github_language` raises, the payload holds only `repository_id` and `language`, and nothing is published |
| Travis.Publisher.PerformAsync | lib/travis/travis_yml_stats.rb:47 | the publisher records the payload it is handed, after the ones it already had |
| Travis.TravisYmlStats.Set | lib/travis/travis_yml_stats.rb:54-63 | the loop succeeds exactly when `AssignIn` is defined, and the new payload is `AssignIn(old payload, path, value)`; on failure the payload is unchanged |
| NestedHash.Get | lib/travis/travis_yml_stats.rb:59 | reading the payload along a path of keys, as `hsh = hsh[key]` does step by step; none where a key is missing or a non-hash value is in the way |
| NestedHash.PutAt | lib/travis/travis_yml_stats.rb:58-62 | storing an entry under a key of the nested hash at a path (`hsh[key] = ...`), with the hashes above it otherwise unchanged; `PutAtGet` reads it back |
| NestedHash.AssignIn | lib/travis/travis_yml_stats.rb:54-63 | the payload `set(path, value)` produces, or none where Ruby raises; it is the function `Set` is proved against, and the lemmas below state its properties |
| NestedHash.AssignThenGet | lib/travis/travis_yml_stats.rb:54-63 | after `set(path, value)`, reading along `path` yields `value` |
| NestedHash.AssignMakesNodes | lib/travis/travis_yml_stats.rb:57-60 | every proper prefix of the path is a hash afterwards |
| NestedHash.AssignFrame | lib/travis/travis_yml_stats.rb:54-63 | every path that is neither a prefix nor an extension of `path` reads the same before and after, so existing intermediate hashes keep their other keys (`\|\|=` reuses them) |
| NestedHash.AssignDefined | lib/travis/travis_yml_stats.rb:55-62 | `set` succeeds iff the path is non-empty and no truthy non-hash value lies at a proper prefix of it |
| RubyValues.Truthy | lib/travis/travis_yml_stats.rb:58 | the test `\|\|=` makes: only nil and false are falsy |
| NestedHash.Descend | lib/travis/travis_yml_stats.rb:58-59 | one step of the walk fails iff a truthy non-hash value sits under the key, and an existing hash is reused |
| NestedHash.VivifyKeepsAssign | lib/travis/travis_yml_stats.rb:58 | inserting the missing `{}` at a step of the walk does not change the final result of the `set` |
| NestedHash.AssignBlocked | lib/travis/travis_yml_stats.rb:58-59 | meeting a truthy non-hash value at a step of the walk makes the whole `set` fail |
| NestedHash.AssignAtNode | lib/travis/travis_yml_stats.rb:62 | once the walk stands at a hash, the `set` is one store under the last key |
| NestedHash.PutAtGet | lib/travis/travis_yml_stats.rb:62 | storing under a key of the hash at a path is read back along path + key |
| NestedHash.GetSnoc | lib/travis/travis_yml_stats.rb:59 | reading path + key is reading the key in the hash at the path |
| NestedHash.DescendGet | lib/travis/travis_yml_stats.rb:58-59 | reading below a key after a step reads the hash that step yields |
| Travis.TravisYmlStats.SetBasicInfo | lib/travis/travis_yml_stats.rb:65-67 | `repository_id` is set to the request's repository id and nothing else changes |
| Travis.TravisYmlStats.SetLanguage | lib/travis/travis_yml_stats.rb:69-72 | `language` is set first; then `github_language` is set to the value read, or the outcome is the exception and `github_language` stays unset |
| Travis.TravisYmlStats.SetLanguageVersion | lib/travis/travis_yml_stats.rb:74-85 | the loop over the version keys adds exactly `VersionPart(config, LanguageVersionKeys)` to the payload: a `language_version` hash with one entry per present key, and no hash when none is present |
| Travis.AssignVersion | lib/travis/travis_yml_stats.rb:79-81 | `set [:language_version, key]` on the partial payload gives the payload with that key's entry added |
| Travis.TravisYmlStats.SetUsesSudo | lib/travis/travis_yml_stats.rb:87-89 | `uses_sudo` is set to whether some command matches `\bsudo\b`, and nothing else changes |
| Travis.TravisYmlStats.SetUsesAptGet | lib/travis/travis_yml_stats.rb:91-93 | `uses_apt_get` is set to whether some command matches `\bapt-get\b`, and nothing else changes |
| Travis.StatsPayload | lib/travis/travis_yml_stats.rb:40-48 | the payload `store_stats` finishes with: the basic info and language, the GitHub language, the version part and the two flags; its shape is stated by the lemmas below |
| Travis.StatsPayloadShape | lib/travis/travis_yml_stats.rb:40-48 | the finished payload has exactly `repository_id`, `language`, `github_language`, `uses_sudo` and `uses_apt_get`, plus `language_version` iff some version key is configured; each fixed key holds the value its rule gives |
| Travis.VersionPartKeys | lib/travis/travis_yml_stats.rb:74-85 | the `language_version` hash is created iff some version key is configured |
| Travis.StatsPayloadFixed | lib/travis/travis_yml_stats.rb:65-72 | in the finished payload, `repository_id`, `language`, `github_language`, `uses_sudo` and `uses_apt_get` hold the values their rules give |
| Travis.LanguageVersionSparse | lib/travis/travis_yml_stats.rb:16-28 | `language_version.<k>` exists iff k is one of the 11 version keys and the configuration has it, and then it holds that key's version list |
| Travis.OnlyVersionKeysRecorded | lib/travis/travis_yml_stats.rb:16-28 | under `language_version` appear only keys among `ghc`, `go`, `jdk`, `node_js`, `otp_release`, `perl`, `php`, `python`, `ruby`, `rvm` and `scala` that the configuration has |
| Travis.VersionEntriesKeys | lib/travis/travis_yml_stats.rb:16-28 | the version entries are keyed only by the eleven version keys the configuration has |
| Travis.TwoVersions | lib/travis/travis_yml_stats.rb:79 | a two-element version array whose second string sorts first is recorded in swapped order |
| Travis.RubyVersionsSorted | lib/travis/travis_yml_stats.rb:79 | `ruby: ["2.0", "1.9"]` is recorded as `["1.9", "2.0"]` |
| ConfigRules.Lookup | lib/travis/travis_yml_stats.rb:117 | `Hash#[]`: the stored value, or nil when the key is absent |
| ConfigRules.TravisYmlLanguage | lib/travis/travis_yml_stats.rb:116-126 | the language is the configured String itself, `"default"` when the key is absent or nil, and `"invalid"` for any other type |
| ConfigRules.ArrayOf | lib/travis/travis_yml_stats.rb:79 | `Kernel#Array` on the two accepted types: a String becomes a one-element array, an Array is itself |
| ConfigRules.ToSAll | lib/travis/travis_yml_stats.rb:79 | `map(&:to_s)`: same length, and each element is that value's `to_s` |
| ConfigRules.VersionList | lib/travis/travis_yml_stats.rb:77-82 | for a String or an Array, the list is a sorted permutation of the stringified elements, with the same length and duplicates kept; a lone String gives a one-element list; any other type, nil included, gives `["invalid"]` |
| ConfigRules.VersionListIs | lib/travis/travis_yml_stats.rb:79 | any sorted arrangement of an array's stringified elements is exactly the recorded version list |
| ConfigRules.VersionListOrderFree | lib/travis/travis_yml_stats.rb:79 | two arrays with the same stringified elements, in any order, give the same list |
| StringSort.Le | lib/travis/travis_yml_stats.rb:79 | the `String#<=>` order: lexicographic by character code, a proper prefix first; `LeReflexive`, `LeTotal`, `LeAntisymmetric` and `LeTransitive` show it is a total order |
| StringSort.Sort | lib/travis/travis_yml_stats.rb:79 | the result is sorted by `String#<=>` and is a permutation of the input |
| StringSort.Insert | lib/travis/travis_yml_stats.rb:79 | inserting into a sorted list keeps it sorted and adds exactly the element |
| StringSort.SortedUnique | lib/travis/travis_yml_stats.rb:79 | two sorted permutations of the same strings are equal, so `sort`'s result does not depend on the algorithm |
| StringSort.SameHead | lib/travis/travis_yml_stats.rb:79 | two sorted permutations of the same strings start with the same string |
| StringSort.LeTotal | lib/travis/travis_yml_stats.rb:79 | `String#<=>` relates any two strings |
| StringSort.LeTransitive | lib/travis/travis_yml_stats.rb:79 | `String#<=>` order is transitive |
| StringSort.LeAntisymmetric | lib/travis/travis_yml_stats.rb:79 | strings ordered both ways are equal |
| StringSort.LeReflexive | lib/travis/travis_yml_stats.rb:79 | every string is ordered before or equal to itself |
| ConfigRules.Flatten | lib/travis/travis_yml_stats.rb:113 | `Array#flatten`: nested arrays are spliced in recursively; its properties are stated by `FlattenNoArrays`, `FlattenMembers` and `FlattenAppend` |
| ConfigRules.FlattenNoArrays | lib/travis/travis_yml_stats.rb:113 | `flatten` leaves no array in its result |
| ConfigRules.Compact | lib/travis/travis_yml_stats.rb:113 | `compact` keeps exactly the non-nil elements |
| ConfigRules.PhaseValues | lib/travis/travis_yml_stats.rb:104-112 | the list has one value per phase, the configured value or nil, in phase order |
| ConfigRules.Commands | lib/travis/travis_yml_stats.rb:103-114 | no command is an array or nil |
| ConfigRules.CommandsInPhaseOrder | lib/travis/travis_yml_stats.rb:103-114 | the command list is the commands of `before_install`, `install`, `before_script`, `script`, `after_success`, `after_failure`, `before_deploy` and `after_deploy`, concatenated in that order |
| ConfigRules.ConcatPhasesIsCommands | lib/travis/travis_yml_stats.rb:103-114 | flattening and compacting the phase values equals concatenating each phase's own commands |
| ConfigRules.FlattenAppend | lib/travis/travis_yml_stats.rb:113 | `flatten` distributes over concatenation |
| ConfigRules.CompactAppend | lib/travis/travis_yml_stats.rb:113 | `compact` distributes over concatenation |
| ConfigRules.FlattenMembers | lib/travis/travis_yml_stats.rb:113 | a value is in the flattened list iff it is a non-array value at some depth inside some element |
| ConfigRules.CommandsOfMembers | lib/travis/travis_yml_stats.rb:103-114 | a phase contributes exactly the non-nil values at any depth inside it |
| ConfigRules.CommandsOfString | lib/travis/travis_yml_stats.rb:103-114 | a phase given as one String contributes that one command |
| ConfigRules.CommandsOfNil | lib/travis/travis_yml_stats.rb:103-114 | an absent or nil phase contributes nothing |
| ConfigRules.NoPhasesNoCommands | lib/travis/travis_yml_stats.rb:103-114 | a configuration without command phases has no commands |
| ConfigRules.FlattenFlat | lib/travis/travis_yml_stats.rb:113 | `flatten` leaves an array without nested arrays unchanged |
| ConfigRules.CompactNoNil | lib/travis/travis_yml_stats.rb:113 | `compact` leaves an array without nils unchanged |
| ConfigRules.CommandsOfFlatList | lib/travis/travis_yml_stats.rb:103-114 | a phase given as a list of plain commands contributes that list |
| ConfigRules.ScriptOnlyCommands | lib/travis/travis_yml_stats.rb:103-114 | a configuration whose only phase is a `script` list has exactly those commands |
| ConfigRules.IsWordChar | lib/travis/travis_yml_stats.rb:88 | `\w`: an ASCII letter, digit or underscore |
| ConfigRules.WordBoundary | lib/travis/travis_yml_stats.rb:88 | `\b` at a position: a word character on exactly one side |
| ConfigRules.MatchesAt | lib/travis/travis_yml_stats.rb:88 | `/\bw\b/` matches at an index: the word occurs there with a boundary before and after it |
| ConfigRules.ContainsWord | lib/travis/travis_yml_stats.rb:88 | `/\bw\b/` matches somewhere in the text |
| ConfigRules.MatchText | lib/travis/travis_yml_stats.rb:88 | the text `=~` matches: a String's text or a Symbol's name; any other value never matches |
| ConfigRules.FirstMatch | lib/travis/travis_yml_stats.rb:88 | the regex scan returns the leftmost whole-word match, or none when there is no match |
| ConfigRules.RegexIndex | lib/travis/travis_yml_stats.rb:88 | `command =~ /\bw\b/` is non-nil iff the command is a String or a Symbol whose text contains `w` as a whole word |
| ConfigRules.AnyMatch | lib/travis/travis_yml_stats.rb:87-93 | `any?` is true iff some command is a String or a Symbol whose text contains the word with a boundary on both sides |
| ConfigRules.UsesSudo | lib/travis/travis_yml_stats.rb:88 | `uses_sudo` is true iff some command's text contains `sudo` as a whole word |
| ConfigRules.UsesAptGet | lib/travis/travis_yml_stats.rb:92 | `uses_apt_get` is true iff some command's text contains `apt-get` as a whole word |
| ConfigRules.WholeWord | lib/travis/travis_yml_stats.rb:88 | for `sudo`-like words, a boundary on each side means no word character immediately before and none immediately after |
| ConfigRules.NoSudoIn | lib/travis/travis_yml_stats.rb:88 | `pseudo ls` and `cat sudoers` contain no whole-word `sudo` |
| ConfigRules.SudoInsideWords | lib/travis/travis_yml_stats.rb:87-89 | `pseudo` and `sudoers` do not count as uses of sudo |
| ConfigRules.SudoAptGetScript | lib/travis/travis_yml_stats.rb:87-93 | a `script` of `sudo apt-get update` uses both sudo and apt-get |
| ConfigRules.NoPhasesNoPrivilegedCommands | lib/travis/travis_yml_stats.rb:87-93 | a configuration without command phases uses neither sudo nor apt-get |
| ConfigRules.Includes | lib/travis/travis_yml_stats.rb:129 | `String#[]` with a String argument finds it: the text occurs at some index |
| ConfigRules.GithubLanguage | lib/travis/travis_yml_stats.rb:128-130 | nil when the event payload has no `repository`; a Hash gives its `language` entry, or nil if absent; the read raises iff `repository` is present and is neither a Hash, a String nor a Symbol |
| ConfigRules.Downcase | lib/travis/travis_yml_stats.rb:133 | `downcase` lower-cases each ASCII letter and keeps the length |
| ConfigRules.NormalizeString | lib/travis/travis_yml_stats.rb:132-134 | the output holds only lower-case letters, digits and `.:-_`, so no `#` |
| ConfigRules.ReplaceSharp | lib/travis/travis_yml_stats.rb:133 | `gsub("#", "-sharp")`, character by character; its properties are stated by `ReplaceSharpChars` and `ReplaceSharpAppend` |
| ConfigRules.ReplaceSharpChars | lib/travis/travis_yml_stats.rb:133 | `gsub("#", "-sharp")` leaves no `#`, and each character it returns comes from the input or from `-sharp` |
| ConfigRules.KeepAllowed | lib/travis/travis_yml_stats.rb:133 | `gsub(/[^A-Za-z0-9.:\-_]/, "")`, character by character; its properties are stated by `KeepAllowedChars` and `KeepAllowedAppend` |
| ConfigRules.KeepAllowedChars | lib/travis/travis_yml_stats.rb:133 | every character left is allowed and comes from the input |
| ConfigRules.NormalizeAppend | lib/travis/travis_yml_stats.rb:132-134 | `normalize_string` works character by character, so it distributes over concatenation |
| ConfigRules.NormalizeOneChar | lib/travis/travis_yml_stats.rb:132-134 | one character becomes `-sharp` when it is `#`, its lower case when allowed, and nothing otherwise |
| ConfigRules.NormalizeKeepsNormal | lib/travis/travis_yml_stats.rb:132-134 | a string made only of such characters is left unchanged |
| ConfigRules.NormalizeIdempotent | lib/travis/travis_yml_stats.rb:132-134 | normalising twice equals normalising once |
| ConfigRules.NormalizeCSharp | lib/travis/travis_yml_stats.rb:132-134 | `"C#"` becomes `"c-sharp"` |
| ConfigRules.ReplaceSharpAppend | lib/travis/travis_yml_stats.rb:133 | `gsub("#", "-sharp")` distributes over concatenation |
| ConfigRules.KeepAllowedAppend | lib/travis/travis_yml_stats.rb:133 | removing the disallowed characters distributes over concatenation |
| RubyValues.NatToString | lib/travis/travis_yml_stats.rb:79 | `Integer#to_s` of a natural number: decimal digits that denote the number, with no leading zero |
| RubyValues.IntToString | lib/travis/travis_yml_stats.rb:79 | `Integer#to_s`: a minus sign before the digits of the magnitude for a negative number, and the digits alone otherwise |
| RubyValues.ToS | lib/travis/travis_yml_stats.rb:79 | `to_s` of each element the version rule stringifies: a String itself, a Symbol its name, an Integer its digits, nil the empty string, an Array its `inspect` |
| RubyValues.Inspect | lib/travis/travis_yml_stats.rb:79 | `inspect`, which `Array#to_s` applies to nested elements: a String quoted, a Symbol with a leading colon, nil as `nil`, an Array bracketed and comma-separated |

## Left out

- `KeenPublisher` (lines 6-14) is a Sidekiq worker that calls `Keen.publish`, which means queueing and the network. The publisher is modelled as a sink that records every payload it is handed. The default `publisher=KeenPublisher` argument becomes an explicit parameter.
- Ruby's regex engine is not modelled. `\b` uses ASCII word characters `[A-Za-z0-9_]`. A String command matches on its text and a Symbol command on its name, since `Symbol#=~` matches the name. Any other command (an Integer, a Hash or a Float left after `flatten`) never matches, as `Object#=~` returns nil before Ruby 3.2. Ruby 3.2 removed `Object#=~`, so there such a command raises NoMethodError; the model does not capture that.
- ConfigRules.Downcase: lower-cases ASCII letters only. Ruby's Unicode `downcase` would also map, for example, the Kelvin sign to an ASCII `k`, which `normalize_string` then keeps.
- RubyValues.ToS: the `to_s` of a Hash inside a version list is a fixed placeholder, because Ruby's text depends on key insertion order. `inspect` of a String inside a nested array does not escape quotes or control characters, and `inspect` of a Symbol whose name needs quoting (`:"a b"`) is written without the quotes. A Float or a Date carries both its `to_s` and its `inspect` text, so a nested Date keeps its `#<Date: …>` form.
- RubyValues.Inspect: a String is quoted without escaping its quotes or control characters; a Symbol whose name needs quoting (`:"a b"`) is written without the quotes; a Hash is the fixed placeholder `{...}`, because Ruby's text depends on key insertion order.
- Payload keys are Ruby symbols, modelled by their names, so `key.to_sym` is the identity on keys.
- Travis.TravisYmlStats.Set: a truthy Hash *value* stored as a leaf (as opposed to a hash that `set` itself built) is treated like any other truthy non-hash value, and the walk fails there. Ruby would walk into it. No setter walks through such a leaf. The only path with more than one key is `[:language_version, key]`, and `language_version` only ever holds a hash that `set` built itself. A Hash value can be stored, as `github_language`, but only as the last key of a one-key path.
- Travis.TravisYmlStats.Set: where Ruby raises (`nil.to_sym` on an empty path, `[]=` on a String or Integer), the model returns `false` with the payload unchanged. Ruby also makes no change before raising.
- Travis.TravisYmlStats.StoreStats: requires an empty payload. The class method `store_stats` always builds a fresh object, and calling `store_stats` twice on one object is not modelled.
- Hash insertion order of the payload and of the configuration is not modelled.
- The request's `config` is taken to be a Hash and its event `payload` a Hash with string keys; a nil config, where Ruby raises on `config["language"]`, is not modelled.
- Fetching and parsing the `.travis.yml` (the `FetchConfig` service exercised by spec/travis/github/services/fetch_config_spec.rb, with its redaction, result tagging and key gating) is outside this model, which starts from the parsed configuration.