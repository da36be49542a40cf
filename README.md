# Naming engine of pulumi_auto_naming, modelled in Dafny

The naming engine turns a resource type descriptor such as
`aws:ec2/instance:Instance` into a logical name
`{product}-{envLetter}-{code}-{NNN}`. It has two parts.

- `auto/naming/naming.py` splits the descriptor on `:`. It abbreviates the
  third segment to its uppercase letters, lower-cased. This part is pure and
  lives in module `Naming` (`naming.dfy`).
- `auto/naming/default_naming.py` chooses the resource code: the override
  table `type_to_type` for six type names, the abbreviation otherwise. It
  builds the prefix `product-e-code` and counts the registry entries matching
  `prefix-*`. It appends that count plus one, padded to three digits, and adds
  the name to the registry. This part is imperative. It lives in module
  `DefaultNaming` (`default_naming.dfy`) as the class
  `DefaultNaming.DefaultNaming`, whose field `logicalNames: set<string>` is the
  registry.

Module `Strings` (`strings.dfy`) models the Python string built-ins the core
uses: `str.split` with a one-character separator and the format `{:03d}`. Its
`StartsWith` is the test that stands in for `fnmatch.fnmatch` on the
trailing-`*` patterns the engine builds.

The two failures of the source are both `IndexError`s. The model returns them
as `Result.Err`:

- `MalformedDescriptor`: a descriptor with fewer than two colons, where
  `split[2]` fails.
- `EmptyEnvironmentName`: an empty environment name, where `[0]` fails.

The parse happens first, as in the source.

The class carries one ghost field, `counts`. It records, for each resource
code, how many names were issued under it. The class invariant `Valid()` says
that the registry is exactly the set of names `prefix(code)-001 …
prefix(code)-counts[code]`, over all codes. From this invariant the model
proves the following:

- `get_logical_name_count` returns `counts[code]`.
- Each returned name is new.
- Sequence numbers run 1, 2, … per code.
- Different codes do not interfere.

Every name `GetName` returns is absent from the registry before the call and
present after it. The registry never loses an element. So all names one
engine returns are pairwise distinct. The client methods
`DefaultNaming.SameCodeSession` and `DefaultNaming.OtherCodeSession` state
this for a new engine: two resources of one code get `-001` and `-002`, and a
resource of another code starts again at `-001`.

Two assumptions about `fnmatch.fnmatch` are preconditions of `GetName`. The
engine only ever builds patterns `prefix-*`. The model treats such a pattern as
"starts with `prefix-`". `DefaultNaming.FnMatch` proves that this prefix test
agrees with the shell-style matcher `DefaultNaming.GlobMatch` on such
patterns. It agrees with `fnmatch` when matching is case-sensitive and when the
product code and the first letter of the environment name contain no glob
metacharacter (`*`, `?`, `[`).

A descriptor is usually written `pkg:module:type`. The code splits on every
`:` and reads only the first three pieces, so it also accepts longer
descriptors and ignores the extra segments. The model follows the code:
see `Naming.ParseResourceUniqueTypeName` and `Naming.ParseDescriptorOf`.

## Model

| member | source | states |
|---|---|---|
| Naming.GetResourceTypeShort | auto/naming/naming.py:18-21 | the short code consists of uppercase letters only and is as long as the type has uppercase letters, hence at most as long as the type |
| Naming.TypeShortIsSubsequence | auto/naming/naming.py:18-21 | the short code keeps characters of the type, in their order |
| Naming.TypeShortUnique | auto/naming/naming.py:18-21 | any uppercase-only subsequence of the type as long as its uppercase count is the short code: exactly the uppercase letters, in order, and nothing else |
| Naming.TypeShortEmpty | auto/naming/naming.py:19-21 | the short code is empty if and only if the type has no uppercase letter |
| Naming.TypeShortAppend | auto/naming/naming.py:18-21 | the short code of a concatenation is the concatenation of the short codes |
| Naming.LowerTypeShortIsLower | auto/naming/naming.py:14 | the lower-cased short code consists of lowercase letters only |
| Naming.ToLower | auto/naming/naming.py:14 | an uppercase letter becomes the lowercase letter at the same position of the alphabet; any other character stays as it is |
| Naming.Lower | auto/naming/naming.py:14 | `.lower()` keeps the length and lower-cases each character in place |
| Naming.TypeShortSubnetGroup | auto/naming/naming.py:18-21 | `SubnetGroup` abbreviates to `SG` |
| Naming.TypeShortLoadBalancer | auto/naming/naming.py:18-21 | `LoadBalancer` abbreviates to `LB` |
| Naming.TypeShortBucket | auto/naming/naming.py:18-21 | `Bucket` abbreviates to `B` |
| Naming.ParseResourceUniqueTypeName | auto/naming/naming.py:11-16 | parsing succeeds if and only if the descriptor has at least two colons; the three segments hold no colon; `type_short` is the lower-cased short code of the third segment |
| Naming.ParsedSegmentsLead | auto/naming/naming.py:12-16 | `pkg:module:type` rebuilt from a parse is a prefix of the descriptor and is followed by its end or by a further `:`, so later segments are ignored |
| Naming.ParseDescriptorOf | auto/naming/naming.py:12-16 | a descriptor `pkg:module:type` followed by nothing or by further `:`-segments parses to exactly `pkg`, `module`, `type` and the type's lower-cased short code |
| Strings.Split | auto/naming/naming.py:12 | `str.split` yields one more piece than there are separators, and no piece contains the separator |
| Strings.JoinSplit | auto/naming/naming.py:12 | joining the pieces of a split with the separator gives back the input |
| Strings.SplitJoin | auto/naming/naming.py:12 | splitting a join of separator-free pieces gives back the pieces |
| DefaultNaming.TableCodes | auto/naming/default_naming.py:5-12 | every code of the override table `type_to_type` (the constant `DefaultNaming.TypeToType`, with the same six entries) consists of lowercase letters and digits |
| DefaultNaming.ResourceCode | auto/naming/default_naming.py:27-31 | the chosen code of a parsed descriptor consists of lowercase letters and digits, so it holds no `-` and no glob metacharacter |
| DefaultNaming.DescriptorCode | auto/naming/default_naming.py:25-31 | for any descriptor `pkg:module:type…`, the code is the table's entry when the type is a key of `type_to_type` and the lower-cased abbreviation otherwise |
| DefaultNaming.InstanceCode | auto/naming/default_naming.py:25-31 | end to end, `aws:ec2/instance:Instance` parses and gets the table's code `ec2` |
| DefaultNaming.RecordAndRoleCollide | auto/naming/default_naming.py:5-12 | `Record` and `Role` share the abbreviation `r`; the table gives them different codes |
| DefaultNaming.Prefix | auto/naming/default_naming.py:33 | the prefix `product-e-code` is glob-free when the product code, the environment letter and the code are |
| DefaultNaming.ExamplePrefix | auto/naming/default_naming.py:33 | product `app` in environment `prod` with code `ec2` gives the prefix `app-p-ec2` |
| DefaultNaming.Pattern | auto/naming/default_naming.py:36 | the pattern `prefix-*` of a glob-free prefix is a trailing-`*` pattern whose literal part is `prefix-` |
| DefaultNaming.GlobPrefixMatch | auto/naming/default_naming.py:46 | under shell-style matching, a glob-free literal followed by `*` matches exactly the names that start with the literal |
| DefaultNaming.FnMatch | auto/naming/default_naming.py:46 | the prefix test used for `fnmatch.fnmatch` on a trailing-`*` pattern gives the same answer as the shell-style matcher `GlobMatch` |
| DefaultNaming.LogicalName | auto/naming/default_naming.py:38 | the name starts with the prefix and `-`, followed by at least three more characters |
| DefaultNaming.LogicalNameNumber | auto/naming/default_naming.py:38 | the characters after the prefix's `-` are digits that read back as the sequence number, exactly three of them below 1000 |
| DefaultNaming.LogicalNameInjective | auto/naming/default_naming.py:38 | two names under one prefix are equal if and only if their sequence numbers are |
| DefaultNaming.FirstNames | auto/naming/default_naming.py:38 | the first two names under a prefix end in `-001` and `-002` |
| DefaultNaming.CodeIsolation | auto/naming/default_naming.py:46 | a code followed by `-` starts with another code followed by `-` exactly when the two codes are equal |
| DefaultNaming.PrefixIsolation | auto/naming/default_naming.py:46 | a name issued under one code matches the pattern of another code's prefix if and only if the codes are equal |
| DefaultNaming.IsolatedCount | auto/naming/default_naming.py:43-48 | adding a name issued under one code leaves the registry entries matching another code's pattern unchanged |
| DefaultNaming.NameRangeSize | auto/naming/default_naming.py:36-38 | there are exactly `n` names numbered `1 .. n` under a prefix |
| DefaultNaming.MatchingIssued | auto/naming/default_naming.py:36-37 | in a registry built by issuing names, the entries matching a code's pattern are exactly that code's names `1 .. counts[code]`, and there are `counts[code]` of them |
| DefaultNaming.IssueFresh | auto/naming/default_naming.py:36-39 | a code's next name is not yet in the registry |
| DefaultNaming.IssueExtends | auto/naming/default_naming.py:39 | issuing a code's next name adds exactly that name to the registry |
| DefaultNaming.IssuePreservesInvariant | auto/naming/default_naming.py:35-41 | the registry holds `counts[code]` entries matching the code's pattern; the name numbered one more is new; after adding it and incrementing the code's count the invariant holds again |
| DefaultNaming.DefaultNaming.constructor | auto/naming/default_naming.py:16-22 | a new engine keeps its product code and environment name, has an empty registry and satisfies the invariant |
| DefaultNaming.DefaultNaming.GetLogicalNameCount | auto/naming/default_naming.py:43-48 | the loop returns the number of registry entries that match the pattern, visiting each entry once |
| DefaultNaming.DefaultNaming.GetLogicalName | auto/naming/default_naming.py:35-41 | the returned name is the prefix followed by the padded match count plus one; that count is the code's count; the name is new; the registry gains exactly that name; the invariant is kept |
| DefaultNaming.DefaultNaming.GetName | auto/naming/default_naming.py:24-33 | a malformed descriptor, or else an empty environment name, fails and leaves the state unchanged; otherwise the result is `product-e-code-NNN` with `NNN` the padded number of matching entries plus one; it equals the code's count plus one, is new, is the only name added, and advances only that code's count |
| DefaultNaming.SameCodeSession | auto/naming/default_naming.py:24-39 | a new engine names two resources of one code `prefix-001` and `prefix-002`, which differ |
| DefaultNaming.OtherCodeSession | auto/naming/default_naming.py:24-39 | after one resource, a new engine names a resource of another code `-001` under that code's own prefix, and the two names differ |
| Strings.ZeroPad3 | auto/naming/default_naming.py:38 | `{:03d}` gives exactly three characters below 1000, and from 1000 on the plain decimal, at least four wide |
| Strings.ZeroPad3Value | auto/naming/default_naming.py:38 | `{:03d}` yields digits that read back as the number; there are exactly three below 1000, and from 1000 on the plain decimal with at least four digits |
| Strings.ZeroPad3Injective | auto/naming/default_naming.py:38 | distinct counts give distinct suffixes |
| Strings.ZeroPad3Examples | auto/naming/default_naming.py:38 | 1 gives `001`, 2 gives `002`, 42 gives `042` and 1000 gives `1000` |

## Left out

- `auto/naming/pass_through_naming.py` (`PassThroughNaming`) is not part of this model. It only returns the name carried by a Pulumi transformation argument.
- `auto/auto_naming.py` is not part of this model. It monkey-patches a Pulumi constructor, registers a stack transformation and injects `Name` tags into `pulumi_aws` argument objects, all of it glue over foreign libraries.
- `auto/resource_init.py` is not part of this model. It replaces Pulumi's `Resource.__init__` and depends on runtime objects that are not available.
- The abstract `Naming.get_name` (auto/naming/naming.py:5-9) has no body. The model has only its default implementation, `DefaultNaming.DefaultNaming.GetName`.
- Full `fnmatch` semantics are not modelled. `DefaultNaming.GlobMatch` models `*`, `?` and literal characters, case-sensitively. It does not model character classes `[...]` or the `os.path.normcase` case folding of `fnmatch.fnmatch`. The registry proofs use the prefix test `FnMatch`, which is proved equal to `GlobMatch` on the patterns the engine builds.
- Naming.GetResourceTypeShort: `str.isupper` and `str.lower` are modelled for ASCII letters only. Unicode letters, and lower-case forms of several code points, are not modelled.
- DefaultNaming.DefaultNaming.GetName: requires a glob-free product code and a glob-free first letter of the environment name. Under these assumptions the prefix test agrees with `fnmatch`.
- DefaultNaming.DefaultNaming.GetLogicalNameCount: requires a pattern that is glob-free except for a trailing `*`. The source accepts any pattern.
- DefaultNaming.DefaultNaming.GetLogicalName: takes the resource code the prefix was built from as a ghost parameter. It requires the prefix to have the form `product-e-code`. The source accepts any string; `get_name` is its only caller and always passes such a prefix.
