# cargo-bitbake: dependency-to-recipe translation, modelled in Dafny

`cargo bitbake` turns a resolved Cargo dependency graph into a BitBake
recipe. This project models the decision logic of `real_main` in
`src/main.rs`:

- the fold over the resolved packages that yields the `SRC_URI` lines and
  the side variables (`SRCREV_FORMAT`, `SRCREV_<name>`, `EXTRA_OECARGO_PATHS`);
- the checksum suffix of registry packages (`get_checksum`);
- the git revision policy;
- the in-place sort of the URI lines and the joins handed to the template;
- the derived strings: summary, homepage, license and its `LIC_FILES_CHKSUM`
  lines, the `PV` append directive of an untagged checkout, and the recipe's
  file name.

Modules, one per component:

- `wrappers.dfy` — `Wrappers`: `Option` and `Result`.
- `text.dfy` — `Text`: Rust's string operations as the code uses them.
  This covers byte-wise ordering (`LexLe`), `trim`, `split` on one
  character, `join`, `replace`, and UTF-8 byte lengths and byte slices.
- `sorting.dfy` — `Sorting`: `Vec<String>::sort` as an in-place insertion
  sort on an `array<string>`. It also proves that a sorted permutation is
  unique.
- `sources.dfy` — `Sources`: the per-dependency dispatch (`Contribution`)
  and the git revision policy (`SelectRev`). It holds the fold as a
  specification function (`Translate`) and the imperative loop
  (`CollectSources`, `Visit`) proved equal to it.
- `recipe.dfy` — `Recipe`: the metadata derivations and the license-file
  loop. It also holds `Generate`, the whole of `real_main` from the
  resolved packages to the values the template receives.

External collaborators are parameters:

- `git::git_to_yocto_git_url` is `Context.yoctoUrl` / `Externals.yoctoUrl`.
- `license::file` is `Externals.licenseFile`.
- `license::CLOSED_LICENSE` is `Externals.closedLicense`.
- The result of `git::ProjectRepo::new` is an `Option<ProjectRepo>`; `None`
  stands for its failure.
- Cargo's `SourceId` accessors (`is_registry`, `is_path`, `is_git`, `url`,
  `git_reference`, `precise_git_fragment`) are the fields of `SourceKind`.
  The checksum lookup's outcome is `Dependency.checksum`.

Details of the code that the model keeps:

- Registry lines use the scheme `crate://` and the constant host
  `crates.io` (`src/main.rs:29`), never the registry's own host.
- The URI lines are sorted but not deduplicated.
- A full-length commit is recognised by byte length alone (`len() == 40`),
  with no hex check. The `PV` rule's length test (`len() > 10`) also
  counts bytes. `&rev[..10]` panics when byte 10 falls inside a character;
  the model reports that as `RevNotCharBoundary`.
- A git dependency whose `git_reference()` is `None` leaves the closure
  through `?`. It yields no URI line, but its `SRCREV_FORMAT` line has
  already been pushed. So not every git dependency contributes exactly
  three side variables: one that yields a URI line does.
- The `panic!` on a short commit id with no precise commit is the result
  `Failure(UnusableRev(name, rev))`.
- A branch other than `master` is pinned by its name, though a branch can
  move. The model keeps this.

## Model

| member | source | states |
|---|---|---|
| Sources.ChecksumSuffix | src/main.rs:31-43 | empty exactly when the lookup failed or found no digest; otherwise `;sha256sum=<c>;<name>-<version>.sha256sum=<c>` |
| Sources.Continued | src/main.rs:216-218 | every `SRC_URI` line is four spaces, the entry, then ` \` and a newline |
| Sources.RegistryLine | src/main.rs:138-155 | with checksums off, or with no digest, the line is exactly `    crate://crates.io/<name>/<version> \` plus newline; otherwise the checksum suffix follows the version |
| Sources.ChecksumInsertedBeforeContinuation | src/main.rs:140-155 | turning checksums on only inserts the suffix right before ` \` |
| Sources.SelectRev | src/main.rs:174-207 | in reproducible mode a precise commit wins whatever the reference; otherwise Tag gives its name; Rev gives itself if 40 bytes, else the precise commit, else failure; `master` and the default branch give `${AUTOREV}`; other branches give their name. No reference leaves the closure. It fails exactly for a short Rev with no precise commit. A pinned Rev is 40 bytes or the precise commit |
| Sources.Contribution | src/main.rs:133-219 | the package itself and path dependencies add nothing; a registry or other source adds one line and no side variables. A git dependency with a URI line adds exactly `SRCREV_FORMAT .= "_<name>"`, `SRCREV_<name> = "<rev>"`, `EXTRA_OECARGO_PATHS += "${WORKDIR}/<name>"`, in that order; one left by `?` adds only the format line. It aborts exactly when a git revision is unusable (`UnusableRevision`: a short Rev with no precise commit), with that revision in the error; a git dependency that does not abort yields its URI line exactly when a revision is chosen |
| Sources.Visit | src/main.rs:133-219 | the closure body, pushing one line at a time, adds exactly that dependency's contribution |
| Sources.CollectSources | src/main.rs:129-221 | the loop over the packages yields the fold's lines and side variables, or the fold's failure |
| Sources.TranslateAppend | src/main.rs:130-221 | the fold over a concatenation is the concatenation of the folds, and the earlier failure wins |
| Sources.TranslateSucceeds | src/main.rs:186-196 | the translation succeeds exactly when no dependency has an unusable revision |
| Sources.TranslateFailsAtFirstAbort | src/main.rs:186-196 | a failure carries the error of the first dependency, in encounter order, whose revision is unusable |
| Sources.TranslateFailsOnUnusableRevision | src/main.rs:186-196 | the translation fails exactly when some git dependency other than the package itself has a short Rev and no precise commit, and then with `UnusableRev` for the first such dependency |
| Sources.InertDependenciesLeaveNoTrace | src/main.rs:136-160 | the result equals the one for the list without the package itself and without path dependencies |
| Sources.EncounterOrder | src/main.rs:129-221 | side variables (and unsorted URI lines) are those of the packages before `i`, then those of package `i`, then those after it |
| Sources.UrisIgnoreOrder | src/main.rs:130-221 | reordering the packages changes neither success nor the multiset of URI lines |
| Text.LexLeTotal | src/main.rs:224 | any two strings are comparable in the sort order |
| Text.LexLeAntisymmetric | src/main.rs:224 | strings that are each at most the other are equal |
| Text.LexLeTransitive | src/main.rs:224 | the sort order is transitive |
| Sorting.SortLines | src/main.rs:224 | the array ends ascending and holds a permutation of its lines, duplicates kept |
| Sorting.SortedUnique | src/main.rs:224 | two ascending orderings of the same multiset of lines are identical |
| Recipe.UriBlockIgnoresOrder | src/main.rs:224 | the sorted URI lines, and their join, are the same for any order of the resolved packages |
| Text.Trim | src/main.rs:235 | the result is the infix of the input that starts after its leading whitespace run |
| Text.TrimCutsOnlyEdgeWhitespace | src/main.rs:252 | trimming leaves a string starting and ending with non-whitespace, and everything removed is whitespace |
| Text.ReplaceIsSplitJoin | src/main.rs:235 | replacing a character by a string equals splitting on it and joining with that string |
| Recipe.Summary | src/main.rs:230-236 | the package name without a description; otherwise the trimmed description's lines joined by ` \` and a newline |
| Recipe.Homepage | src/main.rs:239-252 | the trimmed homepage, else the trimmed repository; fails with `NoRepository` exactly when both are missing |
| Recipe.LicenseString | src/main.rs:255-268 | `license`, else `license_file`, else the closed-license marker |
| Text.Split | src/main.rs:275 | the pieces number one more than the separator's occurrences, and none contains it |
| Text.SplitSingle | src/main.rs:276 | there is exactly one piece iff the license has no `/` |
| Text.JoinSplit | src/main.rs:275 | joining the pieces with the separator gives the license back |
| Recipe.LicenseFiles | src/main.rs:274-282 | one `    <license::file(...)>` line per `/`-separated part, in order, each told whether it is the only one |
| Recipe.LicenseField | src/main.rs:285 | a license without `/` is just trimmed |
| Recipe.LicenseFieldOfJoin | src/main.rs:285 | alternatives `a/b/...` that contain no `/` become the trimmed alternatives joined with ` \| ` |
| Text.SplitJoin | src/main.rs:275 | pieces without the separator, joined with it, split back into the same pieces |
| Recipe.ProjectRepoOrDefault | src/main.rs:288-291 | a failed introspection becomes the empty, untagged repository |
| Text.Utf8Prefix | src/main.rs:306 | the byte slice `[..n]` is a character prefix exactly `n` bytes long; there is none iff no prefix has that byte length |
| Text.AsciiUtf8Len | src/main.rs:295 | an ASCII string's byte length is its character count |
| Text.AsciiUtf8Prefix | src/main.rs:306 | on ASCII text the first `n` bytes are the first `n` characters |
| Recipe.SrcPv | src/main.rs:295-311 | empty iff the checkout is a tag or the revision has at most 10 bytes; otherwise `<key> = ".AUTOINC+<first 10 bytes>"`, failing only when byte 10 splits a character |
| Recipe.SrcPvAsciiRevision | src/main.rs:295-311 | for an untagged ASCII revision longer than 10, the directive holds its first 10 characters |
| Recipe.SrcPvLegacyOnlyRenamesKey | src/main.rs:296-300 | the legacy switch changes only the key (`PV_append` for `PV:append`), never whether or what is appended |
| Recipe.RecipePath | src/main.rs:314 | the file name starts with the package name and ends with `.bb`; its length is that of name and version plus 4 |
| Recipe.RecipePathInjective | src/main.rs:314 | for names without `_` (the ones not warned about at lines 120-122) the file name determines name and version |
| Recipe.Generate | src/main.rs:128-340 | fails on an unusable revision, then on a missing homepage and repository, then on a bad `PV` slice, in that order. On success: sorted permuted URI lines joined with nothing, side variables in encounter order joined with newlines, the license-file lines joined with nothing, and every derived field as above |

## Left out

- `src/package_info.rs` is not part of this model. The resolved package list, `crate_root` and `rel_dir` are inputs. So are the errors of `PackageInfo::new`, `package()`, `resolve()` and `rel_dir()` (`src/main.rs:111-125`, `271`), and the `expect` at line 118.
- `main`, the `Args`/`Opt` command-line definitions and `gctx.configure` (`src/main.rs:45-108`): command-line and library configuration.
- File output (`src/main.rs:316-345`): opening and truncating the recipe, filling `bitbake.template`, the two I/O errors and the "Wrote:" message. `Generate` returns the template's values instead.
- Every `println!` warning, among them the underscore advisory (lines 120-122) and the fallback messages: they do not change the recipe.
- `git::ProjectRepo::new`, `git::git_to_yocto_git_url`, `license::file` and `license::CLOSED_LICENSE` are not part of this model. They are parameters with no properties assumed.
- The `cargo_bitbake_ver` field (`env!("CARGO_PKG_VERSION")`): a constant of the build.
- Versions are the strings cargo prints for them; the semantic-version type is not modelled.
- Sorting.SortLines: it is insertion sort, not Rust's stable merge sort. The result is the same, since equal strings cannot be told apart and a sorted permutation is unique (`Sorting.SortedUnique`).
- Running the tool twice on the same snapshot gives the same recipe. In the model this holds by construction: every member is a deterministic function of its inputs.
