/**
 * The rest of `real_main`: the recipe's metadata fields, the license-file
 * lines, the `PV` append directive of an untagged checkout, the recipe's
 * file name, and the assembly of everything the template receives.
 */
module Recipe {

  import opened Wrappers
  import opened Text
  import opened Sorting
  import opened Sources

  /** The manifest fields of the package being packaged. */
  datatype Package = Package(
    name: string,
    version: string,
    description: Option<string>,
    homepage: Option<string>,
    repository: Option<string>,
    license: Option<string>,
    licenseFile: Option<string>)

  /** `git::ProjectRepo`: remote URI, revision and whether the checkout is exactly at a tag. */
  datatype ProjectRepo = ProjectRepo(uri: string, rev: string, tag: bool)

  /**
   * Helpers defined outside this model: `git::git_to_yocto_git_url`,
   * `license::file(crate_root, rel_dir, license, single_license)` and
   * `license::CLOSED_LICENSE`.
   */
  datatype Externals = Externals(
    yoctoUrl: (string, string) -> string,
    licenseFile: (string, string, string, bool) -> string,
    closedLicense: string)

  /** What the fields of the recipe template receive, with the line lists they are joined from. */
  datatype RecipeFields = RecipeFields(
    path: string,
    name: string,
    version: string,
    summary: string,
    homepage: string,
    license: string,
    licFileLines: seq<string>,
    licFiles: string,
    srcUriLines: seq<string>,
    srcUri: string,
    srcUriExtras: string,
    projectRelDir: string,
    projectSrcUri: string,
    projectSrcRev: string,
    gitSrcPv: string)

  /** How a line break of the description is written in the summary. */
  const SummaryBreak: string := " \\\n"

  /**
   * The summary: the package name when there is no description, otherwise
   * the trimmed description with every line break continued.
   */
  function Summary(pkg: Package): (r: string)
    ensures pkg.description.None? ==> r == pkg.name
    ensures pkg.description.Some? ==>
      r == Join(Split(Trim(pkg.description.value), '\n'), SummaryBreak)
  {
    match pkg.description
    case None => pkg.name
    case Some(s) =>
      ReplaceIsSplitJoin(Trim(s), '\n', SummaryBreak);
      ReplaceChar(Trim(s), '\n', SummaryBreak)
  }

  /** The homepage, else the repository, trimmed; neither is fatal. */
  function Homepage(pkg: Package): (r: Result<string, Error>)
    ensures r.Failure? <==> pkg.homepage.None? && pkg.repository.None?
    ensures r.Failure? ==> r.error == NoRepository
    ensures pkg.homepage.Some? ==> r == Success(Trim(pkg.homepage.value))
    ensures pkg.homepage.None? && pkg.repository.Some? ==> r == Success(Trim(pkg.repository.value))
  {
    match pkg.homepage
    case Some(h) => Success(Trim(h))
    case None =>
      match pkg.repository
      case Some(u) => Success(Trim(u))
      case None => Failure(NoRepository)
  }

  /** The license expression: `license`, else `license_file`, else the closed-license marker. */
  function LicenseString(pkg: Package, closedLicense: string): (r: string)
    ensures pkg.license.Some? ==> r == pkg.license.value
    ensures pkg.license.None? && pkg.licenseFile.Some? ==> r == pkg.licenseFile.value
    ensures pkg.license.None? && pkg.licenseFile.None? ==> r == closedLicense
  {
    pkg.license.GetOr(pkg.licenseFile.GetOr(closedLicense))
  }

  function TrimAll(parts: seq<string>): seq<string>
  {
    seq(|parts|, k requires 0 <= k < |parts| => Trim(parts[k]))
  }

  /**
   * The license in BitBake's notation: the `/`-separated alternatives,
   * each trimmed, joined with ` | `. A single license is just trimmed.
   */
  function LicenseField(license: string): (r: string)
    ensures '/' !in license ==> r == Trim(license)
  {
    SplitNoSeparator(license, '/');
    Join(TrimAll(Split(license, '/')), " | ")
  }

  /** Alternatives written `a/b/...` become the trimmed `a | b | ...`. */
  lemma LicenseFieldOfJoin(parts: seq<string>)
    requires |parts| >= 1
    requires forall k :: 0 <= k < |parts| ==> '/' !in parts[k]
    ensures LicenseField(Join(parts, "/")) == Join(TrimAll(parts), " | ")
  {
    SplitJoin(parts, '/');
  }

  /** One `LIC_FILES_CHKSUM` line. */
  function LicenseFileLine(ext: Externals, crateRoot: string, relDir: string, license: string, single: bool): string
  {
    "    " + ext.licenseFile(crateRoot, relDir, license, single)
  }

  /**
   * The `for` loop filling `lic_files`: one line per `/`-separated
   * alternative, in order, each told whether it is the only one.
   */
  method LicenseFiles(ext: Externals, crateRoot: string, relDir: string, license: string)
    returns (lines: seq<string>)
    ensures |lines| == |Split(license, '/')|
    ensures |lines| == 1 <==> '/' !in license
    ensures forall k :: 0 <= k < |lines| ==>
      lines[k] == LicenseFileLine(ext, crateRoot, relDir, Split(license, '/')[k], '/' !in license)
  {
    var licenses := Split(license, '/');
    var single := |licenses| == 1;
    SplitSingle(license, '/');
    lines := [];
    for i := 0 to |licenses|
      invariant |lines| == i
      invariant forall k :: 0 <= k < i ==> lines[k] == LicenseFileLine(ext, crateRoot, relDir, licenses[k], single)
    {
      lines := lines + [LicenseFileLine(ext, crateRoot, relDir, licenses[i], single)];
    }
  }

  /** A failed repository introspection is replaced by the empty, untagged default. */
  function ProjectRepoOrDefault(repo: Option<ProjectRepo>): (r: ProjectRepo)
    ensures repo.None? ==> r == ProjectRepo("", "", false)
    ensures repo.Some? ==> r == repo.value
  {
    repo.GetOr(ProjectRepo("", "", false))
  }

  /** How many bytes of the project revision go into `PV`. */
  const SrcPvBytes: nat := 10

  function PvAppendKey(legacyOverrides: bool): string
  {
    if legacyOverrides then "PV_append" else "PV:append"
  }

  /**
   * `git_srcpv`: nothing for a tagged checkout or a revision of at most ten
   * bytes; otherwise `<key> = ".AUTOINC+<first ten bytes>"`, which fails
   * when byte ten splits a character.
   */
  function SrcPv(repo: ProjectRepo, legacyOverrides: bool): (r: Result<string, Error>)
    ensures r == Success([]) <==> repo.tag || Utf8Len(repo.rev) <= SrcPvBytes
    ensures r.Failure? <==>
      !repo.tag && Utf8Len(repo.rev) > SrcPvBytes && Utf8Prefix(repo.rev, SrcPvBytes).None?
    ensures r.Failure? ==> r.error == RevNotCharBoundary(repo.rev)
    ensures r.Success? && r.value != [] ==>
      Utf8Prefix(repo.rev, SrcPvBytes).Some?
      && r.value == PvAppendKey(legacyOverrides) + " = \".AUTOINC+" + Utf8Prefix(repo.rev, SrcPvBytes).value + "\""
  {
    if !repo.tag && Utf8Len(repo.rev) > SrcPvBytes then
      match Utf8Prefix(repo.rev, SrcPvBytes)
      case None => Failure(RevNotCharBoundary(repo.rev))
      case Some(p) => Success(PvAppendKey(legacyOverrides) + " = \".AUTOINC+" + p + "\"")
    else Success([])
  }

  /** For an ASCII revision (every git commit id) longer than ten characters, `PV` gets its first ten. */
  lemma SrcPvAsciiRevision(repo: ProjectRepo, legacyOverrides: bool)
    requires IsAscii(repo.rev) && !repo.tag && |repo.rev| > SrcPvBytes
    ensures SrcPv(repo, legacyOverrides)
      == Success(PvAppendKey(legacyOverrides) + " = \".AUTOINC+" + repo.rev[..SrcPvBytes] + "\"")
  {
    AsciiUtf8Len(repo.rev);
    AsciiUtf8Prefix(repo.rev, SrcPvBytes);
  }

  /** The legacy switch changes only the spelling of the key, never whether or what is appended. */
  lemma SrcPvLegacyOnlyRenamesKey(repo: ProjectRepo)
    ensures SrcPv(repo, true).Success? <==> SrcPv(repo, false).Success?
    ensures SrcPv(repo, true).Success? ==> (SrcPv(repo, true).value == [] <==> SrcPv(repo, false).value == [])
    ensures SrcPv(repo, true).Success? && SrcPv(repo, true).value != [] ==>
      SrcPv(repo, true).value[|PvAppendKey(true)|..] == SrcPv(repo, false).value[|PvAppendKey(false)|..]
  {
  }

  /** The recipe's file name, `<name>_<version>.bb`. */
  function RecipePath(name: string, version: string): (path: string)
    ensures |path| == |name| + |version| + 4
    ensures path[..|name|] == name && path[|path| - 3..] == ".bb"
  {
    name + "_" + version + ".bb"
  }

  /**
   * For names without an underscore (the only ones the tool does not warn
   * about) the file name determines the package name and version.
   */
  lemma RecipePathInjective(n1: string, v1: string, n2: string, v2: string)
    requires '_' !in n1 && '_' !in n2
    requires RecipePath(n1, v1) == RecipePath(n2, v2)
    ensures n1 == n2 && v1 == v2
  {
    var p := RecipePath(n1, v1);
    assert p == n1 + ['_'] + (v1 + ".bb") == n2 + ['_'] + (v2 + ".bb");
    // the first underscore of the file name ends the package name
    IndexAfterPrefix(n1, '_', v1 + ".bb");
    IndexAfterPrefix(n2, '_', v2 + ".bb");
    assert n1 == p[..|n1|] == n2;
    assert v1 == p[|n1| + 1..|p| - 3] == v2;
  }

  /** The translation context of a run. */
  function ContextOf(pkg: Package, options: Options, ext: Externals): Context
  {
    Context(pkg.name, options, ext.yoctoUrl)
  }

  /**
   * `real_main` from the resolved packages to the template's values. It
   * fails on an unusable git revision, then on a missing homepage and
   * repository, then on a project revision cut inside a character, in the
   * order the source meets them.
   */
  method Generate(pkg: Package, crateRoot: string, relDir: string, deps: seq<Dependency>,
                  options: Options, repo: Option<ProjectRepo>, ext: Externals)
    returns (r: Result<RecipeFields, Error>)
    ensures var t := Translate(deps, ContextOf(pkg, options, ext));
            var pv := SrcPv(ProjectRepoOrDefault(repo), options.legacyOverrides);
            && (r.Success? <==> t.Success? && Homepage(pkg).Success? && pv.Success?)
            && (t.Failure? ==> r == Failure(t.error))
            && (t.Success? && Homepage(pkg).Failure? ==> r == Failure(NoRepository))
            && (t.Success? && Homepage(pkg).Success? && pv.Failure? ==> r == Failure(pv.error))
    ensures r.Success? ==>
            var t := Translate(deps, ContextOf(pkg, options, ext));
            var repo' := ProjectRepoOrDefault(repo);
            var license := LicenseString(pkg, ext.closedLicense);
            var parts := Split(license, '/');
            var f := r.value;
            && t.Success?
            && f.path == RecipePath(pkg.name, pkg.version)
            && f.name == pkg.name && f.version == pkg.version
            && f.summary == Summary(pkg)
            && f.homepage == Homepage(pkg).value
            && f.license == LicenseField(license)
            && |f.licFileLines| == |parts|
            && (forall k :: 0 <= k < |parts| ==>
                  f.licFileLines[k] == LicenseFileLine(ext, crateRoot, relDir, parts[k], |parts| == 1))
            && f.licFiles == Join(f.licFileLines, "")
            && Sorted(f.srcUriLines)
            && multiset(f.srcUriLines) == multiset(t.value.uris)
            && f.srcUri == Join(f.srcUriLines, "")
            && f.srcUriExtras == Join(t.value.extras, "\n")
            && f.projectRelDir == relDir
            && f.projectSrcUri == repo'.uri && f.projectSrcRev == repo'.rev
            && f.gitSrcPv == SrcPv(repo', options.legacyOverrides).value
  {
    var ctx := ContextOf(pkg, options, ext);
    var collected := CollectSources(deps, ctx);
    if collected.Failure? {
      return Failure(collected.error);
    }
    var uris := collected.value.uris;
    var extras := collected.value.extras;

    // copy the URI lines into an array and sort it in place
    var a := new string[|uris|](k requires 0 <= k < |uris| => uris[k]);
    assert a[..] == uris;
    SortLines(a);
    var srcUris := a[..];

    var summary := Summary(pkg);
    var homepage := Homepage(pkg);
    if homepage.Failure? {
      return Failure(homepage.error);
    }
    var license := LicenseString(pkg, ext.closedLicense);
    var licFiles := LicenseFiles(ext, crateRoot, relDir, license);
    SplitSingle(license, '/');
    var field := LicenseField(license);

    var project := ProjectRepoOrDefault(repo);
    var gitSrcPv := "";
    if !project.tag && Utf8Len(project.rev) > SrcPvBytes {
      var key := "PV:append";
      if options.legacyOverrides {
        key := "PV_append";
      }
      var prefix := Utf8Prefix(project.rev, SrcPvBytes);
      if prefix.None? {
        return Failure(RevNotCharBoundary(project.rev));
      }
      gitSrcPv := key + " = \".AUTOINC+" + prefix.value + "\"";
    }

    r := Success(RecipeFields(
      RecipePath(pkg.name, pkg.version), pkg.name, pkg.version, summary, homepage.value, field,
      licFiles, Join(licFiles, ""), srcUris, Join(srcUris, ""), Join(extras, "\n"),
      relDir, project.uri, project.rev, gitSrcPv));
  }

  /**
   * The `SRC_URI` block does not depend on the order the resolver lists
   * the packages in: any two sorted orderings of the collected lines of two
   * permutations of one dependency list are the same, and so is their join.
   */
  lemma UriBlockIgnoresOrder(d1: seq<Dependency>, d2: seq<Dependency>, ctx: Context,
                             s1: seq<string>, s2: seq<string>)
    requires multiset(d1) == multiset(d2)
    requires Translate(d1, ctx).Success? && Translate(d2, ctx).Success?
    requires Sorted(s1) && multiset(s1) == multiset(Translate(d1, ctx).value.uris)
    requires Sorted(s2) && multiset(s2) == multiset(Translate(d2, ctx).value.uris)
    ensures s1 == s2
    ensures Join(s1, "") == Join(s2, "")
  {
    UrisIgnoreOrder(d1, d2, ctx);
    SortedUnique(s1, s2);
  }
}
