/**
 * The per-dependency translation of `real_main`: each resolved package
 * becomes at most one BitBake `SRC_URI` line and a few side-variable lines
 * (`SRCREV_FORMAT`, `SRCREV_<name>`, `EXTRA_OECARGO_PATHS`).
 */
module Sources {

  import opened Wrappers
  import opened Text

  /** The registry host written into every registry line, whatever registry the package came from. */
  const CratesIoUrl: string := "crates.io"
  /** BitBake's "re-resolve to the branch tip at fetch time" revision. */
  const AutoRev: string := "${AUTOREV}"
  /** The branch name treated like the repository's default branch. */
  const MasterBranch: string := "master"
  /** Byte length of a full commit id. */
  const FullRevLength: nat := 40

  /** Cargo's `GitReference`. */
  datatype GitReference = Tag(tag: string) | Branch(branch: string) | Rev(rev: string) | DefaultBranch

  /**
   * What cargo's `SourceId` says of a package, already classified. `reference`
   * is what `git_reference()` returns; `precise` is `precise_git_fragment()`.
   */
  datatype SourceKind =
    | Registry(host: string)
    | Path
    | Git(url: string, reference: Option<GitReference>, precise: Option<string>)
    | Other(url: string)

  /** The outcome of `package_set.get_one(id).map(|p| p.summary().checksum())`. */
  datatype ChecksumLookup = LookupFailed | NoChecksum | Checksum(digest: string)

  /** One resolved package. */
  datatype Dependency = Dependency(name: string, version: string, source: SourceKind, checksum: ChecksumLookup)

  /** The command-line switches the translation reads. */
  datatype Options = Options(reproducible: bool, noChecksums: bool, legacyOverrides: bool)

  /** The conditions that stop the tool before it writes a recipe. */
  datatype Error =
    | UnusableRev(dependency: string, rev: string)  // a short commit id with no precise commit
    | NoRepository                                  // neither homepage nor repository set
    | RevNotCharBoundary(rev: string)               // byte 10 of the project revision splits a character

  /**
   * Fixed inputs of the translation: the name of the package being packaged,
   * the options, and `git::git_to_yocto_git_url` applied to a remote URL and
   * a dependency name (the default prefix is implied).
   */
  datatype Context = Context(selfName: string, options: Options, yoctoUrl: (string, string) -> string)

  /** One `SRC_URI` entry: indented, with BitBake's line continuation. */
  function Continued(entry: string): (line: string)
    ensures |line| == |entry| + 7
    ensures line[..4] == "    " && line[4..|line| - 3] == entry && line[|line| - 3..] == " \\\n"
  {
    "    " + entry + " \\\n"
  }

  // ---------------------------------------------------------------------
  // Registry sources and the checksum suffix.
  // ---------------------------------------------------------------------

  /**
   * `get_checksum`: empty when the lookup fails or the package has no
   * digest, otherwise the digest under both of BitBake's checksum keys.
   */
  function ChecksumSuffix(name: string, version: string, lookup: ChecksumLookup): (r: string)
    ensures r == [] <==> !lookup.Checksum?
    ensures lookup.Checksum? ==>
      r == ";sha256sum=" + lookup.digest + ";" + name + "-" + version + ".sha256sum=" + lookup.digest
  {
    match lookup
    case Checksum(c) => ";sha256sum=" + c + ";" + name + "-" + version + ".sha256sum=" + c
    case _ => ""
  }

  /** The `crate://` fetcher URL of a registry package. */
  function CrateUri(name: string, version: string): string
  {
    "crate://" + CratesIoUrl + "/" + name + "/" + version
  }

  /** The `SRC_URI` line of a registry package; the checksum sits before the continuation. */
  function RegistryLine(name: string, version: string, noChecksums: bool, lookup: ChecksumLookup): (line: string)
    ensures noChecksums || !lookup.Checksum? ==> line == Continued(CrateUri(name, version))
    ensures !noChecksums ==> line == Continued(CrateUri(name, version) + ChecksumSuffix(name, version, lookup))
  {
    if noChecksums then Continued(CrateUri(name, version))
    else Continued(CrateUri(name, version) + ChecksumSuffix(name, version, lookup))
  }

  /** Turning checksums on inserts the suffix right before ` \` and changes nothing else. */
  lemma ChecksumInsertedBeforeContinuation(name: string, version: string, lookup: ChecksumLookup)
    ensures var plain := RegistryLine(name, version, true, lookup);
            RegistryLine(name, version, false, lookup)
              == plain[..|plain| - 3] + ChecksumSuffix(name, version, lookup) + plain[|plain| - 3..]
  {
    ContinuedInsert(CrateUri(name, version), ChecksumSuffix(name, version, lookup));
  }

  lemma ContinuedInsert(e: string, x: string)
    ensures var plain := Continued(e);
            Continued(e + x) == plain[..|plain| - 3] + x + plain[|plain| - 3..]
  {
    var plain := Continued(e);
    assert plain[..|plain| - 3] == "    " + e;
  }

  // ---------------------------------------------------------------------
  // Git sources: revision policy and side variables.
  // ---------------------------------------------------------------------

  /**
   * The revision chosen for a git dependency: a revision, no reference at
   * all (the `?` on `git_reference()` leaves the closure), or a short
   * commit id that nothing can replace (the `panic!`).
   */
  datatype RevChoice = Chosen(rev: string) | NoReference | Unusable(short: string)

  /** The revision policy for one git dependency, in its order of precedence. */
  function SelectRev(reproducible: bool, reference: Option<GitReference>, precise: Option<string>): (c: RevChoice)
    // 1. a precise commit wins in reproducible mode, whatever the reference says
    ensures reproducible && precise.Some? ==> c == Chosen(precise.value)
    // 2. otherwise the reference decides
    ensures !(reproducible && precise.Some?) ==>
      match reference
      case None => c == NoReference
      case Some(Tag(t)) => c == Chosen(t)
      case Some(Rev(r)) =>
        if Utf8Len(r) == FullRevLength then c == Chosen(r)
        else if precise.Some? then c == Chosen(precise.value)
        else c == Unusable(r)
      case Some(Branch(b)) => c == Chosen(if b == MasterBranch then AutoRev else b)
      case Some(DefaultBranch) => c == Chosen(AutoRev)
    // the only failure: a short commit id with no precise commit at all
    ensures c.Unusable? <==>
      precise.None? && reference.Some? && reference.value.Rev? && Utf8Len(reference.value.rev) != FullRevLength
    // a pinned commit is full length, unless the resolver supplied it
    ensures c.Chosen? && reference.Some? && reference.value.Rev? ==>
      Utf8Len(c.rev) == FullRevLength || precise == Some(c.rev)
  {
    var p := if reproducible then precise else None;
    if p.Some? then Chosen(p.value)
    else match reference
      case None => NoReference
      case Some(Tag(t)) => Chosen(t)
      case Some(Rev(r)) =>
        if Utf8Len(r) == FullRevLength then Chosen(r)
        else if precise.Some? then Chosen(precise.value)
        else Unusable(r)
      case Some(Branch(b)) => if b == MasterBranch then Chosen(AutoRev) else Chosen(b)
      case Some(DefaultBranch) => Chosen(AutoRev)
  }

  /** `SRCREV_FORMAT .= "_<name>"`. */
  function SrcRevFormatLine(name: string): string
  {
    "SRCREV_FORMAT .= \"_" + name + "\""
  }

  /** `SRCREV_<name> = "<rev>"`. */
  function SrcRevLine(name: string, rev: string): string
  {
    "SRCREV_" + name + " = \"" + rev + "\""
  }

  /** `EXTRA_OECARGO_PATHS += "${WORKDIR}/<name>"`. */
  function CargoPathLine(name: string): string
  {
    "EXTRA_OECARGO_PATHS += \"${WORKDIR}/" + name + "\""
  }

  // ---------------------------------------------------------------------
  // One dependency.
  // ---------------------------------------------------------------------

  /** What one dependency adds: an optional URI line and side variables, or a fatal error. */
  datatype Step = Emit(uri: Option<string>, extras: seq<string>) | Abort(error: Error)

  /** The package being packaged, and path dependencies, add nothing. */
  predicate Inert(d: Dependency, ctx: Context)
  {
    d.name == ctx.selfName || d.source.Path?
  }

  /** A git dependency, not the package itself, whose revision cannot be pinned. */
  predicate UnusableRevision(d: Dependency, ctx: Context)
  {
    !Inert(d, ctx) && d.source.Git?
    && SelectRev(ctx.options.reproducible, d.source.reference, d.source.precise).Unusable?
  }

  /** The body of the `filter_map` closure, with its pushes to `src_uri_extras` returned. */
  function Contribution(d: Dependency, ctx: Context): (s: Step)
    ensures Inert(d, ctx) ==> s == Emit(None, [])
    ensures !Inert(d, ctx) && d.source.Registry? ==>
      s == Emit(Some(RegistryLine(d.name, d.version, ctx.options.noChecksums, d.checksum)), [])
    ensures !Inert(d, ctx) && d.source.Other? ==> s == Emit(Some(Continued(d.source.url)), [])
    ensures s.Abort? ==> d.source.Git? && d.source.reference.Some? && d.source.reference.value.Rev?
                         && s.error == UnusableRev(d.name, d.source.reference.value.rev)
    // the only failure: a git revision that cannot be pinned
    ensures s.Abort? <==> UnusableRevision(d, ctx)
    // a git dependency yields its URI line exactly when a revision was chosen
    ensures !Inert(d, ctx) && d.source.Git? && s.Emit? ==>
      (s.uri.Some? <==> SelectRev(ctx.options.reproducible, d.source.reference, d.source.precise).Chosen?)
    // a git dependency that yields a line always adds the same three lines, in this order
    ensures !Inert(d, ctx) && d.source.Git? && s.Emit? && s.uri.Some? ==>
      SelectRev(ctx.options.reproducible, d.source.reference, d.source.precise).Chosen?
      && s.uri.value == Continued(ctx.yoctoUrl(d.source.url, d.name))
      && s.extras == [SrcRevFormatLine(d.name),
                      SrcRevLine(d.name, SelectRev(ctx.options.reproducible, d.source.reference, d.source.precise).rev),
                      CargoPathLine(d.name)]
    // one left by the `?` has pushed only its format line
    ensures !Inert(d, ctx) && d.source.Git? && s.Emit? && s.uri.None? ==>
      s.extras == [SrcRevFormatLine(d.name)]
  {
    if d.name == ctx.selfName then Emit(None, [])
    else match d.source
      case Registry(_) => Emit(Some(RegistryLine(d.name, d.version, ctx.options.noChecksums, d.checksum)), [])
      case Path => Emit(None, [])
      case Git(url, reference, precise) =>
        (match SelectRev(ctx.options.reproducible, reference, precise)
         case NoReference => Emit(None, [SrcRevFormatLine(d.name)])
         case Unusable(r) => Abort(UnusableRev(d.name, r))
         case Chosen(rev) =>
           Emit(Some(Continued(ctx.yoctoUrl(url, d.name))),
                [SrcRevFormatLine(d.name), SrcRevLine(d.name, rev), CargoPathLine(d.name)]))
      case Other(url) => Emit(Some(Continued(url)), [])
  }

  // ---------------------------------------------------------------------
  // The whole fold.
  // ---------------------------------------------------------------------

  /** The URI lines collected by `filter_map` and the pushed side variables, both in encounter order. */
  datatype Collected = Collected(uris: seq<string>, extras: seq<string>)

  function OptionToSeq(o: Option<string>): seq<string>
  {
    if o.Some? then [o.value] else []
  }

  /** Adds one step; the first failure sticks. */
  function Extend(acc: Result<Collected, Error>, s: Step): Result<Collected, Error>
  {
    match acc
    case Failure(e) => Failure(e)
    case Success(c) =>
      match s
      case Abort(e) => Failure(e)
      case Emit(u, x) => Success(Collected(c.uris + OptionToSeq(u), c.extras + x))
  }

  /** The dependencies in order, each one's step added to what came before. */
  function Translate(deps: seq<Dependency>, ctx: Context): Result<Collected, Error>
  {
    if deps == [] then Success(Collected([], []))
    else Extend(Translate(deps[..|deps| - 1], ctx), Contribution(deps[|deps| - 1], ctx))
  }

  /** The result for `a + b` from the results for `a` and for `b`. */
  function Combine(a: Result<Collected, Error>, b: Result<Collected, Error>): Result<Collected, Error>
  {
    if a.Failure? then a
    else if b.Failure? then b
    else Success(Collected(a.value.uris + b.value.uris, a.value.extras + b.value.extras))
  }

  /** Translating a concatenation: the parts' lines concatenated, the earlier failure first. */
  lemma {:induction false} TranslateAppend(a: seq<Dependency>, b: seq<Dependency>, ctx: Context)
    ensures Translate(a + b, ctx) == Combine(Translate(a, ctx), Translate(b, ctx))
  {
    if b == [] {
      assert a + b == a;
      CombineWithNothing(Translate(a, ctx));
    } else {
      var b' := b[..|b| - 1];
      assert (a + b)[..|a + b| - 1] == a + b';
      assert (a + b)[|a + b| - 1] == b[|b| - 1];
      TranslateAppend(a, b', ctx);
      ExtendCombine(Translate(a, ctx), Translate(b', ctx), Contribution(b[|b| - 1], ctx));
    }
  }

  lemma CombineWithNothing(a: Result<Collected, Error>)
    ensures Combine(a, Success(Collected([], []))) == a
  {
    if a.Success? {
      assert a.value.uris + [] == a.value.uris;
      assert a.value.extras + [] == a.value.extras;
    }
  }

  lemma ExtendCombine(a: Result<Collected, Error>, b: Result<Collected, Error>, s: Step)
    ensures Extend(Combine(a, b), s) == Combine(a, Extend(b, s))
  {
    if a.Success? && b.Success? && s.Emit? {
      assert a.value.uris + b.value.uris + OptionToSeq(s.uri)
          == a.value.uris + (b.value.uris + OptionToSeq(s.uri));
      assert a.value.extras + b.value.extras + s.extras
          == a.value.extras + (b.value.extras + s.extras);
    }
  }

  lemma TranslateOne(d: Dependency, ctx: Context)
    ensures Translate([d], ctx) == Extend(Success(Collected([], [])), Contribution(d, ctx))
  {
    assert [d][..0] == [];
  }

  /** The translation succeeds exactly when no dependency has an unusable revision. */
  lemma {:induction false} TranslateSucceeds(deps: seq<Dependency>, ctx: Context)
    ensures Translate(deps, ctx).Success? <==> forall i :: 0 <= i < |deps| ==> !Contribution(deps[i], ctx).Abort?
  {
    if deps != [] {
      var n := |deps| - 1;
      TranslateSucceeds(deps[..n], ctx);
      assert forall i :: 0 <= i < n ==> deps[..n][i] == deps[i];
    }
  }

  /** A failed translation reports the first dependency, in encounter order, whose revision is unusable. */
  lemma {:induction false} TranslateFailsAtFirstAbort(deps: seq<Dependency>, ctx: Context)
    requires Translate(deps, ctx).Failure?
    ensures exists i :: 0 <= i < |deps| && Contribution(deps[i], ctx) == Abort(Translate(deps, ctx).error)
                        && forall j :: 0 <= j < i ==> !Contribution(deps[j], ctx).Abort?
  {
    var n := |deps| - 1;
    var front := deps[..n];
    assert forall i :: 0 <= i < n ==> front[i] == deps[i];
    if Translate(front, ctx).Failure? {
      TranslateFailsAtFirstAbort(front, ctx);
      var i :| 0 <= i < n && Contribution(front[i], ctx) == Abort(Translate(front, ctx).error)
               && forall j :: 0 <= j < i ==> !Contribution(front[j], ctx).Abort?;
      assert Contribution(deps[i], ctx) == Abort(Translate(deps, ctx).error);
    } else {
      TranslateSucceeds(front, ctx);
      assert Contribution(deps[n], ctx) == Abort(Translate(deps, ctx).error);
    }
  }

  /**
   * The translation fails exactly when some dependency's revision cannot
   * be pinned, and then with the error for the first such dependency.
   */
  lemma {:induction false} TranslateFailsOnUnusableRevision(deps: seq<Dependency>, ctx: Context)
    ensures Translate(deps, ctx).Failure? <==> exists i :: 0 <= i < |deps| && UnusableRevision(deps[i], ctx)
    ensures Translate(deps, ctx).Failure? ==>
      exists i :: 0 <= i < |deps| && UnusableRevision(deps[i], ctx)
                  && Translate(deps, ctx).error == UnusableRev(deps[i].name, deps[i].source.reference.value.rev)
                  && forall j :: 0 <= j < i ==> !UnusableRevision(deps[j], ctx)
  {
    TranslateSucceeds(deps, ctx);
    if Translate(deps, ctx).Failure? {
      TranslateFailsAtFirstAbort(deps, ctx);
    }
  }

  /** The dependencies that can contribute: all but the package itself and path dependencies. */
  function Active(deps: seq<Dependency>, ctx: Context): (r: seq<Dependency>)
    ensures forall d :: d in r ==> d in deps && !Inert(d, ctx)
    ensures forall d :: d in deps && !Inert(d, ctx) ==> d in r
  {
    if deps == [] then []
    else
      var d := deps[|deps| - 1];
      var front := deps[..|deps| - 1];
      assert deps == front + [d];
      Active(front, ctx) + (if Inert(d, ctx) then [] else [d])
  }

  /**
   * The package being packaged, and every path dependency, leave no trace:
   * the result is the one for the other dependencies alone.
   */
  lemma {:induction false} InertDependenciesLeaveNoTrace(deps: seq<Dependency>, ctx: Context)
    ensures Translate(deps, ctx) == Translate(Active(deps, ctx), ctx)
  {
    if deps != [] {
      var d := deps[|deps| - 1];
      var front := deps[..|deps| - 1];
      InertDependenciesLeaveNoTrace(front, ctx);
      var t := Translate(front, ctx);
      if Inert(d, ctx) {
        assert Active(deps, ctx) == Active(front, ctx) + [];
        assert Active(front, ctx) + [] == Active(front, ctx);
        if t.Success? {
          assert t.value.uris + [] == t.value.uris;
          assert t.value.extras + [] == t.value.extras;
        }
      } else {
        TranslateAppend(Active(front, ctx), [d], ctx);
        TranslateOne(d, ctx);
        var s := Contribution(d, ctx);
        if t.Success? && s.Emit? {
          assert [] + OptionToSeq(s.uri) == OptionToSeq(s.uri);
          assert [] + s.extras == s.extras;
        }
      }
    }
  }

  /**
   * Side variables keep encounter order: on success they are those of the
   * dependencies before `i`, then `deps[i]`'s own, then those after it.
   * The unsorted URI lines are laid out the same way.
   */
  lemma EncounterOrder(deps: seq<Dependency>, i: nat, ctx: Context)
    requires i < |deps| && Translate(deps, ctx).Success?
    ensures Translate(deps[..i], ctx).Success? && Translate(deps[i + 1..], ctx).Success?
    ensures Contribution(deps[i], ctx).Emit?
    ensures Translate(deps, ctx).value.extras ==
      Translate(deps[..i], ctx).value.extras + Contribution(deps[i], ctx).extras + Translate(deps[i + 1..], ctx).value.extras
    ensures Translate(deps, ctx).value.uris ==
      Translate(deps[..i], ctx).value.uris + OptionToSeq(Contribution(deps[i], ctx).uri) + Translate(deps[i + 1..], ctx).value.uris
  {
    assert deps == deps[..i] + [deps[i]] + deps[i + 1..];
    TranslateAppend(deps[..i] + [deps[i]], deps[i + 1..], ctx);
    TranslateAppend(deps[..i], [deps[i]], ctx);
    TranslateOne(deps[i], ctx);
  }

  /**
   * Reordering the dependencies can change the order of the collected URI
   * lines but not which lines there are: success and the multiset of lines
   * depend only on the multiset of dependencies.
   */
  lemma {:induction false} UrisIgnoreOrder(d1: seq<Dependency>, d2: seq<Dependency>, ctx: Context)
    requires multiset(d1) == multiset(d2)
    ensures Translate(d1, ctx).Success? <==> Translate(d2, ctx).Success?
    ensures Translate(d1, ctx).Success? ==>
      multiset(Translate(d1, ctx).value.uris) == multiset(Translate(d2, ctx).value.uris)
    decreases |d1|
  {
    if d1 == [] {
      assert |multiset(d2)| == 0;
      assert d2 == [];
    } else {
      var n := |d1| - 1;
      assert d1[n] in multiset(d2);
      var i :| 0 <= i < |d2| && d2[i] == d1[n];
      RemoveMatching(d1, d2, i);
      UrisIgnoreOrder(d1[..n], d2[..i] + d2[i + 1..], ctx);
      SplitLast(d1, ctx);
      SplitAround(d2, i, ctx);
      CombineMovesMiddle(Translate(d2[..i], ctx), Translate([d2[i]], ctx), Translate(d2[i + 1..], ctx),
                         Translate(d1[..n], ctx));
    }
  }

  lemma SplitLast(d: seq<Dependency>, ctx: Context)
    requires d != []
    ensures Translate(d, ctx) == Combine(Translate(d[..|d| - 1], ctx), Translate([d[|d| - 1]], ctx))
  {
    assert d == d[..|d| - 1] + [d[|d| - 1]];
    TranslateAppend(d[..|d| - 1], [d[|d| - 1]], ctx);
  }

  lemma SplitAround(d: seq<Dependency>, i: nat, ctx: Context)
    requires i < |d|
    ensures Translate(d, ctx)
         == Combine(Combine(Translate(d[..i], ctx), Translate([d[i]], ctx)), Translate(d[i + 1..], ctx))
    ensures Translate(d[..i] + d[i + 1..], ctx) == Combine(Translate(d[..i], ctx), Translate(d[i + 1..], ctx))
  {
    assert d == d[..i] + [d[i]] + d[i + 1..];
    TranslateAppend(d[..i] + [d[i]], d[i + 1..], ctx);
    TranslateAppend(d[..i], [d[i]], ctx);
    TranslateAppend(d[..i], d[i + 1..], ctx);
  }

  /** Taking the last of `d1` and a matching entry of `d2` out of two permutations leaves permutations. */
  lemma RemoveMatching(d1: seq<Dependency>, d2: seq<Dependency>, i: nat)
    requires multiset(d1) == multiset(d2) && d1 != [] && i < |d2| && d2[i] == d1[|d1| - 1]
    ensures multiset(d1[..|d1| - 1]) == multiset(d2[..i] + d2[i + 1..])
  {
    var n := |d1| - 1;
    var x, rest, left, right := d1[n], d1[..n], d2[..i], d2[i + 1..];
    assert d1 == rest + [x];
    assert d2 == left + [x] + right;
    assert multiset(d1) == multiset(rest) + multiset{x};
    assert multiset(d2) == multiset(left) + multiset{x} + multiset(right);
    assert multiset(left + right) == multiset(left) + multiset(right);
    assert multiset(rest) == multiset(d1) - multiset{x};
    assert multiset(left + right) == multiset(d2) - multiset{x};
  }

  /** Moving one part's lines to the end changes neither success nor the multiset of lines. */
  lemma CombineMovesMiddle(l: Result<Collected, Error>, m: Result<Collected, Error>,
                           r: Result<Collected, Error>, rest: Result<Collected, Error>)
    requires rest.Success? <==> Combine(l, r).Success?
    requires rest.Success? ==> multiset(rest.value.uris) == multiset(Combine(l, r).value.uris)
    ensures Combine(rest, m).Success? <==> Combine(Combine(l, m), r).Success?
    ensures Combine(rest, m).Success? ==>
      multiset(Combine(rest, m).value.uris) == multiset(Combine(Combine(l, m), r).value.uris)
  {
  }

  // ---------------------------------------------------------------------
  // The loop of `real_main`.
  // ---------------------------------------------------------------------

  lemma TranslateSnoc(deps: seq<Dependency>, i: nat, ctx: Context)
    requires i < |deps|
    ensures Translate(deps[..i + 1], ctx) == Extend(Translate(deps[..i], ctx), Contribution(deps[i], ctx))
  {
    assert deps[..i + 1][..i] == deps[..i];
  }

  /** Once a prefix has failed, the whole translation is that failure. */
  lemma TranslateFailureSticks(deps: seq<Dependency>, n: nat, ctx: Context)
    requires n <= |deps|
    requires Translate(deps[..n], ctx).Failure?
    ensures Translate(deps, ctx) == Translate(deps[..n], ctx)
  {
    var front, back := deps[..n], deps[n..];
    assert front + back == deps;
    TranslateAppend(front, back, ctx);
  }

  lemma AppendNothing(uris: seq<string>, extras: seq<string>)
    ensures uris + [] == uris && extras + [] == extras
  {
  }

  /**
   * The body of the `filter_map` closure run on one package: its URI line
   * is added to `uris` and its side variables are pushed to `extras` one
   * by one, the format line first.
   */
  method Visit(d: Dependency, ctx: Context, uris: seq<string>, extras: seq<string>)
    returns (r: Result<Collected, Error>)
    ensures r == Extend(Success(Collected(uris, extras)), Contribution(d, ctx))
  {
    var lines, pushed := uris, extras;
    if d.name == ctx.selfName {
      // the package being packaged
    } else {
      match d.source {
        case Registry(_) =>
          lines := lines + [RegistryLine(d.name, d.version, ctx.options.noChecksums, d.checksum)];
        case Path =>
          // already inside the tree being packaged
        case Git(url, reference, precise) =>
          var fetchUrl := ctx.yoctoUrl(url, d.name);
          pushed := pushed + [SrcRevFormatLine(d.name)];
          var choice := SelectRev(ctx.options.reproducible, reference, precise);
          match choice {
            case NoReference =>
            case Unusable(short) =>
              return Failure(UnusableRev(d.name, short));
            case Chosen(rev) =>
              pushed := pushed + [SrcRevLine(d.name, rev)];
              pushed := pushed + [CargoPathLine(d.name)];
              lines := lines + [Continued(fetchUrl)];
              assert pushed == extras + [SrcRevFormatLine(d.name), SrcRevLine(d.name, rev), CargoPathLine(d.name)];
          }
        case Other(url) =>
          lines := lines + [Continued(url)];
      }
    }
    AppendNothing(uris, extras);
    r := Success(Collected(lines, pushed));
  }

  /**
   * The `filter_map` over the resolved packages: URI lines collected in
   * order, side variables pushed to `src_uri_extras` as each git
   * dependency is met; an unusable revision stops everything.
   */
  method CollectSources(deps: seq<Dependency>, ctx: Context) returns (r: Result<Collected, Error>)
    ensures r == Translate(deps, ctx)
  {
    var uris: seq<string> := [];
    var extras: seq<string> := [];
    var i := 0;
    while i < |deps|
      invariant 0 <= i <= |deps|
      invariant Translate(deps[..i], ctx) == Success(Collected(uris, extras))
    {
      TranslateSnoc(deps, i, ctx);
      var next := Visit(deps[i], ctx, uris, extras);
      if next.Failure? {
        TranslateFailureSticks(deps, i + 1, ctx);
        return next;
      }
      uris, extras := next.value.uris, next.value.extras;
      i := i + 1;
    }
    assert deps[..i] == deps;
    r := Success(Collected(uris, extras));
  }
}
