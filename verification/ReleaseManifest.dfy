/**
 * The release notes lint and the manifest it guards (scripts/build-releases-manifest.js), and the update checker's
 * walk over that manifest (server/src/utils/releases-manifest.js).
 */
module ReleaseManifest {
  import opened Options

  /** A version text; `spelling` tells apart texts that read as the same three numbers. */
  datatype Version = Version(major: nat, minor: nat, patch: nat, spelling: nat)

  /** A min_from text: the numbers it reads as, and whether it is three numbers at all. */
  datatype MinFrom = MinFrom(version: Version, isSemver: bool)

  datatype Tag = NoTag | PreRelease | UnknownTag

  datatype Release =
    Release(version: Version, tag: Tag, minFrom: Option<MinFrom>, yamlParsed: bool, hasContent: bool)

  /** compareSemver */
  function Compare(a: Version, b: Version): int {
    if a.major != b.major then (if a.major < b.major then -1 else 1)
    else if a.minor != b.minor then (if a.minor < b.minor then -1 else 1)
    else if a.patch != b.patch then (if a.patch < b.patch then -1 else 1)
    else 0
  }

  datatype Rule =
    | HasYaml | MinFromIsSemver | MinFromExists | MinFromIsOlder | NewestFirst | KnownTag | MinFromIsFinal | HasContent

  const RULES: seq<Rule> :=
    [HasYaml, MinFromIsSemver, MinFromExists, MinFromIsOlder, NewestFirst, KnownTag, MinFromIsFinal, HasContent]

  datatype Issue = ParseError | NoReleases | Broken(rule: Rule, index: nat)

  predicate Names(m: MinFrom, r: Release) {
    m.isSemver && m.version == r.version
  }

  /** The release at i breaks the rule. */
  predicate Breaks(rule: Rule, rs: seq<Release>, i: nat)
    requires i < |rs|
  {
    var r := rs[i];
    match rule
    case HasYaml => !r.yamlParsed
    case MinFromIsSemver => r.minFrom.Some? && !r.minFrom.value.isSemver
    case MinFromExists => r.minFrom.Some? && forall q :: q in rs ==> !Names(r.minFrom.value, q)
    case MinFromIsOlder => r.minFrom.Some? && Compare(r.minFrom.value.version, r.version) >= 0
    case NewestFirst => i > 0 && Compare(rs[i - 1].version, r.version) <= 0
    case KnownTag => r.tag == UnknownTag
    case MinFromIsFinal =>
      r.tag != PreRelease && r.minFrom.Some?
      && exists q :: q in rs && q.tag == PreRelease && Names(r.minFrom.value, q)
    case HasContent => !r.hasContent
  }

  /** No release breaks any rule, and there is one. */
  ghost predicate Clean(rs: seq<Release>) {
    rs != [] && forall rule, i :: 0 <= i < |rs| ==> !Breaks(rule, rs, i)
  }

  /** lint: the parse errors, then one issue for each rule a release breaks. */
  method Lint(rs: seq<Release>, errors: seq<Issue>) returns (issues: seq<Issue>)
    requires forall e :: e in errors ==> e == ParseError
    ensures rs == [] ==> issues == errors + [NoReleases]
    ensures rs != [] ==> forall x :: x in issues <==>
              x in errors || (x.Broken? && x.index < |rs| && Breaks(x.rule, rs, x.index))
    ensures issues == [] <==> errors == [] && Clean(rs)
  {
    hide Breaks;
    issues := errors;
    if rs == [] {
      return issues + [NoReleases];
    }
    for k := 0 to |RULES|
      invariant forall x :: x in issues <==>
                  x in errors || (x.Broken? && x.rule in RULES[..k] && x.index < |rs| && Breaks(x.rule, rs, x.index))
    {
      var rule := RULES[k];
      ghost var before := issues;
      assert RULES[..k + 1] == RULES[..k] + [rule];
      for i := 0 to |rs|
        invariant forall x :: x in issues <==>
                    x in before || (x.Broken? && x.rule == rule && x.index < i && Breaks(rule, rs, x.index))
      {
        if Breaks(rule, rs, i) {
          issues := issues + [Broken(rule, i)];
        }
      }
    }
    AllRules();
    if errors == [] {
      if issues != [] {
        assert issues[0] in issues;
      } else {
        forall rule, i | 0 <= i < |rs| ensures !Breaks(rule, rs, i) {
          assert Broken(rule, i) !in issues;
        }
      }
    } else {
      assert errors[0] in issues;
    }
  }

  lemma AllRules()
    ensures RULES[..|RULES|] == RULES && forall rule :: rule in RULES
  {
    forall rule ensures rule in RULES {
      match rule
      case HasYaml => assert RULES[0] == rule;
      case MinFromIsSemver => assert RULES[1] == rule;
      case MinFromExists => assert RULES[2] == rule;
      case MinFromIsOlder => assert RULES[3] == rule;
      case NewestFirst => assert RULES[4] == rule;
      case KnownTag => assert RULES[5] == rule;
      case MinFromIsFinal => assert RULES[6] == rule;
      case HasContent => assert RULES[7] == rule;
    }
  }

  // ---- The manifest ----

  /** The releases offered to hosts; --all keeps the pre-releases. */
  function Manifest(rs: seq<Release>, includePreReleases: bool): (m: seq<Release>)
    ensures forall r :: r in m <==> r in rs && (includePreReleases || r.tag != PreRelease)
  {
    if rs == [] then []
    else
      (if includePreReleases || rs[0].tag != PreRelease then [rs[0]] else [])
      + Manifest(rs[1..], includePreReleases)
  }

  /** A host running c can update to x in one step. */
  predicate CanJump(m: seq<Release>, c: Version, x: Release) {
    x in m && Compare(x.version, c) > 0 && (x.minFrom.None? || Compare(x.minFrom.value.version, c) <= 0)
  }

  /** Single jumps through the manifest, each from the version the last one installed. */
  predicate IsChain(m: seq<Release>, c: Version, path: seq<Release>)
    decreases |path|
  {
    path == [] || (CanJump(m, c, path[0]) && IsChain(m, path[0].version, path[1..]))
  }

  function EndOf(c: Version, path: seq<Release>): Version {
    if path == [] then c else path[|path| - 1].version
  }

  lemma CompareOrder(a: Version, b: Version, c: Version)
    ensures Compare(a, b) == -Compare(b, a)
    ensures Compare(a, b) <= 0 && Compare(b, c) < 0 ==> Compare(a, c) < 0
    ensures Compare(a, b) < 0 && Compare(b, c) <= 0 ==> Compare(a, c) < 0
    ensures Compare(a, b) <= 0 && Compare(b, c) <= 0 ==> Compare(a, c) <= 0
  {}

  lemma ChainAppend(m: seq<Release>, c: Version, path: seq<Release>, x: Release)
    requires IsChain(m, c, path) && CanJump(m, EndOf(c, path), x)
    ensures IsChain(m, c, path + [x])
    decreases |path|
  {
    if path != [] {
      ChainAppend(m, path[0].version, path[1..], x);
      assert (path + [x])[1..] == path[1..] + [x];
    } else {
      assert [x][1..] == [];
    }
  }

  lemma {:induction false} StrictlyDescending(rs: seq<Release>, i: nat, j: nat)
    requires Clean(rs) && i < j < |rs|
    ensures Compare(rs[i].version, rs[j].version) > 0
    decreases j
  {
    assert !Breaks(NewestFirst, rs, j);
    if i < j - 1 {
      StrictlyDescending(rs, i, j - 1);
    }
    CompareOrder(rs[j].version, rs[j - 1].version, rs[i].version);
    CompareOrder(rs[i].version, rs[j - 1].version, rs[j].version);
    CompareOrder(rs[i].version, rs[j].version, rs[i].version);
  }

  lemma MinFromNamed(rs: seq<Release>, i: nat) returns (q: Release)
    requires Clean(rs) && i < |rs| && rs[i].minFrom.Some?
    ensures q in rs && q.version == rs[i].minFrom.value.version && Compare(q.version, rs[i].version) < 0
    ensures rs[i].tag != PreRelease ==> q.tag != PreRelease
  {
    hide Compare;
    assert !Breaks(MinFromExists, rs, i) && !Breaks(MinFromIsOlder, rs, i) && !Breaks(MinFromIsFinal, rs, i);
    q :| q in rs && Names(rs[i].minFrom.value, q);
  }

  /** What a release needs first is a later entry of the manifest. */
  lemma MinFromIsOffered(rs: seq<Release>, all: bool, i: nat) returns (j: nat)
    requires Clean(rs) && i < |rs| && rs[i] in Manifest(rs, all) && rs[i].minFrom.Some?
    ensures i < j < |rs| && rs[j].version == rs[i].minFrom.value.version && rs[j] in Manifest(rs, all)
  {
    var q := MinFromNamed(rs, i);
    j :| 0 <= j < |rs| && rs[j] == q;
    hide Compare, Clean;
    if j < i {
      StrictlyDescending(rs, j, i);
    }
  }

  /** Every release a clean manifest offers can be reached from every older version. */
  lemma {:induction false} EveryReleaseReachable(rs: seq<Release>, all: bool, c: Version, i: nat)
    returns (path: seq<Release>)
    requires Clean(rs) && i < |rs| && rs[i] in Manifest(rs, all) && Compare(rs[i].version, c) > 0
    ensures path != [] && IsChain(Manifest(rs, all), c, path) && path[|path| - 1] == rs[i]
    decreases |rs| - i
  {
    var m := Manifest(rs, all);
    var x := rs[i];
    if x.minFrom.None? || Compare(x.minFrom.value.version, c) <= 0 {
      path := [x];
      assert path[1..] == [];
    } else {
      var j := MinFromIsOffered(rs, all, i);
      var before := EveryReleaseReachable(rs, all, c, j);
      assert !Breaks(MinFromIsOlder, rs, i);
      CompareOrder(x.version, x.minFrom.value.version, x.version);
      ChainAppend(m, c, before, x);
      path := before + [x];
    }
  }

  // ---- The update checker's own choice ----

  /** The first release offered to c; the manifest lists the newest first. */
  function Highest(m: seq<Release>, offers: seq<Release>, c: Version): (x: Option<Release>)
    ensures x.Some? ==> x.value in offers && CanJump(m, c, x.value)
    ensures x.None? ==> forall r :: r in offers ==> !CanJump(m, c, r)
  {
    if offers == [] then None
    else if CanJump(m, c, offers[0]) then Some(offers[0])
    else Highest(m, offers[1..], c)
  }

  ghost predicate Descending(m: seq<Release>) {
    forall i, j :: 0 <= i < j < |m| ==> Compare(m[i].version, m[j].version) > 0
  }

  lemma ManifestDescending(rs: seq<Release>, all: bool)
    requires Descending(rs)
    ensures Descending(Manifest(rs, all))
  {
    if rs != [] {
      ManifestDescending(rs[1..], all);
      var rest := Manifest(rs[1..], all);
      forall k | 0 <= k < |rest| ensures Compare(rs[0].version, rest[k].version) > 0 {
        assert rest[k] in rs[1..];
        var j :| 0 <= j < |rs[1..]| && rs[1..][j] == rest[k];
        assert rs[j + 1] == rest[k];
      }
    }
  }

  /** The choice is the highest version one jump can reach. */
  lemma HighestIsHighest(m: seq<Release>, offers: seq<Release>, c: Version, r: Release)
    requires Descending(offers) && r in offers && CanJump(m, c, r)
    ensures Highest(m, offers, c).Some? && Compare(r.version, Highest(m, offers, c).value.version) <= 0
  {
    CompareOrder(r.version, r.version, r.version);
    if !CanJump(m, c, offers[0]) {
      assert r in offers[1..] by { assert offers == [offers[0]] + offers[1..]; }
      HighestIsHighest(m, offers[1..], c, r);
    } else if r != offers[0] {
      var k :| 0 <= k < |offers| && offers[k] == r;
      CompareOrder(r.version, offers[0].version, r.version);
    }
  }

  /** The releases of the manifest above c. */
  function Newer(m: seq<Release>, c: Version): set<Release> {
    set r | r in m && Compare(r.version, c) > 0
  }

  lemma NewerShrinks(m: seq<Release>, c: Version, x: Release)
    requires CanJump(m, c, x)
    ensures |Newer(m, x.version)| < |Newer(m, c)|
  {
    forall r | r in Newer(m, x.version) ensures r in Newer(m, c) {
      CompareOrder(c, x.version, r.version);
      CompareOrder(c, r.version, c);
      CompareOrder(x.version, r.version, c);
      CompareOrder(x.version, c, c);
    }
    assert x in Newer(m, c) && x !in Newer(m, x.version);
    Fewer(Newer(m, x.version), Newer(m, c));
  }

  lemma Fewer<T>(a: set<T>, b: set<T>)
    requires a < b
    ensures |a| < |b|
  {
    var x :| x in b && x !in a;
    assert a <= b - {x};
    NoMore(a, b - {x});
  }

  lemma NoMore<T>(a: set<T>, b: set<T>)
    requires a <= b
    ensures |a| <= |b|
  {
    assert b == a + (b - a);
  }

  /** Updating to the highest offer until none is left. */
  function GreedyEnd(m: seq<Release>, c: Version): Version
    decreases |Newer(m, c)|
  {
    var x := Highest(m, m, c);
    if x.None? then c
    else
      NewerShrinks(m, c, x.value);
      GreedyEnd(m, x.value.version)
  }

  lemma CleanDescends(rs: seq<Release>)
    requires Clean(rs)
    ensures Descending(rs)
  {
    forall i, j | 0 <= i < j < |rs| ensures Compare(rs[i].version, rs[j].version) > 0 {
      StrictlyDescending(rs, i, j);
    }
  }

  /** An older host is always offered something. */
  lemma OlderIsOffered(rs: seq<Release>, all: bool, c: Version, x: Release)
    requires Clean(rs) && x in Manifest(rs, all) && Compare(x.version, c) > 0
    ensures Highest(Manifest(rs, all), Manifest(rs, all), c).Some?
  {
    var m := Manifest(rs, all);
    var i :| 0 <= i < |rs| && rs[i] == x;
    var path := EveryReleaseReachable(rs, all, c, i);
    assert CanJump(m, c, path[0]);
  }

  /** A host that always takes the highest offer ends at the newest release. */
  lemma {:induction false} GreedyReachesNewest(rs: seq<Release>, all: bool, c: Version)
    requires Clean(rs) && Manifest(rs, all) != []
    requires Compare(Manifest(rs, all)[0].version, c) > 0
    ensures GreedyEnd(Manifest(rs, all), c) == Manifest(rs, all)[0].version
    decreases |Newer(Manifest(rs, all), c)|
  {
    var m := Manifest(rs, all);
    CleanDescends(rs);
    ManifestDescending(rs, all);
    OlderIsOffered(rs, all, c, m[0]);
    var x := Highest(m, m, c).value;
    NewerShrinks(m, c, x);
    var k :| 0 <= k < |m| && m[k] == x;
    if k > 0 {
      GreedyReachesNewest(rs, all, x.version);
    } else {
      NothingAbove(m);
    }
  }

  lemma NothingAbove(m: seq<Release>)
    requires Descending(m) && m != []
    ensures GreedyEnd(m, m[0].version) == m[0].version
  {
    var x := Highest(m, m, m[0].version);
    if x.Some? {
      var k :| 0 <= k < |m| && m[k] == x.value;
      CompareOrder(m[0].version, m[k].version, m[0].version);
    }
  }

  // ---- The bounded walk ----

  /** The versions visited on the way, without any bound. */
  function GreedyChain(m: seq<Release>, c: Version): seq<Version>
    decreases |Newer(m, c)|
  {
    var x := Highest(m, m, c);
    if x.None? then []
    else
      NewerShrinks(m, c, x.value);
      [x.value.version] + GreedyChain(m, x.value.version)
  }

  lemma {:induction false} GreedyChainEnds(m: seq<Release>, c: Version)
    ensures var chain := GreedyChain(m, c);
            GreedyEnd(m, c) == if chain == [] then c else chain[|chain| - 1]
    decreases |Newer(m, c)|
  {
    hide Compare, CanJump, Highest;
    var x := Highest(m, m, c);
    if x.Some? {
      NewerShrinks(m, c, x.value);
      GreedyChainEnds(m, x.value.version);
    }
  }

  lemma {:induction false} ReleasesCounted(m: seq<Release>)
    ensures |set r | r in m| <= |m|
  {
    if m == [] {
      assert (set r | r in m) == {};
    } else {
      var n := |m| - 1;
      assert m == m[..n] + [m[n]];
      ReleasesCounted(m[..n]);
      assert (set r | r in m) == (set r | r in m[..n]) + {m[n]};
    }
  }

  lemma NewerBound(m: seq<Release>, c: Version)
    ensures |Newer(m, c)| <= |m|
  {
    hide Compare;
    ReleasesCounted(m);
    assert Newer(m, c) <= set r | r in m;
    NoMore(Newer(m, c), set r | r in m);
  }

  lemma NoneAboveNewest(m: seq<Release>, c: Version)
    requires Descending(m) && m != [] && c == m[0].version
    ensures GreedyChain(m, c) == []
  {
    hide Highest;
    if Highest(m, m, c).Some? {
      var k :| 0 <= k < |m| && m[k] == Highest(m, m, c).value;
      CompareOrder(m[0].version, m[k].version, m[0].version);
    }
  }

  lemma GreedyStep(m: seq<Release>, c: Version)
    ensures var best := Highest(m, m, c);
            GreedyChain(m, c) == if best.None? then [] else [best.value.version] + GreedyChain(m, best.value.version)
  {
    hide Highest, Compare, CanJump, Newer;
  }

  ghost predicate AllBelow(seen: set<Version>, c: Version) {
    forall v :: v in seen ==> Compare(v, c) <= 0
  }

  /** A jump goes above everything seen at or below the version it starts from. */
  lemma JumpsUp(m: seq<Release>, c: Version, x: Release, seen: set<Version>)
    requires CanJump(m, c, x) && AllBelow(seen, c)
    ensures x.version !in seen && AllBelow(seen + {x.version}, x.version)
  {
    forall v | v in seen
      ensures Compare(v, x.version) < 0
    {
      CompareOrder(v, c, x.version);
      CompareOrder(x.version, c, c);
    }
  }

  lemma NothingSeen(c: Version)
    ensures AllBelow({}, c)
  {}

  /** One jump of the walk: the chain ahead is one shorter, fewer releases are newer, and the version is a new one. */
  lemma WalkStep(m: seq<Release>, chain: seq<Version>, c: Version, seen: set<Version>)
    requires AllBelow(seen, c)
    ensures var best := Highest(m, m, c);
            && (best.None? ==> GreedyChain(m, c) == [])
            && (best.Some? ==>
                  var next := best.value.version;
                  && chain + GreedyChain(m, c) == chain + [next] + GreedyChain(m, next)
                  && |Newer(m, next)| < |Newer(m, c)|
                  && next !in seen && AllBelow(seen + {next}, next))
  {
    hide Compare, Newer, Descending, AllBelow, CanJump;
    var best := Highest(m, m, c);
    GreedyStep(m, c);
    if best.Some? {
      var next := best.value.version;
      NewerShrinks(m, c, best.value);
      JumpsUp(m, c, best.value, seen);
      assert chain + ([next] + GreedyChain(m, next)) == chain + [next] + GreedyChain(m, next);
    }
  }

  /**
   * computeBestTarget over a manifest already sorted, newest first: neither the bound on the walk nor the guard against
   * seeing a version twice ever cuts it short. The target is the last of the chain; no chain is no target.
   */
  method ComputeBestTarget(m: seq<Release>, current: Version) returns (chain: seq<Version>)
    requires Descending(m)
    ensures chain == GreedyChain(m, current)
    ensures GreedyEnd(m, current) == if chain == [] then current else chain[|chain| - 1]
  {
    hide *;
    chain := [];
    NewerBound(m, current);
    NothingSeen(current);
    var at, seen: set<Version>, i, walking := current, {}, 0, true;
    while walking && i < |m| + 1
      invariant chain + GreedyChain(m, at) == GreedyChain(m, current)
      invariant walking ==> |Newer(m, at)| + i <= |m|
      invariant AllBelow(seen, at)
      invariant !walking ==> GreedyChain(m, at) == []
      decreases |m| + 1 - i
    {
      var best := Highest(m, m, at);
      WalkStep(m, chain, at, seen);
      if best.None? {
        walking := false;
      } else if best.value.version in seen {
        walking := false;
      } else {
        at := best.value.version;
        seen, chain := seen + {at}, chain + [at];
        if at == m[0].version {
          NoneAboveNewest(m, at);
          walking := false;
        }
      }
      i := i + 1;
    }
    GreedyChainEnds(m, current);
  }
}
