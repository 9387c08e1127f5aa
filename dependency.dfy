/**
 * CDN links, the generated import map and the version-picker filters
 * (src/utils/dependency.ts). A version argument that JavaScript leaves
 * `undefined` is the empty string here: the link builders treat both alike.
 */
module Dependency {
  import opened Wrappers

  // ------------------------------------------------------------ CDN links

  datatype Cdn = Unpkg | Jsdelivr

  function Prefix(cdn: Cdn): string {
    match cdn
    case Unpkg => "https://unpkg.com/"
    case Jsdelivr => "https://cdn.jsdelivr.net/npm/"
  }

  /** The npm pinning segment: "@version", or nothing for an empty version. */
  function VersionTag(version: string): string {
    if version == "" then "" else "@" + version
  }

  /** Where each part of `a + b + c + d` sits. */
  lemma Layout(a: string, b: string, c: string, d: string)
    ensures var r := a + b + c + d;
      && |r| == |a| + |b| + |c| + |d|
      && r[..|a|] == a && r[|a|..|a| + |b|] == b
      && r[|a| + |b|..|a| + |b| + |c|] == c && r[|a| + |b| + |c|..] == d
  {
  }

  /**
   * `genUnpkgLink` and `genJsdelivrLink`: the CDN root, the package name, the
   * pinning segment and the path, side by side.
   */
  function Link(cdn: Cdn, pkg: string, version: string, path: string): string {
    Prefix(cdn) + pkg + VersionTag(version) + path
  }

  /** Where the prefix, the package, the '@' and version, and the path sit in a link. */
  lemma LinkLayout(cdn: Cdn, pkg: string, version: string, path: string)
    ensures var r, p := Link(cdn, pkg, version, path), |Prefix(cdn)|;
      && |r| >= p + |pkg| + |path|
      && r[..p] == Prefix(cdn)
      && r[p..p + |pkg|] == pkg
      && r[|r| - |path|..] == path
      && (version == "" <==> |r| == p + |pkg| + |path|)
      && (version != "" ==> |r| == p + |pkg| + 1 + |version| + |path|)
      && (version != "" ==> r[p + |pkg|] == '@')
      && (version != "" ==> r[p + |pkg| + 1..|r| - |path|] == version)
  {
    var pre, tag := Prefix(cdn), VersionTag(version);
    Layout(pre, pkg, tag, path);
    var r := pre + pkg + tag + path;
    assert version != "" ==> tag[0] == '@' && tag[1..] == version;
    assert version != "" ==> r[|pre| + |pkg|] == r[|pre| + |pkg|..|pre| + |pkg| + |tag|][0];
    assert version != "" ==> r[|pre| + |pkg| + 1..|r| - |path|] == r[|pre| + |pkg|..|pre| + |pkg| + |tag|][1..];
  }

  /** Two links that differ only in the version are equal exactly when the versions are. */
  lemma LinkVersionInjective(cdn: Cdn, pkg: string, v1: string, v2: string, path: string)
    ensures Link(cdn, pkg, v1, path) == Link(cdn, pkg, v2, path) <==> v1 == v2
  {
    LinkLayout(cdn, pkg, v1, path);
    LinkLayout(cdn, pkg, v2, path);
    var r1, r2 := Link(cdn, pkg, v1, path), Link(cdn, pkg, v2, path);
    var p, k := |Prefix(cdn)|, |pkg|;
    if r1 == r2 && v1 != "" && v2 != "" {
      assert v1 == r1[p + k + 1..|r1| - |path|] == r2[p + k + 1..|r2| - |path|] == v2;
    }
  }

  /** The two links `setVueVersion` loads: the SFC compiler and the DOM runtime. */
  datatype VueLinks = VueLinks(compilerSfc: string, runtimeDom: string)

  /** `genVueLink`: both links are unpkg links, and neither is ever empty. */
  function VueLink(version: string): (r: VueLinks)
    ensures r.compilerSfc != "" && r.runtimeDom != ""
    ensures |r.compilerSfc| > |Prefix(Unpkg)| && r.compilerSfc[..|Prefix(Unpkg)|] == Prefix(Unpkg)
    ensures |r.runtimeDom| > |Prefix(Unpkg)| && r.runtimeDom[..|Prefix(Unpkg)|] == Prefix(Unpkg)
  {
    LinkLayout(Unpkg, "@vue/compiler-sfc", version, CompilerSfcPath);
    LinkLayout(Unpkg, "@vue/runtime-dom", version, RuntimeDomPath);
    VueLinks(
      Link(Unpkg, "@vue/compiler-sfc", version, CompilerSfcPath),
      Link(Unpkg, "@vue/runtime-dom", version, RuntimeDomPath))
  }

  /** Each version gets its own pair of links: the pair determines the version. */
  lemma VueLinkInjective(v1: string, v2: string)
    ensures VueLink(v1) == VueLink(v2) <==> v1 == v2
  {
    LinkVersionInjective(Unpkg, "@vue/compiler-sfc", v1, v2, CompilerSfcPath);
  }

  const CompilerSfcPath := "/dist/compiler-sfc.esm-browser.js"
  const RuntimeDomPath := "/dist/runtime-dom.esm-browser.js"

  // ----------------------------------------------------------- import map

  /** One row of the table inside `genImportMap`; a missing `pkg` means the key itself. */
  datatype Dependency = Dependency(pkg: Option<string>, version: string, path: string, source: Option<Cdn>)

  /** The table `genImportMap` builds from the versions it destructures. */
  function Deps(vue: string, layuiVue: string): map<string, Dependency> {
    map[
      "vue" := Dependency(Some("@vue/runtime-dom"), vue, RuntimeDomPath, Some(Jsdelivr)),
      "@vue/shared" := Dependency(None, vue, "/dist/shared.esm-bundler.js", Some(Jsdelivr)),
      "@layui/layui-vue" := Dependency(None, layuiVue, "/lib/layui-vue.es.min.js", Some(Jsdelivr))
    ]
  }

  /** The link of one row: unpkg only when the row asks for it, jsdelivr otherwise. */
  function DependencyLink(key: string, dep: Dependency): string {
    var pkg := match dep.pkg case Some(p) => p case None => key;
    Link(if dep.source == Some(Unpkg) then Unpkg else Jsdelivr, pkg, dep.version, dep.path)
  }

  /** The specifiers `genImportMap` always produces. */
  const GeneratedKeys: set<string> := {"vue", "@vue/shared", "@layui/layui-vue"}

  /** `genImportMap({ vue, layuiVue })`: one import-map entry per row of the table. */
  function GenImportMap(vue: string, layuiVue: string): (r: map<string, string>)
    ensures r.Keys == GeneratedKeys
  {
    var deps := Deps(vue, layuiVue);
    map k | k in deps :: DependencyLink(k, deps[k])
  }

  /**
   * Every entry is a jsdelivr link; `vue` points at the DOM runtime package
   * and the other two at the package named by their key; the two Vue entries
   * carry the `vue` version and the library entry the `layuiVue` version.
   */
  lemma GenImportMapEntries(vue: string, layuiVue: string)
    ensures GenImportMap(vue, layuiVue)["vue"] == Link(Jsdelivr, "@vue/runtime-dom", vue, RuntimeDomPath)
    ensures GenImportMap(vue, layuiVue)["@vue/shared"] == Link(Jsdelivr, "@vue/shared", vue, "/dist/shared.esm-bundler.js")
    ensures GenImportMap(vue, layuiVue)["@layui/layui-vue"] == Link(Jsdelivr, "@layui/layui-vue", layuiVue, "/lib/layui-vue.es.min.js")
  {
    var deps := Deps(vue, layuiVue);
    assert deps["vue"].pkg == Some("@vue/runtime-dom");
  }

  /** Changing only the library version changes only the library entry, and always changes it. */
  lemma LibraryVersionChangesOnlyItsEntry(vue: string, l1: string, l2: string)
    ensures forall k :: k in GeneratedKeys && k != "@layui/layui-vue" ==> GenImportMap(vue, l1)[k] == GenImportMap(vue, l2)[k]
    ensures GenImportMap(vue, l1)["@layui/layui-vue"] == GenImportMap(vue, l2)["@layui/layui-vue"] <==> l1 == l2
  {
    GenImportMapEntries(vue, l1);
    GenImportMapEntries(vue, l2);
    LinkVersionInjective(Jsdelivr, "@layui/layui-vue", l1, l2, "/lib/layui-vue.es.min.js");
  }

  /** Changing only the Vue version changes both Vue entries and leaves the library entry alone. */
  lemma VueVersionChangesVueEntries(v1: string, v2: string, layuiVue: string)
    ensures GenImportMap(v1, layuiVue)["@layui/layui-vue"] == GenImportMap(v2, layuiVue)["@layui/layui-vue"]
    ensures GenImportMap(v1, layuiVue)["vue"] == GenImportMap(v2, layuiVue)["vue"] <==> v1 == v2
    ensures GenImportMap(v1, layuiVue)["@vue/shared"] == GenImportMap(v2, layuiVue)["@vue/shared"] <==> v1 == v2
  {
    GenImportMapEntries(v1, layuiVue);
    GenImportMapEntries(v2, layuiVue);
    LinkVersionInjective(Jsdelivr, "@vue/runtime-dom", v1, v2, RuntimeDomPath);
    LinkVersionInjective(Jsdelivr, "@vue/shared", v1, v2, "/dist/shared.esm-bundler.js");
  }

  // ------------------------------------------------------ version filters

  /** `compare(version, floor, '>=')` of the compare-versions package, which is not part of this model. */
  type AtLeast = (string, string) -> bool

  /** Holds when `a` can be obtained from `b` by deleting elements: order is kept. */
  ghost predicate IsSubsequence<T>(a: seq<T>, b: seq<T>)
    decreases |b|
  {
    if a == [] then true
    else if b == [] then false
    else (a[0] == b[0] && IsSubsequence(a[1..], b[1..])) || IsSubsequence(a, b[1..])
  }

  /** `versions.filter((version) => compare(version, floor, '>='))`. */
  function FilterAtLeast(versions: seq<string>, floor: string, atLeast: AtLeast): (r: seq<string>)
    ensures forall v :: v in r <==> v in versions && atLeast(v, floor)
    ensures IsSubsequence(r, versions)
  {
    if versions == [] then []
    else if atLeast(versions[0], floor) then [versions[0]] + FilterAtLeast(versions[1..], floor, atLeast)
    else FilterAtLeast(versions[1..], floor, atLeast)
  }

  /** The filter keeps every occurrence of a version at least the floor and no occurrence of any other. */
  lemma {:induction false} FilterAtLeastCounts(versions: seq<string>, floor: string, atLeast: AtLeast)
    ensures forall v :: multiset(FilterAtLeast(versions, floor, atLeast))[v] == if atLeast(v, floor) then multiset(versions)[v] else 0
  {
    if versions != [] {
      assert versions == [versions[0]] + versions[1..];
      FilterAtLeastCounts(versions[1..], floor, atLeast);
    }
  }

  /** The body of `getSupportedVueVersions`: the versions from 3.2.0 on, in the order given. */
  function SupportedVueVersions(versions: seq<string>, atLeast: AtLeast): (r: seq<string>)
    ensures forall v :: v in r <==> v in versions && atLeast(v, "3.2.0")
    ensures IsSubsequence(r, versions)
  {
    FilterAtLeast(versions, "3.2.0", atLeast)
  }

  /** `v.includes('-')`. */
  predicate IsPreRelease(v: string) {
    '-' in v
  }

  predicate AllPreRelease(vs: seq<string>) {
    forall i :: 0 <= i < |vs| ==> IsPreRelease(vs[i])
  }

  /** Whether the scan keeps `vs[i]`: a stable version always, a pre-release only inside the leading run. */
  predicate KeptAt(vs: seq<string>, i: nat)
    requires i < |vs|
  {
    !IsPreRelease(vs[i]) || AllPreRelease(vs[..i])
  }

  /** What the scan of `getSupportedLayuiVueVersions` keeps when no cap stops it. */
  function Train(vs: seq<string>): (r: seq<string>)
    ensures |r| <= |vs|
  {
    if vs == [] then []
    else Train(vs[..|vs| - 1]) + (if KeptAt(vs, |vs| - 1) then [vs[|vs| - 1]] else [])
  }

  /** One step of the scan: the scan of `vs[..i + 1]` extends that of `vs[..i]` by `vs[i]` or by nothing. */
  lemma TrainStep(vs: seq<string>, i: nat)
    requires i < |vs|
    ensures Train(vs[..i + 1]) == Train(vs[..i]) + (if KeptAt(vs, i) then [vs[i]] else [])
    ensures AllPreRelease(vs[..i + 1]) == (AllPreRelease(vs[..i]) && IsPreRelease(vs[i]))
  {
    var w := vs[..i + 1];
    assert w[..i] == vs[..i];
  }

  /** The most versions the picker lists. */
  const MaxListed: nat := 20

  function Capped(s: seq<string>, n: nat): (r: seq<string>)
    ensures |r| == if |s| <= n then |s| else n
    ensures r == s[..|r|]
  {
    if |s| <= n then s else s[..n]
  }

  /** What `versions[0].includes` throws when the floor leaves nothing. */
  const NoVersionsError := "TypeError: Cannot read properties of undefined (reading 'includes')"

  /**
   * The body of `getSupportedLayuiVueVersions`: keep the versions from 0.2.5
   * on, then scan them newest first, keeping the leading run of pre-releases
   * and every stable version, and stop once 20 are kept.
   */
  method SupportedLayuiVueVersions(versions: seq<string>, atLeast: AtLeast) returns (r: Result<seq<string>, string>)
    ensures versions == [] ==> r == Ok([])
    ensures r.Err? <==> versions != [] && FilterAtLeast(versions, "0.2.5", atLeast) == []
    ensures r.Err? ==> r.error == NoVersionsError
    ensures r.Ok? ==> r.value == Capped(Train(FilterAtLeast(versions, "0.2.5", atLeast)), MaxListed)
  {
    if |versions| == 0 {
      return Ok([]);
    }
    var layuiVersions := FilterAtLeast(versions, "0.2.5", atLeast);
    if |layuiVersions| == 0 {
      return Err(NoVersionsError);
    }
    var filteredVersions: seq<string> := [];
    var isInPreRelease := IsPreRelease(layuiVersions[0]);
    var i := 0;
    while i < |layuiVersions|
      invariant 0 <= i <= |layuiVersions|
      invariant filteredVersions == Train(layuiVersions[..i])
      invariant |filteredVersions| < MaxListed
      invariant i == 0 ==> isInPreRelease == IsPreRelease(layuiVersions[0])
      invariant i > 0 ==> isInPreRelease == AllPreRelease(layuiVersions[..i])
    {
      var v := layuiVersions[i];
      TrainStep(layuiVersions, i);
      if IsPreRelease(v) {
        if isInPreRelease {
          filteredVersions := filteredVersions + [v];
        }
      } else {
        filteredVersions := filteredVersions + [v];
        isInPreRelease := false;
      }
      i := i + 1;
      if |filteredVersions| >= MaxListed {
        TrainPrefix(layuiVersions, i);
        assert filteredVersions == Capped(Train(layuiVersions), MaxListed);
        return Ok(filteredVersions);
      }
    }
    assert layuiVersions[..i] == layuiVersions;
    return Ok(filteredVersions);
  }

  /** The scan of a prefix is a prefix of the scan. */
  lemma {:induction false} TrainPrefix(vs: seq<string>, k: nat)
    requires k <= |vs|
    ensures |Train(vs[..k])| <= |Train(vs)| && Train(vs)[..|Train(vs[..k])|] == Train(vs[..k])
    decreases |vs| - k
  {
    if k < |vs| {
      var w := vs[..|vs| - 1];
      assert w[..k] == vs[..k];
      TrainPrefix(w, k);
    } else {
      assert vs[..k] == vs;
    }
  }

  lemma TrainSnoc(w: seq<string>, x: string)
    ensures Train(w + [x]) == Train(w) + (if !IsPreRelease(x) || AllPreRelease(w) then [x] else [])
  {
    var vs := w + [x];
    assert vs[..|vs| - 1] == w;
  }

  /** The length of the leading run of pre-releases. */
  function LeadingPreReleases(vs: seq<string>): (k: nat)
    ensures k <= |vs| && forall i :: 0 <= i < k ==> IsPreRelease(vs[i])
    ensures k < |vs| ==> !IsPreRelease(vs[k])
  {
    if AllPreRelease(vs) then |vs|
    else
      var w := vs[..|vs| - 1];
      var k := LeadingPreReleases(w);
      assert forall i :: 0 <= i < k ==> w[i] == vs[i];
      k
  }

  /** The leading run ends exactly at the first stable version. */
  lemma LeadingPreReleasesUnique(vs: seq<string>, k: nat)
    requires k <= |vs| && forall i :: 0 <= i < k ==> IsPreRelease(vs[i])
    requires k < |vs| ==> !IsPreRelease(vs[k])
    ensures LeadingPreReleases(vs) == k
  {
  }

  /** The stable versions of `vs`, in order. */
  function StableOnly(vs: seq<string>): seq<string>
  {
    if vs == [] then []
    else StableOnly(vs[..|vs| - 1]) + (if IsPreRelease(vs[|vs| - 1]) then [] else [vs[|vs| - 1]])
  }

  lemma StableOnlySnoc(w: seq<string>, x: string)
    ensures StableOnly(w + [x]) == StableOnly(w) + (if IsPreRelease(x) then [] else [x])
  {
    var vs := w + [x];
    assert vs[..|vs| - 1] == w;
  }

  /**
   * The scan keeps exactly the leading run of pre-releases followed by every
   * stable version after it: a pre-release past the first stable version is
   * dropped even when it is newer than some stable version kept.
   */
  lemma {:induction false} TrainCharacterization(vs: seq<string>)
    ensures var k := LeadingPreReleases(vs); Train(vs) == vs[..k] + StableOnly(vs[k..])
  {
    if vs != [] {
      var w, x := vs[..|vs| - 1], vs[|vs| - 1];
      assert vs == w + [x];
      if AllPreRelease(w) {
        CharacterizationAfterRun(w, x);
      } else {
        TrainCharacterization(w);
        CharacterizationAfterStable(w, x);
      }
    }
  }

  /** The step of TrainCharacterization when `w` is all pre-releases. */
  lemma CharacterizationAfterRun(w: seq<string>, x: string)
    requires AllPreRelease(w)
    ensures var vs, j := w + [x], LeadingPreReleases(w + [x]); Train(vs) == vs[..j] + StableOnly(vs[j..])
  {
    var vs := w + [x];
    assert Train(vs) == vs by {
      TrainOfRun(w);
      TrainSnoc(w, x);
    }
    if IsPreRelease(x) {
      assert LeadingPreReleases(vs) == |vs| by { LeadingPreReleasesUnique(vs, |vs|); }
      SlicesAtEnd(vs);
    } else {
      assert LeadingPreReleases(vs) == |w| by { LeadingPreReleasesUnique(vs, |w|); }
      assert StableOnly([x]) == [x] by { StableOnlySnoc([], x); }
      SlicesOfSnoc(w, x, |w|);
      SlicesAtEnd(w);
    }
  }

  /** A run of pre-releases is kept whole. */
  lemma {:induction false} TrainOfRun(w: seq<string>)
    requires AllPreRelease(w)
    ensures Train(w) == w
  {
    if w != [] {
      var u := w[..|w| - 1];
      assert AllPreRelease(u);
      TrainOfRun(u);
      assert KeptAt(w, |w| - 1);
      assert u + [w[|w| - 1]] == w;
    }
  }

  /** The step of TrainCharacterization once `w` holds a stable version. */
  lemma CharacterizationAfterStable(w: seq<string>, x: string)
    requires !AllPreRelease(w)
    requires var k := LeadingPreReleases(w); Train(w) == w[..k] + StableOnly(w[k..])
    ensures var vs, j := w + [x], LeadingPreReleases(w + [x]); Train(vs) == vs[..j] + StableOnly(vs[j..])
  {
    var k := LeadingPreReleases(w);
    LeadingPreReleasesUnique(w + [x], k);
    TrainAfterSplit(w, x, k);
  }

  /** Appending `x` past the split point `k` extends the stable part only. */
  lemma TrainAfterSplit(w: seq<string>, x: string, k: nat)
    requires k < |w| && !IsPreRelease(w[k])
    requires Train(w) == w[..k] + StableOnly(w[k..])
    ensures Train(w + [x]) == (w + [x])[..k] + StableOnly((w + [x])[k..])
  {
    var vs := w + [x];
    var keep := if IsPreRelease(x) then [] else [x];
    SlicesOfSnoc(w, x, k);
    assert !AllPreRelease(w);
    TrainSnoc(w, x);
    StableOnlySnoc(w[k..], x);
    AppendAfterSplit(Train(w), w[..k], StableOnly(w[k..]), keep);
  }

  /** Slicing a sequence at its end. */
  lemma SlicesAtEnd<T>(s: seq<T>)
    ensures s[..|s|] == s && s[|s|..] == []
  {
  }

  /** Slicing `w + [x]` at a point inside `w`. */
  lemma SlicesOfSnoc<T>(w: seq<T>, x: T, k: nat)
    requires k <= |w|
    ensures (w + [x])[..k] == w[..k] && (w + [x])[k..] == w[k..] + [x]
  {
  }

  /** Appending to a sequence that splits as `p + s` appends to its second part. */
  lemma AppendAfterSplit<T>(t: seq<T>, p: seq<T>, s: seq<T>, keep: seq<T>)
    requires t == p + s
    ensures t + keep == p + (s + keep)
  {
  }

  /** The scan keeps the order of its input. */
  lemma {:induction false} TrainIsSubsequence(vs: seq<string>)
    ensures IsSubsequence(Train(vs), vs)
  {
    if vs != [] {
      var w := vs[..|vs| - 1];
      TrainIsSubsequence(w);
      SubsequenceExtend(Train(w), w, vs[|vs| - 1], KeptAt(vs, |vs| - 1));
      assert w + [vs[|vs| - 1]] == vs;
    }
  }

  lemma {:induction false} SubsequenceExtend<T>(a: seq<T>, b: seq<T>, x: T, keep: bool)
    requires IsSubsequence(a, b)
    ensures IsSubsequence(a + (if keep then [x] else []), b + [x])
    decreases |b|
  {
    var a' := a + (if keep then [x] else []);
    if a == [] {
      if keep {
        assert a' == [x];
        SubsequenceOfSingleton(x, b);
      }
    } else if b == [] {
    } else {
      assert (b + [x])[1..] == b[1..] + [x];
      if a[0] == b[0] && IsSubsequence(a[1..], b[1..]) {
        SubsequenceExtend(a[1..], b[1..], x, keep);
        assert a'[1..] == a[1..] + (if keep then [x] else []);
      } else {
        SubsequenceExtend(a, b[1..], x, keep);
      }
    }
  }

  lemma {:induction false} SubsequenceOfSingleton<T>(x: T, b: seq<T>)
    ensures IsSubsequence([x], b + [x])
    decreases |b|
  {
    if b != [] {
      assert (b + [x])[1..] == b[1..] + [x];
      SubsequenceOfSingleton(x, b[1..]);
    } else {
      assert IsSubsequence([x][1..], [x][1..]);
    }
  }

  /** Every stable version survives the scan, and a kept pre-release lies in the leading run. */
  lemma TrainMembership(vs: seq<string>)
    ensures forall v :: v in vs && !IsPreRelease(v) ==> v in Train(vs)
    ensures forall v :: v in Train(vs) && IsPreRelease(v) ==> v in vs[..LeadingPreReleases(vs)]
  {
    var k := LeadingPreReleases(vs);
    var run, stable := vs[..k], StableOnly(vs[k..]);
    assert Train(vs) == run + stable by { TrainCharacterization(vs); }
    StableOnlyMembership(vs[k..]);
    forall v | v in vs && !IsPreRelease(v)
      ensures v in Train(vs)
    {
      var i :| 0 <= i < |vs| && vs[i] == v;
      assert i >= k;
      assert vs[k..][i - k] == v;
      assert v in stable;
    }
    forall v | v in Train(vs) && IsPreRelease(v)
      ensures v in run
    {
      assert v !in stable;
    }
  }

  lemma {:induction false} StableOnlyMembership(vs: seq<string>)
    ensures forall v :: v in StableOnly(vs) <==> v in vs && !IsPreRelease(v)
  {
    if vs != [] {
      var w := vs[..|vs| - 1];
      StableOnlyMembership(w);
      assert vs == w + [vs[|vs| - 1]];
    }
  }
}
