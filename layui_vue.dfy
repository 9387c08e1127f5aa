/**
 * The component resolver for layui-vue (src/utils/layui-vue.ts): it maps a
 * component tag such as `LayButton` to the package that exports it and to the
 * stylesheet that must be loaded with it.
 */
module LayuiVue {
  import opened Wrappers

  // ------------------------------------------------------------ the table

  /**
   * One entry of `matchComponents`. Every pattern there is an anchored
   * alternation of literal names, so it matches exactly the names in `names`.
   */
  datatype MatchEntry = MatchEntry(names: set<string>, styleDir: string)

  const MatchComponents: seq<MatchEntry> := TableHead + TableMiddle + TableTail

  const TableHead: seq<MatchEntry> := [
    MatchEntry({"LayAvatarList"}, "avatar"),
    MatchEntry({"LayBreadcrumb", "LayBreadcrumbItem"}, ""),
    MatchEntry({"LayCarousel", "LayCarouselItem"}, ""),
    MatchEntry({"LayCheckbox", "LayCheckboxGroup"}, ""),
    MatchEntry({"LayCol"}, ""),
    MatchEntry({"LayCollapse", "LayCollapseItem"}, ""),
    MatchEntry({"LayColorPicker"}, ""),
    MatchEntry({"LayCountUp"}, ""),
    MatchEntry({"LayDropdown", "LayDropdownItem"}, ""),
    MatchEntry({"LayField"}, "")
  ]

  const TableMiddle: seq<MatchEntry> := [
    MatchEntry({"LayForm", "LayFormItem"}, "formitem"),
    MatchEntry({"LayHeader"}, ""),
    MatchEntry({"LayIcon"}, ""),
    MatchEntry({"LayInput"}, ""),
    MatchEntry({"LayLayer"}, ""),
    MatchEntry({"LayLine"}, ""),
    MatchEntry({"LayLogo"}, ""),
    MatchEntry({"LayMenuItem", "LaySubMenu"}, "menu"),
    MatchEntry({"LayPage"}, ""),
    MatchEntry({"LayProgress"}, ""),
    MatchEntry({"LayRadio"}, "")
  ]

  const TableTail: seq<MatchEntry> := [
    MatchEntry({"LayScroll"}, ""),
    MatchEntry({"LaySelectOption"}, "select"),
    MatchEntry({"LaySkeletonItem"}, "skeleton"),
    MatchEntry({"LaySplitPanelItem"}, "splitPanel"),
    MatchEntry({"LayStepItem"}, "step"),
    MatchEntry({"LaySwitch"}, ""),
    MatchEntry({"LayTab", "LayTabItem"}, ""),
    MatchEntry({"LayTextarea"}, ""),
    MatchEntry({"LayTimelineItem"}, "timeline")
  ]

  /** The index of the first entry of `table` that matches `name`, or `|table|` when none does. */
  function FirstMatch(table: seq<MatchEntry>, name: string): (i: nat)
    ensures i <= |table|
    ensures i < |table| ==> name in table[i].names
    ensures forall j :: 0 <= j < i ==> name !in table[j].names
  {
    if table == [] then 0
    else if name in table[0].names then 0
    else 1 + FirstMatch(table[1..], name)
  }

  // ------------------------------------------------------------ names

  predicate IsUpper(c: char) {
    'A' <= c <= 'Z'
  }

  /** A character of the regular-expression class `\w`. */
  predicate IsWordChar(c: char) {
    'A' <= c <= 'Z' || 'a' <= c <= 'z' || '0' <= c <= '9' || c == '_'
  }

  /** `iconsRe`, `/^([A-Z][\w]+Icon|LayIcon)$/`, alternative by alternative. */
  predicate IsIconName(name: string) {
    || (&& |name| >= 6
        && IsUpper(name[0])
        && (forall i :: 1 <= i < |name| - 4 ==> IsWordChar(name[i]))
        && name[|name| - 4..] == "Icon")
    || name == "LayIcon"
  }

  /**
   * The icon pattern holds exactly for names of at least six word characters
   * that start with a capital and end in "Icon"; the `LayIcon` alternative
   * adds nothing to the first one.
   */
  lemma IconNameCharacterization(name: string)
    ensures IsIconName(name) <==>
      && |name| >= 6
      && IsUpper(name[0])
      && (forall i :: 0 <= i < |name| ==> IsWordChar(name[i]))
      && name[|name| - 4..] == "Icon"
  {
    if |name| >= 6 && name[|name| - 4..] == "Icon" {
      assert forall i :: |name| - 4 <= i < |name| ==> name[i] == name[|name| - 4..][i - (|name| - 4)];
    }
  }

  /** The shape `^Lay[A-Z]` every component the resolver accepts has. */
  predicate HasLayPrefix(name: string) {
    |name| >= 4 && name[0] == 'L' && name[1] == 'a' && name[2] == 'y' && IsUpper(name[3])
  }

  /** Every name in the table has the `Lay` prefix, so the table only ever sees names the resolver accepts. */
  lemma TableNamesHaveLayPrefix()
    ensures forall i, n :: 0 <= i < |MatchComponents| && n in MatchComponents[i].names ==> HasLayPrefix(n)
  {
    HeadHasLayPrefix();
    MiddleHasLayPrefix();
    TailHasLayPrefix();
    forall i, n | 0 <= i < |MatchComponents| && n in MatchComponents[i].names
      ensures HasLayPrefix(n)
    {
      if i < |TableHead| {
        assert MatchComponents[i] == TableHead[i];
      } else if i < |TableHead| + |TableMiddle| {
        assert MatchComponents[i] == TableMiddle[i - |TableHead|];
      } else {
        assert MatchComponents[i] == TableTail[i - |TableHead| - |TableMiddle|];
      }
    }
  }

  /** The names in one part of the table have the prefix. */
  predicate PartHasLayPrefix(part: seq<MatchEntry>) {
    forall i, n :: 0 <= i < |part| && n in part[i].names ==> HasLayPrefix(n)
  }

  lemma HeadHasLayPrefix()
    ensures PartHasLayPrefix(TableHead)
  {
  }

  lemma MiddleHasLayPrefix()
    ensures PartHasLayPrefix(TableMiddle)
  {
  }

  lemma TailHasLayPrefix()
    ensures PartHasLayPrefix(TableTail)
  {
  }

  /** `String.prototype.toLowerCase` on one ASCII character. */
  function ToLowerAscii(c: char): (r: char)
    ensures !IsUpper(r)
    ensures IsUpper(c) ==> 'a' <= r <= 'z' && r as int - 'a' as int == c as int - 'A' as int
    ensures !IsUpper(c) ==> r == c
  {
    if IsUpper(c) then (c as int + 32) as char else c
  }

  /** `lowerCamelCase`: the first character lowered, the rest untouched. */
  function LowerCamelCase(s: string): (r: string)
    ensures |r| == |s|
    ensures |s| > 0 ==> !IsUpper(r[0]) && r[1..] == s[1..]
    ensures |s| > 0 && IsUpper(s[0]) ==> 'a' <= r[0] <= 'z' && r[0] as int - 'a' as int == s[0] as int - 'A' as int
    ensures |s| > 0 && !IsUpper(s[0]) ==> r == s
  {
    if s == [] then [] else [ToLowerAscii(s[0])] + s[1..]
  }

  /** Lowering the first character twice is lowering it once. */
  lemma LowerCamelCaseIdempotent(s: string)
    ensures LowerCamelCase(LowerCamelCase(s)) == LowerCamelCase(s)
  {
  }

  /** `name.slice(3)`: everything after the first three characters, or "" for a shorter name. */
  function DropThree(name: string): string {
    if |name| >= 3 then name[3..] else ""
  }

  /** The style directory of the first entry of `table` listing `name`, or `fallback` when none does. */
  function StyleDirIn(table: seq<MatchEntry>, name: string, fallback: string): string {
    if table == [] then fallback
    else if name in table[0].names then table[0].styleDir
    else StyleDirIn(table[1..], name, fallback)
  }

  /** The lookup answers with the entry `FirstMatch` finds. */
  lemma {:induction false} StyleDirInFirstMatch(table: seq<MatchEntry>, name: string, fallback: string)
    ensures var i := FirstMatch(table, name);
      StyleDirIn(table, name, fallback) == if i < |table| then table[i].styleDir else fallback
  {
    if table != [] && name !in table[0].names {
      StyleDirInFirstMatch(table[1..], name, fallback);
    }
  }

  /** The style directory of a component: its table entry's, else the name after `Lay` in lower camel case. */
  function StyleDir(name: string): string {
    StyleDirIn(MatchComponents, name, LowerCamelCase(DropThree(name)))
  }

  /**
   * A `Lay`-prefixed name outside the table always has a style directory,
   * so only a table entry can produce the empty one.
   */
  lemma StyleDirOutsideTable(name: string)
    requires HasLayPrefix(name)
    requires forall i :: 0 <= i < |MatchComponents| ==> name !in MatchComponents[i].names
    ensures StyleDir(name) == LowerCamelCase(name[3..]) && StyleDir(name) != ""
  {
    StyleDirInFirstMatch(MatchComponents, name, LowerCamelCase(DropThree(name)));
  }

  // ------------------------------------------------------------ options

  /** The values `importStyle` may take: a boolean, 'css' or 'less'. */
  datatype ImportStyle = StyleFlag(on: bool) | StyleCss | StyleLess

  /**
   * `LayuiVueResolverOptions`; an undefined `resolveIcons` is false and an
   * undefined `exclude` is the empty list, as the source's falsy checks read them.
   */
  datatype Options = Options(importStyle: Option<ImportStyle>, resolveIcons: bool, exclude: seq<string>)

  /** `LayuiVueResolver()` with no argument. */
  const DefaultOptions := Options(None, false, [])

  /** `const { importStyle = true } = options`. */
  function EffectiveStyle(options: Options): ImportStyle {
    match options.importStyle
    case None => StyleFlag(true)
    case Some(s) => s
  }

  // ------------------------------------------------------------ side effects

  const EsComponentsFolder := "@layui/layui-vue/es"
  const IndexCss := EsComponentsFolder + "/index/index.css"
  const IndexLess := "@layui/layui-vue/lib/index.less"
  const IconsCss := "@layui/icons-vue/lib/index.css"

  /** What `getSideEffects` returns: nothing, one path, or a list of paths. */
  datatype SideEffect = NoSideEffect | Stylesheet(path: string) | Stylesheets(paths: seq<string>)

  /**
   * The side effect of `getSideEffects`. Styles switched off give none; an
   * icon (when icons are resolved) gives the icon stylesheet; otherwise every
   * component shares the library's stylesheet, written as a bare path for an
   * empty style directory and as a one-element list (or the `.less` path) for
   * any other.
   */
  function SideEffects(importName: string, options: Options): (r: SideEffect)
    ensures r == NoSideEffect <==> options.importStyle == Some(StyleFlag(false))
    ensures r.Stylesheet? ==> r.path in {IndexCss, IndexLess, IconsCss}
    ensures r.Stylesheets? ==> r.paths == [IndexCss]
    ensures r == Stylesheet(IconsCss) <==> options.importStyle != Some(StyleFlag(false)) && options.resolveIcons && IsIconName(importName)
    ensures r == Stylesheet(IndexLess) ==> options.importStyle == Some(StyleLess)
  {
    assert IndexCss[8] != IconsCss[8] && IndexLess[8] != IconsCss[8];
    var style := EffectiveStyle(options);
    if style == StyleFlag(false) then NoSideEffect
    else if options.resolveIcons && IsIconName(importName) then Stylesheet(IconsCss)
    else if StyleDir(importName) == "" then Stylesheet(IndexCss)
    else if style == StyleLess then Stylesheet(IndexLess)
    else Stylesheets([IndexCss])
  }

  /** `getSideEffects`: the scan of `matchComponents` stops at the first entry that matches. */
  method GetSideEffects(importName: string, options: Options) returns (r: SideEffect)
    ensures r == SideEffects(importName, options)
  {
    var importStyle := if options.importStyle.Some? then options.importStyle.value else StyleFlag(true);
    if importStyle == StyleFlag(false) {
      return NoSideEffect;
    }
    if options.resolveIcons && IsIconName(importName) {
      return Stylesheet(IconsCss);
    }
    var styleDir := LowerCamelCase(DropThree(importName));
    StyleDirInFirstMatch(MatchComponents, importName, styleDir);
    styleDir := ScanStyleDir(MatchComponents, importName, styleDir);
    if styleDir == "" {
      return Stylesheet(IndexCss);
    }
    if importStyle == StyleLess {
      return Stylesheet(IndexLess);
    } else {
      return Stylesheets([IndexCss]);
    }
  }

  /**
   * The loop of `getSideEffects` over `table`: the style directory of the
   * first entry that matches `name`, or `styleDir` unchanged when none does.
   */
  method ScanStyleDir(table: seq<MatchEntry>, name: string, styleDir: string) returns (r: string)
    ensures var i := FirstMatch(table, name); r == if i < |table| then table[i].styleDir else styleDir
  {
    r := styleDir;
    var i := 0;
    while i < |table|
      invariant 0 <= i <= |table|
      invariant forall j :: 0 <= j < i ==> name !in table[j].names
      invariant r == styleDir
    {
      if name in table[i].names {
        r := table[i].styleDir;
        break;
      }
      i := i + 1;
    }
  }

  /** An absent `importStyle` behaves as `true`, and 'css' behaves as `true` too. */
  lemma DefaultStyleIsOn(name: string, options: Options)
    ensures SideEffects(name, options.(importStyle := None)) == SideEffects(name, options.(importStyle := Some(StyleFlag(true))))
    ensures SideEffects(name, options.(importStyle := Some(StyleCss))) == SideEffects(name, options.(importStyle := Some(StyleFlag(true))))
  {
  }

  /**
   * With styles on and no icon match, a component whose first matching
   * entry is `MatchComponents[i]` gets the bare index stylesheet when that
   * entry's style directory is empty, and otherwise the `.less` path under
   * 'less' and the one-element list under any other setting.
   */
  lemma SideEffectsOfListed(name: string, options: Options, i: nat)
    requires i < |MatchComponents| && name in MatchComponents[i].names
    requires forall j :: 0 <= j < i ==> name !in MatchComponents[j].names
    requires options.importStyle != Some(StyleFlag(false))
    requires !(options.resolveIcons && IsIconName(name))
    ensures SideEffects(name, options) ==
      if MatchComponents[i].styleDir == "" then Stylesheet(IndexCss)
      else if options.importStyle == Some(StyleLess) then Stylesheet(IndexLess)
      else Stylesheets([IndexCss])
  {
    assert FirstMatch(MatchComponents, name) == i;
    StyleDirInFirstMatch(MatchComponents, name, LowerCamelCase(DropThree(name)));
  }

  /**
   * With styles on and no icon match, a `Lay` component outside the table
   * gets the one-element list, or the `.less` path when 'less' is asked for.
   */
  lemma SideEffectsOfUnlisted(name: string, options: Options)
    requires HasLayPrefix(name)
    requires forall i :: 0 <= i < |MatchComponents| ==> name !in MatchComponents[i].names
    requires options.importStyle != Some(StyleFlag(false))
    requires !(options.resolveIcons && IsIconName(name))
    ensures SideEffects(name, options) == (if options.importStyle == Some(StyleLess) then Stylesheet(IndexLess) else Stylesheets([IndexCss]))
  {
    StyleDirOutsideTable(name);
  }

  // ------------------------------------------------------------ resolution

  const LayuiPackage := "@layui/layui-vue"
  const IconsPackage := "@layui/icons-vue"

  /** The object `resolveComponent` returns for a name it accepts. */
  datatype Resolution = Resolution(importName: string, path: string, sideEffects: SideEffect)

  /**
   * `resolveComponent`: a `Lay`-prefixed name not excluded resolves, to the
   * icon package when icons are resolved and the name is an icon, and to the
   * component library otherwise; the import name is always the tag itself.
   */
  function ResolveComponent(name: string, options: Options): (r: Option<Resolution>)
    ensures r.None? <==> !HasLayPrefix(name) || name in options.exclude
    ensures r.Some? ==> r.value.importName == name && r.value.sideEffects == SideEffects(name, options)
    ensures r.Some? ==> r.value.path in {LayuiPackage, IconsPackage}
    ensures r.Some? ==> (r.value.path == IconsPackage <==> options.resolveIcons && IsIconName(name))
  {
    if !HasLayPrefix(name) || name in options.exclude then None
    else if options.resolveIcons && IsIconName(name) then Some(Resolution(name, IconsPackage, SideEffects(name, options)))
    else Some(Resolution(name, LayuiPackage, SideEffects(name, options)))
  }

  /**
   * Because the prefix test comes first, an icon whose name does not start
   * with `Lay` and a capital (such as `HomeIcon`) never resolves; the icon
   * package only ever serves names like `LayHomeIcon` or `LayIcon`.
   */
  lemma IconsNeedLayPrefix(options: Options)
    ensures ResolveComponent("HomeIcon", options) == None
    ensures options.resolveIcons && "LayHomeIcon" !in options.exclude ==>
      ResolveComponent("LayHomeIcon", options) == Some(Resolution("LayHomeIcon", IconsPackage, SideEffects("LayHomeIcon", options)))
  {
    assert !HasLayPrefix("HomeIcon");
    assert HasLayPrefix("LayHomeIcon");
    assert IsIconName("LayHomeIcon") by {
      var name := "LayHomeIcon";
      assert name[|name| - 4..] == "Icon";
    }
  }

  /** The object `LayuiVueResolver` returns: a resolver of components under the given options. */
  datatype Resolver = Resolver(kind: string, options: Options)

  /** `LayuiVueResolver(options)`; an omitted argument is `DefaultOptions`. */
  function LayuiVueResolver(options: Option<Options>): Resolver {
    Resolver("component", match options case Some(o) => o case None => DefaultOptions)
  }

  /** The resolver's `resolve` callback. */
  function Resolve(resolver: Resolver, name: string): Option<Resolution> {
    ResolveComponent(name, resolver.options)
  }

  /**
   * With no options every `Lay`-prefixed tag resolves to the component
   * library, with the library's index stylesheet as its side effect.
   */
  lemma DefaultResolverResolvesAllComponents(name: string)
    ensures Resolve(LayuiVueResolver(None), name).Some? <==> HasLayPrefix(name)
    ensures HasLayPrefix(name) ==>
      && Resolve(LayuiVueResolver(None), name).value.path == LayuiPackage
      && Resolve(LayuiVueResolver(None), name).value.sideEffects in {Stylesheet(IndexCss), Stylesheets([IndexCss])}
  {
  }
}
