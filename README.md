# sandbox-vue core in Dafny

This project models the state core of the sandbox-vue playground, a Vue single-file
component sandbox with the layui-vue UI library installed. It covers four parts:

- the `ReplStore` class (`src/store.ts`). It holds the file table, the active file, the
  main file, the error list, the Vue runtime URL and the version pair. Its methods
  create, delete and select files, read and write `import-map.json`, add and strip the
  generated import entries, serialize the shareable state into a URL hash, and switch
  the Vue and UI library versions.
- the dependency helpers (`src/utils/dependency.ts`). They build unpkg and jsDelivr
  links, generate the import map for Vue and layui-vue, and filter the published
  version lists. The layui-vue filter keeps the leading pre-release run and the stable
  releases after it, capped at twenty entries.
- the layui-vue component resolver (`src/utils/layui-vue.ts`). It holds the table from
  component names to style directories, the side-effect stylesheet computation, icon
  recognition, and resolution with exclusion.
- the Unicode-safe base64 codec (`src/utils/encode.ts`). `utoa` is
  `btoa(unescape(encodeURIComponent(s)))` and `atou` is its inverse. The model writes
  them out as UTF-16 → code points → UTF-8 → base64 and back
  (`unicode.dfy`, `base64.dfy`, `encode.dfy`).

JavaScript strings inside the codec are sequences of 16-bit code units, so lone
surrogates exist and `encodeURIComponent`'s `URIError` is modelled. File names and
file contents in the store are Dafny strings of code points.

JSON parsing and printing are a parameter of the store, the `Json` record. The
properties that need a faithful codec require the `ImportMapCodec` or `FilesCodec`
predicate. `alert` and `confirm` become an `Outcome` and a `confirmed` argument. The
location-derived settings (SFC preference, UI package name) and the templates are
fields of `Config`.

Some behaviours are modelled as written:

- `genImportMap` reads the layui-vue version from a `layuiVue` key, but the store passes
  `UILib`. So the generated `@layui/layui-vue` link never carries a version; lemma
  `Store.WithGeneratedEntries` states this.
- `LIB_INSTALL_FILE` is evaluated once at module load while the SFC preference is still
  true, so it is always `LibInstall.js`.
- Deleting the active `App.vue` leaves the active file dangling (`Store.ReplStore.DeleteFile`).

## Model

| member | source | states |
|---|---|---|
| Unicode.DecodeEncodeUtf16 | src/utils/encode.ts:5 | decoding the UTF-16 encoding of any code-point sequence gives it back |
| Unicode.EncodeDecodeUtf16 | src/utils/encode.ts:5 | a code-unit string that decodes is exactly the encoding of its decoding |
| Unicode.DecodeUtf16Succeeds | src/utils/encode.ts:5 | UTF-16 decoding succeeds exactly on well-formed strings (no lone surrogates), which is when encodeURIComponent does not throw |
| Unicode.FromJsToJs | src/store.ts:254-255 | a store text turned into a JavaScript string converts back to the same text |
| Unicode.DecodeEncodeUtf8 | src/utils/encode.ts:5-10 | decoding the UTF-8 bytes of any code-point sequence gives it back |
| Unicode.EncodeDecodeUtf8 | src/utils/encode.ts:10 | bytes accepted by the UTF-8 decoder are exactly the encoding of what it returns |
| Base64.DecodeSextet | src/utils/encode.ts:10 | a base64 alphabet character decodes to the unique value 0..63 that encodes to it |
| Base64.BtoaShape | src/utils/encode.ts:5 | btoa output has length 4·ceil(n/3), uses only the alphabet, and has padding only in the last two places |
| Base64.DecodeDigitsOfDigits | src/utils/encode.ts:5-10 | the digits btoa emits never leave a single dangling character, and decode back to the input bytes |
| Base64.StripPaddingOfBtoa | src/utils/encode.ts:5-10 | removing the trailing '=' from btoa output leaves exactly its digits |
| Base64.AtobBtoa | src/utils/encode.ts:5-10 | atob(btoa(b)) == b for every byte string |
| Encode.Utoa | src/utils/encode.ts:4-6 | utoa throws URIError exactly on strings with a lone surrogate, and otherwise yields base64 characters |
| Encode.Atou | src/utils/encode.ts:9-11 | atou throws InvalidCharacterError exactly when atob rejects, URIError exactly when the bytes are not UTF-8, and otherwise yields a well-formed string |
| Encode.AtouUtoa | src/utils/encode.ts:4-11 | atou(utoa(s)) == s for every well-formed string |
| Encode.UtoaAtou | src/utils/encode.ts:4-11 | utoa(atou(t)) is the canonical base64 of atob(t), and equals t when t is canonical |
| Encode.UtoaLength | src/utils/encode.ts:4-6 | utoa's output length is 4·ceil(n/3) for n UTF-8 bytes |
| Encode.TextRoundTrip | src/utils/encode.ts:4-11 | every text of code points survives utoa then atou |
| Dependency.LinkLayout | src/utils/dependency.ts:12-35 | an unpkg or jsDelivr link is the CDN prefix, the package, '@version' only when a version is given, and the path |
| Dependency.LinkVersionInjective | src/utils/dependency.ts:12-35 | two links to the same package and path are equal only when the versions are |
| Dependency.VueLink | src/utils/dependency.ts:42-57 | both Vue links are unpkg links |
| Dependency.VueLinkInjective | src/utils/dependency.ts:42-57 | different Vue versions give different compiler and runtime links |
| Dependency.GenImportMap | src/utils/dependency.ts:60-96 | the generated import map has exactly the keys vue, @vue/shared and @layui/layui-vue |
| Dependency.GenImportMapEntries | src/utils/dependency.ts:67-95 | each generated entry is the exact link of its package, version and path |
| Dependency.LibraryVersionChangesOnlyItsEntry | src/utils/dependency.ts:67-95 | changing the layui-vue version changes only the @layui/layui-vue entry |
| Dependency.VueVersionChangesVueEntries | src/utils/dependency.ts:67-95 | changing the Vue version changes the vue and @vue/shared entries and not the library entry |
| Dependency.FilterAtLeast | src/utils/dependency.ts:109 | a version is kept iff it is listed and at least the floor, and the result is an order-preserving subsequence |
| Dependency.FilterAtLeastCounts | src/utils/dependency.ts:109 | each version at least the floor is kept as often as it is listed, and no other version is kept |
| Dependency.SupportedVueVersions | src/utils/dependency.ts:106-111 | the Vue list keeps exactly the versions at least 3.2.0, in order |
| Dependency.Capped | src/utils/dependency.ts:131-133 | a capped list is the first n elements of a longer list, and the whole list otherwise |
| Dependency.SupportedLayuiVueVersions | src/utils/dependency.ts:114-138 | an empty list gives an empty list; otherwise the error iff nothing is at least 0.2.5; else the first twenty of the pre-release-run filter over the versions at least 0.2.5 |
| Dependency.TrainPrefix | src/utils/dependency.ts:122-134 | the scan of a prefix of the versions is a prefix of the whole scan, so the early break at twenty returns the first twenty of the whole scan |
| Dependency.LeadingPreReleases | src/utils/dependency.ts:121-130 | the leading pre-release run is the unique k with pre-releases before it and a stable version (or the end) at it |
| Dependency.TrainCharacterization | src/utils/dependency.ts:121-130 | the loop's filter keeps the leading pre-release run and then only the stable versions |
| Dependency.TrainIsSubsequence | src/utils/dependency.ts:122-130 | the filter's result is an order-preserving subsequence of its input |
| Dependency.TrainMembership | src/utils/dependency.ts:122-130 | every stable version is kept, and a kept pre-release belongs to the leading run |
| LayuiVue.FirstMatch | src/utils/layui-vue.ts:172-178 | the index of the first table entry listing a name, or the table length when none does |
| LayuiVue.IconNameCharacterization | src/utils/layui-vue.ts:157 | the icon test holds iff the name has at least six word characters, starts with an upper-case letter and ends in "Icon"; no "Lay" is required |
| LayuiVue.TableNamesHaveLayPrefix | src/utils/layui-vue.ts:9-130 | every component listed in the style table begins with "Lay" |
| LayuiVue.LowerCamelCase | src/utils/layui-vue.ts:159-161 | lowerCamelCase keeps the length and every character but the first, which it lower-cases |
| LayuiVue.LowerCamelCaseIdempotent | src/utils/layui-vue.ts:159-161 | applying lowerCamelCase twice equals applying it once |
| LayuiVue.StyleDirOutsideTable | src/utils/layui-vue.ts:172-182 | a name not in the table has the style directory of its name without "Lay", lower-camel-cased |
| LayuiVue.SideEffects | src/utils/layui-vue.ts:163-193 | no side effect iff importStyle is false; the icon stylesheet iff icons are resolved and the name is an icon; any other result is the bare index.css path, lib/index.less (only under 'less') or the one-element [index.css] list |
| LayuiVue.ScanStyleDir | src/utils/layui-vue.ts:172-178 | the table scan returns the first matching entry's directory, or the computed fallback |
| LayuiVue.GetSideEffects | src/utils/layui-vue.ts:163-193 | the imperative side-effect computation equals the specification function |
| LayuiVue.DefaultStyleIsOn | src/utils/layui-vue.ts:164-166 | with no importStyle given, styles are imported as CSS |
| LayuiVue.SideEffectsOfListed | src/utils/layui-vue.ts:172-189 | for a name whose first matching table entry is i: an empty directory gives the bare es/index/index.css string, otherwise 'less' gives lib/index.less and any other setting the one-element [es/index/index.css] list |
| LayuiVue.SideEffectsOfUnlisted | src/utils/layui-vue.ts:172-189 | an unlisted "Lay" component yields lib/index.less under 'less' and the shared one-element [es/index/index.css] list otherwise, never its own directory's stylesheet |
| LayuiVue.ResolveComponent | src/utils/layui-vue.ts:198-214 | nothing is resolved iff the name lacks "Lay" or is excluded; the import is the name itself from the icons package iff icons are resolved and it is an icon, else from layui-vue |
| LayuiVue.IconsNeedLayPrefix | src/utils/layui-vue.ts:199-207 | HomeIcon is never resolved while LayHomeIcon comes from the icons package |
| LayuiVue.DefaultResolverResolvesAllComponents | src/utils/layui-vue.ts:222-229 | the resolver with default options resolves every "Lay" component name |
| Store.WithImportMap | src/store.ts:267-274 | initImportMap leaves a table with an import map unchanged and otherwise adds the default one |
| Store.Visible | src/store.ts:258-265 | the exported files are exactly the non-hidden ones |
| Store.WithoutGenerated | src/store.ts:228-236 | simplification removes exactly the generated specifiers and keeps every other entry |
| Store.Hash | src/store.ts:254-255 | the hash is '#' followed by a string that atou decodes back to the serialized text |
| Store.Restore | src/store.ts:150-151 | an empty hash restores nothing, and a hash atou rejects is an error |
| Store.ReplStore.constructor | src/store.ts:136-176 | the new store holds the seeded files plus an import map, the entry file as active file, the main file of the chosen mode, and no errors |
| Store.ReplStore.LoadSaved | src/store.ts:151-154 | the loop over a restored table makes one visible file per saved name, holding its saved code |
| Store.ReplStore.InitImportMap | src/store.ts:267-274 | the file table gains the default import map only when it has none |
| Store.ReplStore.Init | src/store.ts:178-191 | init sets the runtime URL and library installer and rewrites the import map, or throws when it is missing |
| Store.ReplStore.SetActive | src/store.ts:193-197 | a visible file becomes active, a hidden one leaves the choice, a missing one throws |
| Store.ReplStore.AddFile | src/store.ts:199-206 | the file is added or replaced under its name, becomes active unless hidden, and nothing else changes |
| Store.ReplStore.DeleteFile | src/store.ts:208-223 | protected files are refused, an unconfirmed delete changes nothing, and a completed delete removes exactly that file, falling back to the entry file when it was active |
| Store.ReplStore.GetFiles | src/store.ts:258-265 | the exported table equals Visible of the files |
| Store.ReplStore.GetImportMap | src/store.ts:276-285 | the parsed import map, or an empty one with the parse error recorded |
| Store.ReplStore.SetImportMap | src/store.ts:287-292 | the import map file holds the pretty-printed map, or the call throws when it is missing |
| Store.ReplStore.AddDeps | src/store.ts:294-304 | the import map gains the generated entries for the current versions, and nothing else changes |
| Store.ReplStore.SimplifyImportMaps | src/store.ts:228-238 | the simplified map is the stored one without generated entries, printed compactly |
| Store.ReplStore.Serialize | src/store.ts:240-256 | the hash of the printed shareable files, with the import map simplified |
| Store.ReplStore.SetVueVersion | src/store.ts:329-342 | the Vue version and runtime URL change, the import map is regenerated for it, errors follow the read, and the call throws when the import map is missing |
| Store.ReplStore.SetUILibVersion | src/store.ts:317-327 | without an installer file the call throws and nothing changes; otherwise the installer's code is rewritten for the version (its hidden flag and every other file kept), the version recorded, and the import map regenerated, or the call throws after the installer write when the import map is missing |
| Store.ReplStore.SetVersion | src/store.ts:306-315 | for the Vue key: the runtime URL, the Vue version and the regenerated import map; for the library key: the runtime URL kept and the library setter's whole new state; the outcome in every case |
| Store.SeededFilesKeyed | src/store.ts:150-175 | every seeded file is stored under its own name and an import map is present, the saved one when there is one |
| Store.WithGeneratedEntries | src/store.ts:294-304 | after addDeps the generated specifiers map to the pinned Vue links and the unversioned library link, and every other entry is kept |
| Store.SimplifyUndoesAddDeps | src/store.ts:228-238 | simplifying after adding dependencies gives back the user's own entries |
| Store.WithGeneratedIdempotent | src/store.ts:294-304 | adding dependencies twice equals adding them once |
| Store.ReadAfterSetImportMap | src/store.ts:276-292 | reading the import map after setting it gives the map that was set |
| Store.SimplifiedAfterAddDeps | src/store.ts:228-238 | simplifying after addDeps prints the user's entries without the generated ones |
| Store.SerializeRestores | src/store.ts:150-151 | restoring a serialized hash gives back exactly the shared files |
| Store.RestoredFilesVisible | src/store.ts:150-165 | every restored file is visible with its saved code, except the main file, which SFC mode regenerates |
| Store.SharedFiles | src/store.ts:240-256 | the shared files are the visible ones, with their code kept except for the import map |

## Left out

- JSON.parse and JSON.stringify are a parameter (`Json`). Documents that are not an object of strings, key order and pretty-print spacing are not modelled.
- Object key order is not modelled, because the model's tables are maps. Iteration order only affects the serialized text, which goes through the `Json` parameter.
- getVersions (`src/utils/dependency.ts:99-103`) is not part of this model: it is a network fetch. The version lists are the filters' inputs.
- Version comparison (compare-versions' `>=`) is a parameter `atLeast`, not a semver implementation.
- Compilation (`compileFile`), the compiler import, `reactive`, `watchEffect` and the `computed` wrappers are not part of this model. The store's dynamic import of the compiler is taken to succeed.
- `alert`, `confirm` and `console.info` are modelled only as the `Outcome` value and the `confirmed` argument.
- The location-derived `preferSFC` and `UIPackage` are `Config` fields and not shared global references.
- Templates (`mainCode`, `appTemplate`, `htmlCode`, the library installer) are opaque text or functions in `Config`.
- Thrown TypeErrors carry the engine's message text as constants; the exact wording is the engine's, not the program's.
- The active file is a file name, not an object reference, so aliasing between `activeFile` and the table is not modelled.
- File contents are strings of code points: a lone surrogate inside a file is not modelled.
- LayuiVue.LowerCamelCase: lower-cases ASCII letters only, not the full Unicode `toLowerCase`.
- Store.Restore: states the empty and undecodable cases; the decoded case is stated by `Store.SerializeRestores`.
- The sandbox and build configuration and the download feature are not part of this model.
