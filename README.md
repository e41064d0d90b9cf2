# Multi-page Vite configuration, modelled in Dafny

The template builds one Vite project out of several single-page
applications, one per directory under `src/pages`. Its configuration file
does two things when it is evaluated:

- `getInput` takes every `index.html` the glob `./src/pages/**/index.html`
  finds. It names each page after the directory that holds that file. It
  records the page in two module-level dictionaries:
  - `multiPage`: the name and the root-relative HTML shell
    `/src/pages/<name>/index.html`;
  - `pageEntry`: the absolute path `path.resolve` gives for that shell.
    `pageEntry` becomes the bundler's multi-entry input.
- `pathRewritePlugin` walks `Reflect.ownKeys(multiPage)`. For each page it
  builds a history-fallback rewrite rule `/<name>` → shell. It returns a
  dev-server plugin that installs the fallback middleware with those rules.

The model has four modules:

- `Paths`: JavaScript `split` and `join` with a one-character separator,
  and Node's POSIX `path.resolve` for the case the configuration uses (a
  second argument that is already absolute).
- `PropertyKeys`: the order `Reflect.ownKeys` lists the string keys of an
  ordinary object, as defined by OrdinaryOwnPropertyKeys (section
  10.1.11.1 of ECMA-262). Keys that are array indexes come first, in
  ascending numeric order. The other keys follow in creation order.
- `ViteConfig`: the configuration itself.
  - The class `PageTables` holds the two dictionaries, plus the creation
    order of `multiPage`'s properties, as fields that its methods update.
  - `GetInput` and `PathRewritePlugin` are methods with loops. Each is
    proved against the pure specification functions `RegisterAll` and
    `RulesFor`.
  - `LoadConfig` evaluates the module: the two dictionaries start empty,
    `getInput()` runs, then the plugin is built.
- `Scenarios`: page layouts run through the specification:
  - two flat pages (the template ships `pageA` and `pageB`);
  - two directories that end in the same name;
  - a page called `404`, whose name is an array index.

`__dirname` is a constructor parameter of `PageTables`. The list
`glob.sync` returns is a parameter of `GetInput`.

## Model

| member | source | states |
|---|---|---|
| Paths.Split | vite.config.ts:13 | `entry.split("/")` always yields at least one piece |
| Paths.SplitShape | vite.config.ts:13 | `split` yields one more piece than there are separators, and no piece contains the separator |
| Paths.JoinSplit | vite.config.ts:13 | joining the pieces of `split` with the same separator gives back the original string |
| Paths.SplitJoin | vite.config.ts:13 | splitting a join of separator-free pieces gives back exactly those pieces |
| Paths.NormalizeOrdinary | vite.config.ts:19 | segments other than "", "." and ".." pass through `path.resolve`'s normalisation unchanged |
| Paths.SplitAbsolute | vite.config.ts:19 | an absolute path of ordinary segments splits into an empty first piece followed by those segments |
| Paths.ResolveAbsolute | vite.config.ts:19 | `resolve(dir, p)` with an absolute, already normal `p` is `p`, whatever `dir` is |
| PropertyKeys.InsertByValueSorted | vite.config.ts:26 | inserting an array-index key keeps the index keys in ascending numeric order and adds exactly that key |
| PropertyKeys.SortByValueSorted | vite.config.ts:26 | the array-index keys are listed in ascending numeric order, each as often as it was created |
| PropertyKeys.PartitionKeys | vite.config.ts:26 | every key lands either with the array indexes or with the other keys, never both, none lost |
| PropertyKeys.OwnKeysLayout | vite.config.ts:26 | `Reflect.ownKeys` is a permutation of the creation order: array indexes first and ascending, then the other keys in creation order |
| PropertyKeys.OwnKeysCreationOrder | vite.config.ts:26 | with no array-index key, `Reflect.ownKeys` is exactly the creation order |
| PropertyKeys.OwnKeysSingle | vite.config.ts:26 | an object with a single key lists just that key, whatever its kind |
| ViteConfig.OwnKeysPresent | vite.config.ts:26-30 | every key `Reflect.ownKeys(multiPage)` yields can be looked up in `multiPage` |
| ViteConfig.PageTables.constructor | vite.config.ts:6-8 | both dictionaries start empty, with no properties created |
| ViteConfig.PageTables.GetInput | vite.config.ts:10-21 | after the loop the dictionaries are the old ones with every entry's name registered in glob order; each entry's name is a key; the keys are the old keys plus those names; the tables stay well formed |
| ViteConfig.PageTables.PathRewritePlugin | vite.config.ts:22-44 | the plugin is named "path-rewrite-plugin"; it accepts `text/html` and `application/xhtml+xml`; the dot rule is not disabled; the rewrites are one rule per key of `multiPage`, in `Reflect.ownKeys` order |
| ViteConfig.LoadConfig | vite.config.ts:45-56 | the bundler input is `pageEntry` after `getInput` over the glob result, keyed by exactly the discovered names; the plugin is the whole object `pathRewritePlugin` returns: named "path-rewrite-plugin", accepting `text/html` and `application/xhtml+xml`, dot rule not disabled, rewrites built from the filled `multiPage` |
| ViteConfig.PageNameOfSegments | vite.config.ts:13-14 | the page name of a path is its second-to-last segment |
| ViteConfig.RootPageSegments | vite.config.ts:17 | the shell path is the absolute path of the segments `src`, `pages`, name, `index.html` |
| ViteConfig.GlobEntryPageName | vite.config.ts:11-14 | every path the glob returns has a page name: the last directory `**` matched, or "pages" when it matched none |
| ViteConfig.GlobEntryShell | vite.config.ts:11-17 | the shell rebuilt from the name is the file the glob found exactly when `**` matched one directory |
| ViteConfig.EntryPathIsRootPage | vite.config.ts:17-19 | for an ordinary page name the bundler input equals the shell the rewrite rule targets |
| ViteConfig.RegisterOrder | vite.config.ts:15-18 | assigning `multiPage[name]` adds exactly `name`; it creates a property at the end of the order only for a new name |
| ViteConfig.RegisterValues | vite.config.ts:15-19 | after one assignment both dictionaries still have the same keys, and every value is the one its key determines |
| ViteConfig.RegisterPreserves | vite.config.ts:15-19 | one iteration keeps the tables well formed, adds exactly `name`, leaves every other value alone and only appends to the key order |
| ViteConfig.RegisterKnownIsNoOp | vite.config.ts:15-19 | registering a name already present changes nothing |
| ViteConfig.RegisterAllOrder | vite.config.ts:12-20 | the loop keeps the key order listing each key once, adds exactly the discovered names, and only appends |
| ViteConfig.RegisterAllPreserves | vite.config.ts:12-20 | the loop keeps the tables well formed, adds exactly the discovered names and never removes or alters an existing entry |
| ViteConfig.DiscoveredPages | vite.config.ts:10-21 | from empty dictionaries, both hold exactly the distinct discovered names, each with the value its name determines |
| ViteConfig.RegisterAllKnownIsNoOp | vite.config.ts:12-20 | a loop over names that are all present already changes nothing |
| ViteConfig.RegisterAllIdempotent | vite.config.ts:10-21 | running `getInput` twice over the same glob result is running it once |
| ViteConfig.DiscoveryOrder | vite.config.ts:12-20 | new pages are placed after the existing ones, in the order their names were first discovered; a later duplicate does not move a name |
| ViteConfig.RulesOverAt | vite.config.ts:26-31 | the `i`-th rule pushed comes from the `i`-th key walked |
| ViteConfig.KeyCount | vite.config.ts:26 | `multiPage` has as many keys as `Reflect.ownKeys` lists |
| ViteConfig.RulesShape | vite.config.ts:26-31 | there are as many rules as pages, and rule `i` sends "/" + the `i`-th own key to that page's shell |
| ViteConfig.RulesMatchPages | vite.config.ts:26-31 | every page has a rule sending "/" + its name to its shell, and no two rules share a `from` |
| ViteConfig.RulesInCreationOrder | vite.config.ts:26-31 | with no array-index page name, the rules come out in the order the pages were first discovered |
| Scenarios.OnePage | vite.config.ts:12-20 | one name registered into empty tables gives one page, one key, well formed |
| Scenarios.TwoNamesTables | vite.config.ts:12-20 | two distinct ordinary names give exactly those two pages and bundler inputs, in discovery order |
| Scenarios.TwoNames | vite.config.ts:12-31 | two distinct ordinary names give two rules, in discovery order |
| Scenarios.TwoFlatPages | vite.config.ts:10-31 | two flat pages found by the glob give both dictionaries exactly those pages, the bundler input of each is its shell, and the rules list them in discovery order |
| Scenarios.FlatGlobEntry | vite.config.ts:11 | the glob result for a flat page is "." followed by its shell `/src/pages/<name>/index.html`, that is the shell written relative to the project root |
| Scenarios.RepeatedNameTables | vite.config.ts:12-20 | registering the same name twice gives the same tables as registering it once |
| Scenarios.RepeatedName | vite.config.ts:12-31 | the same name discovered twice, whatever its kind, gives one page and one rule |
| Scenarios.RulesOfOne | vite.config.ts:26-31 | tables whose only own key is `k` give the single rule `/k` → shell of `k` |
| Scenarios.RulesOfTwo | vite.config.ts:26-31 | tables whose own keys are `k1` then `k2` give the rules for `k1` then `k2`, in that order |
| Scenarios.SameNameInTwoDirectories | vite.config.ts:11-31 | two nested directories that end in the same name make one page and one rule; its target is rebuilt from the name, not the file found |
| Scenarios.OwnKeysIndexLast | vite.config.ts:26 | a key that is not an array index, created before one that is, is listed second |
| Scenarios.NotFoundIsIndex | vite.config.ts:26 | "404" is an array index and "pageB" is not |
| Scenarios.ArrayIndexKeyFirst | vite.config.ts:26 | `Reflect.ownKeys` lists "404" before "pageB", which was created first |
| Scenarios.IndexPageFirst | vite.config.ts:10-31 | a page whose name is an array index, discovered after an ordinary page, is created second in `multiPage` but gets the first rule |
| Scenarios.ArrayIndexPageFirst | vite.config.ts:10-31 | registering `pageB` then `404` gives well-formed tables with key order `pageB`, `404`, and the rules `/404` then `/pageB`: not discovery order |

## Left out

- `glob.sync` (file-system I/O) is not modelled. Its result is a parameter, the list of entries.
- `console.log(multiPage)` writes to the console and changes nothing, so it is not modelled.
- The history-fallback middleware is not modelled. Only the options object handed to it is: the headers, the dot rule and the rewrites. How it matches requests is not part of this model.
- `configureServer` runs at dev-server start. Only the options object it passes to `server.middlewares.use` is modelled, as `Plugin.history`.
- `defineConfig` and the `vue()` plugin are library calls outside this model. `LoadConfig` returns only the parts this file computes: the bundler input and the path-rewrite plugin.
- `src/pages/*/router.ts` are the pages' own route tables. They are not part of this model.
- Paths.Resolve: only POSIX `path.resolve` is modelled. On Windows the shell path would resolve against the drive of `__dirname` and use backslashes, so EntryPathIsRootPage holds only on POSIX.
- Paths.Resolve: the fallback to the process's working directory is not modelled. It is used when no argument is absolute, which never happens here because the second argument always starts with "/".
- ViteConfig.PageName: requires that the entry has at least two "/"-separated pieces. The JavaScript reads `undefined` otherwise. Every path the glob pattern can return is built from at least four segments (GlobSegments) and has a page name (GlobEntryPageName), so the case does not arise.
- ViteConfig.Register: a page named `__proto__` would hit the object's prototype setter instead of creating a property. This is not modelled; keys are treated as ordinary properties.
- PropertyKeys.OwnKeys: symbol keys are not modelled. `multiPage` never has any.
