/** The multi-page wiring of the Vite configuration: page discovery
    (`getInput`), which fills the module-level dictionaries `multiPage`
    and `pageEntry` from the entry files found under `src/pages`, and the
    rewrite-rule builder of `pathRewritePlugin`, which turns `multiPage`
    into history-fallback rules. */
module ViteConfig {
  import opened Paths
  import opened PropertyKeys

  /** The value `multiPage` holds for one page. */
  datatype Page = Page(name: string, rootPage: string)

  /** One rewrite rule handed to the history-fallback middleware. */
  datatype Rule = Rule(from: string, to: string)

  /** The options object given to the history-fallback middleware. */
  datatype HistoryOptions = HistoryOptions(htmlAcceptHeaders: seq<string>, disableDotRule: bool, rewrites: seq<Rule>)

  /** The plugin object `pathRewritePlugin` returns: its name, and the
      middleware options its `configureServer` hook installs. */
  datatype Plugin = Plugin(name: string, history: HistoryOptions)

  /** The contents of the two module-level dictionaries, with the order in
      which the properties of `multiPage` were created. */
  datatype Tables = Tables(multiPage: map<string, Page>, pageEntry: map<string, string>, keyOrder: seq<string>)

  const Empty := Tables(map[], map[], [])

  /** The HTML shell the configuration assumes for page `name`: rebuilt
      from the name alone, whatever the path it was discovered at. */
  function RootPage(name: string): string
  {
    "/src/pages/" + name + "/index.html"
  }

  /** The bundler input for page `name`: `path.resolve(__dirname, RootPage(name))`. */
  function EntryPath(dirname: string, name: string): string
  {
    Resolve(dirname, RootPage(name))
  }

  /** `entry.split("/")` has a second-to-last piece. */
  predicate HasPageName(entry: string)
  {
    |Split(entry, '/')| >= 2
  }

  /** The page name of an entry path: its second-to-last "/"-separated piece. */
  function PageName(entry: string): string
    requires HasPageName(entry)
  {
    var pathArr := Split(entry, '/');
    pathArr[|pathArr| - 2]
  }

  /** The page names of a list of entries, in the same order. */
  function Names(entries: seq<string>): seq<string>
    requires forall e <- entries :: HasPageName(e)
  {
    seq(|entries|, i requires 0 <= i < |entries| => PageName(entries[i]))
  }

  /** One iteration of the `forEach` in `getInput`: both dictionaries get
      `name`; a property that is new is created at the end of the key
      order, an existing one keeps its place. */
  function Register(t: Tables, dirname: string, name: string): Tables
  {
    Tables(
      t.multiPage[name := Page(name, RootPage(name))],
      t.pageEntry[name := EntryPath(dirname, name)],
      if name in t.multiPage then t.keyOrder else t.keyOrder + [name])
  }

  /** The `forEach` of `getInput` over the page names, in order. */
  function RegisterAll(t: Tables, dirname: string, names: seq<string>): Tables
    decreases |names|
  {
    if names == [] then t
    else Register(RegisterAll(t, dirname, names[..|names| - 1]), dirname, names[|names| - 1])
  }

  ghost predicate Distinct(s: seq<string>)
  {
    forall i, j :: 0 <= i < j < |s| ==> s[i] != s[j]
  }

  /** The key order lists each key of `multiPage` exactly once. */
  ghost predicate OrderMatches(t: Tables)
  {
    Distinct(t.keyOrder) && (forall k :: k in t.multiPage <==> k in t.keyOrder)
  }

  /** Both dictionaries have the same keys, and every stored value is
      determined by its key. */
  ghost predicate ValuesDerived(t: Tables, dirname: string)
  {
    && t.pageEntry.Keys == t.multiPage.Keys
    && (forall k | k in t.multiPage :: t.multiPage[k] == Page(k, RootPage(k)))
    && (forall k | k in t.pageEntry :: t.pageEntry[k] == EntryPath(dirname, k))
  }

  /** What `getInput` keeps true of the dictionaries. */
  ghost predicate WellFormed(t: Tables, dirname: string)
  {
    OrderMatches(t) && ValuesDerived(t, dirname)
  }

  /** Position of the first occurrence of `x` in `s`. */
  function IndexOf(s: seq<string>, x: string): (i: nat)
    requires x in s
    ensures i < |s| && s[i] == x && x !in s[..i]
  {
    if s[0] == x then 0 else 1 + IndexOf(s[1..], x)
  }

  /** The rule pushed for one `multiPage` value. */
  function RuleFor(p: Page): Rule
  {
    Rule("/" + p.name, p.rootPage)
  }

  /** The rules pushed while walking `keys`, in order. */
  function RulesOver(pages: map<string, Page>, keys: seq<string>): seq<Rule>
    requires forall k <- keys :: k in pages
    decreases |keys|
  {
    if keys == [] then []
    else RulesOver(pages, keys[..|keys| - 1]) + [RuleFor(pages[keys[|keys| - 1]])]
  }

  /** Every key `Reflect.ownKeys` lists is a key of `multiPage`. */
  lemma OwnKeysPresent(t: Tables)
    requires forall k <- t.keyOrder :: k in t.multiPage
    ensures forall k <- OwnKeys(t.keyOrder) :: k in t.multiPage
  {
    OwnKeysLayout(t.keyOrder);
    assert forall k <- OwnKeys(t.keyOrder) :: k in multiset(t.keyOrder);
  }

  /** The rules `pathRewritePlugin` builds from `multiPage`, walking
      `Reflect.ownKeys(multiPage)`. */
  function RulesFor(t: Tables): seq<Rule>
    requires forall k <- t.keyOrder :: k in t.multiPage
  {
    OwnKeysPresent(t);
    RulesOver(t.multiPage, OwnKeys(t.keyOrder))
  }

  /** Walking one more key pushes one more rule. */
  lemma RulesOverStep(pages: map<string, Page>, keys: seq<string>, i: nat)
    requires i < |keys|
    requires forall k <- keys :: k in pages
    ensures forall k <- keys[..i + 1] :: k in pages
    ensures forall k <- keys[..i] :: k in pages
    ensures RulesOver(pages, keys[..i + 1]) == RulesOver(pages, keys[..i]) + [RuleFor(pages[keys[i]])]
  {
    assert forall k <- keys[..i + 1] :: k in keys;
    assert forall k <- keys[..i] :: k in keys;
    assert keys[..i + 1][..i] == keys[..i];
  }

  /** The two module-level dictionaries of the configuration module. */
  class PageTables {
    /** `__dirname`, the directory the configuration file lives in. */
    const dirname: string
    var multiPage: map<string, Page>
    var pageEntry: map<string, string>
    /** The creation order of the properties of `multiPage`. */
    var keyOrder: seq<string>

    ghost function Snapshot(): Tables
      reads this
    {
      Tables(multiPage, pageEntry, keyOrder)
    }

    ghost predicate Valid()
      reads this
    {
      WellFormed(Snapshot(), dirname)
    }

    /** `const multiPage = {}; const pageEntry = {};` */
    constructor (dirname: string)
      ensures Valid()
      ensures this.dirname == dirname && Snapshot() == Empty
    {
      this.dirname := dirname;
      multiPage := map[];
      pageEntry := map[];
      keyOrder := [];
    }

    /** `getInput`, given the entry paths `glob.sync` returned. */
    method GetInput(allEntry: seq<string>)
      requires Valid()
      requires forall e <- allEntry :: HasPageName(e)
      modifies this
      ensures Valid()
      ensures Snapshot() == RegisterAll(old(Snapshot()), dirname, Names(allEntry))
      ensures forall e <- allEntry :: PageName(e) in multiPage
      ensures multiPage.Keys == old(multiPage.Keys) + (set e <- allEntry :: PageName(e))
    {
      var i := 0;
      while i < |allEntry|
        invariant 0 <= i <= |allEntry|
        invariant Snapshot() == RegisterAll(old(Snapshot()), dirname, Names(allEntry[..i]))
      {
        var entry := allEntry[i];
        assert entry in allEntry;
        var name := PageName(entry);
        RegisterAllStep(old(Snapshot()), dirname, allEntry, i);
        if name !in multiPage {
          keyOrder := keyOrder + [name];
        }
        multiPage := multiPage[name := Page(name, RootPage(name))];
        pageEntry := pageEntry[name := Resolve(dirname, RootPage(name))];
        i := i + 1;
      }
      assert allEntry[..i] == allEntry;
      RegisterAllPreserves(old(Snapshot()), dirname, Names(allEntry));
      NamesCover(allEntry);
    }

    /** `pathRewritePlugin`: one rule per key of `multiPage`, in
        `Reflect.ownKeys` order, wrapped in the plugin object. */
    method PathRewritePlugin() returns (plugin: Plugin)
      requires Valid()
      ensures plugin.name == "path-rewrite-plugin"
      ensures plugin.history.htmlAcceptHeaders == ["text/html", "application/xhtml+xml"]
      ensures !plugin.history.disableDotRule
      ensures plugin.history.rewrites == RulesFor(Snapshot())
    {
      var keys := OwnKeys(keyOrder);
      OwnKeysPresent(Snapshot());
      var rules: seq<Rule> := [];
      var i := 0;
      while i < |keys|
        invariant 0 <= i <= |keys|
        invariant rules == RulesOver(multiPage, keys[..i])
      {
        var key := keys[i];
        RulesOverStep(multiPage, keys, i);
        rules := rules + [Rule("/" + multiPage[key].name, multiPage[key].rootPage)];
        i := i + 1;
      }
      assert keys[..i] == keys;
      plugin := Plugin("path-rewrite-plugin",
        HistoryOptions(["text/html", "application/xhtml+xml"], false, rules));
    }
  }

  /** Evaluating the configuration module: `getInput()` runs first, then
      `pathRewritePlugin()` builds its rules; `pageEntry` becomes the
      bundler's multi-entry input. */
  method LoadConfig(dirname: string, allEntry: seq<string>) returns (input: map<string, string>, plugin: Plugin)
    requires forall e <- allEntry :: HasPageName(e)
    ensures var t := RegisterAll(Empty, dirname, Names(allEntry));
      && WellFormed(t, dirname)
      && input == t.pageEntry
      && plugin == Plugin("path-rewrite-plugin",
           HistoryOptions(["text/html", "application/xhtml+xml"], false, RulesFor(t)))
    ensures input.Keys == (set e <- allEntry :: PageName(e))
  {
    var tables := new PageTables(dirname);
    tables.GetInput(allEntry);
    plugin := tables.PathRewritePlugin();
    input := tables.pageEntry;
  }

  // ---------------------------------------------------------------------
  // Page names

  /** The page name of a path built from separator-free segments is its
      second-to-last segment. */
  lemma PageNameOfSegments(segs: seq<string>)
    requires |segs| >= 2
    requires forall seg <- segs :: '/' !in seg
    ensures HasPageName(Join(segs, '/'))
    ensures PageName(Join(segs, '/')) == segs[|segs| - 2]
  {
    SplitJoin(segs, '/');
  }

  /** A path `glob.sync("./src/pages/**/index.html")` can return, for the
      directories `dirs` that `**` matched. */
  function GlobEntry(dirs: seq<string>): string
  {
    Join(GlobSegments(dirs), '/')
  }

  lemma {:induction false} JoinCons(a: string, rest: seq<string>)
    requires |rest| >= 1
    ensures Join([a] + rest, '/') == a + "/" + Join(rest, '/')
  {
    assert ([a] + rest)[1..] == rest;
  }

  /** The segments of `RootPage(name)`. */
  lemma RootPageSegments(name: string)
    ensures RootPage(name) == Join(["", "src", "pages", name, "index.html"], '/')
  {
    var j1 := Join([name, "index.html"], '/');
    JoinCons(name, ["index.html"]);
    assert j1 == name + "/index.html";
    var j2 := Join(["pages", name, "index.html"], '/');
    JoinCons("pages", [name, "index.html"]);
    assert j2 == "pages/" + j1;
    var j3 := Join(["src", "pages", name, "index.html"], '/');
    JoinCons("src", ["pages", name, "index.html"]);
    assert j3 == "src/" + j2;
    JoinCons("", ["src", "pages", name, "index.html"]);
    assert Join(["", "src", "pages", name, "index.html"], '/') == "/" + j3;
  }

  /** The segments of a glob result. */
  function GlobSegments(dirs: seq<string>): seq<string>
  {
    [".", "src", "pages"] + dirs + ["index.html"]
  }

  lemma GlobSegmentsPlain(dirs: seq<string>)
    requires forall d <- dirs :: Ordinary(d)
    ensures forall seg <- GlobSegments(dirs) :: '/' !in seg
    ensures forall seg <- [""] + GlobSegments(dirs)[1..] :: '/' !in seg
  {
    var segs := GlobSegments(dirs);
    forall seg <- segs
      ensures '/' !in seg
    {
      if seg in dirs {
        assert Ordinary(seg);
      }
    }
    forall seg <- [""] + segs[1..]
      ensures '/' !in seg
    {
      if seg != "" {
        assert seg in segs;
      }
    }
  }

  /** Every path the glob returns has a page name: the last matched
      directory, or "pages" when `**` matched no directory at all. */
  lemma GlobEntryPageName(dirs: seq<string>)
    requires forall d <- dirs :: Ordinary(d)
    ensures HasPageName(GlobEntry(dirs))
    ensures PageName(GlobEntry(dirs)) == if dirs == [] then "pages" else dirs[|dirs| - 1]
  {
    GlobSegmentsPlain(dirs);
    PageNameOfSegments(GlobSegments(dirs));
  }

  /** The shell `RootPage` rebuilds from a glob result's page name is the
      discovered file (the entry without its leading ".") exactly when
      `**` matched one directory: a nested page loses its intermediate
      directories, and an `index.html` directly under `src/pages` is
      taken for a page called "pages". */
  lemma GlobEntryShell(dirs: seq<string>)
    requires forall d <- dirs :: Ordinary(d)
    ensures HasPageName(GlobEntry(dirs))
    ensures RootPage(PageName(GlobEntry(dirs))) == GlobEntry(dirs)[1..] <==> |dirs| == 1
  {
    GlobEntryPageName(dirs);
    GlobSegmentsPlain(dirs);
    var segs := GlobSegments(dirs);
    var name := PageName(GlobEntry(dirs));
    var tail := segs[1..];
    assert segs == ["."] + tail;
    JoinCons(".", tail);
    JoinCons("", tail);
    assert GlobEntry(dirs)[1..] == Join([""] + tail, '/');
    var rootSegs := ["", "src", "pages", name, "index.html"];
    RootPageSegments(name);
    SplitJoin([""] + tail, '/');
    SplitJoin(rootSegs, '/');
    if RootPage(name) == GlobEntry(dirs)[1..] {
      assert |rootSegs| == |[""] + tail|;
    }
    if |dirs| == 1 {
      assert [""] + tail == rootSegs;
    }
  }

  /** For an ordinary page name, the bundler input `path.resolve` yields
      is the same absolute path as the shell the rewrite rule targets. */
  lemma EntryPathIsRootPage(dirname: string, name: string)
    requires Ordinary(name)
    ensures EntryPath(dirname, name) == RootPage(name)
  {
    var segs := ["src", "pages", name, "index.html"];
    RootPageSegments(name);
    JoinCons("", segs);
    ResolveAbsolute(dirname, segs);
  }

  // ---------------------------------------------------------------------
  // Filling the dictionaries

  lemma RegisterOrder(t: Tables, dirname: string, name: string)
    requires OrderMatches(t)
    ensures OrderMatches(Register(t, dirname, name))
    ensures Register(t, dirname, name).multiPage.Keys == t.multiPage.Keys + {name}
    ensures t.keyOrder <= Register(t, dirname, name).keyOrder
  {
    var r := Register(t, dirname, name);
    if name !in t.multiPage {
      forall i, j | 0 <= i < j < |r.keyOrder|
        ensures r.keyOrder[i] != r.keyOrder[j]
      {
        if j == |t.keyOrder| {
          assert r.keyOrder[i] == t.keyOrder[i];
          assert t.keyOrder[i] in t.keyOrder;
        }
      }
    }
  }

  lemma RegisterValues(t: Tables, dirname: string, name: string)
    requires ValuesDerived(t, dirname)
    ensures ValuesDerived(Register(t, dirname, name), dirname)
  {
  }

  /** The names of one more entry are registered by one more step. */
  lemma RegisterAllStep(t: Tables, dirname: string, entries: seq<string>, i: nat)
    requires i < |entries|
    requires forall e <- entries :: HasPageName(e)
    ensures forall e <- entries[..i + 1] :: HasPageName(e)
    ensures forall e <- entries[..i] :: HasPageName(e)
    ensures RegisterAll(t, dirname, Names(entries[..i + 1]))
         == Register(RegisterAll(t, dirname, Names(entries[..i])), dirname, PageName(entries[i]))
  {
    assert forall e <- entries[..i + 1] :: e in entries;
    assert forall e <- entries[..i] :: e in entries;
    var done := Names(entries[..i + 1]);
    assert |done| == i + 1 && done != [];
    assert done[..i] == Names(entries[..i]);
    assert done[i] == PageName(entries[i]);
    assert RegisterAll(t, dirname, done)
        == Register(RegisterAll(t, dirname, done[..|done| - 1]), dirname, done[|done| - 1]);
  }

  /** The set of page names of the entries. */
  lemma NamesCover(entries: seq<string>)
    requires forall e <- entries :: HasPageName(e)
    ensures (set n <- Names(entries)) == (set e <- entries :: PageName(e))
  {
    forall e <- entries
      ensures PageName(e) in Names(entries)
    {
      var j :| 0 <= j < |entries| && entries[j] == e;
      assert Names(entries)[j] == PageName(e);
    }
  }

  /** One registration keeps the dictionaries well formed, adds exactly
      `name`, keeps every other value, and creates a property only for a
      name not seen before. */
  lemma RegisterPreserves(t: Tables, dirname: string, name: string)
    requires WellFormed(t, dirname)
    ensures var r := Register(t, dirname, name);
      && WellFormed(r, dirname)
      && r.multiPage.Keys == t.multiPage.Keys + {name}
      && (forall k | k in t.multiPage :: r.multiPage[k] == t.multiPage[k] && r.pageEntry[k] == t.pageEntry[k])
      && t.keyOrder <= r.keyOrder
  {
    RegisterOrder(t, dirname, name);
    RegisterValues(t, dirname, name);
  }

  /** Registering a name that is already present changes nothing: the
      stored values depend on the name only. */
  lemma RegisterKnownIsNoOp(t: Tables, dirname: string, name: string)
    requires WellFormed(t, dirname)
    requires name in t.multiPage
    ensures Register(t, dirname, name) == t
  {
    assert t.multiPage[name := Page(name, RootPage(name))] == t.multiPage;
    assert t.pageEntry[name := EntryPath(dirname, name)] == t.pageEntry;
  }

  /** Registering names keeps the key order listing exactly the keys,
      adds exactly the registered names, and only appends. */
  lemma {:induction false} RegisterAllOrder(t: Tables, dirname: string, names: seq<string>)
    requires OrderMatches(t)
    ensures var r := RegisterAll(t, dirname, names);
      && OrderMatches(r)
      && r.multiPage.Keys == t.multiPage.Keys + (set n <- names)
      && t.keyOrder <= r.keyOrder
    decreases |names|
  {
    if names != [] {
      var init := names[..|names| - 1];
      var last := names[|names| - 1];
      assert names == init + [last];
      var u := RegisterAll(t, dirname, init);
      assert RegisterAll(t, dirname, names) == Register(u, dirname, last);
      RegisterAllOrder(t, dirname, init);
      RegisterOrder(u, dirname, last);
      ElemsSnoc(t.multiPage.Keys, init, last);
    }
  }

  lemma ElemsSnoc(keys: set<string>, init: seq<string>, last: string)
    ensures keys + (set n <- init + [last]) == keys + (set n <- init) + {last}
  {
    assert (set n <- init + [last]) == (set n <- init) + {last};
  }

  /** `getInput` keeps the dictionaries well formed, adds exactly the
      discovered names, never removes or alters an existing entry, and
      only appends to the key order. */
  lemma {:induction false} RegisterAllPreserves(t: Tables, dirname: string, names: seq<string>)
    requires WellFormed(t, dirname)
    ensures var r := RegisterAll(t, dirname, names);
      && WellFormed(r, dirname)
      && r.multiPage.Keys == t.multiPage.Keys + (set n <- names)
      && (forall k | k in t.multiPage :: r.multiPage[k] == t.multiPage[k] && r.pageEntry[k] == t.pageEntry[k])
      && t.keyOrder <= r.keyOrder
    decreases |names|
  {
    if names != [] {
      var init := names[..|names| - 1];
      var last := names[|names| - 1];
      assert names == init + [last];
      var u := RegisterAll(t, dirname, init);
      var r := RegisterAll(t, dirname, names);
      assert r == Register(u, dirname, last);
      RegisterAllPreserves(t, dirname, init);
      RegisterPreserves(u, dirname, last);
      ElemsSnoc(t.multiPage.Keys, init, last);
      forall k | k in t.multiPage
        ensures r.multiPage[k] == t.multiPage[k] && r.pageEntry[k] == t.pageEntry[k]
      {
        assert k in u.multiPage;
      }
    }
  }

  /** Starting from empty dictionaries, the pages are exactly the distinct
      discovered names, one `pageEntry` each. */
  lemma DiscoveredPages(dirname: string, names: seq<string>)
    ensures var r := RegisterAll(Empty, dirname, names);
      && r.multiPage.Keys == (set n <- names)
      && r.pageEntry.Keys == (set n <- names)
      && (forall n <- names :: r.multiPage[n] == Page(n, RootPage(n)) && r.pageEntry[n] == EntryPath(dirname, n))
  {
    RegisterAllPreserves(Empty, dirname, names);
  }

  /** Registering names that are all present already changes nothing. */
  lemma {:induction false} RegisterAllKnownIsNoOp(t: Tables, dirname: string, names: seq<string>)
    requires WellFormed(t, dirname)
    requires forall n <- names :: n in t.multiPage
    ensures RegisterAll(t, dirname, names) == t
    decreases |names|
  {
    if names != [] {
      var init := names[..|names| - 1];
      assert forall n <- init :: n in names;
      RegisterAllKnownIsNoOp(t, dirname, init);
      RegisterKnownIsNoOp(t, dirname, names[|names| - 1]);
    }
  }

  /** Running `getInput` a second time over the same entries leaves both
      dictionaries and the key order as they were. */
  lemma RegisterAllIdempotent(t: Tables, dirname: string, names: seq<string>)
    requires WellFormed(t, dirname)
    ensures RegisterAll(RegisterAll(t, dirname, names), dirname, names) == RegisterAll(t, dirname, names)
  {
    RegisterAllPreserves(t, dirname, names);
    RegisterAllKnownIsNoOp(RegisterAll(t, dirname, names), dirname, names);
  }

  lemma IndexOfSnoc(s: seq<string>, y: string, x: string)
    requires x in s
    ensures IndexOf(s + [y], x) == IndexOf(s, x)
  {
    var i := IndexOf(s, x);
    assert (s + [y])[..i] == s[..i];
    assert (s + [y])[i] == x;
  }

  lemma IndexOfLast(s: seq<string>, x: string)
    requires x !in s
    ensures IndexOf(s + [x], x) == |s|
  {
    assert forall j :: 0 <= j < |s| ==> (s + [x])[j] == s[j];
  }

  /** New pages take their places after the existing ones, in the order in
      which their names were first discovered; a later duplicate does not
      move a name. */
  lemma {:induction false} DiscoveryOrder(t: Tables, dirname: string, names: seq<string>, a: string, b: string)
    requires OrderMatches(t)
    requires a in names && b in names
    requires a !in t.multiPage && b !in t.multiPage
    ensures var order := RegisterAll(t, dirname, names).keyOrder;
      && a in order && b in order
      && |t.keyOrder| <= IndexOf(order, a)
      && (IndexOf(order, a) < IndexOf(order, b) <==> IndexOf(names, a) < IndexOf(names, b))
    decreases |names|
  {
    var init := names[..|names| - 1];
    var last := names[|names| - 1];
    assert names == init + [last];
    var u := RegisterAll(t, dirname, init);
    RegisterAllOrder(t, dirname, init);
    var order := RegisterAll(t, dirname, names).keyOrder;
    assert order == if last in u.multiPage then u.keyOrder else u.keyOrder + [last];
    if a in init && b in init {
      DiscoveryOrder(t, dirname, init, a, b);
      IndexOfSnoc(init, last, a);
      IndexOfSnoc(init, last, b);
      if last !in u.multiPage {
        IndexOfSnoc(u.keyOrder, last, a);
        IndexOfSnoc(u.keyOrder, last, b);
      }
    } else if a in init {
      DiscoveryOrder(t, dirname, init, a, a);
      IndexOfSnoc(init, last, a);
      IndexOfLast(init, last);
      IndexOfSnoc(u.keyOrder, last, a);
      IndexOfLast(u.keyOrder, last);
    } else if b in init {
      DiscoveryOrder(t, dirname, init, b, b);
      IndexOfSnoc(init, last, b);
      IndexOfLast(init, last);
      IndexOfSnoc(u.keyOrder, last, b);
      IndexOfLast(u.keyOrder, last);
    } else {
      IndexOfLast(u.keyOrder, last);
    }
  }

  // ---------------------------------------------------------------------
  // Rewrite rules

  lemma {:induction false} RulesOverAt(pages: map<string, Page>, keys: seq<string>)
    requires forall k <- keys :: k in pages
    ensures |RulesOver(pages, keys)| == |keys|
    ensures forall i :: 0 <= i < |keys| ==> RulesOver(pages, keys)[i] == RuleFor(pages[keys[i]])
    decreases |keys|
  {
    if keys != [] {
      var init := keys[..|keys| - 1];
      assert forall k <- init :: k in keys;
      RulesOverAt(pages, init);
    }
  }

  lemma DistinctCount(s: seq<string>, x: string)
    requires Distinct(s)
    ensures multiset(s)[x] <= 1
  {
    if s != [] {
      assert s == [s[0]] + s[1..];
      DistinctCount(s[1..], x);
      if s[0] == x {
        assert x !in s[1..];
      }
    }
  }

  /** A permutation of a duplicate-free sequence is duplicate-free. */
  lemma DistinctPermutation(s: seq<string>, p: seq<string>)
    requires Distinct(s) && multiset(p) == multiset(s)
    ensures Distinct(p)
  {
    forall i, j | 0 <= i < j < |p|
      ensures p[i] != p[j]
    {
      if p[i] == p[j] {
        assert p == p[..j] + p[j..];
        assert p[i] in multiset(p[..j]);
        assert p[j] in multiset(p[j..]);
        assert multiset(p)[p[i]] >= 2;
        DistinctCount(s, p[i]);
      }
    }
  }

  lemma {:induction false} DistinctCardinality(s: seq<string>)
    requires Distinct(s)
    ensures |(set x <- s)| == |s|
    decreases |s|
  {
    if s != [] {
      var init := s[..|s| - 1];
      DistinctCardinality(init);
      assert (set x <- s) == (set x <- init) + {s[|s| - 1]};
      assert s[|s| - 1] !in init;
    }
  }

  /** `multiPage` has as many keys as the key order lists, and
      `Reflect.ownKeys` lists them all. */
  lemma KeyCount(t: Tables)
    requires OrderMatches(t)
    ensures |t.multiPage| == |t.keyOrder| == |OwnKeys(t.keyOrder)|
  {
    OwnKeysLayout(t.keyOrder);
    DistinctCardinality(t.keyOrder);
    assert (set k <- t.keyOrder) == t.multiPage.Keys;
    assert |multiset(OwnKeys(t.keyOrder))| == |multiset(t.keyOrder)|;
  }

  /** Rule `i` sends "/" + the `i`-th key of `Reflect.ownKeys(multiPage)`
      to that page's shell, and there are as many rules as pages. */
  lemma RulesShape(t: Tables, dirname: string)
    requires WellFormed(t, dirname)
    ensures var rules, keys := RulesFor(t), OwnKeys(t.keyOrder);
      && |rules| == |keys| == |t.multiPage|
      && (forall i :: 0 <= i < |rules| ==> keys[i] in t.multiPage && rules[i] == Rule("/" + keys[i], RootPage(keys[i])))
  {
    var keys := OwnKeys(t.keyOrder);
    OwnKeysPresent(t);
    KeyCount(t);
    RulesOverAt(t.multiPage, keys);
    var rules := RulesFor(t);
    forall i | 0 <= i < |rules|
      ensures keys[i] in t.multiPage && rules[i] == Rule("/" + keys[i], RootPage(keys[i]))
    {
      assert keys[i] in keys;
      assert rules[i] == RuleFor(t.multiPage[keys[i]]);
      assert t.multiPage[keys[i]] == Page(keys[i], RootPage(keys[i]));
    }
  }

  /** The rules and the pages correspond one to one: every page has a rule
      sending "/" + its name to its shell, and no two rules share a
      `from`. */
  lemma RulesMatchPages(t: Tables, dirname: string)
    requires WellFormed(t, dirname)
    ensures var rules := RulesFor(t);
      && (forall k | k in t.multiPage :: exists i :: 0 <= i < |rules| && rules[i] == Rule("/" + k, RootPage(k)))
      && (forall i, j :: 0 <= i < j < |rules| ==> rules[i].from != rules[j].from)
  {
    var keys := OwnKeys(t.keyOrder);
    var rules := RulesFor(t);
    RulesShape(t, dirname);
    OwnKeysLayout(t.keyOrder);
    DistinctPermutation(t.keyOrder, keys);
    forall k | k in t.multiPage
      ensures exists i :: 0 <= i < |rules| && rules[i] == Rule("/" + k, RootPage(k))
    {
      assert k in t.keyOrder;
      assert k in multiset(keys);
      var i :| 0 <= i < |keys| && keys[i] == k;
      assert rules[i] == Rule("/" + k, RootPage(k));
    }
    forall i, j | 0 <= i < j < |rules|
      ensures rules[i].from != rules[j].from
    {
      assert ("/" + keys[i])[1..] == keys[i];
      assert ("/" + keys[j])[1..] == keys[j];
    }
  }

  /** When no page name is an array index, the rules come out in the
      order the pages were first discovered. */
  lemma RulesInCreationOrder(t: Tables, dirname: string)
    requires WellFormed(t, dirname)
    requires forall k <- t.keyOrder :: !IsArrayIndex(k)
    ensures |RulesFor(t)| == |t.keyOrder|
    ensures forall i :: 0 <= i < |t.keyOrder| ==> RulesFor(t)[i] == Rule("/" + t.keyOrder[i], RootPage(t.keyOrder[i]))
  {
    OwnKeysCreationOrder(t.keyOrder);
    RulesOverAt(t.multiPage, t.keyOrder);
  }
}
