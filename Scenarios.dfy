/** Page layouts run through the model: two flat pages (the template
    ships `pageA` and `pageB`), two directories that yield the same page name, and a
    page whose name is an array index. */
module Scenarios {
  import opened Paths
  import opened PropertyKeys
  import opened ViteConfig

  /** Registering one name into the empty tables. */
  lemma OnePage(dirname: string, name: string)
    ensures var u := RegisterAll(Empty, dirname, [name]);
      && u == Register(Empty, dirname, name)
      && WellFormed(u, dirname)
      && u.keyOrder == [name]
      && u.multiPage == map[name := Page(name, RootPage(name))]
  {
    assert [name][..0] == [];
    assert RegisterAll(Empty, dirname, []) == Empty;
    RegisterAllPreserves(Empty, dirname, [name]);
  }

  /** Two flat pages `a` and `b`, found in that order: both dictionaries
      hold exactly them, the bundler input of each is its shell, and the
      rules list `a` then `b`. */
  lemma TwoFlatPages(dirname: string, a: string, b: string)
    requires Ordinary(a) && Ordinary(b) && a != b
    requires !IsArrayIndex(a) && !IsArrayIndex(b)
    ensures HasPageName(GlobEntry([a])) && HasPageName(GlobEntry([b]))
    ensures var t := RegisterAll(Empty, dirname, Names([GlobEntry([a]), GlobEntry([b])]));
      && t.multiPage == map[a := Page(a, RootPage(a)), b := Page(b, RootPage(b))]
      && t.pageEntry == map[a := RootPage(a), b := RootPage(b)]
      && t.keyOrder == [a, b]
      && RulesFor(t) == [Rule("/" + a, RootPage(a)), Rule("/" + b, RootPage(b))]
  {
    GlobEntryPageName([a]);
    GlobEntryPageName([b]);
    var names := Names([GlobEntry([a]), GlobEntry([b])]);
    assert names == [a, b];
    assert names[..1] == [a];
    TwoNames(dirname, a, b);
  }

  lemma TwoNames(dirname: string, a: string, b: string)
    requires Ordinary(a) && Ordinary(b) && a != b
    requires !IsArrayIndex(a) && !IsArrayIndex(b)
    ensures var t := RegisterAll(Empty, dirname, [a, b]);
      && t.multiPage == map[a := Page(a, RootPage(a)), b := Page(b, RootPage(b))]
      && t.pageEntry == map[a := RootPage(a), b := RootPage(b)]
      && t.keyOrder == [a, b]
      && RulesFor(t) == [Rule("/" + a, RootPage(a)), Rule("/" + b, RootPage(b))]
  {
    TwoNamesTables(dirname, a, b);
    var t := RegisterAll(Empty, dirname, [a, b]);
    OwnKeysCreationOrder(t.keyOrder);
    RulesInCreationOrder(t, dirname);
  }

  lemma TwoNamesTables(dirname: string, a: string, b: string)
    requires Ordinary(a) && Ordinary(b) && a != b
    ensures var t := RegisterAll(Empty, dirname, [a, b]);
      && WellFormed(t, dirname)
      && t.multiPage == map[a := Page(a, RootPage(a)), b := Page(b, RootPage(b))]
      && t.pageEntry == map[a := RootPage(a), b := RootPage(b)]
      && t.keyOrder == [a, b]
  {
    EntryPathIsRootPage(dirname, a);
    EntryPathIsRootPage(dirname, b);
    OnePage(dirname, a);
    var t1 := RegisterAll(Empty, dirname, [a]);
    assert [a, b][..1] == [a];
    var t := RegisterAll(Empty, dirname, [a, b]);
    assert t == Register(t1, dirname, b);
    assert t1.pageEntry == map[a := RootPage(a)];
    RegisterPreserves(t1, dirname, b);
  }

  /** The glob result for a page directly under `src/pages` is its shell
      written relative to the project root. */
  lemma FlatGlobEntry(name: string)
    ensures GlobEntry([name]) == "." + RootPage(name)
  {
    var tail := ["src", "pages", name, "index.html"];
    assert GlobSegments([name]) == ["."] + tail;
    assert ["", "src", "pages", name, "index.html"] == [""] + tail;
    RootPageSegments(name);
    JoinCons(".", tail);
    JoinCons("", tail);
  }

  /** Two nested directories ending in the same `name` make one page: the
      second registration changes nothing, there is a single rule, and its
      target is rebuilt from the name, not taken from either path. */
  lemma SameNameInTwoDirectories(dirname: string, x: string, y: string, name: string)
    requires Ordinary(x) && Ordinary(y) && Ordinary(name)
    ensures HasPageName(GlobEntry([x, name])) && HasPageName(GlobEntry([y, name]))
    ensures var t := RegisterAll(Empty, dirname, Names([GlobEntry([x, name]), GlobEntry([y, name])]));
      && t == RegisterAll(Empty, dirname, Names([GlobEntry([x, name])]))
      && t.keyOrder == [name]
      && t.multiPage.Keys == {name}
      && RulesFor(t) == [Rule("/" + name, RootPage(name))]
      && RootPage(name) != GlobEntry([x, name])[1..]
  {
    GlobEntryPageName([x, name]);
    GlobEntryPageName([y, name]);
    GlobEntryShell([x, name]);
    var names := Names([GlobEntry([x, name]), GlobEntry([y, name])]);
    assert names == [name, name];
    assert Names([GlobEntry([x, name])]) == [name];
    RepeatedName(dirname, name);
  }

  /** Registering the same name twice is registering it once. */
  lemma RepeatedName(dirname: string, name: string)
    ensures var t := RegisterAll(Empty, dirname, [name, name]);
      && t == RegisterAll(Empty, dirname, [name])
      && t.keyOrder == [name]
      && t.multiPage.Keys == {name}
      && RulesFor(t) == [Rule("/" + name, RootPage(name))]
  {
    OnePage(dirname, name);
    RepeatedNameTables(dirname, name);
    OwnKeysSingle(name);
    RulesOfOne(RegisterAll(Empty, dirname, [name]), dirname, name);
  }

  lemma RepeatedNameTables(dirname: string, name: string)
    ensures RegisterAll(Empty, dirname, [name, name]) == RegisterAll(Empty, dirname, [name])
  {
    OnePage(dirname, name);
    var u := RegisterAll(Empty, dirname, [name]);
    assert [name, name][..1] == [name];
    assert RegisterAll(Empty, dirname, [name, name]) == Register(u, dirname, name);
    RegisterKnownIsNoOp(u, dirname, name);
  }

  /** The rule of tables whose only own key is `k`. */
  lemma RulesOfOne(t: Tables, dirname: string, k: string)
    requires WellFormed(t, dirname)
    requires OwnKeys(t.keyOrder) == [k]
    ensures RulesFor(t) == [Rule("/" + k, RootPage(k))]
  {
    OwnKeysPresent(t);
    assert k in OwnKeys(t.keyOrder);
    RulesOverAt(t.multiPage, [k]);
  }

  /** A page `a` discovered before a page `n` whose name is an array
      index: the key order is discovery order, but `Reflect.ownKeys` walks
      `n` first, so the rules are not in discovery order. */
  lemma IndexPageFirst(dirname: string, a: string, n: string)
    requires Ordinary(a) && Ordinary(n)
    requires !IsArrayIndex(a) && IsArrayIndex(n)
    ensures var t := RegisterAll(Empty, dirname, [a, n]);
      && WellFormed(t, dirname)
      && t.keyOrder == [a, n]
      && RulesFor(t) == [Rule("/" + n, RootPage(n)), Rule("/" + a, RootPage(a))]
  {
    assert a != n;
    TwoNamesTables(dirname, a, n);
    var t := RegisterAll(Empty, dirname, [a, n]);
    OwnKeysIndexLast(a, n);
    RulesOfTwo(t, dirname, n, a);
  }

  /** The rules of tables whose own keys are `k1` then `k2`. */
  lemma RulesOfTwo(t: Tables, dirname: string, k1: string, k2: string)
    requires WellFormed(t, dirname)
    requires OwnKeys(t.keyOrder) == [k1, k2]
    ensures RulesFor(t) == [Rule("/" + k1, RootPage(k1)), Rule("/" + k2, RootPage(k2))]
  {
    OwnKeysPresent(t);
    assert k1 in OwnKeys(t.keyOrder) && k2 in OwnKeys(t.keyOrder);
    RulesOverAt(t.multiPage, [k1, k2]);
  }

  /** The page `404` discovered after `pageB` is walked first. */
  lemma ArrayIndexPageFirst(dirname: string)
    ensures var t := RegisterAll(Empty, dirname, ["pageB", "404"]);
      && WellFormed(t, dirname)
      && t.keyOrder == ["pageB", "404"]
      && RulesFor(t) == [Rule("/" + "404", RootPage("404")), Rule("/" + "pageB", RootPage("pageB"))]
  {
    NotFoundIsIndex();
    IndexPageFirst(dirname, "pageB", "404");
  }

  /** "404" is an array index and "pageB" is not. */
  lemma NotFoundIsIndex()
    ensures IsArrayIndex("404") && !IsArrayIndex("pageB")
    ensures Ordinary("404") && Ordinary("pageB")
  {
    assert DecimalValue("4") == 4 by {
      assert "4"[..0] == "";
    }
    assert DecimalValue("40") == 40 by {
      assert "40"[..1] == "4";
    }
    assert DecimalValue("404") == 404 by {
      assert "404"[..2] == "40";
    }
  }

  /** `Reflect.ownKeys` lists the array index "404" before "pageB", which
      was created first. */
  lemma ArrayIndexKeyFirst()
    ensures OwnKeys(["pageB", "404"]) == ["404", "pageB"]
  {
    NotFoundIsIndex();
    OwnKeysIndexLast("pageB", "404");
  }

  /** Two keys, the second an array index and the first not, are listed
      second first. */
  lemma OwnKeysIndexLast(a: string, n: string)
    requires !IsArrayIndex(a) && IsArrayIndex(n)
    ensures OwnKeys([a, n]) == [n, a]
  {
    assert [a, n][1..] == [n];
    assert [n][1..] == [];
    assert IndexKeys([]) == [] && NamedKeys([]) == [];
    assert IndexKeys([n]) == [n] && NamedKeys([n]) == [];
    assert IndexKeys([a, n]) == [n] && NamedKeys([a, n]) == [a];
    assert SortByValue([n]) == InsertByValue(n, []);
  }
}
