/**
 * The category registry: an ordered table from category name to its list of
 * extensions, and the derived index from lower-cased extension to category.
 */
module Categories {
  import opened Wrappers
  import opened Strings

  const Fallback: string := "Others"

  /** An insertion-ordered dictionary from category name to extension list. */
  datatype Table = Table(names: seq<string>, lists: map<string, seq<string>>) {
    /** The names are the dictionary's keys, each once, in iteration order. */
    ghost predicate Valid()
    {
      && (forall i, j :: 0 <= i < j < |names| ==> names[i] != names[j])
      && (forall c :: c in lists <==> c in names)
      && Fallback in lists
    }
  }

  function DefaultTable(): (t: Table)
    ensures t.Valid()
  {
    Table(
      ["Images", "Videos", "Audio", "Documents", "PDFs", "Executables",
       "Compressed", "Spreadsheets", "Presentations", "Code", "Others"],
      map[
        "Images" := [".jpg", ".jpeg", ".png", ".gif", ".bmp", ".tiff", ".svg", ".webp", ".ico"],
        "Videos" := [".mp4", ".avi", ".mkv", ".mov", ".wmv", ".flv", ".webm", ".m4v", ".3gp"],
        "Audio" := [".mp3", ".wav", ".flac", ".aac", ".ogg", ".wma", ".m4a"],
        "Documents" := [".txt", ".rtf", ".doc", ".docx", ".odt"],
        "PDFs" := [".pdf"],
        "Executables" := [".exe", ".msi", ".deb", ".rpm", ".dmg", ".app"],
        "Compressed" := [".zip", ".rar", ".7z", ".tar", ".gz", ".bz2", ".xz"],
        "Spreadsheets" := [".xls", ".xlsx", ".csv", ".ods"],
        "Presentations" := [".ppt", ".pptx", ".odp"],
        "Code" := [".py", ".js", ".html", ".css", ".java", ".cpp", ".c", ".php", ".rb", ".go"],
        "Others" := []
      ])
  }

  /** `get_extensions_for_category`: the stored list, or [] for an unknown category. */
  function ExtensionsOf(lists: map<string, seq<string>>, c: string): (r: seq<string>)
    ensures c in lists ==> r == lists[c]
    ensures c !in lists ==> r == []
  {
    if c in lists then lists[c] else []
  }

  /** Does the list hold an extension equal to e up to letter case? */
  ghost predicate Claims(exts: seq<string>, e: string)
  {
    exists x :: x in exts && Lower(x) == e
  }

  /** The inner loop of `_build_extension_map`: one category's extensions written into m in order. */
  function AddExtensions(m: map<string, string>, exts: seq<string>, c: string): map<string, string>
  {
    if exts == [] then m
    else AddExtensions(m, exts[..|exts| - 1], c)[Lower(exts[|exts| - 1]) := c]
  }

  /** `_build_extension_map` over the first |names| categories of the table. */
  function BuildIndex(names: seq<string>, lists: map<string, seq<string>>): map<string, string>
  {
    if names == [] then map[]
    else AddExtensions(BuildIndex(names[..|names| - 1], lists), ExtensionsOf(lists, names[|names| - 1]), names[|names| - 1])
  }

  /** Reference definition of the index: the last category in table order that claims e. */
  ghost function LastClaimant(names: seq<string>, lists: map<string, seq<string>>, e: string): Option<string>
  {
    if names == [] then None
    else if Claims(ExtensionsOf(lists, names[|names| - 1]), e) then Some(names[|names| - 1])
    else LastClaimant(names[..|names| - 1], lists, e)
  }

  /** No category of names at position `from` or later claims e. */
  ghost predicate NoClaimFrom(names: seq<string>, lists: map<string, seq<string>>, e: string, from: int)
  {
    forall j :: from <= j < |names| && 0 <= j ==> !Claims(ExtensionsOf(lists, names[j]), e)
  }

  /** LastClaimant finds nothing exactly when no category claims e, and otherwise the last claimant. */
  lemma {:induction false} LastClaimantSpec(names: seq<string>, lists: map<string, seq<string>>, e: string)
    ensures LastClaimant(names, lists, e).None? <==> NoClaimFrom(names, lists, e, 0)
    ensures LastClaimant(names, lists, e).Some? ==> exists i :: (0 <= i < |names|
      && names[i] == LastClaimant(names, lists, e).value
      && Claims(ExtensionsOf(lists, names[i]), e) && NoClaimFrom(names, lists, e, i + 1))
  {
    if names != [] {
      var n := |names| - 1;
      if Claims(ExtensionsOf(lists, names[n]), e) {
        assert NoClaimFrom(names, lists, e, n + 1);
      } else {
        var init := names[..n];
        LastClaimantSpec(init, lists, e);
        assert forall i :: 0 <= i < |init| ==> init[i] == names[i];
        assert LastClaimant(names, lists, e) == LastClaimant(init, lists, e);
        if LastClaimant(init, lists, e).Some? {
          var i :| 0 <= i < |init| && init[i] == LastClaimant(init, lists, e).value
            && Claims(ExtensionsOf(lists, init[i]), e) && NoClaimFrom(init, lists, e, i + 1);
          assert NoClaimFrom(names, lists, e, i + 1);
        } else {
          assert NoClaimFrom(names, lists, e, 0);
        }
      }
    }
  }

  lemma {:induction false} AddExtensionsLookup(m: map<string, string>, exts: seq<string>, c: string, e: string)
    ensures e in AddExtensions(m, exts, c) <==> e in m || Claims(exts, e)
    ensures e in AddExtensions(m, exts, c) ==>
      AddExtensions(m, exts, c)[e] == if Claims(exts, e) then c else m[e]
  {
    if exts != [] {
      var init := exts[..|exts| - 1];
      AddExtensionsLookup(m, init, c, e);
      assert exts == init + [exts[|exts| - 1]];
      assert Claims(exts, e) <==> Claims(init, e) || Lower(exts[|exts| - 1]) == e;
    }
  }

  /**
   * After `_build_extension_map`, an extension's entry is the category that claims it
   * last in table order (last write wins), and unclaimed extensions have no entry.
   */
  lemma {:induction false} BuildIndexIsLastClaimant(names: seq<string>, lists: map<string, seq<string>>, e: string)
    ensures e in BuildIndex(names, lists) <==> LastClaimant(names, lists, e).Some?
    ensures e in BuildIndex(names, lists) ==> BuildIndex(names, lists)[e] == LastClaimant(names, lists, e).value
  {
    if names != [] {
      var init := names[..|names| - 1];
      BuildIndexIsLastClaimant(init, lists, e);
      AddExtensionsLookup(BuildIndex(init, lists), ExtensionsOf(lists, names[|names| - 1]), names[|names| - 1], e);
    }
  }

  /** Every key of the index is lower-case and is claimed by the category it maps to. */
  lemma IndexKeysAreClaimed(names: seq<string>, lists: map<string, seq<string>>, e: string)
    requires e in BuildIndex(names, lists)
    ensures IsLower(e)
    ensures BuildIndex(names, lists)[e] in names
    ensures Claims(ExtensionsOf(lists, BuildIndex(names, lists)[e]), e)
  {
    BuildIndexIsLastClaimant(names, lists, e);
    LastClaimantSpec(names, lists, e);
    var x :| x in ExtensionsOf(lists, BuildIndex(names, lists)[e]) && Lower(x) == e;
    LowerIsLower(x);
  }

  /** `get_category_for_file`: look the lower-cased extension up, falling back to "Others". */
  function Classify(index: map<string, string>, filename: string): string
  {
    var e := Lower(Ext(filename));
    if e in index then index[e] else Fallback
  }

  /** Classification reads the table: the last claimant of the extension, or "Others". */
  lemma ClassifyByTable(t: Table, filename: string)
    ensures var e := Lower(Ext(filename));
      Classify(BuildIndex(t.names, t.lists), filename) ==
        match LastClaimant(t.names, t.lists, e) case Some(c) => c case None => Fallback
  {
    BuildIndexIsLastClaimant(t.names, t.lists, Lower(Ext(filename)));
  }

  /** With a well-formed table the classification is always one of its categories. */
  lemma ClassifyIsCategory(t: Table, filename: string)
    requires t.Valid()
    ensures Classify(BuildIndex(t.names, t.lists), filename) in t.lists
  {
    var e := Lower(Ext(filename));
    if e in BuildIndex(t.names, t.lists) {
      IndexKeysAreClaimed(t.names, t.lists, e);
    }
  }

  /** A name and its lower-cased form are classified alike. */
  lemma ClassifyLowerName(index: map<string, string>, a: string)
    ensures Classify(index, Lower(a)) == Classify(index, a)
  {
    ExtOfLower(a);
    LowerIsLower(Ext(a));
  }

  /** Names that differ only in letter case land in the same category. */
  lemma ClassifyIgnoresCase(index: map<string, string>, a: string, b: string)
    requires Lower(a) == Lower(b)
    ensures Classify(index, a) == Classify(index, b)
  {
    ClassifyLowerName(index, a);
    ClassifyLowerName(index, b);
  }

  /** The extension list given last for c in a custom category mapping, if any. */
  function LastGiven(custom: seq<(string, seq<string>)>, c: string): Option<seq<string>>
  {
    if custom == [] then None
    else if custom[|custom| - 1].0 == c then Some(custom[|custom| - 1].1)
    else LastGiven(custom[..|custom| - 1], c)
  }

  /** LastGiven finds nothing exactly when c is not given, and otherwise the last list given for c. */
  lemma {:induction false} LastGivenSpec(custom: seq<(string, seq<string>)>, c: string)
    ensures LastGiven(custom, c).None? <==> forall k :: 0 <= k < |custom| ==> custom[k].0 != c
    ensures LastGiven(custom, c).Some? ==> exists k :: (0 <= k < |custom|
      && custom[k] == (c, LastGiven(custom, c).value)
      && forall k' :: k < k' < |custom| ==> custom[k'].0 != c)
  {
    if custom != [] && custom[|custom| - 1].0 != c {
      var init := custom[..|custom| - 1];
      LastGivenSpec(init, c);
      assert forall k :: 0 <= k < |init| ==> init[k] == custom[k];
    }
  }

  /**
   * The loop of `update_custom_categories`: each given category's list replaces the
   * stored one wholesale; a new name is appended to the iteration order.
   */
  function Merge(t: Table, custom: seq<(string, seq<string>)>): Table
  {
    if custom == [] then t
    else
      var m := Merge(t, custom[..|custom| - 1]);
      var (c, exts) := custom[|custom| - 1];
      Table(if c in m.lists then m.names else m.names + [c], m.lists[c := exts])
  }

  /**
   * After a merge a category is present iff it was before or was given; a given
   * category holds the list given last for it, any other keeps its list.
   */
  lemma {:induction false} MergeLookup(t: Table, custom: seq<(string, seq<string>)>, c: string)
    ensures c in Merge(t, custom).lists <==> c in t.lists || LastGiven(custom, c).Some?
    ensures ExtensionsOf(Merge(t, custom).lists, c) ==
      match LastGiven(custom, c) case Some(exts) => exts case None => ExtensionsOf(t.lists, c)
  {
    if custom != [] {
      MergeLookup(t, custom[..|custom| - 1], c);
    }
  }

  /**
   * A merge keeps the table well formed; the old names keep their places, followed
   * by the new ones, so "Others" is never removed.
   */
  lemma {:induction false} MergeKeepsOrder(t: Table, custom: seq<(string, seq<string>)>)
    requires t.Valid()
    ensures Merge(t, custom).Valid()
    ensures t.names <= Merge(t, custom).names
  {
    if custom != [] {
      MergeKeepsOrder(t, custom[..|custom| - 1]);
    }
  }

  /** `get_custom_categories` as the sequence of (name, extensions) items in table order. */
  function AsPairs(t: Table): (r: seq<(string, seq<string>)>)
    ensures |r| == |t.names|
    ensures forall i :: 0 <= i < |r| ==> r[i] == (t.names[i], ExtensionsOf(t.lists, t.names[i]))
  {
    seq(|t.names|, i requires 0 <= i < |t.names| => (t.names[i], ExtensionsOf(t.lists, t.names[i])))
  }

  lemma {:induction false} MergePairsPrefix(t: Table, k: nat)
    requires t.Valid() && k <= |t.names|
    ensures Merge(t, AsPairs(t)[..k]) == t
  {
    if k > 0 {
      var pairs := AsPairs(t);
      assert pairs[..k][..k - 1] == pairs[..k - 1];
      MergePairsPrefix(t, k - 1);
      var c := t.names[k - 1];
      assert pairs[..k][k - 1] == (c, t.lists[c]);
      assert t.lists[c := t.lists[c]] == t.lists;
    }
  }

  /** Saving the categories and merging them back (as the preferences round trip does) changes nothing. */
  lemma MergeAsPairsIsIdentity(t: Table)
    requires t.Valid()
    ensures Merge(t, AsPairs(t)) == t
  {
    MergePairsPrefix(t, |t.names|);
    assert AsPairs(t)[..|t.names|] == AsPairs(t);
  }

  /**
   * The names of what merging the first k items of t into s gives, when t's names
   * begin with s's: s's names, then t's new ones up to k.
   */
  ghost predicate NamesUpTo(s: Table, t: Table, k: nat, m: Table)
    requires k <= |t.names|
  {
    m.names == if k <= |s.names| then s.names else t.names[..k]
  }

  /** The last custom category merged in. */
  lemma MergeLast(t: Table, custom: seq<(string, seq<string>)>)
    requires custom != []
    ensures var m := Merge(t, custom[..|custom| - 1]); var c := custom[|custom| - 1].0;
      Merge(t, custom) == Table(if c in m.lists then m.names else m.names + [c], m.lists[c := custom[|custom| - 1].1])
  {
  }

  /** s and t are well formed and t's names begin with s's. */
  ghost predicate Extends(s: Table, t: Table)
  {
    s.Valid() && t.Valid() && s.names <= t.names
  }

  /** The k-th name of t is s's k-th name, or else is new to t's earlier names. */
  lemma NameAt(s: Table, t: Table, k: nat)
    requires Extends(s, t) && 0 < k <= |t.names|
    ensures k <= |s.names| ==> t.names[k - 1] == s.names[k - 1]
    ensures k > |s.names| ==> t.names[k - 1] !in t.names[..k - 1] && s.names == t.names[..|s.names|]
  {
  }

  lemma NamesUpToStep(s: Table, t: Table, k: nat, m: Table, c: string, exts: seq<string>)
    requires 0 < k <= |t.names| && c == t.names[k - 1]
    requires k <= |s.names| ==> c == s.names[k - 1]
    requires k > |s.names| ==> c !in t.names[..k - 1] && s.names == t.names[..|s.names|]
    requires forall d :: d in m.lists <==> d in m.names
    requires NamesUpTo(s, t, k - 1, m)
    ensures NamesUpTo(s, t, k, Table(if c in m.lists then m.names else m.names + [c], m.lists[c := exts]))
  {
    if k <= |s.names| {
      assert c in m.names;
    } else {
      assert m.names == t.names[..k - 1];
      assert t.names[..k] == t.names[..k - 1] + [c];
    }
  }

  /** Items whose names are t's first names, in order. */
  ghost predicate NamedAsIn(custom: seq<(string, seq<string>)>, t: Table)
  {
    |custom| <= |t.names| && forall i {:trigger custom[i]} :: 0 <= i < |custom| ==> custom[i].0 == t.names[i]
  }

  lemma NamedAsInPrefix(custom: seq<(string, seq<string>)>, t: Table)
    requires NamedAsIn(custom, t) && custom != []
    ensures NamedAsIn(custom[..|custom| - 1], t)
  {
    var prev := custom[..|custom| - 1];
    forall i | 0 <= i < |prev| ensures prev[i].0 == t.names[i] {
      assert prev[i] == custom[i];
    }
  }

  lemma {:induction false} MergeNamedOnto(s: Table, t: Table, custom: seq<(string, seq<string>)>)
    requires Extends(s, t) && NamedAsIn(custom, t)
    ensures NamesUpTo(s, t, |custom|, Merge(s, custom))
  {
    if custom != [] {
      var k := |custom|;
      var prev := custom[..k - 1];
      NamedAsInPrefix(custom, t);
      MergeNamedOnto(s, t, prev);
      assert |prev| == k - 1;
      MergeNamedStep(s, t, custom);
    }
  }

  lemma MergeNamedStep(s: Table, t: Table, custom: seq<(string, seq<string>)>)
    requires Extends(s, t) && NamedAsIn(custom, t) && custom != []
    requires NamesUpTo(s, t, |custom| - 1, Merge(s, custom[..|custom| - 1]))
    ensures NamesUpTo(s, t, |custom|, Merge(s, custom))
  {
    var k := |custom|;
    var prev := custom[..k - 1];
    assert custom[k - 1].0 == t.names[k - 1];
    MergeLast(s, custom);
    MergeKeepsOrder(s, prev);
    NameAt(s, t, k);
    NamesUpToStep(s, t, k, Merge(s, prev), t.names[k - 1], custom[k - 1].1);
  }

  /** Merging all items of t into a well-formed table whose names begin t's gives t. */
  lemma MergeOnto(s: Table, t: Table)
    requires Extends(s, t)
    ensures Merge(s, AsPairs(t)) == t
  {
    MergeOntoNames(s, t);
    MergeOntoLists(s, t);
    SameTable(Merge(s, AsPairs(t)), t);
  }

  lemma MergeOntoNames(s: Table, t: Table)
    requires Extends(s, t)
    ensures Merge(s, AsPairs(t)).Valid() && Merge(s, AsPairs(t)).names == t.names
  {
    MergeNamedOnto(s, t, AsPairs(t));
    MergeKeepsOrder(s, AsPairs(t));
  }

  lemma MergeOntoLists(s: Table, t: Table)
    requires t.Valid()
    ensures forall c :: c in t.lists ==> ExtensionsOf(Merge(s, AsPairs(t)).lists, c) == t.lists[c]
  {
    forall c | c in t.lists ensures ExtensionsOf(Merge(s, AsPairs(t)).lists, c) == t.lists[c] {
      MergeOntoAt(s, t, c);
    }
  }

  /** Two well-formed tables with the same names and the same lists are equal. */
  lemma SameTable(m: Table, t: Table)
    requires m.Valid() && t.Valid() && m.names == t.names
    requires forall c :: c in t.lists ==> ExtensionsOf(m.lists, c) == t.lists[c]
    ensures m == t
  {
    assert m.lists.Keys == t.lists.Keys;
  }

  /** A category of t holds, after the merge, the list t gives it. */
  lemma MergeOntoAt(s: Table, t: Table, c: string)
    requires t.Valid() && c in t.lists
    ensures ExtensionsOf(Merge(s, AsPairs(t)).lists, c) == t.lists[c]
  {
    var pairs := AsPairs(t);
    MergeLookup(s, pairs, c);
    LastGivenSpec(pairs, c);
    var j :| 0 <= j < |t.names| && t.names[j] == c;
    assert pairs[j].0 == c;
    var k :| 0 <= k < |pairs| && pairs[k] == (c, LastGiven(pairs, c).value);
  }

  /**
   * The preferences round trip: the table saved by `get_custom_categories` and merged
   * into a fresh default registry at the next start gives the same table back, for
   * every table the application can reach from the default one.
   */
  lemma ReloadRestores(t: Table)
    requires t.Valid() && DefaultTable().names <= t.names
    ensures Merge(DefaultTable(), AsPairs(t)) == t
  {
    MergeOnto(DefaultTable(), t);
  }

  /** Every table that custom categories make out of the default one is reloaded unchanged. */
  lemma SavedPreferencesReload(custom: seq<(string, seq<string>)>)
    ensures var t := Merge(DefaultTable(), custom);
      Merge(DefaultTable(), AsPairs(t)) == t
  {
    MergeKeepsOrder(DefaultTable(), custom);
    ReloadRestores(Merge(DefaultTable(), custom));
  }

  class FileCategories {
    var categories: Table
    var extensionMap: map<string, string>

    ghost predicate Valid()
      reads this
    {
      categories.Valid() && extensionMap == BuildIndex(categories.names, categories.lists)
    }

    /** `__init__`: the default table and its index. */
    constructor ()
      ensures Valid() && categories == DefaultTable()
    {
      categories := DefaultTable();
      extensionMap := map[];
      new;
      BuildExtensionMap();
    }

    /** `_build_extension_map`: reset the index and refill it category by category. */
    method BuildExtensionMap()
      modifies this`extensionMap
      ensures extensionMap == BuildIndex(categories.names, categories.lists)
    {
      var names := categories.names;
      extensionMap := map[];
      var i := 0;
      while i < |names|
        invariant 0 <= i <= |names|
        invariant extensionMap == BuildIndex(names[..i], categories.lists)
      {
        var category := names[i];
        var extensions := ExtensionsOf(categories.lists, category);
        ghost var before := extensionMap;
        var j := 0;
        while j < |extensions|
          invariant 0 <= j <= |extensions|
          invariant extensionMap == AddExtensions(before, extensions[..j], category)
        {
          assert extensions[..j + 1][..j] == extensions[..j];
          extensionMap := extensionMap[Lower(extensions[j]) := category];
          j := j + 1;
        }
        assert extensions[..j] == extensions;
        assert names[..i + 1][..i] == names[..i];
        i := i + 1;
      }
      assert names[..i] == names;
    }

    /** `get_category_for_file`: always a category of a well-formed registry. */
    function GetCategoryForFile(filename: string): (r: string)
      reads this
      requires Valid()
      ensures r in categories.lists
      ensures r == match LastClaimant(categories.names, categories.lists, Lower(Ext(filename)))
        case Some(c) => c case None => Fallback
    {
      ClassifyIsCategory(categories, filename);
      ClassifyByTable(categories, filename);
      Classify(extensionMap, filename)
    }

    /** `get_all_categories`: exactly the table's keys, in order, each once. */
    function GetAllCategories(): (r: seq<string>)
      reads this
      requires Valid()
      ensures forall c :: c in r <==> c in categories.lists
      ensures forall i, j :: 0 <= i < j < |r| ==> r[i] != r[j]
    {
      categories.names
    }

    /** `get_extensions_for_category`. */
    function GetExtensionsForCategory(category: string): (r: seq<string>)
      reads this
      ensures category in categories.lists ==> r == categories.lists[category]
      ensures category !in categories.lists ==> r == []
    {
      ExtensionsOf(categories.lists, category)
    }

    /** `get_custom_categories`: the whole table, as its items in order. */
    function GetCustomCategories(): (r: seq<(string, seq<string>)>)
      reads this
      requires Valid()
      ensures |r| == |categories.names|
      ensures forall i :: 0 <= i < |r| ==> r[i] == (categories.names[i], categories.lists[categories.names[i]])
      ensures Merge(categories, r) == categories
    {
      MergeAsPairsIsIdentity(categories);
      AsPairs(categories)
    }

    /** `update_custom_categories`: merge the given lists, then rebuild the index. */
    method UpdateCustomCategories(custom: seq<(string, seq<string>)>)
      requires Valid()
      modifies this
      ensures Valid()
      ensures categories == Merge(old(categories), custom)
    {
      var k := 0;
      while k < |custom|
        invariant 0 <= k <= |custom|
        invariant categories == Merge(old(categories), custom[..k])
      {
        assert custom[..k + 1][..k] == custom[..k];
        var (category, extensions) := custom[k];
        if category !in categories.lists {
          categories := categories.(names := categories.names + [category]);
        }
        categories := categories.(lists := categories.lists[category := extensions]);
        k := k + 1;
      }
      assert custom[..k] == custom;
      MergeKeepsOrder(old(categories), custom);
      BuildExtensionMap();
    }
  }
}
