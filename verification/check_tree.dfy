/**
 * The allowlist editor: `populate_tree` (main.py:230-252) builds a checkbox tree over the game's
 * save folder, and `get_checked_paths` (main.py:218-228) reads the checked identifiers back
 * into the allowlist that `save_config` stores.
 */
module CheckTree {
  import opened Wrappers
  import opened Paths
  import opened Listing
  import Text
  import CopyWorker

  /**
   * A `QTreeWidgetItem`: its text, the identifier stored under `Qt.UserRole` (none for the
   * invisible root and the placeholder), its check state and its children.
   */
  datatype Item = Item(text: string, data: Option<string>, checked: bool, children: seq<Item>)

  function ItemSize(it: Item): nat {
    1 + ItemsSize(it.children)
  }

  function ItemsSize(items: seq<Item>): nat {
    if items == [] then 0 else ItemSize(items[0]) + ItemsSize(items[1..])
  }

  /**
   * The identifier `add_items` gives an entry below the folder with identifier `rel`: the path
   * from the save folder, with a trailing '/' for a folder.
   */
  function EntryId(e: Dirent, rel: string): (id: string)
    ensures id == rel + e.name + (if e.DirEnt? then "/" else "")
  {
    if e.DirEnt? then
      if rel != "" then rel + e.name + "/" else e.name + "/"
    else
      if rel != "" then rel + e.name else e.name
  }

  /** The item for one entry, checked exactly when its identifier is in the allowlist. */
  function Populate(e: Dirent, rel: string, cfg: set<string>): (it: Item)
    ensures it.data == Some(EntryId(e, rel)) && (it.checked <==> EntryId(e, rel) in cfg)
    ensures |it.children| == (if e.DirEnt? then |e.entries| else 0)
    decreases Size(e), 0
  {
    var id := EntryId(e, rel);
    match e
    case FileEnt(n, _) => Item(n, Some(id), id in cfg, [])
    case DirEnt(n, es) =>
      SortSize(es);
      Item(n + "/", Some(id), id in cfg, PopulateAll(Sort(es), id, cfg))
  }

  function PopulateAll(es: seq<Dirent>, rel: string, cfg: set<string>): (items: seq<Item>)
    ensures |items| == |es|
    ensures forall i | 0 <= i < |es| ::
      items[i].data == Some(EntryId(es[i], rel)) && (items[i].checked <==> EntryId(es[i], rel) in cfg)
    decreases SizeAll(es), 1
  {
    if es == [] then [] else [Populate(es[0], rel, cfg)] + PopulateAll(es[1..], rel, cfg)
  }

  /** `add_items(parent, dir_path, rel)`: the items of a folder, in sorted order. */
  function AddItems(es: seq<Dirent>, rel: string, cfg: set<string>): (items: seq<Item>)
    ensures |items| == |es|
    ensures forall i | 0 <= i < |es| :: items[i].data == Some(EntryId(Sort(es)[i], rel))
  {
    PopulateAll(Sort(es), rel, cfg)
  }

  const Placeholder := Item("Game folder not accessible", None, false, [])

  /**
   * `populate_tree`: a fresh tree under the invisible root, listing the save folder when it
   * exists (`game` holds its listing) and a single placeholder item otherwise.
   */
  function PopulateTree(game: Option<seq<Dirent>>, config: seq<string>): (root: Item)
    ensures root.data.None? && !root.checked
    ensures game.None? ==> root.children == [Placeholder]
  {
    var cfg := set p | p in config;
    match game
    case Some(es) => Item("", None, false, AddItems(es, "", cfg))
    case None => Item("", None, false, [Placeholder])
  }

  /** What `recurse` appends for the item itself: its identifier, when checked and non-empty. */
  function Own(it: Item): (r: seq<string>)
    ensures |r| <= 1
    ensures r != [] ==> it.checked && it.data == Some(r[0]) && r[0] != ""
  {
    if it.checked && it.data.Some? && it.data.value != "" then [it.data.value] else []
  }

  /** `recurse(item)`: the item's own identifier, then those of its children in order. */
  function Recurse(it: Item): (r: seq<string>)
    ensures |r| <= ItemSize(it)
    ensures forall x | x in r :: x != ""
    decreases ItemSize(it), 0
  {
    Own(it) + RecurseAll(it.children)
  }

  function RecurseAll(items: seq<Item>): (r: seq<string>)
    ensures |r| <= ItemsSize(items)
    ensures forall x | x in r :: x != ""
    decreases ItemsSize(items), 1
  {
    if items == [] then [] else Recurse(items[0]) + RecurseAll(items[1..])
  }

  /** `get_checked_paths`: the walk from the invisible root. */
  function GetCheckedPaths(root: Item): (paths: seq<string>)
    ensures |paths| <= ItemSize(root)
    ensures forall x | x in paths :: x != ""
  {
    Recurse(root)
  }

  /** The items below the given ones, each before its children: pre-order. */
  function Nodes(items: seq<Item>): seq<Item>
    decreases ItemsSize(items)
  {
    if items == [] then []
    else
      assert ItemSize(items[0]) == 1 + ItemsSize(items[0].children);
      [items[0]] + Nodes(items[0].children) + Nodes(items[1..])
  }

  /** The identifiers the items would contribute each on its own, in order. */
  function OwnAll(ns: seq<Item>): seq<string>
    decreases |ns|
  {
    if ns == [] then [] else Own(ns[0]) + OwnAll(ns[1..])
  }

  lemma {:induction false} OwnAllAppend(a: seq<Item>, b: seq<Item>)
    ensures OwnAll(a + b) == OwnAll(a) + OwnAll(b)
    decreases |a|
  {
    if a == [] {
      assert a + b == b;
    } else {
      assert (a + b)[1..] == a[1..] + b;
      OwnAllAppend(a[1..], b);
    }
  }

  /** An identifier is in `OwnAll(ns)` exactly when some item of `ns` contributes it. */
  lemma {:induction false} OwnAllMembers(ns: seq<Item>, id: string)
    ensures id in OwnAll(ns) <==> exists n | n in ns :: Own(n) == [id]
    decreases |ns|
  {
    if ns != [] {
      OwnAllMembers(ns[1..], id);
      assert forall n | n in ns :: n == ns[0] || n in ns[1..];
    }
  }

  /**
   * The walk yields the checked, non-empty identifiers in pre-order: each item counts on its own,
   * whatever the check state of its parent.
   */
  lemma {:induction false} RecurseIsPreorder(items: seq<Item>)
    ensures RecurseAll(items) == OwnAll(Nodes(items))
    decreases ItemsSize(items)
  {
    if items != [] {
      var it := items[0];
      assert ItemSize(it) == 1 + ItemsSize(it.children);
      RecurseIsPreorder(it.children);
      RecurseIsPreorder(items[1..]);
      OwnAllAppend([it] + Nodes(it.children), Nodes(items[1..]));
      OwnAllAppend([it], Nodes(it.children));
      assert OwnAll([it]) == Own(it) + OwnAll([]);
    }
  }

  /**
   * An identifier is collected exactly when some item of the tree below the root, or the root
   * itself, is checked and holds it; the empty identifier is never collected.
   */
  lemma CollectedIffChecked(root: Item, id: string)
    ensures id in GetCheckedPaths(root) <==>
      exists n | n in [root] + Nodes(root.children) :: n.checked && n.data == Some(id) && id != ""
  {
    RecurseIsPreorder(root.children);
    assert Nodes([root]) == [root] + Nodes(root.children) + Nodes([]);
    RecurseIsPreorder([root]);
    assert RecurseAll([root]) == Recurse(root) + RecurseAll([]);
    OwnAllMembers([root] + Nodes(root.children), id);
  }

  /** The identifiers of an entry and of everything below it, in the order the tree lists them. */
  function Ids(e: Dirent, rel: string): seq<string>
    decreases Size(e), 0
  {
    var id := EntryId(e, rel);
    match e
    case FileEnt(_, _) => [id]
    case DirEnt(_, es) =>
      SortSize(es);
      [id] + IdsAll(Sort(es), id)
  }

  function IdsAll(es: seq<Dirent>, rel: string): seq<string>
    decreases SizeAll(es), 1
  {
    if es == [] then [] else Ids(es[0], rel) + IdsAll(es[1..], rel)
  }

  /** Every identifier of the save folder's tree, in pre-order. */
  function TreeIds(game: seq<Dirent>): seq<string> {
    IdsAll(Sort(game), "")
  }

  /** The identifiers the items hold, in order, with "" for an item without one. */
  function Data(ns: seq<Item>): seq<string>
    decreases |ns|
  {
    if ns == [] then [] else [ns[0].data.GetOr("")] + Data(ns[1..])
  }

  lemma {:induction false} DataAppend(a: seq<Item>, b: seq<Item>)
    ensures Data(a + b) == Data(a) + Data(b)
    decreases |a|
  {
    if a == [] {
      assert a + b == b;
    } else {
      assert (a + b)[1..] == a[1..] + b;
      DataAppend(a[1..], b);
    }
  }

  lemma {:induction false} NodesAppend(a: seq<Item>, b: seq<Item>)
    ensures Nodes(a + b) == Nodes(a) + Nodes(b)
    decreases |a|
  {
    if a == [] {
      assert a + b == b;
    } else {
      assert (a + b)[0] == a[0] && (a + b)[1..] == a[1..] + b;
      NodesAppend(a[1..], b);
    }
  }

  /** Every item holds an identifier and is checked exactly when that identifier is in `cfg`. */
  predicate Labelled(ns: seq<Item>, cfg: set<string>) {
    forall i | 0 <= i < |ns| :: ns[i].data.Some? && (ns[i].checked <==> ns[i].data.value in cfg)
  }

  /** The identifiers of `ids` that are in `cfg`, leaving out the empty one, in order. */
  function Selected(ids: seq<string>, cfg: set<string>): (r: seq<string>)
    ensures forall x :: x in r <==> x in ids && x in cfg && x != ""
    decreases |ids|
  {
    if ids == [] then []
    else
      assert forall x :: x in ids <==> x == ids[0] || x in ids[1..];
      (if ids[0] in cfg && ids[0] != "" then [ids[0]] else []) + Selected(ids[1..], cfg)
  }

  /** Over labelled items, what each contributes on its own is its identifier when it is in `cfg`. */
  lemma {:induction false} OwnLabelled(ns: seq<Item>, cfg: set<string>)
    requires Labelled(ns, cfg)
    ensures OwnAll(ns) == Selected(Data(ns), cfg)
    decreases |ns|
  {
    if ns != [] {
      assert Labelled(ns[1..], cfg) by {
        forall i | 0 <= i < |ns| - 1
          ensures ns[1..][i] == ns[i + 1]
        {
        }
      }
      OwnLabelled(ns[1..], cfg);
      assert Data(ns)[1..] == Data(ns[1..]);
    }
  }

  /**
   * The item for an entry and everything below it hold exactly the entry's identifiers, in
   * pre-order, each checked exactly when its identifier is in the allowlist.
   */
  lemma {:induction false} PopulateLabels(e: Dirent, rel: string, cfg: set<string>)
    ensures Data(Nodes([Populate(e, rel, cfg)])) == Ids(e, rel)
    ensures Labelled(Nodes([Populate(e, rel, cfg)]), cfg)
    decreases Size(e), 0
  {
    var it := Populate(e, rel, cfg);
    var id := EntryId(e, rel);
    var kids: seq<Item> := Nodes(it.children);
    assert [it][1..] == [] && Nodes([]) == [];
    assert Nodes([it]) == [it] + kids;
    DataAppend([it], kids);
    assert Data([it]) == [id] + Data([]);
    match e
    case FileEnt(_, _) =>
    case DirEnt(_, es) =>
      SortSize(es);
      PopulateAllLabels(Sort(es), id, cfg);
      var ns: seq<Item> := [it] + kids;
      forall i | 0 <= i < |ns|
        ensures ns[i].data.Some? && (ns[i].checked <==> ns[i].data.value in cfg)
      {
        if i > 0 {
          assert ns[i] == kids[i - 1];
        }
      }
  }

  lemma {:induction false} PopulateAllLabels(es: seq<Dirent>, rel: string, cfg: set<string>)
    ensures Data(Nodes(PopulateAll(es, rel, cfg))) == IdsAll(es, rel)
    ensures Labelled(Nodes(PopulateAll(es, rel, cfg)), cfg)
    decreases SizeAll(es), 1
  {
    if es != [] {
      var first := [Populate(es[0], rel, cfg)];
      var rest := PopulateAll(es[1..], rel, cfg);
      PopulateLabels(es[0], rel, cfg);
      PopulateAllLabels(es[1..], rel, cfg);
      NodesAppend(first, rest);
      DataAppend(Nodes(first), Nodes(rest));
      var a: seq<Item> := Nodes(first);
      var b: seq<Item> := Nodes(rest);
      var ab: seq<Item> := a + b;
      forall i | 0 <= i < |ab|
        ensures ab[i].data.Some? && (ab[i].checked <==> ab[i].data.value in cfg)
      {
        if i >= |a| {
          assert ab[i] == b[i - |a|];
        }
      }
    }
  }

  /**
   * Collecting right after populating yields exactly the tree's identifiers that are in the
   * allowlist, in pre-order: entries the save folder lacks are dropped.
   */
  lemma CollectAfterPopulate(game: seq<Dirent>, config: seq<string>)
    ensures GetCheckedPaths(PopulateTree(Some(game), config)) == Selected(TreeIds(game), set p | p in config)
  {
    var cfg := set p | p in config;
    var root := PopulateTree(Some(game), config);
    PopulateAllLabels(Sort(game), "", cfg);
    RecurseIsPreorder(root.children);
    OwnLabelled(Nodes(root.children), cfg);
    assert GetCheckedPaths(root) == Own(root) + RecurseAll(root.children);
  }

  /** Without a save folder the tree holds only the placeholder, and nothing is collected. */
  lemma PlaceholderCollectsNothing(config: seq<string>)
    ensures GetCheckedPaths(PopulateTree(None, config)) == []
  {
    var root := PopulateTree(None, config);
    assert RecurseAll(root.children) == Recurse(Placeholder) + RecurseAll([]);
  }

  /** `x` is `rel` followed by the name `n`, then nothing or a '/' and more. */
  predicate Under(x: string, rel: string, n: string) {
    && |rel| + |n| <= |x|
    && x[..|rel| + |n|] == rel + n
    && (|x| == |rel| + |n| || x[|rel| + |n|] == '/')
  }

  /** An identifier below `rel` and a shorter name than `b`, but starting `rel + b`, has a '/' in `b`. */
  lemma SlashInLonger(x: string, rel: string, a: string, b: string)
    requires Under(x, rel, a) && |a| < |b|
    requires |rel| + |b| <= |x| && x[..|rel| + |b|] == rel + b
    ensures b[|a|] == '/'
  {
    assert x[|rel| + |a|] == x[..|rel| + |b|][|rel| + |a|];
  }

  /** No identifier is below two different valid names. */
  lemma UnderOneName(x: string, rel: string, a: string, b: string)
    requires ValidName(a) && ValidName(b)
    requires Under(x, rel, a) && Under(x, rel, b)
    ensures a == b
  {
    if |a| < |b| {
      SlashInLonger(x, rel, a, b);
      assert false;
    } else if |b| < |a| {
      SlashInLonger(x, rel, b, a);
      assert false;
    } else {
      assert a == (rel + a)[|rel|..] == x[|rel|..|rel| + |a|] == (rel + b)[|rel|..] == b;
    }
  }

  /** What starts with `rel + n + "/"` lies below the name `n`. */
  lemma UnderFolder(x: string, rel: string, n: string)
    requires |rel + n + "/"| <= |x| && x[..|rel + n + "/"|] == rel + n + "/"
    ensures Under(x, rel, n)
  {
    var k := |rel| + |n|;
    assert x[..k] == x[..|rel + n + "/"|][..k] == (rel + n + "/")[..k];
    assert (rel + n + "/")[..k] == rel + n;
    assert x[k] == x[..|rel + n + "/"|][k] == (rel + n + "/")[k];
  }

  /** Every identifier of a valid entry lies below its name. */
  lemma {:induction false} IdsUnder(e: Dirent, rel: string)
    requires ValidEntry(e)
    ensures forall x | x in Ids(e, rel) :: Under(x, rel, e.name)
    decreases Size(e), 0
  {
    var id := EntryId(e, rel);
    match e
    case FileEnt(n, _) =>
      assert id == rel + n && id[..|rel| + |n|] == rel + n;
    case DirEnt(n, es) =>
      SortSize(es);
      assert id[..|id|] == id;
      UnderFolder(id, rel, n);
      assert forall c | c in Sort(es) :: c in multiset(es);
      IdsAllLonger(Sort(es), id);
      forall x | x in IdsAll(Sort(es), id)
        ensures Under(x, rel, n)
      {
        UnderFolder(x, rel, n);
      }
  }

  /** Every identifier below a valid listing extends the folder's own identifier. */
  lemma {:induction false} IdsAllLonger(es: seq<Dirent>, rel: string)
    requires forall e | e in es :: ValidEntry(e)
    ensures forall x | x in IdsAll(es, rel) :: |rel| < |x| && x[..|rel|] == rel
    decreases SizeAll(es), 1
  {
    if es != [] {
      IdsUnder(es[0], rel);
      IdsAllLonger(es[1..], rel);
      forall x | x in Ids(es[0], rel)
        ensures |rel| < |x| && x[..|rel|] == rel
      {
        assert x[..|rel| + |es[0].name|][..|rel|] == rel;
      }
    }
  }

  /** No identifier below a valid listing lies below a name none of its entries has. */
  lemma {:induction false} NotUnderOthers(es: seq<Dirent>, rel: string, n: string)
    requires ValidName(n)
    requires forall e | e in es :: ValidEntry(e) && e.name != n
    ensures forall x | x in IdsAll(es, rel) :: !Under(x, rel, n)
    decreases |es|
  {
    if es != [] {
      IdsUnder(es[0], rel);
      NotUnderOthers(es[1..], rel, n);
      forall x | x in Ids(es[0], rel)
        ensures !Under(x, rel, n)
      {
        if Under(x, rel, n) {
          UnderOneName(x, rel, es[0].name, n);
        }
      }
    }
  }

  predicate Distinct(s: seq<string>) {
    forall i, j | 0 <= i < j < |s| :: s[i] != s[j]
  }

  lemma DistinctAppend(a: seq<string>, b: seq<string>)
    requires Distinct(a) && Distinct(b)
    requires forall x | x in a :: x !in b
    ensures Distinct(a + b)
  {
    forall i, j | 0 <= i < j < |a + b|
      ensures (a + b)[i] != (a + b)[j]
    {
      if i < |a| && j >= |a| {
        assert (a + b)[i] in a && (a + b)[j] == b[j - |a|];
      } else if i >= |a| {
        assert (a + b)[i] == b[i - |a|] && (a + b)[j] == b[j - |a|];
      }
    }
  }

  /** In a valid listing no two entries share an identifier. */
  lemma {:induction false} IdsDistinct(e: Dirent, rel: string)
    requires ValidEntry(e)
    ensures Distinct(Ids(e, rel))
    decreases Size(e), 0
  {
    match e
    case FileEnt(_, _) =>
    case DirEnt(_, es) =>
      var id := EntryId(e, rel);
      SortSize(es);
      SortKeepsValid(es);
      IdsAllDistinct(Sort(es), id);
      IdsAllLonger(Sort(es), id);
      DistinctAppend([id], IdsAll(Sort(es), id));
  }

  lemma {:induction false} IdsAllDistinct(es: seq<Dirent>, rel: string)
    requires ValidListing(es)
    ensures Distinct(IdsAll(es, rel))
    decreases SizeAll(es), 1
  {
    if es != [] {
      ValidListingTail(es);
      IdsDistinct(es[0], rel);
      IdsAllDistinct(es[1..], rel);
      IdsUnder(es[0], rel);
      NotUnderOthers(es[1..], rel, es[0].name);
      DistinctAppend(Ids(es[0], rel), IdsAll(es[1..], rel));
    }
  }

  lemma {:induction false} SelectedDistinct(ids: seq<string>, cfg: set<string>)
    requires Distinct(ids)
    ensures Distinct(Selected(ids, cfg))
    decreases |ids|
  {
    if ids != [] {
      assert Distinct(ids[1..]) by {
        forall i, j | 0 <= i < j < |ids| - 1
          ensures ids[1..][i] != ids[1..][j]
        {
          assert ids[1..][i] == ids[i + 1] && ids[1..][j] == ids[j + 1];
        }
      }
      SelectedDistinct(ids[1..], cfg);
      assert ids[0] !in ids[1..];
      DistinctAppend(if ids[0] in cfg && ids[0] != "" then [ids[0]] else [], Selected(ids[1..], cfg));
    }
  }

  /** For a valid save folder the collected allowlist has no duplicates. */
  lemma CollectedDistinct(game: seq<Dirent>, config: seq<string>)
    requires ValidListing(game)
    ensures Distinct(GetCheckedPaths(PopulateTree(Some(game), config)))
  {
    CollectAfterPopulate(game, config);
    SortKeepsValid(game);
    IdsAllDistinct(Sort(game), "");
    SelectedDistinct(TreeIds(game), set p | p in config);
  }

  /** The items of a listing depend on the allowlist only through which of their identifiers it holds. */
  lemma {:induction false} PopulateAgrees(e: Dirent, rel: string, c1: set<string>, c2: set<string>)
    requires forall x | x in Ids(e, rel) :: x in c1 <==> x in c2
    ensures Populate(e, rel, c1) == Populate(e, rel, c2)
    decreases Size(e), 0
  {
    match e
    case FileEnt(_, _) =>
    case DirEnt(_, es) =>
      SortSize(es);
      PopulateAllAgrees(Sort(es), EntryId(e, rel), c1, c2);
  }

  lemma {:induction false} PopulateAllAgrees(es: seq<Dirent>, rel: string, c1: set<string>, c2: set<string>)
    requires forall x | x in IdsAll(es, rel) :: x in c1 <==> x in c2
    ensures PopulateAll(es, rel, c1) == PopulateAll(es, rel, c2)
    decreases SizeAll(es), 1
  {
    if es != [] {
      PopulateAgrees(es[0], rel, c1, c2);
      PopulateAllAgrees(es[1..], rel, c1, c2);
    }
  }

  /**
   * Saving the checked items and populating again from the saved allowlist rebuilds the same
   * tree with the same checks.
   */
  lemma SaveThenReload(game: seq<Dirent>, config: seq<string>)
    requires forall e | e in game :: ValidEntry(e)
    ensures var saved := GetCheckedPaths(PopulateTree(Some(game), config));
      PopulateTree(Some(game), saved) == PopulateTree(Some(game), config)
  {
    var cfg := set p | p in config;
    var saved := GetCheckedPaths(PopulateTree(Some(game), config));
    CollectAfterPopulate(game, config);
    assert forall e | e in Sort(game) :: e in multiset(game);
    IdsAllLonger(Sort(game), "");
    PopulateAllAgrees(Sort(game), "", (set p | p in saved), cfg);
  }

  /** The identifier of the folder at `p`: "" for the save folder itself, "a/b/" below it. */
  function Folder(p: Path): string {
    if p == [] then "" else Join(p) + "/"
  }

  /**
   * An allowlist entry the copy worker resolves inside the folder it copies from: it does not
   * start with '/', and it names a path of listing names, none of them "..".
   */
  predicate StaysBelow(x: string) {
    x != [] && x[0] != '/' && ValidPath(CopyWorker.Resolve(x))
  }

  /** The string of a path one name longer is the folder's identifier followed by the name. */
  lemma FolderJoin(p: Path, n: Name)
    ensures Join(p + [n]) == Folder(p) + n
  {
    if p == [] {
      assert p + [n] == [n];
    } else {
      JoinSnoc(p, n);
    }
  }

  /** A path of listing names, written out with or without a trailing '/', resolves back to itself. */
  lemma ResolveJoin(q: Path, tail: string)
    requires q != [] && ValidPath(q)
    requires tail == "" || tail == "/"
    ensures CopyWorker.Resolve(Join(q) + tail) == q
    ensures (Join(q) + tail)[0] != '/'
  {
    var last := q[|q| - 1];
    assert q == q[..|q| - 1] + [last];
    FolderJoin(q[..|q| - 1], last);
    assert Join(q)[|Join(q)| - 1] == last[|last| - 1];
    Text.RStripSlashAppend(Join(q), tail);
    assert Components(q);
    JoinRoundTrip(q);
    JoinStarts(q);
  }

  /**
   * The identifier `add_items` gives an entry of the folder at `p` resolves to the entry's own
   * path, and a folder's identifier is the one its children are listed under.
   */
  lemma IdResolves(e: Dirent, p: Path)
    requires ValidPath(p) && ValidName(e.name)
    ensures var x := EntryId(e, Folder(p));
      && StaysBelow(x)
      && CopyWorker.Resolve(x) == p + [e.name]
      && (e.DirEnt? ==> x == Folder(p + [e.name]))
  {
    var q := p + [e.name];
    var tail := if e.DirEnt? then "/" else "";
    FolderJoin(p, e.name);
    assert ValidPath(q);
    ResolveJoin(q, tail);
    assert EntryId(e, Folder(p)) == Join(q) + tail;
  }

  /** Every identifier of an entry's subtree stays below the save folder, at or below the entry. */
  lemma {:induction false} IdsResolve(e: Dirent, p: Path)
    requires ValidPath(p) && ValidEntry(e)
    ensures forall x | x in Ids(e, Folder(p)) :: StaysBelow(x) && p + [e.name] <= CopyWorker.Resolve(x)
    decreases Size(e), 0
  {
    IdResolves(e, p);
    match e
    case FileEnt(_, _) =>
    case DirEnt(n, es) =>
      SortSize(es);
      var q := p + [n];
      assert forall c | c in Sort(es) :: c in multiset(es);
      IdsAllResolve(Sort(es), q);
      assert Ids(e, Folder(p)) == [EntryId(e, Folder(p))] + IdsAll(Sort(es), Folder(q));
  }

  lemma {:induction false} IdsAllResolve(es: seq<Dirent>, p: Path)
    requires ValidPath(p) && forall e | e in es :: ValidEntry(e)
    ensures forall x | x in IdsAll(es, Folder(p)) :: StaysBelow(x) && p <= CopyWorker.Resolve(x)
    decreases SizeAll(es), 1
  {
    if es != [] {
      IdsResolve(es[0], p);
      IdsAllResolve(es[1..], p);
      forall x | x in Ids(es[0], Folder(p))
        ensures p <= CopyWorker.Resolve(x)
      {
        var r := CopyWorker.Resolve(x);
        assert (p + [es[0].name])[..|p|] == p;
        assert r[..|p|] == (r[..|p| + 1])[..|p|];
      }
    }
  }

  /**
   * What `get_checked_paths` collects from a freshly populated tree stays below the save folder:
   * no identifier starts with '/' or holds a ".." component.
   */
  lemma CollectedStayBelow(game: seq<Dirent>, config: seq<string>)
    requires forall e | e in game :: ValidEntry(e)
    ensures forall x | x in GetCheckedPaths(PopulateTree(Some(game), config)) :: StaysBelow(x)
  {
    CollectAfterPopulate(game, config);
    assert forall e | e in Sort(game) :: e in multiset(game);
    IdsAllResolve(Sort(game), []);
  }
}
