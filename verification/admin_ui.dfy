/** The logic behind the administrator console's file browser and log
    table (`admin.js`): the directories offered in the sidebar, the folder
    tree built from a flat listing, the icon of a file, the colour of a
    log action, and the guard against loading the same folder twice in
    quick succession. Rendering is not modelled.

    A JavaScript value that may be missing, null or empty is a string here,
    and "" stands for every falsy case.
 */
module AdminConsole {
  import opened Wrappers
  import opened Text

  /** `basePath || currentFilePath || '/'`. */
  function Base(basePath: string, current: string): (b: string)
    ensures b != []
  {
    if basePath != [] then basePath else if current != [] then current else "/"
  }

  /** The base with exactly the trailing '/' it needs. */
  function NormBase(base: string): (nb: string)
    ensures EndsWith(nb, "/")
    ensures nb == base || nb == base + "/"
    ensures EndsWith(base, "/") ==> nb == base
  {
    if base == "/" then "/"
    else if EndsWith(base, "/") then base
    else
      assert (base + "/")[|base|..] == "/";
      base + "/"
  }

  // ---------------------------------------------------------------------
  // The sidebar's directories

  /** The directory one listed path puts in the sidebar: outside the base,
      its first segment at the top level; inside, the base's child that
      holds it, when it lies at least two levels down. */
  function Contribution(p: string, nb: string): (d: Option<string>)
    ensures d.Some? && !StartsWith(p, nb) ==> Segments(p) != [] && d.value == "/" + Segments(p)[0]
    ensures d.Some? && StartsWith(p, nb) ==> |Segments(p[|nb|..])| >= 2 && d.value == nb + Segments(p[|nb|..])[0]
    ensures d.None? <==> (if StartsWith(p, nb) then |Segments(p[|nb|..])| <= 1 else Segments(p) == [])
  {
    if !StartsWith(p, nb) then
      var parts := Segments(p);
      if |parts| >= 1 then Some("/" + parts[0]) else None
    else
      var parts := Segments(p[|nb|..]);
      if |parts| <= 1 then None else Some(nb + parts[0])
  }

  /** The items' contributions added to `seen` in first-seen order, each at
      most once (the `Set` the code fills). */
  function Collect(items: seq<string>, nb: string, seen: seq<string>): (r: seq<string>)
    ensures seen <= r
    ensures |r| <= |seen| + |items|
    decreases |items|
  {
    if items == [] then seen
    else
      var c := Contribution(items[0], nb);
      Collect(items[1..], nb, if c.Some? && c.value !in seen then seen + [c.value] else seen)
  }

  predicate Distinct(s: seq<string>)
  {
    forall i, j :: 0 <= i < j < |s| ==> s[i] != s[j]
  }

  /** Collecting keeps what was seen in front, adds no duplicate, and adds
      exactly the contributions of the items. */
  lemma {:induction false} CollectFacts(items: seq<string>, nb: string, seen: seq<string>)
    requires Distinct(seen)
    ensures Distinct(Collect(items, nb, seen))
    ensures seen <= Collect(items, nb, seen)
    ensures forall d :: d in Collect(items, nb, seen) <==>
                          d in seen || exists i :: 0 <= i < |items| && Contribution(items[i], nb) == Some(d)
    decreases |items|
  {
    if items != [] {
      var c := Contribution(items[0], nb);
      var next := if c.Some? && c.value !in seen then seen + [c.value] else seen;
      CollectFacts(items[1..], nb, next);
      forall d ensures (exists i :: 0 <= i < |items| && Contribution(items[i], nb) == Some(d)) <==>
                       c == Some(d) || exists i :: 0 <= i < |items[1..]| && Contribution(items[1..][i], nb) == Some(d)
      {
        if exists i :: 0 <= i < |items| && Contribution(items[i], nb) == Some(d) {
          var i :| 0 <= i < |items| && Contribution(items[i], nb) == Some(d);
          if i > 0 { assert items[1..][i - 1] == items[i]; }
        }
        if exists i :: 0 <= i < |items[1..]| && Contribution(items[1..][i], nb) == Some(d) {
          var i :| 0 <= i < |items[1..]| && Contribution(items[1..][i], nb) == Some(d);
          assert items[i + 1] == items[1..][i];
        }
      }
    }
  }

  /** The display name of a directory: its last segment, or the whole path
      when it has none. */
  function NameOf(d: string): (name: string)
    ensures Segments(d) != [] ==> name != [] && '/' !in name
    ensures Segments(d) == [] ==> name == d
  {
    var parts := Segments(d);
    if |parts| > 0 then parts[|parts| - 1] else d
  }

  datatype Dir = Dir(path: string, name: string)

  function Named(ds: seq<string>): (r: seq<Dir>)
    ensures |r| == |ds|
    ensures forall i :: 0 <= i < |ds| ==> r[i] == Dir(ds[i], NameOf(ds[i]))
  {
    if ds == [] then [] else [Dir(ds[0], NameOf(ds[0]))] + Named(ds[1..])
  }

  /** `getTopLevelDirsFromItems`, the items given by their `path`. */
  function TopLevelDirs(items: seq<string>, basePath: string, current: string): (r: seq<Dir>)
    ensures |r| <= |items|
    ensures forall k :: 0 <= k < |r| ==> r[k].name == NameOf(r[k].path)
  {
    Named(Collect(items, NormBase(Base(basePath, current)), []))
  }

  /** The sidebar lists each directory once. */
  lemma TopLevelDirsDistinct(items: seq<string>, basePath: string, current: string)
    ensures forall i, j :: 0 <= i < j < |TopLevelDirs(items, basePath, current)| ==>
              TopLevelDirs(items, basePath, current)[i].path != TopLevelDirs(items, basePath, current)[j].path
  {
    var nb := NormBase(Base(basePath, current));
    CollectFacts(items, nb, []);
  }

  /** Every directory the sidebar lists is contributed by some item. */
  lemma TopLevelDirsSound(items: seq<string>, basePath: string, current: string)
    ensures forall k :: 0 <= k < |TopLevelDirs(items, basePath, current)| ==>
              exists i :: 0 <= i < |items| && Contribution(items[i], NormBase(Base(basePath, current))) == Some(TopLevelDirs(items, basePath, current)[k].path)
  {
    var nb := NormBase(Base(basePath, current));
    var ds := Collect(items, nb, []);
    CollectFacts(items, nb, []);
    assert TopLevelDirs(items, basePath, current) == Named(ds);
    forall k | 0 <= k < |ds| ensures exists i :: 0 <= i < |items| && Contribution(items[i], nb) == Some(ds[k]) {
      assert ds[k] in ds;
    }
  }

  /** Every item's contribution is listed. */
  lemma TopLevelDirsComplete(items: seq<string>, basePath: string, current: string)
    ensures forall i :: 0 <= i < |items| && Contribution(items[i], NormBase(Base(basePath, current))).Some? ==>
              exists k :: 0 <= k < |TopLevelDirs(items, basePath, current)| &&
                TopLevelDirs(items, basePath, current)[k].path == Contribution(items[i], NormBase(Base(basePath, current))).value
  {
    var nb := NormBase(Base(basePath, current));
    var ds := Collect(items, nb, []);
    CollectFacts(items, nb, []);
    var r := TopLevelDirs(items, basePath, current);
    forall i | 0 <= i < |items| && Contribution(items[i], nb).Some?
      ensures exists k :: 0 <= k < |r| && r[k].path == Contribution(items[i], nb).value
    {
      var d := Contribution(items[i], nb).value;
      assert d in ds;
      var k :| 0 <= k < |ds| && ds[k] == d;
      assert r[k].path == d;
    }
  }

  /** A path directly inside the base adds nothing. */
  lemma DirectChildAddsNothing(nb: string, name: string)
    requires '/' !in name
    ensures Contribution(nb + name, nb) == None
  {
    StartsWithAppend(nb, name);
    assert (nb + name)[|nb|..] == name;
    if name != [] {
      assert name == Join([name], "/");
      TokensJoin([name], '/', IsSlash);
    }
  }

  /** A path at least two levels inside the base adds the base's child
      that holds it. */
  lemma DeeperAddsChild(nb: string, a: string, b: string)
    requires a != [] && '/' !in a && b != [] && '/' !in b
    ensures Contribution(nb + a + "/" + b, nb) == Some(nb + a)
  {
    var p := nb + a + "/" + b;
    assert p == nb + (a + "/" + b);
    StartsWithAppend(nb, a + "/" + b);
    assert p[|nb|..] == a + "/" + b;
    assert a + "/" + b == Join([a, b], "/");
    TokensJoin([a, b], '/', IsSlash);
  }

  /** A path outside the base adds its first segment, at the top level. */
  lemma OutsideAddsTop(nb: string, a: string, rest: string)
    requires a != [] && '/' !in a && (rest == [] || rest[0] == '/')
    requires !StartsWith("/" + a + rest, nb)
    ensures Contribution("/" + a + rest, nb) == Some("/" + a)
  {
    var p := "/" + a + rest;
    assert p == [('/')] + (a + rest);
    TokensSkip('/', a + rest, IsSlash);
    TokensRun(a, rest, IsSlash);
  }

  // ---------------------------------------------------------------------
  // The folder tree

  datatype Node = Node(name: string, path: string, children: seq<Node>)

  /** A child's path: the parent's, then '/', then its name ("/" + name
      under the root "/"). */
  function ChildPath(parent: string, part: string): (p: string)
    ensures StartsWith(p, if parent == "/" then "/" else parent + "/")
  {
    if parent == "/" then
      StartsWithAppend("/", part);
      "/" + part
    else
      StartsWithAppend(parent + "/", part);
      parent + "/" + part
  }

  /** The first child with the given name, or -1 (`children.get(part)`). */
  function ChildIndex(cs: seq<Node>, name: string): (k: int)
    ensures -1 <= k < |cs|
    ensures k >= 0 ==> cs[k].name == name && forall j :: 0 <= j < k ==> cs[j].name != name
    ensures k < 0 ==> forall j :: 0 <= j < |cs| ==> cs[j].name != name
    decreases |cs|
  {
    if |cs| == 0 then -1
    else if cs[0].name == name then 0
    else
      var k := ChildIndex(cs[1..], name);
      if k < 0 then -1 else k + 1
  }

  /** A folder's children carry distinct, non-empty, slash-free names and
      the paths their names give them, and so on down. */
  predicate WellFormed(n: Node)
    decreases n
  {
    && (forall i, j :: 0 <= i < j < |n.children| ==> n.children[i].name != n.children[j].name)
    && (forall i :: 0 <= i < |n.children| ==>
          n.children[i].name != [] && '/' !in n.children[i].name
          && n.children[i].path == ChildPath(n.path, n.children[i].name)
          && WellFormed(n.children[i]))
  }

  predicate ValidParts(parts: seq<string>)
  {
    forall i :: 0 <= i < |parts| ==> parts[i] != [] && '/' !in parts[i]
  }

  /** Walk `parts` down from `n`, creating each missing folder. */
  function Insert(n: Node, parts: seq<string>): (r: Node)
    ensures r.name == n.name && r.path == n.path
    ensures |r.children| >= |n.children|
    ensures forall i :: 0 <= i < |n.children| ==> r.children[i].name == n.children[i].name && r.children[i].path == n.children[i].path
    decreases |parts|
  {
    if parts == [] then n
    else
      var k := ChildIndex(n.children, parts[0]);
      if k < 0 then
        n.(children := n.children + [Insert(Node(parts[0], ChildPath(n.path, parts[0]), []), parts[1..])])
      else
        n.(children := n.children[k := Insert(n.children[k], parts[1..])])
  }

  /** The folder `parts` leads to exists below `n`. */
  predicate Reaches(n: Node, parts: seq<string>)
    decreases |parts|
  {
    parts == [] ||
    (ChildIndex(n.children, parts[0]) >= 0 && Reaches(n.children[ChildIndex(n.children, parts[0])], parts[1..]))
  }

  /** Children keeping their names keep their indices. */
  lemma SameNames(cs: seq<Node>, ds: seq<Node>, name: string)
    requires |cs| <= |ds|
    requires forall i :: 0 <= i < |cs| ==> ds[i].name == cs[i].name
    requires ChildIndex(cs, name) >= 0 || |cs| == |ds|
    ensures ChildIndex(ds, name) == ChildIndex(cs, name)
  {
    var k := ChildIndex(ds, name);
    var j := ChildIndex(cs, name);
    if j >= 0 {
      assert ds[j].name == name;
      if k < j { assert cs[k].name == name; }
    } else {
      assert forall i :: 0 <= i < |ds| ==> ds[i].name == cs[i].name;
    }
  }

  /** A new, well-formed child with a name of its own keeps a folder well
      formed. */
  lemma AppendChild(n: Node, c: Node)
    requires WellFormed(n) && WellFormed(c)
    requires c.name != [] && '/' !in c.name && c.path == ChildPath(n.path, c.name)
    requires ChildIndex(n.children, c.name) < 0
    ensures WellFormed(n.(children := n.children + [c]))
  {
    var cs := n.children + [c];
    assert forall i :: 0 <= i < |n.children| ==> cs[i] == n.children[i] && cs[i].name != c.name;
    assert cs[|n.children|] == c;
  }

  /** Replacing a child by a well-formed one with the same name and path
      keeps a folder well formed. */
  lemma ReplaceChild(n: Node, k: int, c: Node)
    requires 0 <= k < |n.children|
    ensures WellFormed(n) && WellFormed(c) && c.name == n.children[k].name && c.path == n.children[k].path ==>
            WellFormed(n.(children := n.children[k := c]))
  {
    if WellFormed(n) && WellFormed(c) && c.name == n.children[k].name && c.path == n.children[k].path {
      var cs := n.children[k := c];
      assert forall i :: 0 <= i < |cs| ==> cs[i].name == n.children[i].name && cs[i].path == n.children[i].path;
      assert forall i :: 0 <= i < |cs| && i != k ==> cs[i] == n.children[i];
    }
  }

  lemma {:induction false} InsertWellFormed(n: Node, parts: seq<string>)
    requires WellFormed(n) && ValidParts(parts)
    ensures WellFormed(Insert(n, parts))
    decreases |parts|
  {
    if parts != [] {
      var k := ChildIndex(n.children, parts[0]);
      if k < 0 {
        var leaf := Node(parts[0], ChildPath(n.path, parts[0]), []);
        InsertWellFormed(leaf, parts[1..]);
        AppendChild(n, Insert(leaf, parts[1..]));
      } else {
        InsertWellFormed(n.children[k], parts[1..]);
        ReplaceChild(n, k, Insert(n.children[k], parts[1..]));
      }
    }
  }

  /** After inserting `parts`, the folder they name exists. */
  lemma {:induction false} InsertReaches(n: Node, parts: seq<string>)
    ensures Reaches(Insert(n, parts), parts)
    decreases |parts|
  {
    if parts != [] {
      var k := ChildIndex(n.children, parts[0]);
      var r := Insert(n, parts);
      if k < 0 {
        var leaf := Node(parts[0], ChildPath(n.path, parts[0]), []);
        InsertReaches(leaf, parts[1..]);
        assert r.children == n.children + [Insert(leaf, parts[1..])];
        assert r.children[|n.children|].name == parts[0];
        assert forall j :: 0 <= j < |n.children| ==> r.children[j].name == n.children[j].name;
        assert ChildIndex(r.children, parts[0]) == |n.children|;
      } else {
        InsertReaches(n.children[k], parts[1..]);
        SameNames(n.children, r.children, parts[0]);
      }
    }
  }

  /** Inserting never loses a folder that was there. */
  lemma {:induction false} InsertKeeps(n: Node, parts: seq<string>, q: seq<string>)
    requires Reaches(n, q)
    ensures Reaches(Insert(n, parts), q)
    decreases |q|
  {
    if q != [] && parts != [] {
      var r := Insert(n, parts);
      var j := ChildIndex(n.children, q[0]);
      var k := ChildIndex(n.children, parts[0]);
      SameNames(n.children, r.children, q[0]);
      if k >= 0 && k == j {
        InsertKeeps(n.children[k], parts[1..], q[1..]);
      } else {
        assert r.children[j] == n.children[j];
      }
    }
  }

  /** A folder already there is left as it is. */
  lemma {:induction false} InsertPresent(n: Node, parts: seq<string>)
    requires Reaches(n, parts)
    ensures Insert(n, parts) == n
    decreases |parts|
  {
    if parts != [] {
      var k := ChildIndex(n.children, parts[0]);
      InsertPresent(n.children[k], parts[1..]);
      assert n.children[k := n.children[k]] == n.children;
    }
  }

  /** A folder with no children reaches only itself. */
  lemma LeafReachesItself(n: Node, q: seq<string>)
    requires n.children == [] && Reaches(n, q)
    ensures q == []
  {
  }

  /** Inserting adds no folder but those on the inserted path: whatever the
      result reaches was there before or is a prefix of `parts`. */
  lemma {:induction false} InsertSound(n: Node, parts: seq<string>, q: seq<string>)
    requires Reaches(Insert(n, parts), q)
    ensures Reaches(n, q) || q <= parts
    decreases |parts|
  {
    if parts != [] && q != [] {
      var r := Insert(n, parts);
      var k := ChildIndex(n.children, parts[0]);
      var j := ChildIndex(r.children, q[0]);
      if k < 0 {
        var leaf := Node(parts[0], ChildPath(n.path, parts[0]), []);
        assert r.children == n.children + [Insert(leaf, parts[1..])];
        if q[0] == parts[0] {
          assert r.children[|n.children|].name == parts[0];
          assert forall i :: 0 <= i < |n.children| ==> r.children[i].name == n.children[i].name;
          assert j == |n.children|;
          InsertSound(leaf, parts[1..], q[1..]);
          if Reaches(leaf, q[1..]) { LeafReachesItself(leaf, q[1..]); }
        } else {
          assert r.children[|n.children|].name != q[0];
          SameNames(n.children, r.children, q[0]);
          assert j < |n.children| && r.children[j] == n.children[j];
        }
      } else {
        SameNames(n.children, r.children, q[0]);
        if j == k {
          InsertSound(n.children[k], parts[1..], q[1..]);
        } else {
          assert r.children[j] == n.children[j];
        }
      }
    }
  }

  /** Inserting the same path twice is inserting it once. */
  lemma InsertIdempotent(n: Node, parts: seq<string>)
    ensures Insert(Insert(n, parts), parts) == Insert(n, parts)
  {
    InsertReaches(n, parts);
    InsertPresent(Insert(n, parts), parts);
  }

  /** The path of an item relative to the tree's base: cut the base when the
      item lies under it, else only the leading '/'. */
  function Relative(p: string, nb: string): (rel: string)
    ensures |rel| <= |p|
  {
    if StartsWith(p, nb) then p[|nb|..]
    else if StartsWith(p, "/") then p[1..]
    else p
  }

  /** One item's effect on the tree; an item with no relative segment is
      skipped. */
  function AddItem(root: Node, p: string, nb: string): (r: Node)
    ensures r.name == root.name && r.path == root.path
    ensures |r.children| >= |root.children|
    ensures Segments(Relative(p, nb)) == [] ==> r == root
  {
    var parts := Segments(Relative(p, nb));
    if parts == [] then root else Insert(root, parts)
  }

  /** The items' effects in order; the root keeps its name and path and
      loses no child. */
  function AddAll(root: Node, items: seq<string>, nb: string): (r: Node)
    ensures r.name == root.name && r.path == root.path
    ensures |r.children| >= |root.children|
    decreases |items|
  {
    if items == [] then root else AddAll(AddItem(root, items[0], nb), items[1..], nb)
  }

  /** The tree's root: the base without its trailing '/', or "/". */
  function RootNode(nb: string): (n: Node)
    requires EndsWith(nb, "/")
    ensures WellFormed(n) && n.children == []
    ensures n.path == (if nb == "/" then "/" else nb[..|nb| - 1])
  {
    var p := if nb == "/" then "/" else nb[..|nb| - 1];
    Node(p, p, [])
  }

  /** `buildDirTreeFromItems`, the items given by their `path`. */
  function DirTree(items: seq<string>, basePath: string, current: string): (root: Node)
    ensures root.path == RootNode(NormBase(Base(basePath, current))).path
    ensures root.name == root.path
    ensures items == [] ==> root.children == []
  {
    var nb := NormBase(Base(basePath, current));
    AddAll(RootNode(nb), items, nb)
  }

  lemma {:induction false} AddAllFacts(root: Node, items: seq<string>, nb: string, done: seq<string>)
    requires WellFormed(root)
    requires forall i :: 0 <= i < |done| ==> Reaches(root, Segments(Relative(done[i], nb)))
    ensures WellFormed(AddAll(root, items, nb))
    ensures forall i :: 0 <= i < |done| ==> Reaches(AddAll(root, items, nb), Segments(Relative(done[i], nb)))
    ensures forall i :: 0 <= i < |items| ==> Reaches(AddAll(root, items, nb), Segments(Relative(items[i], nb)))
    decreases |items|
  {
    if items != [] {
      var parts := Segments(Relative(items[0], nb));
      var next := AddItem(root, items[0], nb);
      if parts != [] {
        InsertWellFormed(root, parts);
        InsertReaches(root, parts);
        forall i | 0 <= i < |done| ensures Reaches(next, Segments(Relative(done[i], nb))) {
          InsertKeeps(root, parts, Segments(Relative(done[i], nb)));
        }
      }
      var done' := done + [items[0]];
      assert forall i :: 0 <= i < |done'| ==> done'[i] == if i < |done| then done[i] else items[0];
      AddAllFacts(next, items[1..], nb, done');
      forall i | 0 <= i < |items| ensures Reaches(AddAll(root, items, nb), Segments(Relative(items[i], nb))) {
        if i > 0 { assert items[i] == items[1..][i - 1]; }
        else { assert done'[|done|] == items[0]; }
      }
    }
  }

  /** `q` leads towards the folder of some item: it is a prefix of that
      item's relative segments. */
  predicate TowardsSome(q: seq<string>, items: seq<string>, nb: string)
  {
    exists i :: 0 <= i < |items| && q <= Segments(Relative(items[i], nb))
  }

  /** Every folder the items add lies on the way to one of them. */
  lemma {:induction false} AddAllSound(root: Node, items: seq<string>, nb: string, q: seq<string>)
    requires Reaches(AddAll(root, items, nb), q)
    ensures Reaches(root, q) || TowardsSome(q, items, nb)
    decreases |items|
  {
    if items != [] {
      var next := AddItem(root, items[0], nb);
      AddAllSound(next, items[1..], nb, q);
      if TowardsSome(q, items[1..], nb) {
        var i :| 0 <= i < |items[1..]| && q <= Segments(Relative(items[1..][i], nb));
        assert items[1..][i] == items[i + 1];
      } else {
        var parts := Segments(Relative(items[0], nb));
        if parts != [] {
          InsertSound(root, parts, q);
        }
        if !Reaches(root, q) {
          assert q <= Segments(Relative(items[0], nb));
        }
      }
    }
  }

  /** The tree is well formed (unique child names, paths built from the
      names), holds a folder for every item's relative path, and holds no
      other folder: each one below the root is a prefix of some item's
      relative path. */
  lemma DirTreeFacts(items: seq<string>, basePath: string, current: string)
    ensures WellFormed(DirTree(items, basePath, current))
    ensures forall i :: 0 <= i < |items| ==>
              Reaches(DirTree(items, basePath, current), Segments(Relative(items[i], NormBase(Base(basePath, current)))))
    ensures forall q :: Reaches(DirTree(items, basePath, current), q) ==>
              q == [] || TowardsSome(q, items, NormBase(Base(basePath, current)))
  {
    var nb := NormBase(Base(basePath, current));
    AddAllFacts(RootNode(nb), items, nb, []);
    forall q | Reaches(DirTree(items, basePath, current), q)
      ensures q == [] || TowardsSome(q, items, nb)
    {
      AddAllSound(RootNode(nb), items, nb, q);
      if Reaches(RootNode(nb), q) { LeafReachesItself(RootNode(nb), q); }
    }
  }

  // ---------------------------------------------------------------------
  // File icons

  datatype Kind = Folder | Image | Video | Audio | Archive | Pdf | Document | Sheet | Slides | Program | Code | Unknown

  datatype Icon = Icon(glyph: string, color: string)

  function IconOf(k: Kind): (i: Icon)
  {
    match k
    case Folder => Icon("📁", "#FFC107")
    case Image => Icon("🖼️", "#FB8C00")
    case Video => Icon("🎬", "#E53935")
    case Audio => Icon("🎵", "#8E24AA")
    case Archive => Icon("📦", "#795548")
    case Pdf => Icon("📄", "#D32F2F")
    case Document => Icon("📝", "#1976D2")
    case Sheet => Icon("📊", "#43A047")
    case Slides => Icon("📉", "#F4511E")
    case Program => Icon("💿", "#607D8B")
    case Code => Icon("💻", "#0288D1")
    case Unknown => Icon("📄", "#9E9E9E")
  }

  /** `filename.split('.').pop().toLowerCase()`: the text after the last
      '.', or the whole name. */
  function Extension(filename: string): (ext: string)
    ensures '.' !in filename ==> ext == ToLower(filename)
  {
    ToLower(AfterLast(filename, '.'))
  }

  /** The extensions `getFileIcon` lists under each kind: a folder and an
      unknown file have none. */
  function ExtensionsOf(k: Kind): seq<string>
  {
    match k
    case Image => ["jpg", "jpeg", "png", "gif", "bmp", "svg"]
    case Video => ["mp4", "mkv", "webm", "avi", "mov"]
    case Audio => ["mp3", "wav", "flac", "ogg"]
    case Archive => ["zip", "rar", "7z", "tar", "gz"]
    case Pdf => ["pdf"]
    case Document => ["doc", "docx", "txt", "md"]
    case Sheet => ["xls", "xlsx", "csv"]
    case Slides => ["ppt", "pptx"]
    case Program => ["exe", "msi", "apk", "app"]
    case Code => ["js", "html", "css", "json", "xml", "java", "py", "c", "cpp"]
    case Folder => []
    case Unknown => []
  }

  /** The `switch` on the extension: an extension listed under a kind gets
      that kind, one listed nowhere is unknown. */
  function KindOfExtension(ext: string): (k: Kind)
    ensures k != Folder
    ensures k != Unknown ==> ext in ExtensionsOf(k)
    ensures k == Unknown <==> forall j: Kind :: ext !in ExtensionsOf(j)
  {
    if ext in {"jpg", "jpeg", "png", "gif", "bmp", "svg"} then Image
    else if ext in {"mp4", "mkv", "webm", "avi", "mov"} then Video
    else if ext in {"mp3", "wav", "flac", "ogg"} then Audio
    else if ext in {"zip", "rar", "7z", "tar", "gz"} then Archive
    else if ext == "pdf" then Pdf
    else if ext in {"doc", "docx", "txt", "md"} then Document
    else if ext in {"xls", "xlsx", "csv"} then Sheet
    else if ext in {"ppt", "pptx"} then Slides
    else if ext in {"exe", "msi", "apk", "app"} then Program
    else if ext in {"js", "html", "css", "json", "xml", "java", "py", "c", "cpp"} then Code
    else Unknown
  }

  /** `getFileIcon`. */
  function FileIcon(filename: string, isDir: bool): (i: Icon)
    ensures isDir ==> i == IconOf(Folder)
  {
    IconOf(if isDir then Folder else KindOfExtension(Extension(filename)))
  }

  /** The icon is decided by what follows the last '.', whatever comes
      before it. */
  lemma FileIconOfExtension(stem: string, ext: string)
    requires '.' !in ext
    ensures FileIcon(stem + "." + ext, false) == IconOf(KindOfExtension(ToLower(ext)))
  {
    AfterLastOf(stem, '.', ext);
  }

  /** The letter case of a name does not change its icon. */
  lemma FileIconIgnoresCase(filename: string, isDir: bool)
    ensures FileIcon(ToLower(filename), isDir) == FileIcon(filename, isDir)
  {
    AfterLastToLower(filename);
    ToLowerIdempotent(AfterLast(filename, '.'));
  }

  // ---------------------------------------------------------------------
  // Log action badges

  datatype Badge = Gray | Red | Green | Blue | Orange

  predicate Mentions(act: string, words: seq<string>)
  {
    exists i :: 0 <= i < |words| && Contains(act, words[i])
  }

  const DELETE_WORDS: seq<string> := ["删", "del", "remove"]
  const ADD_WORDS: seq<string> := ["传", "up", "add", "crea"]
  const EDIT_WORDS: seq<string> := ["改", "edit", "upd"]
  const LOGIN_WORDS: seq<string> := ["登", "log"]

  /** `getActionBadgeClass`: the first group of words the lower-cased action
      mentions decides the colour. */
  function ActionBadge(action: string): (b: Badge)
    ensures action == [] ==> b == Gray
    ensures b == Red <==> action != [] && Mentions(ToLower(action), DELETE_WORDS)
    ensures b == Green <==> action != [] && !Mentions(ToLower(action), DELETE_WORDS) && Mentions(ToLower(action), ADD_WORDS)
    ensures b == Blue <==> action != [] && !Mentions(ToLower(action), DELETE_WORDS) && !Mentions(ToLower(action), ADD_WORDS)
                           && Mentions(ToLower(action), EDIT_WORDS)
    ensures b == Orange <==> action != [] && !Mentions(ToLower(action), DELETE_WORDS) && !Mentions(ToLower(action), ADD_WORDS)
                             && !Mentions(ToLower(action), EDIT_WORDS) && Mentions(ToLower(action), LOGIN_WORDS)
    ensures b == Gray <==> action == [] || (!Mentions(ToLower(action), DELETE_WORDS) && !Mentions(ToLower(action), ADD_WORDS)
                                            && !Mentions(ToLower(action), EDIT_WORDS) && !Mentions(ToLower(action), LOGIN_WORDS))
  {
    if action == [] then Gray
    else
      var act := ToLower(action);
      assert Mentions(act, DELETE_WORDS) ==> Contains(act, "删") || Contains(act, "del") || Contains(act, "remove");
      assert Mentions(act, ADD_WORDS) ==> Contains(act, "传") || Contains(act, "up") || Contains(act, "add") || Contains(act, "crea");
      assert Mentions(act, EDIT_WORDS) ==> Contains(act, "改") || Contains(act, "edit") || Contains(act, "upd");
      assert Mentions(act, LOGIN_WORDS) ==> Contains(act, "登") || Contains(act, "log");
      if Contains(act, "删") || Contains(act, "del") || Contains(act, "remove") then
        assert Contains(act, DELETE_WORDS[0]) || Contains(act, DELETE_WORDS[1]) || Contains(act, DELETE_WORDS[2]);
        Red
      else if Contains(act, "传") || Contains(act, "up") || Contains(act, "add") || Contains(act, "crea") then
        assert Contains(act, ADD_WORDS[0]) || Contains(act, ADD_WORDS[1]) || Contains(act, ADD_WORDS[2]) || Contains(act, ADD_WORDS[3]);
        Green
      else if Contains(act, "改") || Contains(act, "edit") || Contains(act, "upd") then
        assert Contains(act, EDIT_WORDS[0]) || Contains(act, EDIT_WORDS[1]) || Contains(act, EDIT_WORDS[2]);
        Blue
      else if Contains(act, "登") || Contains(act, "log") then
        assert Contains(act, LOGIN_WORDS[0]) || Contains(act, LOGIN_WORDS[1]);
        Orange
      else Gray
  }

  /** "update" holds "up", so it is coloured as an addition, never as an
      edit. */
  lemma UpdateIsGreen()
    ensures ActionBadge("update") == Green
  {
    ToLowerFixed("update");
    UpdateNotDeletion();
    assert Contains("update", ADD_WORDS[1]) by { assert StartsWith("update", "up"); }
  }

  lemma UpdateNotDeletion()
    ensures !Mentions("update", DELETE_WORDS)
  {
    var u := "update";
    assert '删' !in u && 'l' !in u && 'r' !in u;
    forall i | 0 <= i < |DELETE_WORDS| ensures !Contains(u, DELETE_WORDS[i]) {
      var w := DELETE_WORDS[i];
      var k := if i == 1 then 2 else 0;
      assert w[k] !in u;
      if Contains(u, w) { ContainsChar(u, w, k); }
    }
  }

  // ---------------------------------------------------------------------
  // Loading a folder

  /** What `loadInfoFiles` remembers between calls. */
  datatype Loader = Loader(lastPath: Option<string>, lastTs: int, current: string)

  const DEFAULT_FOLDER := "/users"
  const DEDUPE_MS := 500

  function InitialLoader(): (l: Loader)
    ensures l.lastPath.None? && l.current == DEFAULT_FOLDER
  {
    Loader(None, 0, DEFAULT_FOLDER)
  }

  /** The folder a call asks for: the argument unless JavaScript's `trim`
      empties it, else the current folder, else "/users". */
  function Target(l: Loader, path: string): (t: string)
    ensures t != []
    ensures !IsJsBlank(path) ==> t == path
    ensures IsJsBlank(path) && l.current != [] ==> t == l.current
    ensures IsJsBlank(path) && l.current == [] ==> t == DEFAULT_FOLDER
  {
    if !IsJsBlank(path) then path else if l.current != [] then l.current else DEFAULT_FOLDER
  }

  datatype Load = Ignored | Fetch(path: string)

  /** `loadInfoFiles` at time `now`: a call for the folder loaded last,
      less than 500 ms after it, is ignored; otherwise the folder is
      fetched and remembered. */
  function LoadFiles(l: Loader, path: string, now: int): (r: (Load, Loader))
    ensures r.0 == Ignored <==> l.lastPath == Some(Target(l, path)) && now - l.lastTs < DEDUPE_MS
    ensures r.0 == Ignored ==> r.1 == l
    ensures r.0.Fetch? ==> r.0.path == Target(l, path) && r.1 == Loader(Some(Target(l, path)), now, Target(l, path))
  {
    var target := Target(l, path);
    if l.lastPath == Some(target) && now - l.lastTs < DEDUPE_MS then (Ignored, l)
    else
      var current := if !IsJsBlank(path) then path else l.current;
      var current' := if current == [] then DEFAULT_FOLDER else current;
      (Fetch(current'), Loader(Some(target), now, current'))
  }

  /** The same call repeated within the window is ignored; repeated at 500
      ms or later, it fetches again. */
  lemma RepeatedLoad(l: Loader, path: string, now: int, later: int)
    requires LoadFiles(l, path, now).0.Fetch?
    ensures later - now < DEDUPE_MS ==> LoadFiles(LoadFiles(l, path, now).1, path, later).0 == Ignored
    ensures later - now >= DEDUPE_MS ==> LoadFiles(LoadFiles(l, path, now).1, path, later).0 == Fetch(Target(l, path))
  {
  }

  /** The first call always fetches. */
  lemma FirstLoadFetches(path: string, now: int)
    ensures LoadFiles(InitialLoader(), path, now).0.Fetch?
  {
  }
}
