/** Path resolution (`nitro_traverse_path`): a path is walked one `/`-separated
    component at a time, each component choosing the first child, in
    sub-table order, whose name equals it. */
module Paths {
  import opened Results
  import opened Image
  import opened Entries

  const SLASH: byte := 0x2F
  const NUL: byte := 0

  /** Stored name bytes as the C string they become: the bytes before the
      first NUL. `strlen`, `strcmp` and the filler all stop there. */
  function CName(s: seq<byte>): (r: seq<byte>)
    ensures |r| <= |s| && r == s[..|r|]
    ensures NUL !in r
    ensures |r| < |s| ==> s[|r|] == NUL
  {
    if s == [] || s[0] == NUL then [] else [s[0]] + CName(s[1..])
  }

  /** Both comparisons the C code makes, `strlen(name) == n && memcmp(..) == 0`
      for an intermediate component and `strcmp` for the last one, hold
      exactly when the component is the name's C string. */
  predicate Named(e: Entry, comp: seq<byte>) {
    CName(e.name) == comp
  }

  /** Index of the first child called `comp`. */
  function FirstNamed(kids: seq<Entry>, comp: seq<byte>): (r: Option<nat>)
    ensures r.Some? ==> r.value < |kids| && Named(kids[r.value], comp)
    ensures r.Some? ==> forall j :: 0 <= j < r.value ==> !Named(kids[j], comp)
    ensures r.None? ==> forall j :: 0 <= j < |kids| ==> !Named(kids[j], comp)
    decreases |kids|
  {
    if kids == [] then None
    else if Named(kids[0], comp) then Some(0)
    else match FirstNamed(kids[1..], comp)
      case None => None
      case Some(i) => Some(i + 1)
  }

  /** The child of `dir` that one component selects, if any. */
  function Lookup(dir: Entry, comp: seq<byte>): Option<Entry> {
    match FirstNamed(dir.children, comp)
    case None => None
    case Some(i) => Some(dir.children[i])
  }

  /** Position of the first `/` (`strchr(path, '/')`). */
  function SlashAt(s: seq<byte>): (r: Option<nat>)
    ensures r.Some? ==> r.value < |s| && s[r.value] == SLASH && SLASH !in s[..r.value]
    ensures r.None? <==> SLASH !in s
  {
    if s == [] then None
    else if s[0] == SLASH then Some(0)
    else match SlashAt(s[1..])
      case None => None
      case Some(i) =>
        assert s[..i + 1] == [s[0]] + s[1..][..i];
        Some(i + 1)
  }

  /** `e` lies strictly below `dir`. */
  predicate Below(e: Entry, dir: Entry)
    decreases dir
  {
    exists i :: 0 <= i < |dir.children| && (e == dir.children[i] || Below(e, dir.children[i]))
  }

  /** `e` is one of the children of `dir`. */
  predicate ChildOf(e: Entry, dir: Entry) {
    exists i :: 0 <= i < |dir.children| && dir.children[i] == e
  }

  /** An entry a walk found, with the directory whose children list held it:
      the `parent` pointer of the C entry. The root is its own parent. */
  datatype Found = Found(entry: Entry, parent: Entry)

  /** The rest of a path, from directory `dir`. An intermediate component that
      names no child leaves the walk where it is rather than failing; the last
      component is looked up among the children of the directory reached. */
  function Locate(dir: Entry, rest: seq<byte>): (r: Option<Found>)
    ensures r.Some? ==> ChildOf(r.value.entry, r.value.parent) && Below(r.value.entry, dir)
    ensures r.Some? ==> r.value.parent == dir || Below(r.value.parent, dir)
    decreases |rest|
  {
    match SlashAt(rest)
    case None =>
      (match FirstNamed(dir.children, rest)
       case None => None
       case Some(i) => Some(Found(dir.children[i], dir)))
    case Some(k) =>
      var next := match Lookup(dir, rest[..k]) case Some(c) => c case None => dir;
      var r := Locate(next, rest[k + 1..]);
      assert r.Some? && next != dir ==> next == dir.children[FirstNamed(dir.children, rest[..k]).value];
      r
  }

  /** The entry the rest of a path names, from directory `dir`. */
  function Walk(dir: Entry, rest: seq<byte>): (r: Option<Entry>)
    ensures r.Some? ==> Below(r.value, dir)
  {
    match Locate(dir, rest)
    case None => None
    case Some(f) => Some(f.entry)
  }

  /** `nitro_traverse_path` with the parent of what it finds: `"/"` is the
      root, its own parent; otherwise the leading character is skipped and
      the rest walked from the root. */
  function Resolve(root: Entry, path: seq<byte>): (r: Option<Found>)
    requires |path| > 0
    ensures path == [SLASH] ==> r == Some(Found(root, root))
    ensures path != [SLASH] && r.Some? ==>
              ChildOf(r.value.entry, r.value.parent) && (r.value.parent == root || Below(r.value.parent, root))
  {
    if path == [SLASH] then Some(Found(root, root)) else Locate(root, path[1..])
  }

  /** The entry a path names. */
  function Traverse(root: Entry, path: seq<byte>): (r: Option<Entry>)
    requires |path| > 0
    ensures path == [SLASH] ==> r == Some(root)
    ensures r.Some? ==> r.value == root || Below(r.value, root)
  {
    match Resolve(root, path)
    case None => None
    case Some(f) => Some(f.entry)
  }

  /** In a tree whose entries record their directory's id, the parent a walk
      reports is the one the found entry records. */
  lemma {:induction false} LocateLinked(dir: Entry, rest: seq<byte>)
    requires ParentLinked(dir)
    ensures Locate(dir, rest).Some? ==> Locate(dir, rest).value.entry.parentId == Locate(dir, rest).value.parent.id
    decreases |rest|
  {
    var r := Locate(dir, rest);
    match SlashAt(rest)
    case None =>
      if r.Some? {
        var i := FirstNamed(dir.children, rest).value;
        assert r.value == Found(dir.children[i], dir);
        LinkedChild(dir, i);
      }
    case Some(k) =>
      match FirstNamed(dir.children, rest[..k])
      case None =>
        assert r == Locate(dir, rest[k + 1..]);
        LocateLinked(dir, rest[k + 1..]);
      case Some(i) =>
        LinkedChild(dir, i);
        assert r == Locate(dir.children[i], rest[k + 1..]);
        LocateLinked(dir.children[i], rest[k + 1..]);
  }

  lemma LinkedChild(dir: Entry, i: nat)
    requires ParentLinked(dir) && i < |dir.children|
    ensures dir.children[i].parentId == dir.id && ParentLinked(dir.children[i])
  {
  }

  /** The same from the root, which is its own parent. */
  lemma ResolveLinked(root: Entry, path: seq<byte>)
    requires |path| > 0 && ParentLinked(root) && root.parentId == root.id
    ensures Resolve(root, path).Some? ==> Resolve(root, path).value.entry.parentId == Resolve(root, path).value.parent.id
  {
    if path != [SLASH] {
      LocateLinked(root, path[1..]);
    }
  }

  /* ---------- the loop as the C code writes it ---------- */

  /** The child scan: the first child called `comp`, found by a loop. */
  method ScanChildren(kids: seq<Entry>, comp: seq<byte>) returns (r: Option<nat>)
    ensures r == FirstNamed(kids, comp)
  {
    var i := 0;
    while i < |kids|
      invariant 0 <= i <= |kids|
      invariant forall j :: 0 <= j < i ==> !Named(kids[j], comp)
    {
      if CName(kids[i].name) == comp {
        return Some(i);
      }
      i := i + 1;
    }
    return None;
  }

  /** `nitro_traverse_path` as written: a cursor that jumps from slash to
      slash, an inner scan per intermediate component, and a final scan. */
  method TraversePath(root: Entry, path: seq<byte>) returns (r: Option<Entry>)
    requires |path| > 0
    ensures r == Traverse(root, path)
  {
    if path == [SLASH] {
      return Some(root);
    }
    var dir := root;
    var rest := path[1..];
    var p := SlashAt(rest);
    while p.Some?
      invariant p == SlashAt(rest)
      invariant Walk(dir, rest) == Traverse(root, path)
      decreases |rest|
    {
      var k := p.value;
      var hit := ScanChildren(dir.children, rest[..k]);
      if hit.Some? {
        dir := dir.children[hit.value];
      }
      rest := rest[k + 1..];
      p := SlashAt(rest);
    }
    var hit := ScanChildren(dir.children, rest);
    if hit.Some? {
      r := Some(dir.children[hit.value]);
    } else {
      r := None;
    }
  }

  /* ---------- what resolution does with a component ---------- */

  /** An intermediate component that names no child is skipped. */
  lemma MissKeepsDirectory(dir: Entry, comp: seq<byte>, rest: seq<byte>)
    requires SLASH !in comp
    requires forall i :: 0 <= i < |dir.children| ==> !Named(dir.children[i], comp)
    ensures Walk(dir, comp + [SLASH] + rest) == Walk(dir, rest)
  {
    StepPast(comp, rest);
  }

  /** An intermediate component that names a child moves the walk into it. */
  lemma HitDescends(dir: Entry, comp: seq<byte>, rest: seq<byte>, i: nat)
    requires SLASH !in comp && i < |dir.children| && Named(dir.children[i], comp)
    requires forall j :: 0 <= j < i ==> !Named(dir.children[j], comp)
    ensures Walk(dir, comp + [SLASH] + rest) == Walk(dir.children[i], rest)
  {
    StepPast(comp, rest);
  }

  /** The last component names a child or nothing at all. */
  lemma LastComponent(dir: Entry, comp: seq<byte>)
    requires SLASH !in comp
    ensures Walk(dir, comp) == Lookup(dir, comp)
    ensures Walk(dir, comp).Some? <==> exists i :: 0 <= i < |dir.children| && Named(dir.children[i], comp)
    ensures Walk(dir, comp).Some? ==> Named(Walk(dir, comp).value, comp)
  {
    if Walk(dir, comp).None? {
      assert FirstNamed(dir.children, comp).None?;
    }
  }

  lemma StepPast(comp: seq<byte>, rest: seq<byte>)
    requires SLASH !in comp
    ensures SlashAt(comp + [SLASH] + rest) == Some(|comp|)
    ensures (comp + [SLASH] + rest)[..|comp|] == comp
    ensures (comp + [SLASH] + rest)[|comp| + 1..] == rest
  {
    var s := comp + [SLASH] + rest;
    assert s[|comp|] == SLASH;
    assert s[..|comp|] == comp;
  }

  /* ---------- names along a path: the round trip ---------- */

  /** A name that can be written as a path component: non-empty, with no `/`
      and no NUL. */
  predicate Clean(name: seq<byte>) {
    name != [] && SLASH !in name && NUL !in name
  }

  /** Every directory of the tree has children with clean, pairwise distinct names. */
  predicate WellNamed(e: Entry)
    decreases e
  {
    && (forall i, j :: 0 <= i < j < |e.children| ==> CName(e.children[i].name) != CName(e.children[j].name))
    && (forall i :: 0 <= i < |e.children| ==> Clean(e.children[i].name) && WellNamed(e.children[i]))
  }

  /** A path given as child positions, one per level. */
  predicate Leads(dir: Entry, idxs: seq<nat>)
    decreases |idxs|
  {
    idxs == [] || (idxs[0] < |dir.children| && Leads(dir.children[idxs[0]], idxs[1..]))
  }

  function EntryAt(dir: Entry, idxs: seq<nat>): Entry
    requires Leads(dir, idxs)
    decreases |idxs|
  {
    if idxs == [] then dir else EntryAt(dir.children[idxs[0]], idxs[1..])
  }

  function NamesAlong(dir: Entry, idxs: seq<nat>): (names: seq<seq<byte>>)
    requires Leads(dir, idxs)
    ensures |names| == |idxs|
    decreases |idxs|
  {
    if idxs == [] then [] else [dir.children[idxs[0]].name] + NamesAlong(dir.children[idxs[0]], idxs[1..])
  }

  /** Components joined with `/`. */
  function JoinPath(comps: seq<seq<byte>>): seq<byte>
    requires |comps| > 0
  {
    if |comps| == 1 then comps[0] else comps[0] + [SLASH] + JoinPath(comps[1..])
  }

  /** In a tree whose sibling names are distinct, the path of names from the
      root to an entry resolves to that entry. */
  lemma RoundTrip(root: Entry, idxs: seq<nat>)
    requires WellNamed(root) && Leads(root, idxs) && idxs != []
    ensures Traverse(root, [SLASH] + JoinPath(NamesAlong(root, idxs))) == Some(EntryAt(root, idxs))
  {
    var names := NamesAlong(root, idxs);
    FirstIsOnly(root, idxs[0]);
    JoinHead(names);
    var path := [SLASH] + JoinPath(names);
    assert path[1] != SLASH;
    assert path[1..] == JoinPath(names);
    WalkAlong(root, idxs);
  }

  lemma JoinHead(comps: seq<seq<byte>>)
    requires |comps| > 0 && comps[0] != []
    ensures |JoinPath(comps)| > 0 && JoinPath(comps)[0] == comps[0][0]
  {
  }

  lemma {:induction false} WalkAlong(dir: Entry, idxs: seq<nat>)
    requires WellNamed(dir) && Leads(dir, idxs) && idxs != []
    ensures Walk(dir, JoinPath(NamesAlong(dir, idxs))) == Some(EntryAt(dir, idxs))
    decreases |idxs|
  {
    var i := idxs[0];
    var child := dir.children[i];
    FirstIsOnly(dir, i);
    if |idxs| == 1 {
      assert NamesAlong(dir, idxs) == [child.name];
      assert Lookup(dir, child.name) == Some(child);
    } else {
      var tail := NamesAlong(child, idxs[1..]);
      assert NamesAlong(dir, idxs) == [child.name] + tail;
      assert NamesAlong(dir, idxs)[1..] == tail;
      assert JoinPath(NamesAlong(dir, idxs)) == child.name + [SLASH] + JoinPath(tail);
      HitDescends(dir, child.name, JoinPath(tail), i);
      WalkAlong(child, idxs[1..]);
    }
  }

  /** With distinct clean sibling names, child `i` is the first one its name selects. */
  lemma FirstIsOnly(dir: Entry, i: nat)
    requires WellNamed(dir) && i < |dir.children|
    ensures Clean(dir.children[i].name) && SLASH !in dir.children[i].name
    ensures Named(dir.children[i], dir.children[i].name)
    ensures forall j :: 0 <= j < i ==> !Named(dir.children[j], dir.children[i].name)
    ensures FirstNamed(dir.children, dir.children[i].name) == Some(i)
  {
    var name := dir.children[i].name;
    CNameOfClean(name);
  }

  lemma CNameOfClean(s: seq<byte>)
    requires NUL !in s
    ensures CName(s) == s
  {
  }
}
